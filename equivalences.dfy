/** Pairs of queries that `CompareQueries` treats as the same: a charset
    introducer, the two spellings of a LIMIT with an offset, a zero offset,
    the order and parenthesisation of two WHERE conditions, and the order
    of JOINs. */
module Equivalences {

  import opened GoStrings
  import opened BasicNormalize
  import opened LimitClause
  import opened JoinOrder
  import opened WhereClause
  import opened Conjunctions
  import opened Comparison
  import opened Sorting

  /** Text the passes before the LIMIT pass leave alone: in the form
      `basicNormalize` produces, with no backtick and no `_UTF8MB4`. */
  predicate Settled(q: string) {
    Normal(q) && '`' !in q && !Contains(q, "_UTF8MB4")
  }

  lemma PreparedOfSettled(q: string)
    requires Settled(q)
    ensures Prepared(q) == q
  {
    BasicNormalizedOfNormal(q);
    NoCharNoContains(q, '`');
    ReplaceAllAbsent(q, "`", "");
    StripCharsetNoPrefix(q);
  }

  /** Text without a LIMIT, an ORDER BY, a join keyword or a `;`: only the
      WHERE pass can change it. */
  predicate Quiet(q: string) {
    && ';' !in q && !Contains(q, " LIMIT ") && !Contains(q, " ORDER BY ")
    && !Contains(q, " JOIN ") && !Contains(q, " LEFT ")
  }

  /** Queries that agree once the LIMIT pass is done compare equal: the
      later passes are functions of the text. */
  lemma AgreeAfterLimit(q1: string, q2: string)
    requires NormalizeLimitClause(Prepared(q1)) == NormalizeLimitClause(Prepared(q2))
    ensures CompareQueries(q1, q2)
  {
  }

  /** Queries that agree once the WHERE pass is done compare equal. */
  lemma AgreeAfterWhere(q1: string, q2: string)
    requires NormalizeMainWhereClause(NormalizeJoinOrder(NormalizeLimitClause(Prepared(q1)))) ==
      NormalizeMainWhereClause(NormalizeJoinOrder(NormalizeLimitClause(Prepared(q2))))
    ensures CompareQueries(q1, q2)
  {
  }

  // ---------------------------------------------------------------------
  // charset introducers

  lemma PreparedCharsetExample(q: string)
    requires q == "x=_UTF8MB4ABC"
    ensures Prepared(q) == "x=ABC"
  {
    assert BasicNormalized(q) == q by {
      NormalWithoutSpace(q);
      BasicNormalizedOfNormal(q);
    }
    assert ReplaceAll(q, "`", "") == q by {
      NoCharNoContains(q, '`');
      ReplaceAllAbsent(q, "`", "");
    }
    StripCharsetExample(q);
  }

  lemma PreparedPlainExample(q: string)
    requires q == "x=ABC"
    ensures Prepared(q) == q
  {
    NormalWithoutSpace(q);
    IndexTooLong(q, "_UTF8MB4");
    PreparedOfSettled(q);
  }

  /** A query and the same query with its charset introducers stripped
      compare equal, when both are already in basic normal form without
      backticks and the stripped one has no introducer left. */
  lemma CharsetStripIgnored(q1: string, q2: string)
    requires Normal(q1) && '`' !in q1
    requires Settled(q2) && StripCharset(q1) == q2
    ensures CompareQueries(q1, q2)
  {
    BasicNormalizedOfNormal(q1);
    NoCharNoContains(q1, '`');
    ReplaceAllAbsent(q1, "`", "");
    PreparedOfSettled(q2);
    AgreeAfterLimit(q1, q2);
  }

  /** `x=_UTF8MB4ABC` and `x=ABC` compare equal. */
  lemma CharsetIgnored()
    ensures CompareQueries("x=_UTF8MB4ABC", "x=ABC")
  {
    PreparedCharsetExample("x=_UTF8MB4ABC");
    PreparedPlainExample("x=ABC");
  }

  // ---------------------------------------------------------------------
  // LIMIT spellings

  /** `count OFFSET offset` made of two tokens: no `;`, no `,`, no edge
      space, and one ` OFFSET ` between the two tokens. */
  lemma OffsetArg(offset: string, count: string)
    requires Token(offset) && Token(count)
    ensures var arg := count + " OFFSET " + offset;
      && !Contains(arg, ";") && !Contains(arg, ",") && TrimSpace(arg) == arg
      && Contains(arg, " OFFSET ") && Split(arg, " OFFSET ") == [count, offset]
  {
    var arg := count + " OFFSET " + offset;
    TokenTrimmed(offset);
    TokenTrimmed(count);
    forall k | 0 <= k < |arg| ensures arg[k] != ';' && arg[k] != ',' {
      if k < |count| {
        assert arg[k] == count[k];
      } else if k < |count| + 8 {
        assert arg[k] == " OFFSET "[k - |count|];
      } else {
        assert arg[k] == offset[k - |count| - 8];
      }
    }
    NoCharNoContains(arg, ';');
    NoCharNoContains(arg, ',');
    assert Trimmed(arg);
    TrimSpaceOfTrimmed(arg);
    assert arg[|count|..][..8] == " OFFSET ";
    ContainsAt(arg, " OFFSET ", |count|);
    NoHeadNoContains(offset, " OFFSET ");
    SplitOnce(count, " OFFSET ", offset);
  }

  /** The offset form of a LIMIT is kept by the LIMIT pass. */
  lemma OffsetFormKept(prefix: string, offset: string, count: string)
    requires !Contains(prefix + " LIMIT", " LIMIT ")
    requires Token(offset) && Token(count) && offset != "0"
    ensures NormalizeLimitClause(prefix + " LIMIT " + (count + " OFFSET " + offset)) ==
      prefix + " LIMIT " + (count + " OFFSET " + offset)
  {
    var arg := count + " OFFSET " + offset;
    OffsetArg(offset, count);
    TokenTrimmed(offset);
    assert RewriteLimit(arg) == arg;
    LimitAtEnd(prefix, arg);
  }

  /** `LIMIT offset,count` and `LIMIT count OFFSET offset` compare equal, on
      queries the earlier passes leave alone. */
  lemma CommaLimitMatchesOffset(prefix: string, offset: string, count: string, q1: string, q2: string)
    requires !Contains(prefix + " LIMIT", " LIMIT ")
    requires Token(offset) && Token(count)
    requires q1 == prefix + " LIMIT " + offset + "," + count
    requires q2 == prefix + " LIMIT " + count + " OFFSET " + offset
    requires Settled(q1) && Settled(q2)
    ensures CompareQueries(q1, q2)
  {
    assert Prepared(q1) == q1 by {
      PreparedOfSettled(q1);
    }
    assert Prepared(q2) == q2 by {
      PreparedOfSettled(q2);
    }
    CommaLimitPass(prefix, offset, count);
    AgreeAfterLimit(q1, q2);
  }

  /** The LIMIT pass writes both spellings the same way. */
  lemma CommaLimitPass(prefix: string, offset: string, count: string)
    requires !Contains(prefix + " LIMIT", " LIMIT ")
    requires Token(offset) && Token(count)
    ensures NormalizeLimitClause(prefix + " LIMIT " + offset + "," + count) ==
      NormalizeLimitClause(prefix + " LIMIT " + count + " OFFSET " + offset)
  {
    var p := prefix + " LIMIT ";
    ConcatAssoc(p, count + " OFFSET ", offset);
    ConcatAssoc(p, count, " OFFSET ");
    CommaFormInQuery(prefix, offset, count);
    if offset == "0" {
      ZeroOffsetPass(prefix, count);
    } else {
      OffsetFormKept(prefix, offset, count);
    }
  }

  /** The LIMIT pass drops an offset of zero. */
  lemma ZeroOffsetPass(prefix: string, count: string)
    requires !Contains(prefix + " LIMIT", " LIMIT ") && Token(count)
    ensures NormalizeLimitClause(prefix + " LIMIT " + (count + " OFFSET " + "0")) == prefix + " LIMIT " + count
  {
    var arg := count + " OFFSET " + "0";
    TokenTrimmed(count);
    forall k | 0 <= k < |arg| ensures arg[k] != ';' {
      if k < |count| {
        assert arg[k] == count[k];
      } else {
        assert arg[k] == " OFFSET 0"[k - |count|];
      }
    }
    NoCharNoContains(arg, ';');
    LimitAtEnd(prefix, arg);
    assert Trimmed(arg);
    TrimSpaceOfTrimmed(arg);
    OffsetZeroDropped(count);
  }

  /** The count alone is kept by the LIMIT pass. */
  lemma CountKept(prefix: string, count: string)
    requires !Contains(prefix + " LIMIT", " LIMIT ") && Token(count)
    ensures NormalizeLimitClause(prefix + " LIMIT " + count) == prefix + " LIMIT " + count
  {
    TokenTrimmed(count);
    NoCharNoContains(count, ',');
    NoCharNoContains(count, ';');
    NoHeadNoContains(count, " OFFSET ");
    LimitAtEnd(prefix, count);
  }

  /** `LIMIT count OFFSET 0` and `LIMIT count` compare equal, on queries the
      earlier passes leave alone. */
  lemma ZeroOffsetIgnored(prefix: string, count: string, q1: string, q2: string)
    requires !Contains(prefix + " LIMIT", " LIMIT ") && Token(count)
    requires q1 == prefix + " LIMIT " + count + " OFFSET " + "0"
    requires q2 == prefix + " LIMIT " + count
    requires Settled(q1) && Settled(q2)
    ensures CompareQueries(q1, q2)
  {
    assert Prepared(q1) == q1 by {
      PreparedOfSettled(q1);
    }
    assert Prepared(q2) == q2 by {
      PreparedOfSettled(q2);
    }
    assert NormalizeLimitClause(q1) == NormalizeLimitClause(q2) by {
      var p := prefix + " LIMIT ";
      ConcatAssoc(p, count + " OFFSET ", "0");
      ConcatAssoc(p, count, " OFFSET ");
      ZeroOffsetPass(prefix, count);
      CountKept(prefix, count);
    }
    AgreeAfterLimit(q1, q2);
  }

  // ---------------------------------------------------------------------
  // WHERE conditions

  /** On settled, quiet text the passes before the WHERE pass change nothing. */
  lemma EarlyPassesKeep(q: string)
    requires Settled(q) && Quiet(q)
    ensures NormalizeJoinOrder(NormalizeLimitClause(Prepared(q))) == q
  {
    PreparedOfSettled(q);
    if Contains(q, " FROM ") {
      var f := Index(q, " FROM ");
      var e := FromSectionEnd(q, f + 6);
      NotContainsSlice(q, " JOIN ", f, e);
      NotContainsSlice(q, " LEFT ", f, e);
      NoJoinUnchanged(q);
    }
  }

  /** A main WHERE clause running to the end of the query is replaced by its
      canonical conditions. */
  lemma WhereAtEnd(q: string, w: nat)
    requires ';' !in q && !Contains(q, " ORDER BY ") && !Contains(q, " LIMIT ")
    requires FirstWhere(q) == w && w + 7 <= |q|
    ensures NormalizeMainWhereClause(q) == q[..w] + " WHERE " + Join(CanonicalConditions(q[w + 7..]), " AND ")
  {
    WhereRunsToEnd(q, w + 7);
    NoSemicolonSuffix(q, w + 7);
    LocatedToEnd(q, w);
    RebuiltAtEnd(q, w, q[w + 7..]);
  }

  /** The clause found runs to the end, with nothing after it. */
  lemma LocatedToEnd(q: string, w: nat)
    requires FirstWhere(q) == w && w + 7 <= |q| && WhereEnd(q, w + 7) == |q|
    ensures LocateWhere(q) == Where(q[..w], q[w + 7..], "")
  {
    LocateWhereAt(q, w, |q|);
    SliceToEnd(q, w + 7);
  }

  lemma SliceToEnd(q: string, i: nat)
    requires i <= |q|
    ensures q[i..|q|] == q[i..] && q[|q|..] == ""
  {
  }

  /** A clause without a final `;` and nothing after it is rebuilt from its
      canonical conditions. */
  lemma RebuiltAtEnd(q: string, w: nat, clause: string)
    requires w <= |q| && LocateWhere(q) == Where(q[..w], clause, "") && !HasSuffix(clause, ";")
    ensures NormalizeMainWhereClause(q) == q[..w] + " WHERE " + Join(CanonicalConditions(clause), " AND ")
  {
  }

  lemma WhereRunsToEnd(q: string, start: nat)
    requires start <= |q| && !Contains(q, " ORDER BY ") && !Contains(q, " LIMIT ")
    ensures WhereEnd(q, start) == |q|
  {
    NotContainsSlice(q, " ORDER BY ", start, |q|);
    NotContainsSlice(q, " LIMIT ", start, |q|);
    assert q[start..|q|] == q[start..];
  }

  lemma NoSemicolonSuffix(q: string, start: nat)
    requires start <= |q| && ';' !in q
    ensures !HasSuffix(q[start..], ";")
  {
    var clause := q[start..];
    if clause != [] {
      assert clause[|clause| - 1] == q[|q| - 1];
    }
  }

  /** Two settled, quiet queries with the same text before the main WHERE
      and the same canonical conditions compare equal. */
  lemma SameConditionsCompare(q1: string, q2: string)
    requires Settled(q1) && Quiet(q1) && Settled(q2) && Quiet(q2)
    requires FirstWhere(q1) != -1 && FirstWhere(q1) == FirstWhere(q2)
    requires q1[..FirstWhere(q1)] == q2[..FirstWhere(q2)]
    requires CanonicalConditions(q1[FirstWhere(q1) + 7..]) == CanonicalConditions(q2[FirstWhere(q2) + 7..])
    ensures CompareQueries(q1, q2)
  {
    var w := FirstWhere(q1);
    assert NormalizeMainWhereClause(NormalizeJoinOrder(NormalizeLimitClause(Prepared(q1)))) == NormalizeMainWhereClause(q1) by {
      EarlyPassesKeep(q1);
    }
    assert NormalizeMainWhereClause(NormalizeJoinOrder(NormalizeLimitClause(Prepared(q2)))) == NormalizeMainWhereClause(q2) by {
      EarlyPassesKeep(q2);
    }
    assert NormalizeMainWhereClause(q1) == NormalizeMainWhereClause(q2) by {
      WhereAtEnd(q1, w);
      WhereAtEnd(q2, w);
    }
    AgreeAfterWhere(q1, q2);
  }

  /** `WHERE (a) AND (b)` and `WHERE b AND a` compare equal for plain
      conditions `a` and `b`, on settled, quiet queries. */
  lemma WhereOrderIgnored(before: string, a: string, b: string, q1: string, q2: string)
    requires Plain(a) && Plain(b)
    requires q1 == before + " WHERE " + Paren(a) + " AND " + Paren(b)
    requires q2 == before + " WHERE " + b + " AND " + a
    requires Settled(q1) && Quiet(q1) && Settled(q2) && Quiet(q2)
    requires FirstWhere(q1) == |before| && FirstWhere(q2) == |before|
    ensures CompareQueries(q1, q2)
  {
    WhereClauseText(before, a, b, q1, q2);
    SameConditionsCompare(q1, q2);
  }

  /** Both texts have `before` before the clause, and clauses with the same
      canonical conditions. */
  lemma WhereClauseText(before: string, a: string, b: string, q1: string, q2: string)
    requires Plain(a) && Plain(b)
    requires q1 == before + " WHERE " + Paren(a) + " AND " + Paren(b)
    requires q2 == before + " WHERE " + b + " AND " + a
    ensures |before| + 7 <= |q1| && |before| + 7 <= |q2|
    ensures q1[..|before|] == before && q2[..|before|] == before
    ensures CanonicalConditions(q1[|before| + 7..]) == CanonicalConditions(q2[|before| + 7..])
  {
    var x1 := Paren(a) + " AND " + Paren(b);
    var x2 := b + " AND " + a;
    Regroup(before + " WHERE ", Paren(a), Paren(b));
    Regroup(before + " WHERE ", b, a);
    Slices(before, " WHERE ", x1);
    Slices(before, " WHERE ", x2);
    assert CanonicalConditions(x1) == CanonicalConditions(x2) by {
      ConjunctionCanonical(a, b);
    }
  }

  /** `p + x + " AND " + y` is `p` followed by `x + " AND " + y`. */
  lemma Regroup(p: string, x: string, y: string)
    ensures p + x + " AND " + y == p + (x + " AND " + y)
  {
    ConcatAssoc(p, x + " AND ", y);
    ConcatAssoc(p, x, " AND ");
  }

  /** The pieces of `before + kw + x`, recovered by slicing. */
  lemma Slices(before: string, kw: string, x: string)
    ensures var q := before + kw + x;
      |before| + |kw| <= |q| && q[..|before|] == before && q[|before| + |kw|..] == x
  {
  }

  // ---------------------------------------------------------------------
  // JOIN order

  /** Queries whose JOIN fragments are reordered compare equal, on settled
      queries without a LIMIT. */
  lemma JoinOrderIgnored(q1: string, q2: string)
    requires Settled(q1) && Settled(q2)
    requires !Contains(q1, " LIMIT ") && !Contains(q2, " LIMIT ")
    requires SameJoinsReordered(q1, q2)
    ensures CompareQueries(q1, q2)
  {
    PreparedOfSettled(q1);
    PreparedOfSettled(q2);
    JoinReorderIgnored(q1, q2);
  }
}
