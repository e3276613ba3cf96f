/** `normalizeLimitClause` (common/query_manager.go): rewrite the MySQL form
    `LIMIT offset,count` to `LIMIT count OFFSET offset`, and drop a
    redundant `OFFSET 0`. */
module LimitClause {

  import opened GoStrings

  /** The rewrite of the trimmed text between ` LIMIT ` and the next `;`. */
  function RewriteLimit(clause: string): (r: string)
    ensures !Contains(clause, ",") && !Contains(clause, " OFFSET ") ==> r == clause
  {
    if Contains(clause, ",") then
      var parts := Split(clause, ",");
      if |parts| == 2 then
        var offset := TrimSpace(parts[0]);
        var count := TrimSpace(parts[1]);
        if offset == "0" then count else count + " OFFSET " + offset
      else
        clause
    else if Contains(clause, " OFFSET ") then
      var parts := Split(clause, " OFFSET ");
      if |parts| == 2 && TrimSpace(parts[1]) == "0" then TrimSpace(parts[0]) else clause
    else
      clause
  }

  /** The result of `normalizeLimitClause`. */
  function NormalizeLimitClause(query: string): (r: string)
    ensures !Contains(query, " LIMIT ") ==> r == query
  {
    var limitIdx := Index(query, " LIMIT ");
    if limitIdx == -1 then query
    else
      var afterLimit := query[limitIdx + 7..];
      var semi := Index(afterLimit, ";");
      var limitEnd := if semi != -1 then semi else |afterLimit|;
      var clause := TrimSpace(afterLimit[..limitEnd]);
      var remaining := afterLimit[limitEnd..];
      query[..limitIdx] + " LIMIT " + RewriteLimit(clause) + remaining
  }

  /** Only the LIMIT clause moves: the text before the first ` LIMIT ` and
      the text from the first `;` after it are kept. */
  lemma LimitFrame(query: string) returns (i: nat, e: nat)
    requires Contains(query, " LIMIT ")
    ensures i + 7 <= e <= |query| && HasPrefix(query[i..], " LIMIT ")
    ensures forall j :: 0 <= j < i ==> !HasPrefix(query[j..], " LIMIT ")
    ensures e < |query| ==> HasPrefix(query[e..], ";")
    ensures forall j :: i + 7 <= j < e ==> !HasPrefix(query[j..], ";")
    ensures NormalizeLimitClause(query) ==
      query[..i] + " LIMIT " + RewriteLimit(TrimSpace(query[i + 7..e])) + query[e..]
  {
    i := Index(query, " LIMIT ");
    var afterLimit := query[i + 7..];
    var semi := Index(afterLimit, ";");
    e := if semi != -1 then i + 7 + semi else |query|;
    assert afterLimit[..e - i - 7] == query[i + 7..e];
    assert afterLimit[e - i - 7..] == query[e..];
    assert NormalizeLimitClause(query) ==
      query[..i] + " LIMIT " + RewriteLimit(TrimSpace(query[i + 7..e])) + query[e..];
    IndexInSuffix(query, i + 7, ";");
  }

  /** A LIMIT argument: non-empty, with no white space, comma or semicolon. */
  predicate Token(t: string) {
    t != "" && forall k :: 0 <= k < |t| ==> !IsSpace(t[k]) && t[k] != ',' && t[k] != ';'
  }

  lemma TokenTrimmed(t: string)
    requires Token(t)
    ensures TrimSpace(t) == t && ',' !in t && ' ' !in t
  {
    TrimSpaceOfTrimmed(t);
  }

  /** `offset,count` becomes `count OFFSET offset`, or just `count` when the
      offset is `0`. */
  lemma CommaFormRewritten(offset: string, count: string)
    requires Token(offset) && Token(count)
    ensures RewriteLimit(offset + "," + count) ==
      if offset == "0" then count else count + " OFFSET " + offset
  {
    TokenTrimmed(offset);
    TokenTrimmed(count);
    ContainsAt(offset + "," + count, ",", |offset|);
    assert (offset + "," + count)[|offset|..][..1] == ",";
    NoCharNoContains(count, ',');
    SplitOnce(offset, ",", count);
  }

  /** `count OFFSET 0` becomes `count`. */
  lemma OffsetZeroDropped(count: string)
    requires Token(count)
    ensures RewriteLimit(count + " OFFSET " + "0") == count
  {
    TokenTrimmed(count);
    var clause := count + " OFFSET " + "0";
    assert ',' !in clause by {
      assert forall k :: 0 <= k < |clause| ==> clause[k] == ',' ==> k < |count|;
    }
    NoCharNoContains(clause, ',');
    ContainsAt(clause, " OFFSET ", |count|);
    assert clause[|count|..][..8] == " OFFSET ";
    assert !Contains("0", " OFFSET ");
    SplitOnce(count, " OFFSET ", "0");
    TrimSpaceOfTrimmed("0");
  }

  /** The ` LIMIT ` added after a prefix without one is the first. */
  lemma FirstLimitAt(prefix: string, arg: string)
    requires !Contains(prefix + " LIMIT", " LIMIT ")
    ensures Index(prefix + " LIMIT " + arg, " LIMIT ") == |prefix|
  {
    var q := prefix + " LIMIT " + arg;
    var p := prefix + " LIMIT";
    forall j | 0 <= j < |prefix| ensures !HasPrefix(q[j..], " LIMIT ") {
      assert !HasPrefix(p[j..], " LIMIT ");
      assert q[j..][..7] == p[j..][..7];
    }
    IndexAfter(prefix, " LIMIT ", arg);
  }

  lemma LimitPieces(prefix: string, arg: string)
    ensures var q := prefix + " LIMIT " + arg;
      q[..|prefix|] == prefix && q[|prefix| + 7..] == arg && q[|prefix|..][..7] == " LIMIT "
  {
  }

  /** A query whose first ` LIMIT ` is followed by text without `;` has
      that whole text rewritten. */
  lemma LimitAtEnd(prefix: string, arg: string)
    requires !Contains(prefix + " LIMIT", " LIMIT ") && !Contains(arg, ";")
    ensures NormalizeLimitClause(prefix + " LIMIT " + arg) ==
      prefix + " LIMIT " + RewriteLimit(TrimSpace(arg))
  {
    FirstLimitAt(prefix, arg);
    LimitPieces(prefix, arg);
    assert arg[..|arg|] == arg && arg[|arg|..] == "";
  }

  /** `offset,count` made of two tokens has no `;` and no edge space. */
  lemma CommaArg(offset: string, count: string)
    requires Token(offset) && Token(count)
    ensures !Contains(offset + "," + count, ";") && TrimSpace(offset + "," + count) == offset + "," + count
  {
    var arg := offset + "," + count;
    assert ';' !in arg by {
      assert forall k :: 0 <= k < |arg| ==> arg[k] == (if k < |offset| then offset[k] else if k == |offset| then ',' else count[k - |offset| - 1]);
    }
    NoCharNoContains(arg, ';');
    TrimSpaceOfTrimmed(arg);
  }

  /** A whole query ending in `LIMIT offset,count`. */
  lemma CommaFormInQuery(prefix: string, offset: string, count: string)
    requires !Contains(prefix + " LIMIT", " LIMIT ")
    requires Token(offset) && Token(count)
    ensures NormalizeLimitClause(prefix + " LIMIT " + offset + "," + count) ==
      prefix + " LIMIT " + (if offset == "0" then count else count + " OFFSET " + offset)
  {
    var arg := offset + "," + count;
    assert prefix + " LIMIT " + arg == prefix + " LIMIT " + offset + "," + count;
    CommaArg(offset, count);
    LimitAtEnd(prefix, arg);
    CommaFormRewritten(offset, count);
  }

  /** The rewrite brings in only the characters of ` OFFSET `. */
  lemma RewriteLimitLacks(clause: string, c: char)
    requires c !in clause && c !in " OFFSET "
    ensures c !in RewriteLimit(clause)
  {
    if Contains(clause, ",") {
      SplitLacks(clause, ",", c);
      var parts := Split(clause, ",");
      if |parts| == 2 {
        TrimSpaceLacks(parts[0], c);
        TrimSpaceLacks(parts[1], c);
      }
    } else if Contains(clause, " OFFSET ") {
      SplitLacks(clause, " OFFSET ", c);
      TrimSpaceLacks(Split(clause, " OFFSET ")[0], c);
    }
  }

  /** `normalizeLimitClause` brings in only the characters of ` LIMIT ` and
      ` OFFSET `. */
  lemma NormalizeLimitLacks(query: string, c: char)
    requires c !in query && c !in " LIMIT " && c !in " OFFSET "
    ensures c !in NormalizeLimitClause(query)
  {
    var i := Index(query, " LIMIT ");
    if i != -1 {
      var afterLimit := query[i + 7..];
      var semi := Index(afterLimit, ";");
      var limitEnd := if semi != -1 then semi else |afterLimit|;
      SliceLacks(query, c, i + 7, |query|);
      SliceLacks(afterLimit, c, 0, limitEnd);
      assert afterLimit[..limitEnd] == afterLimit[0..limitEnd];
      TrimSpaceLacks(afterLimit[..limitEnd], c);
      RewriteLimitLacks(TrimSpace(afterLimit[..limitEnd]), c);
    }
  }
}
