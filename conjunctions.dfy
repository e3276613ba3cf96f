/** Two plain conditions joined by ` AND `, written in either order and with
    or without a pair of parentheses around each, come out of
    `normalizeMainWhereClause` as the same list of conditions. */
module Conjunctions {

  import opened GoStrings
  import opened Sorting
  import opened Conditions
  import opened WhereClause

  /** A plain condition: non-blank, trimmed, without parentheses, and with no
      ` AND ` even once padded with a space on each side (so `x AND` and
      `AND y` are not plain). */
  predicate Plain(a: string) {
    a != "" && Trimmed(a) && '(' !in a && ')' !in a && !Contains(" " + a + " ", " AND ")
  }

  /** `a` in parentheses. */
  function Paren(a: string): (r: string)
    ensures |r| == |a| + 2 && r[0] == '(' && r[|a| + 1] == ')' && r[1..|a| + 1] == a
  {
    "(" + a + ")"
  }

  // ---------------------------------------------------------------------
  // windows of five characters

  /** Text without parentheses leaves the counter where it was. */
  lemma {:induction false} DepthFlat(s: string, n: nat, m: nat)
    requires n <= m <= |s|
    requires forall k :: n <= k < m ==> s[k] != '(' && s[k] != ')'
    ensures DepthAt(s, m) == DepthAt(s, n)
    decreases m
  {
    if m > n {
      DepthFlat(s, n, m - 1);
    }
  }

  /** No window of five characters over a character that ` AND ` lacks is
      ` AND `. */
  lemma NoAndAcross(s: string, m: nat)
    requires m < |s| && s[m] !in " AND "
    ensures forall j :: 0 <= j <= m < j + 5 <= |s| ==> !TopLevelAndAt(s, j)
  {
    forall j | 0 <= j <= m < j + 5 <= |s| ensures !TopLevelAndAt(s, j) {
      assert s[j..j + 5][m - j] == s[m];
    }
  }

  /** No window of five characters inside a copy of a plain condition, or
      inside it and a space after it, is ` AND `. */
  lemma NoAndWithin(s: string, lo: nat, x: string, hi: nat)
    requires Plain(x) && lo + |x| <= |s| && s[lo..lo + |x|] == x
    requires hi == lo + |x| || (hi == lo + |x| + 1 && hi <= |s| && s[lo + |x|] == ' ')
    ensures forall j :: lo <= j && j + 5 <= hi ==> !TopLevelAndAt(s, j)
  {
    var p := " " + x + " ";
    forall j | lo <= j && j + 5 <= hi ensures !TopLevelAndAt(s, j) {
      forall i | j <= i < j + 5 ensures p[i - lo + 1] == s[i] {
        if i < lo + |x| {
          assert s[i] == s[lo..lo + |x|][i - lo];
        }
      }
      assert p[j - lo + 1..][..5] == s[j..j + 5];
      assert !HasPrefix(p[j - lo + 1..], " AND ");
    }
  }

  // ---------------------------------------------------------------------
  // one condition

  /** A plain condition is one piece, its own cleaned form, and its own
      extraction. */
  lemma PlainAtomic(a: string)
    requires Plain(a)
    ensures Emit(a) == [a] && SplitWhere(a) == [a] && FlattenAndExtract(a) == [a]
  {
    TrimSpaceOfTrimmed(a);
    CleanedFixedPoint(a);
    assert a[0..|a|] == a;
    NoAndWithin(a, 0, a, |a|);
    assert forall j :: 0 <= j <= |a| ==> !TopLevelAndAt(a, j);
    SplitWithoutTopLevelAnd(a);
    ExtractAtomic(a);
  }

  /** `(b)` for a plain `b` has no top-level ` AND `. */
  lemma ParenAlone(b: string)
    requires Plain(b)
    ensures forall j :: 0 <= j <= |Paren(b)| ==> !TopLevelAndAt(Paren(b), j)
  {
    var s := Paren(b);
    NoAndAcross(s, 0);
    NoAndWithin(s, 1, b, |b| + 1);
    NoAndAcross(s, |b| + 1);
  }

  /** `(b)` for a plain `b` is one piece, kept as it is by the cleaning, and
      extracted as `b`. */
  lemma ParenAtomic(b: string)
    requires Plain(b)
    ensures Emit(Paren(b)) == [Paren(b)]
    ensures SplitWhere(Paren(b)) == [Paren(b)]
    ensures FlattenAndExtract(Paren(b)) == [b]
  {
    var s := Paren(b);
    TrimSpaceOfTrimmed(s);
    CleanedFixedPoint(s);
    ParenAlone(b);
    SplitWithoutTopLevelAnd(s);
    assert Wrapped(s) by {
      forall i | 0 < i < |s| - 1 ensures s[i] != ')' {
        assert s[i] == s[1..|b| + 1][i - 1];
      }
    }
    FlattenedFixedPoint(b);
    PlainAtomic(b);
  }

  // ---------------------------------------------------------------------
  // `a AND b`

  /** `a AND b` laid out piece by piece. */
  lemma PlainLayout(a: string, b: string)
    requires Plain(a) && Plain(b)
    ensures var s := a + " AND " + b;
      && s[..|a|] == a && s[|a|..|a| + 5] == " AND " && s[|a| + 5..] == b
      && s[0..|a|] == a && s[|a|] == ' ' && Trimmed(s) && s[0] != '('
  {
  }

  /** `a AND b` splits into `a` and `b`. */
  lemma SplitPlain(a: string, b: string)
    requires Plain(a) && Plain(b)
    ensures SplitWhere(a + " AND " + b) == [a, b]
  {
    var s := a + " AND " + b;
    PlainLayout(a, b);
    DepthFlat(s, 0, |a|);
    assert TopLevelAndAt(s, |a|);
    NoAndWithin(s, 0, a, |a| + 1);
    forall j | 0 <= j < |a| ensures !TopLevelAndAt(s, j) {
      if |a| + 1 < j + 5 <= |s| {
        assert s[j..j + 5][|a| - j] == ' ';
      }
    }
    SplitAtFirstTopLevelAnd(s, |a|);
    PlainAtomic(a);
    PlainAtomic(b);
  }

  /** The conditions extracted from `a AND b`. */
  lemma ExtractedPlain(a: string, b: string)
    requires Plain(a) && Plain(b)
    ensures ExtractedConditions(a + " AND " + b) == [a, b]
  {
    var bound := |a| + |b| + 6;
    PlainUnchanged(a, b, bound);
    FlattenPlainPair(a, b, bound);
  }

  /** `a AND b` is split as it stands. */
  lemma PlainUnchanged(a: string, b: string, bound: nat)
    requires Plain(a) && Plain(b) && bound == |a| + |b| + 6
    ensures ExtractedConditions(a + " AND " + b) == FlattenAll([a, b], bound)
  {
    var s := a + " AND " + b;
    assert |s| + 1 == bound;
    PlainLayout(a, b);
    FlattenedFixedPoint(s);
    SplitPlain(a, b);
    ExtractedOf(s, [a, b]);
  }

  /** Two plain conditions are extracted as they are. */
  lemma FlattenPlainPair(a: string, b: string, bound: nat)
    requires Plain(a) && Plain(b) && |a| < bound && |b| < bound
    ensures FlattenAll([a, b], bound) == [a, b]
  {
    PlainAtomic(a);
    PlainAtomic(b);
    FlattenPair(a, b, bound);
  }

  // ---------------------------------------------------------------------
  // `(a) AND (b)`

  /** `(a) AND (b)` laid out piece by piece. */
  lemma ParenthesisedLayout(a: string, b: string)
    requires Plain(a) && Plain(b)
    ensures var s := Paren(a) + " AND " + Paren(b);
      && |s| == |a| + |b| + 9
      && s[..|a| + 2] == Paren(a) && s[|a| + 2..|a| + 7] == " AND " && s[|a| + 7..] == Paren(b)
      && s[0] == '(' && s[1..|a| + 1] == a && s[|a| + 1] == ')' && s[|s| - 1] == ')'
      && s[1..|s| - 1] == a + ") AND (" + b
  {
  }

  /** `(a) AND (b)` splits into `(a)` and `(b)`. */
  lemma SplitParenthesised(a: string, b: string)
    requires Plain(a) && Plain(b)
    ensures SplitWhere(Paren(a) + " AND " + Paren(b)) == [Paren(a), Paren(b)]
  {
    var s := Paren(a) + " AND " + Paren(b);
    var e := |a| + 2;
    ParenthesisedLayout(a, b);
    DepthFlat(s, 1, |a| + 1);
    assert DepthAt(s, e) == 0;
    assert TopLevelAndAt(s, e);
    NoAndAcross(s, 0);
    NoAndWithin(s, 1, a, |a| + 1);
    NoAndAcross(s, |a| + 1);
    assert forall j :: 0 <= j < e ==> !TopLevelAndAt(s, j);
    SplitAtFirstTopLevelAnd(s, e);
    ParenAtomic(a);
    ParenAtomic(b);
  }

  /** `(a) AND (b)` is not one wrapper but two. */
  lemma ParenthesisedNotWrapped(a: string, b: string)
    requires Plain(a) && Plain(b)
    ensures Flattened(Paren(a) + " AND " + Paren(b)) == Paren(a) + " AND " + Paren(b)
  {
    var s := Paren(a) + " AND " + Paren(b);
    ParenthesisedLayout(a, b);
    DepthFlat(s, 1, |a| + 1);
    assert DepthAt(s, |a| + 2) == 0;
    assert !Wrapped(s);
    FlattenedFixedPoint(s);
  }

  /** `a) AND (b` laid out piece by piece. */
  lemma InnerLayout(a: string, b: string)
    requires Plain(a) && Plain(b)
    ensures var m := a + ") AND (" + b;
      && m[0..|a|] == a && m[|a|] == ')' && m[|a| + 6] == '(' && m[|a| + 7..|a| + 7 + |b|] == b
      && (forall k :: |a| < k < |a| + 6 ==> m[k] != '(' && m[k] != ')')
      && Trimmed(m)
  {
    var m := a + ") AND (" + b;
    forall k | |a| < k < |a| + 6 ensures m[k] != '(' && m[k] != ')' {
      assert m[k] == " AND "[k - |a| - 1];
    }
  }

  /** Between the outer parentheses of `(a) AND (b)` the ` AND ` sits at
      depth -1, so there is no top-level ` AND `. */
  lemma InnerHasNoTopLevelAnd(a: string, b: string)
    requires Plain(a) && Plain(b)
    ensures !HasTopLevelAnd(a + ") AND (" + b)
  {
    var m := a + ") AND (" + b;
    InnerLayout(a, b);
    DepthFlat(m, 0, |a|);
    NoAndWithin(m, 0, a, |a|);
    NoAndAcross(m, |a|);
    NoAndWithin(m, |a| + 7, b, |m|);
    forall j | |a| < j <= |a| + 6 ensures DepthAt(m, j) == -1 {
      DepthFlat(m, |a| + 1, j);
    }
    assert forall j :: 0 <= j <= |m| ==> !TopLevelAndAt(m, j);
  }

  /** The aggressive unwrap leaves `(a) AND (b)` alone. */
  lemma ParenthesisedKept(a: string, b: string)
    requires Plain(a) && Plain(b)
    ensures UnwrapTopLevelAnd(Paren(a) + " AND " + Paren(b)) == Paren(a) + " AND " + Paren(b)
  {
    ParenthesisedLayout(a, b);
    InnerLayout(a, b);
    TrimSpaceOfTrimmed(a + ") AND (" + b);
    InnerHasNoTopLevelAnd(a, b);
  }

  /** The conditions extracted from `(a) AND (b)`. */
  lemma ExtractedParenthesised(a: string, b: string)
    requires Plain(a) && Plain(b)
    ensures ExtractedConditions(Paren(a) + " AND " + Paren(b)) == [a, b]
  {
    var bound := |a| + |b| + 10;
    ParenthesisedUnchanged(a, b, bound);
    FlattenParenPair(a, b, bound);
  }

  /** `(a) AND (b)` is split as it stands. */
  lemma ParenthesisedUnchanged(a: string, b: string, bound: nat)
    requires Plain(a) && Plain(b) && bound == |a| + |b| + 10
    ensures ExtractedConditions(Paren(a) + " AND " + Paren(b)) == FlattenAll([Paren(a), Paren(b)], bound)
  {
    var t := Paren(a) + " AND " + Paren(b);
    assert |t| + 1 == bound;
    ParenthesisedNotWrapped(a, b);
    ParenthesisedLayout(a, b);
    ParenthesisedKept(a, b);
    SplitParenthesised(a, b);
    ExtractedOf(t, [Paren(a), Paren(b)]);
  }

  /** `(a)` and `(b)` are extracted as `a` and `b`. */
  lemma FlattenParenPair(a: string, b: string, bound: nat)
    requires Plain(a) && Plain(b) && |Paren(a)| < bound && |Paren(b)| < bound
    ensures FlattenAll([Paren(a), Paren(b)], bound) == [a, b]
  {
    ParenAtomic(a);
    ParenAtomic(b);
    FlattenPair(Paren(a), Paren(b), bound);
  }

  // ---------------------------------------------------------------------
  // the canonical list

  /** A trimmed clause that neither flattening nor the aggressive unwrap
      changes is split as it stands. */
  lemma ExtractedOf(clause: string, parts: seq<string>)
    requires Flattened(clause) == clause && Trimmed(clause)
    requires UnwrapTopLevelAnd(clause) == clause && SplitWhere(clause) == parts
    ensures ExtractedConditions(clause) == FlattenAll(parts, |clause| + 1)
  {
    TrimSpaceOfTrimmed(clause);
  }

  /** The extraction of two pieces is the extractions one after the other. */
  lemma FlattenPair(x: string, y: string, bound: nat)
    requires |x| < bound && |y| < bound
    ensures FlattenAll([x, y], bound) == FlattenAndExtract(x) + FlattenAndExtract(y)
  {
    assert [x, y][1..] == [y];
    assert [y][1..] == [];
    assert FlattenAll([y], bound) == FlattenAndExtract(y) + FlattenAll([], bound);
  }

  /** Two distinct conditions in string order, or one. */
  function Ordered(a: string, b: string): seq<string> {
    if a == b then [a] else if StringLe(a, b) then [a, b] else [b, a]
  }

  /** Two plain conditions deduplicate to themselves, or to one for a
      repeat. */
  lemma DedupPair(a: string, b: string)
    requires Plain(a) && Plain(b)
    ensures Dedup([a, b]) == if a == b then [a] else [a, b]
  {
    TrimSpaceOfTrimmed(a);
    TrimSpaceOfTrimmed(b);
    assert [a, b][0] == a && [a, b][1..] == [b] && [b][0] == b && [b][1..] == [];
    var seen: set<string> := {} + {a};
    assert Dedup([a, b]) == [a] + DedupFrom([b], seen);
    assert DedupFrom([b], seen) == if a == b then [] else [b] + DedupFrom([], seen + {b});
  }

  /** The sorted, deduplicated list of two plain conditions. */
  lemma CanonicalPair(a: string, b: string)
    requires Plain(a) && Plain(b)
    ensures SortStrings(Dedup([a, b])) == Ordered(a, b)
  {
    DedupPair(a, b);
    var d := Dedup([a, b]);
    var target := Ordered(a, b);
    StringLeTotalOrder();
    assert SortedBy(target, StringLe);
    assert multiset(d) == multiset(target);
    SortedUnique(SortStrings(d), target, StringLe);
  }

  /** A clause whose extracted conditions are two plain ones is emitted as
      those conditions, deduplicated and in string order. */
  lemma CanonicalOfExtracted(clause: string, a: string, b: string)
    requires Plain(a) && Plain(b) && ExtractedConditions(clause) == [a, b]
    ensures CanonicalConditions(clause) == Ordered(a, b)
  {
    CanonicalPair(a, b);
  }

  lemma OrderedSymmetric(a: string, b: string)
    ensures Ordered(b, a) == Ordered(a, b)
  {
    StringLeTotalOrder();
  }

  /** `a AND b`, `b AND a` and `(a) AND (b)` give one list of conditions:
      the distinct conditions in string order. */
  lemma ConjunctionCanonical(a: string, b: string)
    requires Plain(a) && Plain(b)
    ensures CanonicalConditions(a + " AND " + b) == Ordered(a, b)
    ensures CanonicalConditions(b + " AND " + a) == Ordered(a, b)
    ensures CanonicalConditions(Paren(a) + " AND " + Paren(b)) == Ordered(a, b)
  {
    ExtractedPlain(a, b);
    CanonicalOfExtracted(a + " AND " + b, a, b);
    ExtractedPlain(b, a);
    CanonicalOfExtracted(b + " AND " + a, b, a);
    OrderedSymmetric(a, b);
    ExtractedParenthesised(a, b);
    CanonicalOfExtracted(Paren(a) + " AND " + Paren(b), a, b);
  }
}
