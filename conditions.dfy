/** The helpers of `normalizeMainWhereClause` (common/query_manager.go):
    peeling wrapper parentheses, cleaning orphan parentheses, splitting at
    top-level ` AND `, recursive extraction and duplicate removal. */
module Conditions {

  import opened GoStrings
  import opened Sorting

  /** How a character moves the parenthesis counter of the scans. */
  function Delta(c: char): int {
    if c == '(' then 1 else if c == ')' then -1 else 0
  }

  /** The parenthesis counter after scanning the first `n` characters of
      `s` from the left. */
  function DepthAt(s: string, n: nat): int
    requires n <= |s|
  {
    if n == 0 then 0 else DepthAt(s, n - 1) + Delta(s[n - 1])
  }

  /** Scanning a prefix gives the same counter. */
  lemma {:induction false} DepthAtPrefix(s: string, t: string, n: nat)
    requires n <= |s| && n <= |t| && s[..n] == t[..n]
    ensures DepthAt(s, n) == DepthAt(t, n)
  {
    if n > 0 {
      assert s[n - 1] == s[..n][n - 1] == t[..n][n - 1] == t[n - 1];
      assert s[..n - 1] == s[..n][..n - 1] == t[..n][..n - 1] == t[..n - 1];
      DepthAtPrefix(s, t, n - 1);
    }
  }

  // ---------------------------------------------------------------------
  // flattenNestedParentheses

  /** The first `(` of `s` is closed only by its last character: no `)`
      before the end brings the counter back to zero. */
  predicate IsWrapper(s: string) {
    forall i :: 0 <= i < |s| - 1 && s[i] == ')' ==> DepthAt(s, i + 1) != 0
  }

  /** `s` is enclosed in one pair of parentheses that match each other. */
  predicate Wrapped(s: string) {
    |s| >= 2 && s[0] == '(' && s[|s| - 1] == ')' && IsWrapper(s)
  }

  /** The result of `flattenNestedParentheses`: trim, and peel wrapper
      layers while there are any. */
  function Flattened(s: string): (r: string)
    ensures Trimmed(r) && !Wrapped(r) && |r| <= |s|
    ensures SliceOf(r, s)
    decreases |s|
  {
    var t := TrimSpace(s);
    if Wrapped(t) then
      var r := Flattened(t[1..|t| - 1]);
      PeelSlice(s, r);
      r
    else
      TrimmedSlice(s);
      t
  }

  lemma TrimmedSlice(s: string)
    ensures SliceOf(TrimSpace(s), s)
  {
    var i, j := TrimSpaceSlice(s);
  }

  /** What is cut out of the trimmed text between its wrapping parentheses
      is cut out of the text itself. */
  lemma PeelSlice(s: string, r: string)
    requires Wrapped(TrimSpace(s))
    requires SliceOf(r, TrimSpace(s)[1..|TrimSpace(s)| - 1])
    ensures SliceOf(r, s)
  {
    var t := TrimSpace(s);
    var i, j := TrimSpaceSlice(s);
    SliceOfSlice(s, i, j, 1, |t| - 1);
    SliceOfWithin(r, s, i + 1, j - 1);
  }

  lemma TrimSpaceIdempotent(s: string)
    ensures TrimSpace(TrimSpace(s)) == TrimSpace(s)
  {
    TrimSpaceOfTrimmed(TrimSpace(s));
  }

  /** The inner scan of `flattenNestedParentheses`: does a `)` before the
      last character bring the counter back to zero? */
  method ScanWrapper(s: string) returns (isWrapper: bool)
    ensures isWrapper == IsWrapper(s)
  {
    var depth := 0;
    isWrapper := true;
    var i := 0;
    while i < |s| - 1
      invariant 0 <= i <= |s|
      invariant depth == DepthAt(s, i)
      invariant forall k :: 0 <= k < i && s[k] == ')' ==> DepthAt(s, k + 1) != 0
    {
      if s[i] == '(' {
        depth := depth + 1;
      } else if s[i] == ')' {
        depth := depth - 1;
        if depth == 0 {
          isWrapper := false;
          assert DepthAt(s, i + 1) == 0;
          return;
        }
      }
      i := i + 1;
    }
  }

  /** `flattenNestedParentheses`: the outer loop peels one layer per round. */
  method FlattenNestedParentheses(s0: string) returns (s: string)
    ensures s == Flattened(s0)
  {
    s := TrimSpace(s0);
    TrimSpaceIdempotent(s0);
    while |s| >= 2 && s[0] == '(' && s[|s| - 1] == ')'
      invariant Trimmed(s) && Flattened(s) == Flattened(s0)
      decreases |s|
    {
      var isWrapper := ScanWrapper(s);
      if isWrapper {
        FlattenedPeel(s);
        s := TrimSpace(s[1..|s| - 1]);
      } else {
        break;
      }
    }
    TrimSpaceOfTrimmed(s);
  }

  /** Peeling one wrapper layer off a trimmed text, and trimming again, does
      not change what flattening gives. */
  lemma FlattenedPeel(s: string)
    requires Trimmed(s) && Wrapped(s)
    ensures Flattened(TrimSpace(s[1..|s| - 1])) == Flattened(s)
  {
    TrimSpaceOfTrimmed(s);
    assert Flattened(s) == Flattened(s[1..|s| - 1]);
    TrimSpaceIdempotent(s[1..|s| - 1]);
  }

  /** Flattening twice is flattening once. */
  lemma FlattenedIdempotent(s: string)
    ensures Flattened(Flattened(s)) == Flattened(s)
  {
    TrimSpaceOfTrimmed(Flattened(s));
  }

  /** Text that is trimmed and not wrapped is left alone. */
  lemma FlattenedFixedPoint(s: string)
    requires Trimmed(s) && !Wrapped(s)
    ensures Flattened(s) == s
  {
    TrimSpaceOfTrimmed(s);
  }

  /** `((a))` loses both layers. */
  lemma FlattenedDoubleWrapper()
    ensures Flattened("((a))") == "a"
  {
    var s := "((a))";
    TrimSpaceOfTrimmed(s);
    assert DepthAt(s, 4) == 1 by {
      assert DepthAt(s, 1) == 1 && DepthAt(s, 2) == 2 && DepthAt(s, 3) == 2;
    }
    assert Wrapped(s);
    var t := "(a)";
    assert s[1..4] == t;
    TrimSpaceOfTrimmed(t);
    assert Wrapped(t);
    assert t[1..2] == "a";
    TrimSpaceOfTrimmed("a");
  }

  /** `(a) AND (b)` is not a wrapper: its first `(` closes at index 2. */
  lemma FlattenedTwoGroups()
    ensures Flattened("(a) AND (b)") == "(a) AND (b)"
  {
    var s := "(a) AND (b)";
    assert DepthAt(s, 3) == 0 by {
      assert DepthAt(s, 1) == 1 && DepthAt(s, 2) == 1;
    }
    assert !IsWrapper(s);
    FlattenedFixedPoint(s);
  }

  // ---------------------------------------------------------------------
  // cleanCondition

  /** Neither an orphan `)` at the front nor an orphan `(` at the back. */
  predicate Clean(c: string) {
    c == [] || (c[0] != ')' && c[|c| - 1] != '(')
  }

  /** The first half of a round: drop a leading `)` and trim. */
  function DropLeadingClose(c: string): (r: string)
    requires c != []
    ensures |r| <= |c| && (c[0] == ')' ==> |r| < |c| && Trimmed(r))
    ensures c[0] != ')' ==> r == c
  {
    if c[0] == ')' then TrimSpace(c[1..]) else c
  }

  /** The second half of a round: drop a trailing `(` and trim. */
  function DropTrailingOpen(c: string): (r: string)
    ensures |r| <= |c| && (|c| > 0 && c[|c| - 1] == '(' ==> |r| < |c| && Trimmed(r))
    ensures !(|c| > 0 && c[|c| - 1] == '(') ==> r == c
  {
    if |c| > 0 && c[|c| - 1] == '(' then TrimSpace(c[..|c| - 1]) else c
  }

  /** One round of the loop of `cleanCondition`. */
  function CleanStep(c: string): (r: string)
    requires c != [] && !Clean(c) && Trimmed(c)
    ensures |r| < |c| && Trimmed(r)
  {
    DropTrailingOpen(DropLeadingClose(c))
  }

  function CleanLoop(c: string): (r: string)
    requires Trimmed(c)
    ensures Trimmed(r) && Clean(r) && |r| <= |c|
    ensures SliceOf(r, c)
    decreases |c|
  {
    if |c| > 0 && (c[0] == ')' || c[|c| - 1] == '(') then
      var r := CleanLoop(CleanStep(c));
      CleanStepSlice(c);
      SliceOfTrans(r, CleanStep(c), c);
      r
    else
      assert c == c[0..|c|];
      c
  }

  /** A piece of a piece of `s` is a piece of `s`. */
  lemma SliceOfTrans(r: string, t: string, s: string)
    requires SliceOf(r, t) && SliceOf(t, s)
    ensures SliceOf(r, s)
  {
    var i, j :| 0 <= i <= j <= |s| && t == s[i..j];
    SliceOfWithin(r, s, i, j);
  }

  /** A round of the loop cuts a piece out of the condition. */
  lemma CleanStepSlice(c: string)
    requires c != [] && !Clean(c) && Trimmed(c)
    ensures SliceOf(CleanStep(c), c)
  {
    var d := DropLeadingClose(c);
    if c[0] == ')' {
      TrimmedSlice(c[1..]);
      assert c[1..] == c[1..|c|];
      SliceOfWithin(d, c, 1, |c|);
    } else {
      assert d == c[0..|c|];
    }
    if |d| > 0 && d[|d| - 1] == '(' {
      TrimmedSlice(d[..|d| - 1]);
      assert d[..|d| - 1] == d[0..|d| - 1];
      SliceOfWithin(CleanStep(c), d, 0, |d| - 1);
    } else {
      assert CleanStep(c) == d[0..|d|];
    }
    SliceOfTrans(CleanStep(c), d, c);
  }

  /** The result of `cleanCondition`. */
  function Cleaned(cond: string): (r: string)
    ensures Trimmed(r) && Clean(r) && |r| <= |cond|
    ensures SliceOf(r, cond)
  {
    var r := CleanLoop(TrimSpace(cond));
    TrimmedSlice(cond);
    SliceOfTrans(r, TrimSpace(cond), cond);
    r
  }

  /** A condition that is not clean goes one more round. */
  lemma CleanLoopUnfold(c: string)
    requires c != [] && !Clean(c) && Trimmed(c)
    ensures CleanLoop(c) == CleanLoop(CleanStep(c))
  {
  }

  /** `cleanCondition`. */
  method CleanCondition(cond0: string) returns (cond: string)
    ensures cond == Cleaned(cond0)
  {
    cond := TrimSpace(cond0);
    while |cond| > 0 && (cond[0] == ')' || cond[|cond| - 1] == '(')
      invariant Trimmed(cond) && CleanLoop(cond) == Cleaned(cond0)
      decreases |cond|
    {
      ghost var c := cond;
      CleanLoopUnfold(c);
      if cond[0] == ')' {
        cond := TrimSpace(cond[1..]);
      }
      assert cond == DropLeadingClose(c);
      if |cond| > 0 && cond[|cond| - 1] == '(' {
        cond := TrimSpace(cond[..|cond| - 1]);
      }
      assert cond == DropTrailingOpen(DropLeadingClose(c));
    }
  }

  /** A condition that is already trimmed and clean is kept as it is. */
  lemma CleanedFixedPoint(cond: string)
    requires Trimmed(cond) && Clean(cond)
    ensures Cleaned(cond) == cond
  {
    TrimSpaceOfTrimmed(cond);
  }

  // ---------------------------------------------------------------------
  // splitWhereConditions

  /** What may be recorded as a condition. */
  predicate Condition(c: string) {
    c != "" && Trimmed(c) && Clean(c)
  }

  /** Flushing the builder: the trimmed, cleaned text, unless empty. */
  function Emit(cur: string): (r: seq<string>)
    ensures |r| <= 1
    ensures forall k :: 0 <= k < |r| ==> Condition(r[k]) && |r[k]| <= |cur|
  {
    if |cur| > 0 then
      var c := Cleaned(TrimSpace(cur));
      if c != "" then [c] else []
    else []
  }

  /** The scan of `splitWhereConditions` over the text `rest` still to be
      read, with the counter at `depth` and the builder holding `cur`. */
  function SplitRest(rest: string, depth: int, cur: string): seq<string>
    decreases |rest|
  {
    if rest == [] then Emit(cur)
    else if rest[0] == '(' then SplitRest(rest[1..], depth + 1, cur + [rest[0]])
    else if rest[0] == ')' then SplitRest(rest[1..], depth - 1, cur + [rest[0]])
    else if depth == 0 && 5 <= |rest| && rest[..5] == " AND " then
      Emit(cur) + SplitRest(rest[5..], 0, "")
    else SplitRest(rest[1..], depth, cur + [rest[0]])
  }

  /** Every piece is a condition no longer than what the scan has seen and
      has still to see, and strictly shorter when there are several. */
  lemma {:induction false} SplitRestBounds(rest: string, depth: int, cur: string)
    ensures forall k :: 0 <= k < |SplitRest(rest, depth, cur)| ==>
      Condition(SplitRest(rest, depth, cur)[k]) && |SplitRest(rest, depth, cur)[k]| <= |cur| + |rest|
    ensures |SplitRest(rest, depth, cur)| > 1 ==>
      forall k :: 0 <= k < |SplitRest(rest, depth, cur)| ==> |SplitRest(rest, depth, cur)[k]| < |cur| + |rest|
    decreases |rest|
  {
    if rest == [] {
    } else if rest[0] == '(' {
      SplitRestBounds(rest[1..], depth + 1, cur + [rest[0]]);
      assert SplitRest(rest, depth, cur) == SplitRest(rest[1..], depth + 1, cur + [rest[0]]);
    } else if rest[0] == ')' {
      SplitRestBounds(rest[1..], depth - 1, cur + [rest[0]]);
      assert SplitRest(rest, depth, cur) == SplitRest(rest[1..], depth - 1, cur + [rest[0]]);
    } else if depth == 0 && 5 <= |rest| && rest[..5] == " AND " {
      SplitRestBounds(rest[5..], 0, "");
      SplitAndBounds(Emit(cur), SplitRest(rest[5..], 0, ""), |cur| + |rest|);
      assert SplitRest(rest, depth, cur) == Emit(cur) + SplitRest(rest[5..], 0, "");
    } else {
      SplitRestBounds(rest[1..], depth, cur + [rest[0]]);
      assert SplitRest(rest, depth, cur) == SplitRest(rest[1..], depth, cur + [rest[0]]);
    }
  }

  /** Putting the flushed builder in front of the rest of the scan. */
  lemma SplitAndBounds(e: seq<string>, rest: seq<string>, n: nat)
    requires |e| <= 1 && forall k :: 0 <= k < |e| ==> Condition(e[k]) && |e[k]| < n
    requires forall k :: 0 <= k < |rest| ==> Condition(rest[k]) && |rest[k]| < n
    ensures forall k :: 0 <= k < |e + rest| ==> Condition((e + rest)[k]) && |(e + rest)[k]| < n
  {
    forall k | 0 <= k < |e + rest| ensures Condition((e + rest)[k]) && |(e + rest)[k]| < n {
      if k < |e| {
        assert (e + rest)[k] == e[k];
      } else {
        assert (e + rest)[k] == rest[k - |e|];
      }
    }
  }

  /** The result of `splitWhereConditions`. */
  function SplitWhere(s: string): (r: seq<string>)
    ensures forall k :: 0 <= k < |r| ==> Condition(r[k]) && |r[k]| <= |s|
    ensures |r| > 1 ==> forall k :: 0 <= k < |r| ==> |r[k]| < |s|
  {
    SplitRestBounds(s, 0, "");
    SplitRest(s, 0, "")
  }

  /** The flush of the builder that `splitWhereConditions` performs at each
      top-level ` AND ` and at the end: trim, clean, keep unless empty. */
  method FlushCurrent(current: string) returns (flushed: seq<string>)
    ensures flushed == Emit(current)
  {
    flushed := [];
    if |current| > 0 {
      var condStr := TrimSpace(current);
      condStr := CleanCondition(condStr);
      if condStr != "" {
        flushed := [condStr];
      }
    }
  }

  /** `splitWhereConditions`: a depth counter and a builder. */
  method SplitWhereConditions(w: string) returns (conditions: seq<string>)
    ensures conditions == SplitWhere(w)
  {
    conditions := [];
    var current := "";
    var depth := 0;
    var i := 0;
    while i < |w|
      invariant i <= |w|
      invariant conditions + SplitRest(w[i..], depth, current) == SplitWhere(w)
      decreases |w| - i
    {
      SplitRestAt(w, i, depth, current);
      if w[i] == '(' {
        depth := depth + 1;
        current := current + [w[i]];
        i := i + 1;
      } else if w[i] == ')' {
        depth := depth - 1;
        current := current + [w[i]];
        i := i + 1;
      } else if depth == 0 && i + 5 <= |w| && w[i..i + 5] == " AND " {
        var flushed := FlushCurrent(current);
        ConcatAssoc(conditions, flushed, SplitRest(w[i + 5..], 0, ""));
        conditions := conditions + flushed;
        current := "";
        i := i + 5;
      } else {
        current := current + [w[i]];
        i := i + 1;
      }
    }
    assert w[i..] == [];
    var flushed := FlushCurrent(current);
    conditions := conditions + flushed;
  }

  /** A ` AND ` at index `i` outside every parenthesis. */
  predicate TopLevelAndAt(s: string, i: nat) {
    i + 5 <= |s| && DepthAt(s, i) == 0 && s[i..i + 5] == " AND "
  }

  /** One step of the scan, read in the coordinates of the whole text. */
  lemma SplitRestAt(s: string, i: nat, depth: int, cur: string)
    requires i < |s|
    ensures SplitRest(s[i..], depth, cur) ==
      if s[i] == '(' then SplitRest(s[i + 1..], depth + 1, cur + [s[i]])
      else if s[i] == ')' then SplitRest(s[i + 1..], depth - 1, cur + [s[i]])
      else if depth == 0 && i + 5 <= |s| && s[i..i + 5] == " AND " then
        Emit(cur) + SplitRest(s[i + 5..], 0, "")
      else SplitRest(s[i + 1..], depth, cur + [s[i]])
  {
    var rest := s[i..];
    assert rest[0] == s[i] && rest[1..] == s[i + 1..];
    if i + 5 <= |s| {
      assert rest[..5] == s[i..i + 5] && rest[5..] == s[i + 5..];
    }
  }

  /** One step of the scan at a position that is not a top-level ` AND `. */
  lemma SplitStep(s: string, i: nat, cur: string)
    requires i < |s| && !TopLevelAndAt(s, i)
    ensures SplitRest(s[i..], DepthAt(s, i), cur) == SplitRest(s[i + 1..], DepthAt(s, i + 1), cur + [s[i]])
  {
    SplitRestAt(s, i, DepthAt(s, i), cur);
    assert DepthAt(s, i + 1) == DepthAt(s, i) + Delta(s[i]);
  }

  /** The scan at a top-level ` AND `. */
  lemma SplitAtAnd(s: string, e: nat, cur: string)
    requires TopLevelAndAt(s, e)
    ensures SplitRest(s[e..], DepthAt(s, e), cur) == Emit(cur) + SplitRest(s[e + 5..], 0, "")
  {
    SplitRestAt(s, e, DepthAt(s, e), cur);
    assert s[e] == s[e..e + 5][0] == ' ';
  }

  /** Moving one character from the text into the builder. */
  lemma ShiftChar(cur: string, s: string, i: nat, e: nat)
    requires i < e <= |s|
    ensures cur + [s[i]] + s[i + 1..e] == cur + s[i..e]
  {
    ConcatAssoc(cur, [s[i]], s[i + 1..e]);
    assert [s[i]] + s[i + 1..e] == s[i..e];
  }

  /** Scanning up to index `e` with no top-level ` AND ` in between keeps
      collecting into the builder. */
  lemma {:induction false} SplitUpTo(s: string, i: nat, cur: string, e: nat)
    requires i <= e <= |s|
    requires forall j :: i <= j < e ==> !TopLevelAndAt(s, j)
    ensures e == |s| ==> SplitRest(s[i..], DepthAt(s, i), cur) == Emit(cur + s[i..])
    ensures TopLevelAndAt(s, e) ==>
      SplitRest(s[i..], DepthAt(s, i), cur) == Emit(cur + s[i..e]) + SplitRest(s[e + 5..], 0, "")
    decreases e - i
  {
    if i == e {
      assert s[i..e] == [] && cur + [] == cur;
      if e == |s| {
        assert s[i..] == [];
      }
      if TopLevelAndAt(s, e) {
        SplitAtAnd(s, e, cur);
      }
    } else {
      SplitStep(s, i, cur);
      SplitUpTo(s, i + 1, cur + [s[i]], e);
      ShiftChar(cur, s, i, e);
      if e == |s| {
        assert s[i..] == s[i..e] && s[i + 1..] == s[i + 1..e];
      }
    }
  }

  /** Without a top-level ` AND `, the whole clause is one condition (or none). */
  lemma SplitWithoutTopLevelAnd(s: string)
    requires forall j :: 0 <= j <= |s| ==> !TopLevelAndAt(s, j)
    ensures SplitWhere(s) == Emit(s)
    ensures |SplitWhere(s)| <= 1
  {
    assert DepthAt(s, 0) == 0 && s[0..] == s;
    SplitUpTo(s, 0, "", |s|);
    assert "" + s == s;
  }

  /** The split happens at the first top-level ` AND `, and the rest is split
      on its own. */
  lemma SplitAtFirstTopLevelAnd(s: string, e: nat)
    requires TopLevelAndAt(s, e)
    requires forall j :: 0 <= j < e ==> !TopLevelAndAt(s, j)
    ensures SplitWhere(s) == Emit(s[..e]) + SplitWhere(s[e + 5..])
  {
    assert DepthAt(s, 0) == 0 && s[0..] == s;
    SplitUpTo(s, 0, "", e);
    assert "" + s[0..e] == s[..e];
  }

  /** Whether `s` has a top-level ` AND `. */
  predicate HasTopLevelAnd(s: string) {
    exists j :: 0 <= j <= |s| && TopLevelAndAt(s, j)
  }

  lemma NoTopLevelAndOnePiece(s: string)
    requires !HasTopLevelAnd(s)
    ensures |SplitWhere(s)| <= 1
  {
    SplitWithoutTopLevelAnd(s);
  }

  /** The counting scan of `normalizeMainWhereClause` that breaks at the
      first top-level ` AND `. */
  method FindTopLevelAnd(inner: string) returns (hasTopLevelAnd: bool)
    ensures hasTopLevelAnd == HasTopLevelAnd(inner)
  {
    var parenCount := 0;
    hasTopLevelAnd := false;
    var i := 0;
    while i < |inner|
      invariant 0 <= i <= |inner|
      invariant parenCount == DepthAt(inner, i)
      invariant forall j :: 0 <= j < i ==> !TopLevelAndAt(inner, j)
    {
      if inner[i] == '(' {
        parenCount := parenCount + 1;
      } else if inner[i] == ')' {
        parenCount := parenCount - 1;
      } else if parenCount == 0 && i + 5 <= |inner| && inner[i..i + 5] == " AND " {
        hasTopLevelAnd := true;
        assert TopLevelAndAt(inner, i);
        break;
      }
      i := i + 1;
    }
    if !hasTopLevelAnd {
      assert !TopLevelAndAt(inner, |inner|);
    }
  }

  // ---------------------------------------------------------------------
  // flattenAndExtractConditions

  /** What `flattenAndExtractConditions` returns: a flattened condition
      that no longer splits. */
  predicate Extracted(c: string) {
    Flattened(c) == c && |SplitWhere(c)| <= 1
  }

  /** `flattenAndExtractConditions`: flatten, split at top-level ` AND `, and
      recurse on the pieces when there is more than one. */
  function FlattenAndExtract(cond: string): (r: seq<string>)
    ensures |r| >= 1
    ensures forall k :: 0 <= k < |r| ==> Extracted(r[k])
    decreases |cond|, 1, 0
  {
    var c := Flattened(cond);
    var parts := SplitWhere(c);
    if |parts| > 1 then
      FlattenAll(parts, |cond|)
    else
      FlattenedIdempotent(cond);
      [c]
  }

  /** The loop over the parts, every one of which is shorter than `bound`. */
  function FlattenAll(parts: seq<string>, bound: nat): (r: seq<string>)
    requires forall k :: 0 <= k < |parts| ==> |parts[k]| < bound
    ensures |r| >= |parts|
    ensures forall k :: 0 <= k < |r| ==> Extracted(r[k])
    decreases bound, 0, |parts|
  {
    if parts == [] then []
    else
      var head := FlattenAndExtract(parts[0]);
      var tail := FlattenAll(parts[1..], bound);
      assert forall k :: 0 <= k < |head + tail| ==> (head + tail)[k] in head || (head + tail)[k] in tail;
      head + tail
  }

  /** A condition with nothing to peel and nothing to split is returned as it is. */
  lemma ExtractAtomic(cond: string)
    requires Trimmed(cond) && !Wrapped(cond) && !HasTopLevelAnd(cond)
    ensures FlattenAndExtract(cond) == [cond]
  {
    FlattenedFixedPoint(cond);
    NoTopLevelAndOnePiece(cond);
  }

  // ---------------------------------------------------------------------
  // removeDuplicateConditions

  /** The trimmed entries not yet seen, first occurrences only. */
  function DedupFrom(conds: seq<string>, seen: set<string>): (r: seq<string>)
    ensures Distinct(r)
    ensures forall k :: 0 <= k < |r| ==> r[k] != "" && Trimmed(r[k]) && r[k] !in seen
  {
    if conds == [] then []
    else
      var c := TrimSpace(conds[0]);
      if c != "" && c !in seen then [c] + DedupFrom(conds[1..], seen + {c})
      else DedupFrom(conds[1..], seen)
  }

  /** Some entry of `conds` trims to `x`. */
  predicate Mentions(conds: seq<string>, x: string) {
    exists k :: 0 <= k < |conds| && TrimSpace(conds[k]) == x
  }

  /** The entries of `DedupFrom` are exactly the non-empty trimmed inputs
      not in `seen`. */
  lemma {:induction false} DedupFromMembers(conds: seq<string>, seen: set<string>)
    ensures forall x :: x in DedupFrom(conds, seen) <==> x != "" && x !in seen && Mentions(conds, x)
  {
    if conds != [] {
      var c := TrimSpace(conds[0]);
      if c != "" && c !in seen {
        DedupFromMembers(conds[1..], seen + {c});
      } else {
        DedupFromMembers(conds[1..], seen);
      }
      assert forall k :: 1 <= k < |conds| ==> conds[k] == conds[1..][k - 1];
      assert forall k :: 0 <= k < |conds[1..]| ==> conds[1..][k] == conds[k + 1];
    }
  }

  /** The result of `removeDuplicateConditions`. */
  function Dedup(conds: seq<string>): (r: seq<string>)
    ensures Distinct(r)
    ensures forall k :: 0 <= k < |r| ==> r[k] != "" && Trimmed(r[k])
  {
    DedupFrom(conds, {})
  }

  /** Nothing is lost but blanks and repeats: the entries of the result are
      exactly the non-blank trimmed conditions. */
  lemma DedupMembers(conds: seq<string>)
    ensures forall x :: x in Dedup(conds) <==> x != "" && Mentions(conds, x)
  {
    DedupFromMembers(conds, {});
  }

  /** A later copy of a condition already met, or already seen, or blank,
      is dropped: the first occurrence is the one kept. */
  lemma {:induction false} DedupFromSkips(a: seq<string>, x: string, b: seq<string>, seen: set<string>)
    requires TrimSpace(x) == "" || TrimSpace(x) in seen || Mentions(a, TrimSpace(x))
    ensures DedupFrom(a + [x] + b, seen) == DedupFrom(a + b, seen)
    decreases |a|
  {
    var s := a + [x] + b;
    var c := TrimSpace(x);
    if a == [] {
      assert s == [x] + b && s[1..] == b && a + b == b;
    } else {
      var c0 := TrimSpace(a[0]);
      assert s[0] == a[0] && s[1..] == a[1..] + [x] + b;
      assert (a + b)[0] == a[0] && (a + b)[1..] == a[1..] + b;
      var seen' := if c0 != "" && c0 !in seen then seen + {c0} else seen;
      assert c == "" || c in seen' || Mentions(a[1..], c) by {
        if Mentions(a, c) && c != "" && c !in seen' {
          var k :| 0 <= k < |a| && TrimSpace(a[k]) == c;
          assert k != 0;
          assert TrimSpace(a[1..][k - 1]) == c;
        }
      }
      DedupFromSkips(a[1..], x, b, seen');
    }
  }

  /** In `removeDuplicateConditions` the first occurrence wins: a condition
      that trims to one met earlier adds nothing. */
  lemma DedupKeepsFirst(a: seq<string>, x: string, b: seq<string>)
    requires Mentions(a, TrimSpace(x))
    ensures Dedup(a + [x] + b) == Dedup(a + b)
  {
    DedupFromSkips(a, x, b, {});
  }

  /** `removeDuplicateConditions`, with the `seen` map. */
  method RemoveDuplicateConditions(conditions: seq<string>) returns (result: seq<string>)
    ensures result == Dedup(conditions)
  {
    var seen: map<string, bool> := map[];
    result := [];
    var i := 0;
    assert conditions[0..] == conditions && seen.Keys == {};
    while i < |conditions|
      invariant 0 <= i <= |conditions|
      invariant forall c :: c in seen ==> seen[c]
      invariant result + DedupFrom(conditions[i..], seen.Keys) == Dedup(conditions)
    {
      var cond := TrimSpace(conditions[i]);
      assert conditions[i..][1..] == conditions[i + 1..];
      ghost var rest := DedupFrom(conditions[i..], seen.Keys);
      if cond != "" && !(cond in seen && seen[cond]) {
        ghost var keys := seen.Keys + {cond};
        assert rest == [cond] + DedupFrom(conditions[i + 1..], keys);
        ConcatAssoc(result, [cond], DedupFrom(conditions[i + 1..], keys));
        seen := seen[cond := true];
        assert seen.Keys == keys;
        result := result + [cond];
      } else {
        assert rest == DedupFrom(conditions[i + 1..], seen.Keys);
      }
      i := i + 1;
    }
  }
  // ---------------------------------------------------------------------
  // characters the helpers cannot bring in

  lemma {:induction false} FlattenedLacks(s: string, c: char)
    requires c !in s
    ensures c !in Flattened(s)
    decreases |s|
  {
    var t := TrimSpace(s);
    TrimSpaceLacks(s, c);
    if Wrapped(t) {
      SliceLacks(t, c, 1, |t| - 1);
      FlattenedLacks(t[1..|t| - 1], c);
    }
  }

  lemma CleanStepLacks(s: string, c: char)
    requires s != [] && !Clean(s) && Trimmed(s) && c !in s
    ensures c !in CleanStep(s)
  {
    var d := DropLeadingClose(s);
    if s[0] == ')' {
      SliceLacks(s, c, 1, |s|);
      TrimSpaceLacks(s[1..], c);
    }
    if |d| > 0 && d[|d| - 1] == '(' {
      SliceLacks(d, c, 0, |d| - 1);
      TrimSpaceLacks(d[..|d| - 1], c);
    }
  }

  lemma {:induction false} CleanLoopLacks(s: string, c: char)
    requires Trimmed(s) && c !in s
    ensures c !in CleanLoop(s)
    decreases |s|
  {
    if |s| > 0 && (s[0] == ')' || s[|s| - 1] == '(') {
      CleanStepLacks(s, c);
      CleanLoopLacks(CleanStep(s), c);
    }
  }

  lemma CleanedLacks(s: string, c: char)
    requires c !in s
    ensures c !in Cleaned(s)
  {
    TrimSpaceLacks(s, c);
    CleanLoopLacks(TrimSpace(s), c);
  }

  lemma EmitLacks(cur: string, c: char)
    requires c !in cur
    ensures NoneHas(Emit(cur), c)
  {
    if |cur| > 0 {
      TrimSpaceLacks(cur, c);
      CleanedLacks(TrimSpace(cur), c);
    }
  }

  lemma {:induction false} SplitRestLacks(rest: string, depth: int, cur: string, c: char)
    requires c !in rest && c !in cur
    ensures NoneHas(SplitRest(rest, depth, cur), c)
    decreases |rest|
  {
    if rest == [] {
      EmitLacks(cur, c);
    } else {
      SliceLacks(rest, c, 1, |rest|);
      assert c !in cur + [rest[0]];
      if rest[0] == '(' {
        SplitRestLacks(rest[1..], depth + 1, cur + [rest[0]], c);
      } else if rest[0] == ')' {
        SplitRestLacks(rest[1..], depth - 1, cur + [rest[0]], c);
      } else if depth == 0 && 5 <= |rest| && rest[..5] == " AND " {
        SliceLacks(rest, c, 5, |rest|);
        EmitLacks(cur, c);
        SplitRestLacks(rest[5..], 0, "", c);
        NoneHasConcat(Emit(cur), SplitRest(rest[5..], 0, ""), c);
      } else {
        SplitRestLacks(rest[1..], depth, cur + [rest[0]], c);
      }
    }
  }

  lemma SplitWhereLacks(s: string, c: char)
    requires c !in s
    ensures NoneHas(SplitWhere(s), c)
  {
    SplitRestLacks(s, 0, "", c);
  }

  lemma {:induction false} FlattenAndExtractLacks(cond: string, c: char)
    requires c !in cond
    ensures NoneHas(FlattenAndExtract(cond), c)
    decreases |cond|, 1, 0
  {
    var f := Flattened(cond);
    FlattenedLacks(cond, c);
    var parts := SplitWhere(f);
    if |parts| > 1 {
      SplitWhereLacks(f, c);
      FlattenAllLacks(parts, |cond|, c);
    }
  }

  lemma {:induction false} FlattenAllLacks(parts: seq<string>, bound: nat, c: char)
    requires forall k :: 0 <= k < |parts| ==> |parts[k]| < bound
    requires NoneHas(parts, c)
    ensures NoneHas(FlattenAll(parts, bound), c)
    decreases bound, 0, |parts|
  {
    if parts != [] {
      NoneHasTail(parts, c);
      FlattenAndExtractLacks(parts[0], c);
      FlattenAllLacks(parts[1..], bound, c);
      NoneHasConcat(FlattenAndExtract(parts[0]), FlattenAll(parts[1..], bound), c);
    }
  }

  lemma {:induction false} DedupFromLacks(conds: seq<string>, seen: set<string>, c: char)
    requires NoneHas(conds, c)
    ensures NoneHas(DedupFrom(conds, seen), c)
  {
    if conds != [] {
      NoneHasTail(conds, c);
      var t := TrimSpace(conds[0]);
      TrimSpaceLacks(conds[0], c);
      if t != "" && t !in seen {
        DedupFromLacks(conds[1..], seen + {t}, c);
        NoneHasCons(t, DedupFrom(conds[1..], seen + {t}), c);
      } else {
        DedupFromLacks(conds[1..], seen, c);
      }
    }
  }

  lemma DedupLacks(conds: seq<string>, c: char)
    requires NoneHas(conds, c)
    ensures NoneHas(Dedup(conds), c)
  {
    DedupFromLacks(conds, {}, c);
  }
}
