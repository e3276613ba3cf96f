/** `normalizeJoinOrder`, `extractJoinClauses` and `extractJoinTypeAndTable`
    (common/query_manager.go): cut the FROM section into JOIN fragments and
    emit them sorted by join type and table name. */
module JoinOrder {

  import opened GoStrings
  import opened Sorting

  /** The keywords of `extractJoinClauses`, in the order they are scanned. */
  const JoinKeywords: seq<string> :=
    [" LEFT OUTER JOIN ", " RIGHT OUTER JOIN ", " LEFT JOIN ", " RIGHT JOIN ", " INNER JOIN ", " JOIN "]

  lemma KeywordsNonEmpty()
    ensures forall k :: 0 <= k < |JoinKeywords| ==> JoinKeywords[k] != []
  {
  }

  // ---------------------------------------------------------------------
  // extractJoinClauses

  /** The first occurrence of `t` at or after `idx`, in the coordinates of
      `s`, or -1: what `idx + strings.Index(s[idx:], t)` gives. */
  function IndexFrom(s: string, t: string, idx: nat): (r: int)
    requires idx <= |s|
    ensures r == -1 || (idx <= r && r + |t| <= |s|)
    decreases |s| - idx
  {
    if idx + |t| > |s| then -1
    else if s[idx..idx + |t|] == t then idx
    else IndexFrom(s, t, idx + 1)
  }

  /** `IndexFrom` agrees with `strings.Index` on the rest of the string. */
  lemma {:induction false} IndexFromIndex(s: string, t: string, idx: nat)
    requires idx <= |s|
    ensures var w := Index(s[idx..], t);
      IndexFrom(s, t, idx) == if w == -1 then -1 else idx + w
    decreases |s| - idx
  {
    var u := s[idx..];
    if idx + |t| <= |s| {
      assert u[..|t|] == s[idx..idx + |t|];
    }
    if idx + |t| > |s| {
    } else if s[idx..idx + |t|] == t {
      assert HasPrefix(u, t);
    } else {
      assert !HasPrefix(u, t);
      assert u != [];
      assert u[1..] == s[idx + 1..];
      IndexFromIndex(s, t, idx + 1);
    }
  }

  /** What `IndexFrom` finds: an occurrence, and none before it. */
  lemma {:induction false} IndexFromFound(s: string, t: string, idx: nat)
    requires idx <= |s|
    ensures var r := IndexFrom(s, t, idx);
      && (r >= 0 ==> HasPrefix(s[r..], t))
      && (forall j :: idx <= j <= |s| && (r == -1 || j < r) ==> !HasPrefix(s[j..], t))
    decreases |s| - idx
  {
    assert idx + |t| <= |s| ==> s[idx..][..|t|] == s[idx..idx + |t|];
    if idx + |t| <= |s| && s[idx..idx + |t|] != t {
      IndexFromFound(s, t, idx + 1);
    }
  }

  /** The positions the scan for one keyword records from `idx` on: each
      search resumes after the previous match. */
  function HitsFrom(s: string, kw: string, idx: nat): seq<int>
    requires kw != [] && idx <= |s|
    decreases |s| - idx
  {
    var p := IndexFrom(s, kw, idx);
    if p == -1 then [] else [p] + HitsFrom(s, kw, p + |kw|)
  }

  /** Every recorded position is an occurrence of the keyword, and the
      recorded occurrences do not overlap. */
  lemma {:induction false} HitsAreOccurrences(s: string, kw: string, idx: nat)
    requires kw != [] && idx <= |s|
    ensures forall k :: 0 <= k < |HitsFrom(s, kw, idx)| ==> idx <= HitsFrom(s, kw, idx)[k] <= |s|
    ensures forall k :: 0 <= k < |HitsFrom(s, kw, idx)| ==> HasPrefix(s[HitsFrom(s, kw, idx)[k]..], kw)
    ensures forall k :: 0 <= k < |HitsFrom(s, kw, idx)| - 1 ==>
      HitsFrom(s, kw, idx)[k] + |kw| <= HitsFrom(s, kw, idx)[k + 1]
    decreases |s| - idx
  {
    var p := IndexFrom(s, kw, idx);
    if p != -1 {
      IndexFromFound(s, kw, idx);
      HitsAreOccurrences(s, kw, p + |kw|);
      var r := HitsFrom(s, kw, idx);
      assert r == [p] + HitsFrom(s, kw, p + |kw|);
    }
  }

  /** Position `j` lies inside one of the `w`-wide spans starting at `r`. */
  predicate Covered(r: seq<int>, j: nat, w: nat) {
    exists k :: 0 <= k < |r| && r[k] <= j < r[k] + w
  }

  /** The scan misses no occurrence: every occurrence overlaps a recorded one. */
  lemma {:induction false} HitsCover(s: string, kw: string, idx: nat, j: nat)
    requires kw != [] && idx <= j <= |s| && HasPrefix(s[j..], kw)
    ensures Covered(HitsFrom(s, kw, idx), j, |kw|)
    decreases |s| - idx
  {
    IndexFromFound(s, kw, idx);
    var h := IndexFrom(s, kw, idx);
    var r := HitsFrom(s, kw, idx);
    assert r == [h] + HitsFrom(s, kw, h + |kw|);
    if j >= h + |kw| {
      var t := HitsFrom(s, kw, h + |kw|);
      HitsCover(s, kw, h + |kw|, j);
      var k :| 0 <= k < |t| && t[k] <= j < t[k] + |kw|;
      assert r[k + 1] == t[k];
    } else {
      assert r[0] <= j < r[0] + |kw|;
    }
  }

  /** The positions of all keywords, keyword by keyword. */
  function AllHits(s: string, kws: seq<string>): seq<int>
    requires forall k :: 0 <= k < |kws| ==> kws[k] != []
  {
    if kws == [] then []
    else AllHits(s, kws[..|kws| - 1]) + HitsFrom(s, kws[|kws| - 1], 0)
  }

  /** The hits of one more keyword come after those of the keywords before it. */
  lemma AllHitsSnoc(s: string, kws: seq<string>, n: nat)
    requires forall k :: 0 <= k < |kws| ==> kws[k] != []
    requires n < |kws|
    ensures AllHits(s, kws[..n + 1]) == AllHits(s, kws[..n]) + HitsFrom(s, kws[n], 0)
  {
    assert kws[..n + 1][..n] == kws[..n];
  }

  /** Every recorded position lies in the string. */
  lemma {:induction false} AllHitsBounded(s: string, kws: seq<string>)
    requires forall k :: 0 <= k < |kws| ==> kws[k] != []
    ensures forall k :: 0 <= k < |AllHits(s, kws)| ==> 0 <= AllHits(s, kws)[k] <= |s|
  {
    if kws != [] {
      var front, last := AllHits(s, kws[..|kws| - 1]), HitsFrom(s, kws[|kws| - 1], 0);
      AllHitsBounded(s, kws[..|kws| - 1]);
      HitsAreOccurrences(s, kws[|kws| - 1], 0);
      assert forall k :: 0 <= k < |last| ==> 0 <= last[k] <= |s|;
      assert AllHits(s, kws) == front + last;
      forall k | 0 <= k < |front + last| ensures 0 <= (front + last)[k] <= |s| {
        if k >= |front| {
          assert (front + last)[k] == last[k - |front|];
        } else {
          assert (front + last)[k] == front[k];
          assert 0 <= AllHits(s, kws[..|kws| - 1])[k] <= |s|;
        }
      }
    }
  }

  /** A position is recorded exactly when the scan for one of the keywords
      records it. */
  lemma {:induction false} AllHitsMembers(s: string, kws: seq<string>, x: nat)
    requires forall k :: 0 <= k < |kws| ==> kws[k] != []
    ensures x in AllHits(s, kws) <==> exists n :: 0 <= n < |kws| && x in HitsFrom(s, kws[n], 0)
  {
    if kws != [] {
      var front := kws[..|kws| - 1];
      AllHitsMembers(s, front, x);
      assert forall n :: 0 <= n < |front| ==> front[n] == kws[n];
    }
  }

  predicate IntLe(a: int, b: int) {
    a <= b
  }

  lemma IntLeTotalOrder()
    ensures TotalPreorder(IntLe)
  {
  }

  /** The recorded positions, in increasing order. */
  function Positions(s: string): (r: seq<int>)
    ensures SortedBy(r, IntLe) && multiset(r) == multiset(AllHits(s, JoinKeywords))
    ensures |r| == |AllHits(s, JoinKeywords)|
    ensures forall k :: 0 <= k < |r| ==> 0 <= r[k] <= |s|
  {
    IntLeTotalOrder();
    AllHitsBounded(s, JoinKeywords);
    var r := SortBy(AllHits(s, JoinKeywords), IntLe);
    assert forall k :: 0 <= k < |r| ==> r[k] in multiset(AllHits(s, JoinKeywords));
    r
  }

  /** Fragment `i` runs from position `i` to the next position (or the end),
      trimmed. */
  function FragmentsFrom(s: string, ps: seq<int>, i: nat): (r: seq<string>)
    requires i <= |ps| && SortedBy(ps, IntLe)
    requires forall k :: 0 <= k < |ps| ==> 0 <= ps[k] <= |s|
    ensures |r| == |ps| - i
    ensures forall k :: 0 <= k < |r| ==> Trimmed(r[k])
    decreases |ps| - i
  {
    if i == |ps| then []
    else
      var end := if i + 1 < |ps| then ps[i + 1] else |s|;
      [TrimSpace(s[ps[i]..end])] + FragmentsFrom(s, ps, i + 1)
  }

  /** The result of `extractJoinClauses`. */
  function JoinClauses(fromSection: string): (r: seq<string>)
    ensures |r| == |AllHits(fromSection, JoinKeywords)|
    ensures forall k :: 0 <= k < |r| ==> Trimmed(r[k])
  {
    FragmentsFrom(fromSection, Positions(fromSection), 0)
  }

  /** The scan as the loop runs it: `acc` holds the positions recorded so far. */
  function ScanFrom(s: string, kw: string, idx: nat, acc: seq<int>): seq<int>
    requires kw != [] && idx <= |s|
    decreases |s| - idx
  {
    var p := IndexFrom(s, kw, idx);
    if p == -1 then acc else ScanFrom(s, kw, p + |kw|, acc + [p])
  }

  /** The loop's accumulated positions followed by the rest of the scan. */
  lemma {:induction false} ScanFromHits(s: string, kw: string, idx: nat, acc: seq<int>)
    requires kw != [] && idx <= |s|
    ensures ScanFrom(s, kw, idx, acc) == acc + HitsFrom(s, kw, idx)
    decreases |s| - idx
  {
    var p := IndexFrom(s, kw, idx);
    if p == -1 {
      assert acc + [] == acc;
    } else {
      var rest := HitsFrom(s, kw, p + |kw|);
      assert HitsFrom(s, kw, idx) == [p] + rest;
      assert ScanFrom(s, kw, idx, acc) == ScanFrom(s, kw, p + |kw|, acc + [p]);
      ScanFromHits(s, kw, p + |kw|, acc + [p]);
      ConcatAssoc(acc, [p], rest);
    }
  }

  /** The inner loop of `extractJoinClauses`: the positions of one keyword,
      each search resuming after the previous match. */
  method ScanKeyword(fromSection: string, keyword: string) returns (hits: seq<int>)
    requires keyword != []
    ensures hits == ScanFrom(fromSection, keyword, 0, [])
  {
    hits := [];
    var idx := 0;
    while true
      invariant 0 <= idx <= |fromSection|
      invariant ScanFrom(fromSection, keyword, idx, hits) == ScanFrom(fromSection, keyword, 0, [])
      decreases |fromSection| - idx
    {
      // `idx + strings.Index(fromSection[idx:], keyword)`, or -1 (lemma `IndexFromIndex`)
      var found := IndexFrom(fromSection, keyword, idx);
      if found == -1 {
        break;
      }
      hits, idx := hits + [found], found + |keyword|;
    }
  }

  /** The first phase of `extractJoinClauses`: the scans for the keywords,
      one after the other. */
  method CollectPositions(fromSection: string) returns (positions: seq<int>)
    ensures positions == AllHits(fromSection, JoinKeywords)
  {
    KeywordsNonEmpty();
    positions := CollectHits(fromSection, JoinKeywords);
  }

  /** The loop of `CollectPositions` over a list of keywords. */
  method CollectHits(fromSection: string, kws: seq<string>) returns (positions: seq<int>)
    requires forall k :: 0 <= k < |kws| ==> kws[k] != []
    ensures positions == AllHits(fromSection, kws)
  {
    positions := [];
    var n := 0;
    while n < |kws|
      invariant n <= |kws|
      invariant positions == AllHits(fromSection, kws[..n])
    {
      var hits := ScanKeyword(fromSection, kws[n]);
      ScanFromHits(fromSection, kws[n], 0, []);
      AllHitsSnoc(fromSection, kws, n);
      positions := positions + hits;
      n := n + 1;
    }
    assert kws[..n] == kws;
  }

  /** The last phase of `extractJoinClauses`: cut the section at the sorted
      positions. */
  method CutFragments(fromSection: string, positions: seq<int>) returns (joins: seq<string>)
    requires SortedBy(positions, IntLe)
    requires forall k :: 0 <= k < |positions| ==> 0 <= positions[k] <= |fromSection|
    ensures joins == FragmentsFrom(fromSection, positions, 0)
  {
    joins := [];
    var i := 0;
    while i < |positions|
      invariant i <= |positions|
      invariant joins + FragmentsFrom(fromSection, positions, i) == FragmentsFrom(fromSection, positions, 0)
    {
      var start := positions[i];
      var end := |fromSection|;
      if i + 1 < |positions| {
        end := positions[i + 1];
      }
      joins := joins + [TrimSpace(fromSection[start..end])];
      i := i + 1;
    }
  }

  /** `extractJoinClauses`: a scan per keyword, a sort, and the cut. */
  method ExtractJoinClauses(fromSection: string) returns (joins: seq<string>)
    ensures joins == JoinClauses(fromSection)
  {
    var positions := CollectPositions(fromSection);
    IntLeTotalOrder();
    positions := SortBy(positions, IntLe);
    assert positions == Positions(fromSection);
    joins := CutFragments(fromSection, positions);
  }

  // ---------------------------------------------------------------------
  // extractJoinTypeAndTable

  /** The table name: up to the first ` ON `, trimmed, and cut before ` AS `. */
  function TableName(rest: string): (r: string)
    ensures !Contains(r, " ON ") && !Contains(r, " AS ")
    ensures var t := TrimSpace(Split(rest, " ON ")[0]);
      HasPrefix(t, r) && (r == t || HasPrefix(t[|r|..], " AS ")) &&
      forall j {:trigger HasPrefix(t[j..], " AS ")} :: 0 <= j < |r| ==> !HasPrefix(t[j..], " AS ")
  {
    var piece := Split(rest, " ON ")[0];
    var t := TrimSpace(piece);
    TrimSpaceNotContains(piece, " ON ");
    var idx := Index(t, " AS ");
    if idx != -1 then
      NotContainsSlice(t, " ON ", 0, idx);
      assert t[0..idx] == t[..idx];
      NotContainsBeforeIndex(t, " AS ");
      t[..idx]
    else
      t
  }

  /** A string starts with the first character of each of its prefixes. */
  lemma PrefixHead(c: string)
    ensures forall p :: p != [] && HasPrefix(c, p) ==> c[0] == p[0]
  {
    forall p | p != [] && HasPrefix(c, p) ensures c[0] == p[0] {
      assert c[..|p|][0] == c[0];
    }
  }

  /** The join type `extractJoinTypeAndTable` reads off a clause's leading
      keywords: `LEFT`, `RIGHT` or `INNER`, and `""` for anything else. */
  function JoinType(c: string): (t: string)
    ensures t == "LEFT" <==> HasPrefix(c, "LEFT OUTER JOIN ") || HasPrefix(c, "LEFT JOIN ")
    ensures t == "RIGHT" <==> HasPrefix(c, "RIGHT OUTER JOIN ") || HasPrefix(c, "RIGHT JOIN ")
    ensures t == "INNER" <==> HasPrefix(c, "INNER JOIN ") || HasPrefix(c, "JOIN ")
    ensures t in {"LEFT", "RIGHT", "INNER", ""}
  {
    PrefixHead(c);
    if HasPrefix(c, "LEFT OUTER JOIN ") || HasPrefix(c, "LEFT JOIN ") then "LEFT"
    else if HasPrefix(c, "RIGHT OUTER JOIN ") || HasPrefix(c, "RIGHT JOIN ") then "RIGHT"
    else if HasPrefix(c, "INNER JOIN ") || HasPrefix(c, "JOIN ") then "INNER"
    else ""
  }

  /** The table name `extractJoinTypeAndTable` reads after those keywords;
      `""` for a clause of no known type. */
  function JoinTable(c: string): (n: string)
    ensures JoinType(c) == "" ==> n == ""
    ensures !Contains(n, " ON ") && !Contains(n, " AS ")
  {
    if HasPrefix(c, "LEFT OUTER JOIN ") then TableName(c[16..])
    else if HasPrefix(c, "LEFT JOIN ") then TableName(c[10..])
    else if HasPrefix(c, "RIGHT OUTER JOIN ") then TableName(c[17..])
    else if HasPrefix(c, "RIGHT JOIN ") then TableName(c[11..])
    else if HasPrefix(c, "INNER JOIN ") then TableName(c[11..])
    else if HasPrefix(c, "JOIN ") then TableName(c[5..])
    else
      assert Index("", " AS ") == -1;
      ""
  }

  /** The pair `extractJoinTypeAndTable` returns. */
  function JoinTypeAndTable(c: string): (string, string) {
    (JoinType(c), JoinTable(c))
  }

  // ---------------------------------------------------------------------
  // the comparator of the sort.Slice call

  /** The comparator: by join type, then by table name. */
  predicate KeyLess(a: (string, string), b: (string, string)) {
    if a.0 != b.0 then Less(a.0, b.0) else Less(a.1, b.1)
  }

  /** `x` may come before `y`: `y` does not sort strictly before `x`. */
  predicate JoinLe(x: string, y: string) {
    !KeyLess(JoinTypeAndTable(y), JoinTypeAndTable(x))
  }

  lemma KeyLessAsymmetric(a: (string, string), b: (string, string))
    ensures !(KeyLess(a, b) && KeyLess(b, a))
  {
    LessAsymmetric(a.0, b.0);
    LessAsymmetric(a.1, b.1);
  }

  /** Not strictly after is transitive for the lexicographic pair order. */
  lemma KeyLeTransitive(a: (string, string), b: (string, string), c: (string, string))
    requires !KeyLess(b, a) && !KeyLess(c, b)
    ensures !KeyLess(c, a)
  {
    LessTotal(a.0, b.0);
    LessTotal(b.0, c.0);
    LessTotal(a.1, b.1);
    LessTotal(b.1, c.1);
    LessTransitive(c.0, b.0, a.0);
    LessTransitive(c.1, b.1, a.1);
    LessTransitive(a.0, b.0, c.0);
    LessAsymmetric(a.0, c.0);
    LessAsymmetric(a.1, c.1);
    LessTransitive(a.1, b.1, c.1);
    if a.0 == c.0 && a.0 != b.0 {
      LessAsymmetric(a.0, b.0);
    }
  }

  lemma JoinLeTotalPreorder()
    ensures TotalPreorder(JoinLe)
  {
    forall x, y ensures JoinLe(x, y) || JoinLe(y, x) {
      KeyLessAsymmetric(JoinTypeAndTable(x), JoinTypeAndTable(y));
    }
    forall x, y, z | JoinLe(x, y) && JoinLe(y, z) ensures JoinLe(x, z) {
      KeyLeTransitive(JoinTypeAndTable(x), JoinTypeAndTable(y), JoinTypeAndTable(z));
    }
  }

  /** The JOINs after the sort: ordered by (type, table), same fragments. */
  function SortedJoins(joins: seq<string>): (r: seq<string>)
    ensures SortedBy(r, JoinLe) && multiset(r) == multiset(joins)
  {
    JoinLeTotalPreorder();
    SortBy(joins, JoinLe)
  }

  // ---------------------------------------------------------------------
  // normalizeJoinOrder

  /** Each fragment preceded by a space, as the builder writes them. */
  function Spaced(joins: seq<string>): (r: string)
    ensures joins == [] ==> r == ""
  {
    if joins == [] then "" else " " + joins[0] + Spaced(joins[1..])
  }

  /** Where the FROM section ends: the first ` WHERE ` after ` FROM `, else
      the first ` ORDER BY `, else the end of the query. */
  function FromSectionEnd(query: string, searchStart: nat): (e: nat)
    requires searchStart <= |query|
    ensures searchStart <= e <= |query|
    ensures e < |query| ==> HasPrefix(query[e..], " WHERE ") || HasPrefix(query[e..], " ORDER BY ")
    ensures Contains(query[searchStart..], " WHERE ") ==> FirstFrom(query, " WHERE ", searchStart, e)
    ensures !Contains(query[searchStart..], " WHERE ") && Contains(query[searchStart..], " ORDER BY ") ==>
      FirstFrom(query, " ORDER BY ", searchStart, e)
    ensures !Contains(query[searchStart..], " WHERE ") && !Contains(query[searchStart..], " ORDER BY ") ==>
      e == |query|
  {
    var rest := query[searchStart..];
    var w := Index(rest, " WHERE ");
    var o := Index(rest, " ORDER BY ");
    IndexInSuffix(query, searchStart, " WHERE ");
    IndexInSuffix(query, searchStart, " ORDER BY ");
    var e := if w != -1 then searchStart + w else if o != -1 then searchStart + o else |query|;
    assert e < |query| ==> query[e..] == rest[e - searchStart..];
    e
  }

  /** Where the main table ends in the FROM section: the first ` JOIN `,
      else the first ` LEFT `, or -1. */
  function FirstJoinIndex(fromSection: string): (r: int)
    ensures -1 <= r <= |fromSection|
    ensures r == -1 <==> !Contains(fromSection, " JOIN ") && !Contains(fromSection, " LEFT ")
    ensures Contains(fromSection, " JOIN ") ==> FirstFrom(fromSection, " JOIN ", 0, r)
    ensures !Contains(fromSection, " JOIN ") && Contains(fromSection, " LEFT ") ==>
      FirstFrom(fromSection, " LEFT ", 0, r)
  {
    var j := Index(fromSection, " JOIN ");
    if j == -1 then Index(fromSection, " LEFT ") else j
  }

  /** `normalizeJoinOrder` exactly as written: `None` where the slice
      `fromSection[6:firstJoinIdx]` panics because the first join keyword
      overlaps the space that ends ` FROM `. */
  function NormalizeJoinOrderAsWritten(query: string): (r: Option<string>)
    ensures !Contains(query, " FROM ") ==> r == Some(query)
  {
    var fromIdx := Index(query, " FROM ");
    if fromIdx == -1 then Some(query)
    else RearrangeAsWritten(query, fromIdx, FromSectionEnd(query, fromIdx + 6))
  }

  /** The FROM section `query[fromIdx..whereIdx]` rearranged as written. */
  function RearrangeAsWritten(query: string, fromIdx: nat, whereIdx: nat): Option<string>
    requires fromIdx + 6 <= whereIdx <= |query|
  {
    var fromSection := query[fromIdx..whereIdx];
    var firstJoinIdx := FirstJoinIndex(fromSection);
    if firstJoinIdx == -1 then Some(query)
    else if firstJoinIdx < 6 then None
    else
      var joins := SortedJoins(JoinClauses(fromSection));
      var mainTable := TrimSpace(fromSection[6..firstJoinIdx]);
      Some(query[..fromIdx] + " FROM " + mainTable + Spaced(joins) + query[whereIdx..])
  }

  /** The main table as intended: the text between ` FROM ` and the first
      join keyword, empty when that keyword starts at the space ending
      ` FROM `. */
  function MainTable(fromSection: string, firstJoinIdx: nat): (r: string)
    requires 6 <= |fromSection| && firstJoinIdx <= |fromSection|
    ensures Trimmed(r) && |r| <= |fromSection| - 6
    ensures firstJoinIdx >= 6 ==> r == TrimSpace(fromSection[6..firstJoinIdx])
    ensures firstJoinIdx < 6 ==> r == ""
  {
    if firstJoinIdx < 6 then "" else TrimSpace(fromSection[6..firstJoinIdx])
  }

  /** `normalizeJoinOrder` with the main table cut as intended; it never
      fails. */
  function NormalizeJoinOrder(query: string): (r: string)
    ensures !Contains(query, " FROM ") ==> r == query
  {
    var fromIdx := Index(query, " FROM ");
    if fromIdx == -1 then query
    else Rearrange(query, fromIdx, FromSectionEnd(query, fromIdx + 6))
  }

  /** The FROM section `query[fromIdx..whereIdx]` rearranged as intended. */
  function Rearrange(query: string, fromIdx: nat, whereIdx: nat): string
    requires fromIdx + 6 <= whereIdx <= |query|
  {
    var fromSection := query[fromIdx..whereIdx];
    var firstJoinIdx := FirstJoinIndex(fromSection);
    if firstJoinIdx == -1 then query
    else
      var joins := SortedJoins(JoinClauses(fromSection));
      query[..fromIdx] + " FROM " + MainTable(fromSection, firstJoinIdx) + Spaced(joins) + query[whereIdx..]
  }

  /** Wherever the code as written does not panic, the corrected pass gives
      the same text. */
  lemma JoinOrderAgrees(query: string)
    ensures NormalizeJoinOrderAsWritten(query).Some? ==>
      NormalizeJoinOrderAsWritten(query).value == NormalizeJoinOrder(query)
  {
  }

  /** When the JOINs are rearranged, the text before the first ` FROM ` and
      the text from the WHERE / ORDER BY marker on are kept; between them
      come ` FROM `, the main table (the trimmed text after ` FROM ` up to the
      first ` JOIN `, else the first ` LEFT `, of the section; nothing when
      that keyword starts inside ` FROM `) and the section's fragments sorted
      by (type, table). */
  lemma JoinOrderShape(query: string) returns (f: nat, e: nat, main: string, joins: seq<string>)
    requires Contains(query, " FROM ")
    requires var f := Index(query, " FROM ");
      FirstJoinIndex(query[f..FromSectionEnd(query, f + 6)]) != -1
    ensures f + 6 <= e <= |query| && HasPrefix(query[f..], " FROM ")
    ensures forall j :: 0 <= j < f ==> !HasPrefix(query[j..], " FROM ")
    ensures e < |query| ==> HasPrefix(query[e..], " WHERE ") || HasPrefix(query[e..], " ORDER BY ")
    ensures Trimmed(main)
    ensures var k := FirstJoinIndex(query[f..e]);
      && (k >= 6 ==> main == TrimSpace(query[f + 6..f + k]))
      && (k < 6 ==> main == "")
    ensures SortedBy(joins, JoinLe)
    ensures multiset(joins) == multiset(JoinClauses(query[f..e]))
    ensures NormalizeJoinOrder(query) == query[..f] + " FROM " + main + Spaced(joins) + query[e..]
  {
    f := Index(query, " FROM ");
    e := FromSectionEnd(query, f + 6);
    FromSectionBounds(query, f, e);
    main := MainTable(query[f..e], FirstJoinIndex(query[f..e]));
    MainTableIsText(query, f, e);
    joins := SortedJoins(JoinClauses(query[f..e]));
    NormalizeJoinOrderUnfold(query, f, e);
    RearrangeShape(query, f, e);
  }

  lemma FromSectionBounds(query: string, f: nat, e: nat)
    requires Contains(query, " FROM ") && f == Index(query, " FROM ")
    requires e == FromSectionEnd(query, f + 6)
    ensures f + 6 <= e <= |query| && HasPrefix(query[f..], " FROM ")
    ensures forall j :: 0 <= j < f ==> !HasPrefix(query[j..], " FROM ")
    ensures e < |query| ==> HasPrefix(query[e..], " WHERE ") || HasPrefix(query[e..], " ORDER BY ")
  {
  }

  lemma MainTableIsText(query: string, f: nat, e: nat)
    requires f + 6 <= e <= |query| && FirstJoinIndex(query[f..e]) != -1
    ensures var k := FirstJoinIndex(query[f..e]); var main := MainTable(query[f..e], k);
      && (k >= 6 ==> main == TrimSpace(query[f + 6..f + k]))
      && (k < 6 ==> main == "")
  {
    var first := FirstJoinIndex(query[f..e]);
    if first >= 6 {
      SliceOfSlice(query, f, e, 6, first);
    }
  }

  /** Without a join keyword in the FROM section the query is kept. */
  lemma NoJoinUnchanged(query: string)
    requires Contains(query, " FROM ")
    requires var f := Index(query, " FROM ");
      var s := query[f..FromSectionEnd(query, f + 6)];
      !Contains(s, " JOIN ") && !Contains(s, " LEFT ")
    ensures NormalizeJoinOrder(query) == query
  {
  }

  /** When the first join keyword of the FROM section starts inside its
      leading ` FROM ` (a `FROM JOIN ...` with no main table), the code as
      written slices backwards and fails. */
  lemma EarlyJoinPanics(query: string, f: nat, e: nat)
    requires Index(query, " FROM ") == f
    requires f + 6 <= |query| && FromSectionEnd(query, f + 6) == e
    requires 0 <= FirstJoinIndex(query[f..e]) < 6
    ensures NormalizeJoinOrderAsWritten(query) == None
  {
    assert NormalizeJoinOrderAsWritten(query) == RearrangeAsWritten(query, f, e);
  }

  /** The corrected pass keeps ` FROM ` there and gives an empty main table. */
  lemma EarlyJoinEmptyMain(query: string, f: nat, e: nat)
    requires Index(query, " FROM ") == f
    requires f + 6 <= |query| && FromSectionEnd(query, f + 6) == e
    requires 0 <= FirstJoinIndex(query[f..e]) < 6
    ensures NormalizeJoinOrder(query) == query[..f] + " FROM " + Spaced(SortedJoins(JoinClauses(query[f..e]))) + query[e..]
  {
    NormalizeJoinOrderUnfold(query, f, e);
    RearrangeShape(query, f, e);
    assert MainTable(query[f..e], FirstJoinIndex(query[f..e])) == "";
    assert query[..f] + " FROM " + "" == query[..f] + " FROM ";
  }

  /** The rearranged text of a FROM section that has a join keyword. */
  lemma RearrangeShape(query: string, f: nat, e: nat)
    requires f + 6 <= e <= |query| && FirstJoinIndex(query[f..e]) != -1
    ensures Rearrange(query, f, e) ==
      query[..f] + " FROM " + MainTable(query[f..e], FirstJoinIndex(query[f..e])) + Spaced(SortedJoins(JoinClauses(query[f..e]))) + query[e..]
  {
  }

  /** `NormalizeJoinOrder` on a query whose FROM section has a join keyword. */
  lemma NormalizeJoinOrderUnfold(query: string, f: nat, e: nat)
    requires Index(query, " FROM ") == f
    requires f + 6 <= |query| && FromSectionEnd(query, f + 6) == e
    requires FirstJoinIndex(query[f..e]) != -1
    ensures NormalizeJoinOrder(query) == Rearrange(query, f, e)
  {
  }

  /** The panic on a concrete query: `SELECT * FROM JOIN t`. */
  lemma JoinOrderPanics(q: string)
    requires q == "SELECT * FROM JOIN t"
    ensures NormalizeJoinOrderAsWritten(q) == None
    ensures NormalizeJoinOrder(q) == q[..8] + " FROM " + Spaced(SortedJoins(JoinClauses(q[8..20]))) + q[20..]
  {
    PanicFromIndex(q);
    PanicFromSectionEnd(q);
    PanicFromSection(q);
    FirstJoinOfPanic(q[8..20]);
    EarlyJoinPanics(q, 8, 20);
    EarlyJoinEmptyMain(q, 8, 20);
  }

  lemma PanicFromIndex(q: string)
    requires q == "SELECT * FROM JOIN t"
    ensures Index(q, " FROM ") == 8
  {
    PanicQueryParts(q);
    forall j | 0 <= j < 8 ensures !HasPrefix(q[j..], " FROM ") {
      assert q[j..][..6][1] == q[j + 1];
    }
    IndexAfter("SELECT *", " FROM ", "JOIN t");
  }

  lemma PanicQueryParts(q: string)
    requires q == "SELECT * FROM JOIN t"
    ensures q == "SELECT *" + " FROM " + "JOIN t"
  {
  }

  lemma PanicFromSectionEnd(q: string)
    requires q == "SELECT * FROM JOIN t"
    ensures FromSectionEnd(q, 14) == 20
  {
    assert q[14..] == "JOIN t";
    IndexTooLong(q[14..], " WHERE ");
    IndexTooLong(q[14..], " ORDER BY ");
  }

  lemma PanicFromSection(q: string)
    requires q == "SELECT * FROM JOIN t"
    ensures q[8..20] == " FROM JOIN t"
  {
  }

  /** In ` FROM JOIN t` the first ` JOIN ` starts at 5. */
  lemma FirstJoinOfPanic(s: string)
    requires s == " FROM JOIN t"
    ensures FirstJoinIndex(s) == 5
  {
    assert s == " FROM" + " JOIN " + "t";
    forall j | 0 <= j < 5 ensures !HasPrefix(s[j..], " JOIN ") {
      assert s[j..][..6][1] == s[j + 1];
    }
    IndexAfter(" FROM", " JOIN ", "t");
  }

  // ---------------------------------------------------------------------
  // characters the pass cannot bring in

  lemma {:induction false} FragmentsLack(s: string, ps: seq<int>, i: nat, c: char)
    requires i <= |ps| && SortedBy(ps, IntLe)
    requires forall k :: 0 <= k < |ps| ==> 0 <= ps[k] <= |s|
    requires c !in s
    ensures NoneHas(FragmentsFrom(s, ps, i), c)
    decreases |ps| - i
  {
    if i < |ps| {
      var end := if i + 1 < |ps| then ps[i + 1] else |s|;
      SliceLacks(s, c, ps[i], end);
      TrimSpaceLacks(s[ps[i]..end], c);
      FragmentsLack(s, ps, i + 1, c);
      NoneHasCons(TrimSpace(s[ps[i]..end]), FragmentsFrom(s, ps, i + 1), c);
    }
  }

  lemma {:induction false} SpacedLacks(joins: seq<string>, c: char)
    requires NoneHas(joins, c) && c != ' '
    ensures c !in Spaced(joins)
    decreases |joins|
  {
    if joins != [] {
      SpacedLacks(joins[1..], c);
    }
  }

  lemma SortedJoinsLack(section: string, c: char)
    requires c !in section
    ensures NoneHas(SortedJoins(JoinClauses(section)), c)
  {
    FragmentsLack(section, Positions(section), 0, c);
    PermutationLacks(JoinClauses(section), SortedJoins(JoinClauses(section)), c);
  }

  lemma MainTableLacks(section: string, k: nat, c: char)
    requires 6 <= |section| && k <= |section| && c !in section
    ensures c !in MainTable(section, k)
  {
    if k >= 6 {
      SliceLacks(section, c, 6, k);
      TrimSpaceLacks(section[6..k], c);
    }
  }

  lemma AssembledLacks(prefix: string, main: string, joins: seq<string>, suffix: string, c: char)
    requires c !in prefix && c !in main && NoneHas(joins, c) && c !in suffix && c !in " FROM "
    ensures c !in prefix + " FROM " + main + Spaced(joins) + suffix
  {
    SpacedLacks(joins, c);
  }

  lemma RearrangedLacks(query: string, f: nat, e: nat, c: char)
    requires f + 6 <= e <= |query| && FirstJoinIndex(query[f..e]) != -1
    requires c !in query && c !in " FROM "
    ensures c !in Rearrange(query, f, e)
  {
    RearrangeShape(query, f, e);
    var section := query[f..e];
    SliceLacks(query, c, f, e);
    MainTableLacks(section, FirstJoinIndex(section), c);
    SortedJoinsLack(section, c);
    SliceLacks(query, c, e, |query|);
    SliceLacks(query, c, 0, f);
    AssembledLacks(query[..f], MainTable(section, FirstJoinIndex(section)),
      SortedJoins(JoinClauses(section)), query[e..], c);
  }

  /** `normalizeJoinOrder` brings in only the characters of ` FROM `. */
  lemma NormalizeJoinOrderLacks(query: string, c: char)
    requires c !in query && c !in " FROM "
    ensures c !in NormalizeJoinOrder(query)
  {
    var f := Index(query, " FROM ");
    if f != -1 {
      var e := FromSectionEnd(query, f + 6);
      assert NormalizeJoinOrder(query) == Rearrange(query, f, e);
      if FirstJoinIndex(query[f..e]) != -1 {
        RearrangedLacks(query, f, e, c);
      }
    }
  }

  // ---------------------------------------------------------------------
  // reordering the JOINs

  /** Two fragments each allowed before the other share their (type, table) key. */
  lemma JoinLeBothWays(x: string, y: string)
    requires JoinLe(x, y) && JoinLe(y, x)
    ensures JoinTypeAndTable(x) == JoinTypeAndTable(y)
  {
    var a := JoinTypeAndTable(x);
    var b := JoinTypeAndTable(y);
    LessTotal(a.0, b.0);
    LessTotal(a.1, b.1);
  }

  /** No two different fragments share a (type, table) key. */
  predicate KeysDistinct(joins: seq<string>) {
    forall x, y :: x in joins && y in joins && JoinTypeAndTable(x) == JoinTypeAndTable(y) ==> x == y
  }

  /** With distinct keys, the sorted order depends only on which fragments
      there are, not on the order they came in. */
  lemma SortedJoinsAgree(j1: seq<string>, j2: seq<string>)
    requires multiset(j1) == multiset(j2) && KeysDistinct(j1)
    ensures SortedJoins(j1) == SortedJoins(j2)
  {
    var a := SortedJoins(j1);
    var b := SortedJoins(j2);
    PermutationMembers(a, j1);
    forall x, y | x in a && y in a && JoinLe(x, y) && JoinLe(y, x) ensures x == y {
      JoinLeBothWays(x, y);
    }
    JoinLeTotalPreorder();
    SortedUniqueOn(a, b, JoinLe);
  }

  /** `q2` is `q1` with its JOIN fragments reordered: both have a FROM
      section with a join keyword, the same text before ` FROM `, the same
      main table, the same text after the section, and the same fragments,
      no two of them sharing a (type, table) key. */
  predicate SameJoinsReordered(q1: string, q2: string) {
    && Contains(q1, " FROM ") && Contains(q2, " FROM ")
    && var f1 := Index(q1, " FROM "); var f2 := Index(q2, " FROM ");
      var e1 := FromSectionEnd(q1, f1 + 6); var e2 := FromSectionEnd(q2, f2 + 6);
      && FirstJoinIndex(q1[f1..e1]) != -1 && FirstJoinIndex(q2[f2..e2]) != -1
      && q1[..f1] == q2[..f2] && q1[e1..] == q2[e2..]
      && MainTable(q1[f1..e1], FirstJoinIndex(q1[f1..e1])) == MainTable(q2[f2..e2], FirstJoinIndex(q2[f2..e2]))
      && multiset(JoinClauses(q1[f1..e1])) == multiset(JoinClauses(q2[f2..e2]))
      && KeysDistinct(JoinClauses(q1[f1..e1]))
  }

  /** Reordering the JOIN fragments that way does not change the result. */
  lemma JoinReorderIgnored(q1: string, q2: string)
    requires SameJoinsReordered(q1, q2)
    ensures NormalizeJoinOrder(q1) == NormalizeJoinOrder(q2)
  {
    var f1 := Index(q1, " FROM ");
    var f2 := Index(q2, " FROM ");
    var e1 := FromSectionEnd(q1, f1 + 6);
    var e2 := FromSectionEnd(q2, f2 + 6);
    var s1 := q1[f1..e1];
    var s2 := q2[f2..e2];
    assert NormalizeJoinOrder(q1) ==
      q1[..f1] + " FROM " + MainTable(s1, FirstJoinIndex(s1)) + Spaced(SortedJoins(JoinClauses(s1))) + q1[e1..] by {
      NormalizeJoinOrderUnfold(q1, f1, e1);
      RearrangeShape(q1, f1, e1);
    }
    assert NormalizeJoinOrder(q2) ==
      q2[..f2] + " FROM " + MainTable(s2, FirstJoinIndex(s2)) + Spaced(SortedJoins(JoinClauses(s2))) + q2[e2..] by {
      NormalizeJoinOrderUnfold(q2, f2, e2);
      RearrangeShape(q2, f2, e2);
    }
    SortedJoinsAgree(JoinClauses(s1), JoinClauses(s2));
  }
}
