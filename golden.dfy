/** The pure parts of `SaveToFile`, `AssertGolden` and `AssertGoldenSorted`
    (common/query_manager.go): the golden file's content, its parsing back
    into statements, and the normalised comparisons, ordered and sorted. */
module Golden {

  import opened GoStrings
  import opened Sorting
  import opened Comparison

  /** The separator between two statements of a golden file. */
  const Separator: string := ";\n"

  /** The content written for the recorded queries: joined by `;\n`, with a
      closing `;` when there is something to close. */
  function Content(queries: seq<string>): (content: string)
    ensures queries == [] ==> content == ""
    ensures content != "" ==> HasSuffix(content, ";")
  {
    var joined := Join(queries, Separator);
    if |queries| > 0 && joined != "" then joined + ";" else joined
  }

  /** The pieces that are not blank, in order. */
  function NonBlank(pieces: seq<string>): (r: seq<string>)
    ensures |r| <= |pieces|
    ensures forall k :: 0 <= k < |r| ==> !IsBlank(r[k]) && r[k] in pieces
    ensures (forall k :: 0 <= k < |pieces| ==> !IsBlank(pieces[k])) ==> r == pieces
  {
    if pieces == [] then []
    else
      var init := NonBlank(pieces[..|pieces| - 1]);
      var last := pieces[|pieces| - 1];
      assert pieces == pieces[..|pieces| - 1] + [last];
      init + (if IsBlank(last) then [] else [last])
  }

  /** The statements of a golden file: the content without its closing `;`,
      split at `;\n`, blank pieces dropped. */
  function Statements(content: string): (r: seq<string>)
    ensures forall k :: 0 <= k < |r| ==> !IsBlank(r[k]) && !Contains(r[k], Separator)
  {
    NonBlank(Split(TrimSuffix(content, ";"), Separator))
  }

  /** A statement the golden file can hold without changing the parse: not
      blank and without the separator. */
  predicate Storable(queries: seq<string>) {
    forall k :: 0 <= k < |queries| ==> !IsBlank(queries[k]) && !Contains(queries[k], Separator)
  }

  lemma {:induction false} JoinNonEmpty(parts: seq<string>, sep: string)
    requires parts != [] && parts[0] != ""
    ensures Join(parts, sep) != ""
  {
    if |parts| > 1 {
      assert Join(parts, sep) == parts[0] + sep + Join(parts[1..], sep);
    }
  }

  /** Reading back what was saved gives the saved statements, when each is
      storable. */
  lemma GoldenRoundTrip(queries: seq<string>)
    requires Storable(queries)
    ensures Statements(Content(queries)) == queries
  {
    if queries == [] {
      assert Statements("") == NonBlank([""]);
      assert IsBlank("");
    } else {
      assert queries[0] != "" by {
        assert !IsBlank(queries[0]);
      }
      JoinNonEmpty(queries, Separator);
      var joined := Join(queries, Separator);
      assert Content(queries) == joined + ";";
      assert TrimSuffix(joined + ";", ";") == joined;
      SplitJoin(queries, Separator);
    }
  }

  /** A blank recorded entry does not survive: `["a", ""]` reads back as
      `["a"]`. */
  lemma BlankEntryLost(queries: seq<string>)
    requires queries == ["a", ""]
    ensures Content(queries) == "a;\n;"
    ensures Statements(Content(queries)) == ["a"]
  {
    assert Join(queries, Separator) == "a;\n";
    assert TrimSuffix("a;\n;", ";") == "a;\n";
    SplitOfBlankPair("a;\n");
    NonBlankOfBlankPair(["a", ""]);
  }

  lemma SplitOfBlankPair(t: string)
    requires t == "a;\n"
    ensures Split(t, Separator) == ["a", ""]
  {
    assert t == "a" + Separator + "";
    FirstSeparator("a", Separator, "");
    assert t[..1] == "a" && t[3..] == "";
    assert Split("", Separator) == [""];
  }

  lemma NonBlankOfBlankPair(p: seq<string>)
    requires p == ["a", ""]
    ensures NonBlank(p) == ["a"]
  {
    assert p[..1] == ["a"] && p[..1][..0] == [];
    assert !IsBlank("a") by {
      assert TrimSpace("a") == "a";
    }
    assert IsBlank("");
  }

  lemma NonBlankStep(pieces: seq<string>, i: nat)
    requires i < |pieces|
    ensures NonBlank(pieces[..i + 1]) == NonBlank(pieces[..i]) + (if IsBlank(pieces[i]) then [] else [pieces[i]])
  {
    assert pieces[..i + 1][..i] == pieces[..i];
  }

  /** The `actualNormalized` loop: every recorded query normalised, in
      place; `norm` is `normalizeForComparison`. */
  method NormalizeEach(norm: string -> string, queries: seq<string>) returns (normalized: seq<string>)
    ensures normalized == MapSeq(norm, queries)
  {
    normalized := seq(|queries|, _ => "");
    var i := 0;
    while i < |queries|
      invariant 0 <= i <= |queries| && |normalized| == |queries|
      invariant forall k :: 0 <= k < i ==> normalized[k] == norm(queries[k])
    {
      normalized := normalized[i := norm(queries[i])];
      i := i + 1;
    }
  }

  lemma MapNonBlankStep(norm: string -> string, pieces: seq<string>, i: nat)
    requires i < |pieces|
    ensures MapSeq(norm, NonBlank(pieces[..i + 1])) ==
      MapSeq(norm, NonBlank(pieces[..i])) + (if IsBlank(pieces[i]) then [] else [norm(pieces[i])])
  {
    var done := NonBlank(pieces[..i]);
    NonBlankStep(pieces, i);
    if !IsBlank(pieces[i]) {
      MapSeqConcat(norm, done, [pieces[i]]);
      assert MapSeq(norm, [pieces[i]]) == [norm(pieces[i])];
    } else {
      assert done + [] == done;
    }
  }

  /** The `goldenNormalized` loop: the non-blank pieces of the golden file,
      normalised; `norm` is `normalizeForComparison`. */
  method NormalizeNonBlank(norm: string -> string, pieces: seq<string>) returns (normalized: seq<string>)
    ensures normalized == MapSeq(norm, NonBlank(pieces))
  {
    normalized := [];
    var i := 0;
    while i < |pieces|
      invariant 0 <= i <= |pieces|
      invariant normalized == MapSeq(norm, NonBlank(pieces[..i]))
    {
      MapNonBlankStep(norm, pieces, i);
      if TrimSpace(pieces[i]) != "" {
        normalized := normalized + [norm(pieces[i])];
      }
      i := i + 1;
    }
    assert pieces[..i] == pieces;
  }

  /** The `allMatch` loop: two lists match when they have the same length
      and agree at every position. */
  method MatchInOrder(actual: seq<string>, golden: seq<string>) returns (allMatch: bool)
    ensures allMatch <==> actual == golden
  {
    allMatch := false;
    if |actual| == |golden| {
      allMatch := true;
      var i := 0;
      while i < |actual|
        invariant 0 <= i <= |actual|
        invariant allMatch && actual[..i] == golden[..i]
      {
        if actual[i] != golden[i] {
          allMatch := false;
          break;
        }
        assert actual[..i + 1] == actual[..i] + [actual[i]];
        assert golden[..i + 1] == golden[..i] + [golden[i]];
        i := i + 1;
      }
      if allMatch {
        assert actual == actual[..i] && golden == golden[..i];
      }
    }
  }

  /** The verdict of `AssertGolden` before it falls back to comparing the
      raw text: the normalised lists agree in order. */
  predicate GoldenMatches(queries: seq<string>, content: string) {
    MapSeq(NormalizeForComparison, queries) == MapSeq(NormalizeForComparison, Statements(content))
  }

  /** `AssertGolden`'s normalised comparison. */
  method AssertGoldenMatch(queries: seq<string>, content: string) returns (matched: bool)
    ensures matched == GoldenMatches(queries, content)
  {
    var actual := NormalizeEach(NormalizeForComparison, queries);
    var golden := NormalizeNonBlank(NormalizeForComparison, Split(TrimSuffix(content, ";"), Separator));
    matched := MatchInOrder(actual, golden);
  }

  /** A golden file written from the recorded queries matches them, when
      each is storable. */
  lemma SavedGoldenMatches(queries: seq<string>)
    requires Storable(queries)
    ensures GoldenMatches(queries, Content(queries))
  {
    GoldenRoundTrip(queries);
  }

  /** The verdict of `AssertGoldenSorted` before its fallback: the queries
      are sorted, normalised and sorted again, the golden statements
      normalised and sorted, and the two lists agree. */
  predicate SortedGoldenMatches(queries: seq<string>, content: string) {
    SortStrings(MapSeq(NormalizeForComparison, SortStrings(queries)))
      == SortStrings(MapSeq(NormalizeForComparison, Statements(content)))
  }

  /** `AssertGoldenSorted`'s normalised comparison. */
  method AssertGoldenSortedMatch(queries: seq<string>, content: string) returns (matched: bool)
    ensures matched == SortedGoldenMatches(queries, content)
  {
    var actual := NormalizeEach(NormalizeForComparison, SortStrings(queries));
    actual := SortStrings(actual);
    var golden := NormalizeNonBlank(NormalizeForComparison, Split(TrimSuffix(content, ";"), Separator));
    golden := SortStrings(golden);
    matched := MatchInOrder(actual, golden);
  }

  /** Two lists of strings sort alike exactly when they hold the same
      strings the same number of times. */
  lemma SortStringsEqual(a: seq<string>, b: seq<string>)
    ensures SortStrings(a) == SortStrings(b) <==> multiset(a) == multiset(b)
  {
    if multiset(a) == multiset(b) {
      SortStringsPermutation(a, b);
    }
  }

  /** The sorted verdict holds exactly when the normalised queries and the
      normalised golden statements are the same multiset. */
  lemma SortedMatchIsMultiset(queries: seq<string>, content: string)
    ensures SortedGoldenMatches(queries, content) <==>
      multiset(MapSeq(NormalizeForComparison, queries))
        == multiset(MapSeq(NormalizeForComparison, Statements(content)))
  {
    MapSeqPermutation(NormalizeForComparison, SortStrings(queries), queries);
    SortStringsEqual(MapSeq(NormalizeForComparison, SortStrings(queries)),
      MapSeq(NormalizeForComparison, Statements(content)));
  }

  /** The order in which the queries were recorded does not change the
      sorted verdict. */
  lemma SortedMatchPermutation(q1: seq<string>, q2: seq<string>, content: string)
    requires multiset(q1) == multiset(q2)
    ensures SortedGoldenMatches(q1, content) == SortedGoldenMatches(q2, content)
  {
    SortedMatchIsMultiset(q1, content);
    SortedMatchIsMultiset(q2, content);
    MapSeqPermutation(NormalizeForComparison, q1, q2);
  }

  /** A golden file written by `AssertGoldenSorted` — the sorted queries —
      matches the queries in any order, when each is storable. */
  lemma SavedSortedGoldenMatches(queries: seq<string>, recorded: seq<string>)
    requires Storable(queries) && multiset(recorded) == multiset(queries)
    ensures SortedGoldenMatches(recorded, Content(SortStrings(queries)))
  {
    var sorted := SortStrings(queries);
    assert Storable(sorted) by {
      forall k | 0 <= k < |sorted|
        ensures !IsBlank(sorted[k]) && !Contains(sorted[k], Separator)
      {
        assert sorted[k] in multiset(queries);
      }
    }
    GoldenRoundTrip(sorted);
    SortedMatchIsMultiset(recorded, Content(sorted));
    MapSeqPermutation(NormalizeForComparison, recorded, sorted);
  }
}
