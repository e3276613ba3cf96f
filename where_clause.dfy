/** `normalizeMainWhereClause` (common/query_manager.go): locate the WHERE
    clause of the outer query, take its conditions apart, and emit them
    deduplicated and sorted. */
module WhereClause {

  import opened GoStrings
  import opened Sorting
  import opened Conditions

  /** Where the search for the main ` WHERE ` begins: the last ` ON ` (the
      end of the JOINs), else the first ` FROM `, else the start. */
  function SearchStart(query: string): (r: nat)
    ensures r <= |query|
    ensures r == 0 || HasPrefix(query[r..], " ON ") || HasPrefix(query[r..], " FROM ")
    ensures forall j :: r < j <= |query| ==> !HasPrefix(query[j..], " ON ")
    ensures Contains(query, " ON ") ==> HasPrefix(query[r..], " ON ")
    ensures !Contains(query, " ON ") && Contains(query, " FROM ") ==> FirstFrom(query, " FROM ", 0, r)
    ensures !Contains(query, " ON ") && !Contains(query, " FROM ") ==> r == 0
  {
    var lastOn := LastIndex(query, " ON ");
    assert Contains(query, " ON ") ==> HasPrefix(query[Index(query, " ON ")..], " ON ");
    if lastOn != -1 then lastOn
    else
      var from := Index(query, " FROM ");
      if from != -1 then from else 0
  }

  /** Where the main WHERE clause stops: a following ` ORDER BY `, else a
      following ` LIMIT `, else the end of the query. */
  function WhereEnd(query: string, whereStart: nat): (e: nat)
    requires whereStart <= |query|
    ensures whereStart <= e <= |query|
    ensures e < |query| ==> HasPrefix(query[e..], " ORDER BY ") || HasPrefix(query[e..], " LIMIT ")
    ensures Contains(query[whereStart..], " ORDER BY ") ==> FirstFrom(query, " ORDER BY ", whereStart, e)
    ensures !Contains(query[whereStart..], " ORDER BY ") && Contains(query[whereStart..], " LIMIT ") ==>
      FirstFrom(query, " LIMIT ", whereStart, e)
    ensures !Contains(query[whereStart..], " ORDER BY ") && !Contains(query[whereStart..], " LIMIT ") ==>
      e == |query|
  {
    var rest := query[whereStart..];
    var orderBy := Index(rest, " ORDER BY ");
    var limit := Index(rest, " LIMIT ");
    IndexInSuffix(query, whereStart, " ORDER BY ");
    IndexInSuffix(query, whereStart, " LIMIT ");
    var e := if orderBy != -1 then whereStart + orderBy
             else if limit != -1 then whereStart + limit
             else |query|;
    assert e < |query| ==> query[e..] == rest[e - whereStart..];
    e
  }

  /** The main WHERE clause cut out of the query. */
  datatype Located = NoWhere | Where(before: string, clause: string, after: string)

  /** Where the first ` WHERE ` at or after `SearchStart` begins, or -1. */
  function FirstWhere(query: string): (w: int)
    ensures w == -1 <==>
      forall j :: SearchStart(query) <= j <= |query| ==> !HasPrefix(query[j..], " WHERE ")
    ensures w != -1 ==>
      && SearchStart(query) <= w && w + 7 <= |query|
      && HasPrefix(query[w..], " WHERE ")
      && forall j :: SearchStart(query) <= j < w ==> !HasPrefix(query[j..], " WHERE ")
  {
    var start := SearchStart(query);
    var w := Index(query[start..], " WHERE ");
    IndexInSuffix(query, start, " WHERE ");
    if w == -1 then -1 else start + w
  }

  /** The first ` WHERE ` at or after `SearchStart`, and the clause up to
      `WhereEnd`. */
  function LocateWhere(query: string): (r: Located)
    ensures r.NoWhere? <==>
      forall j :: SearchStart(query) <= j <= |query| ==> !HasPrefix(query[j..], " WHERE ")
    ensures r.Where? ==> query == r.before + " WHERE " + r.clause + r.after
    ensures r.Where? ==> |r.before| == FirstWhere(query)
  {
    var whereIdx := FirstWhere(query);
    if whereIdx == -1 then
      NoWhere
    else
      var whereStart := whereIdx + 7;
      var whereEnd := WhereEnd(query, whereStart);
      assert query[whereIdx..whereStart] == " WHERE ";
      Pieces3(query, whereIdx, whereStart, whereEnd);
      Where(query[..whereIdx], query[whereStart..whereEnd], query[whereEnd..])
  }

  /** The pieces `LocateWhere` cuts, for a ` WHERE ` at `w` and a clause
      ending at `e`. */
  lemma LocateWhereAt(query: string, w: nat, e: nat)
    requires FirstWhere(query) == w && w + 7 <= |query| && WhereEnd(query, w + 7) == e
    ensures LocateWhere(query) == Where(query[..w], query[w + 7..e], query[e..])
  {
  }

  /** The aggressive unwrap: peel one pair of outer parentheses, but only
      when the inside has a top-level ` AND `. */
  function UnwrapTopLevelAnd(w: string): (r: string)
    ensures r == w || (|w| >= 2 && w[0] == '(' && w[|w| - 1] == ')' && HasTopLevelAnd(r))
    ensures |w| >= 2 && w[0] == '(' && w[|w| - 1] == ')' && HasTopLevelAnd(TrimSpace(w[1..|w| - 1])) ==>
      r == TrimSpace(w[1..|w| - 1])
    ensures r != w ==> |w| >= 2 && r == TrimSpace(w[1..|w| - 1])
  {
    if |w| >= 2 && w[0] == '(' && w[|w| - 1] == ')' then
      var inner := TrimSpace(w[1..|w| - 1]);
      TopLevelAndContains(inner);
      if Contains(inner, " AND ") && HasTopLevelAnd(inner) then inner else w
    else
      w
  }

  /** A top-level ` AND ` is an occurrence of ` AND `. */
  lemma TopLevelAndContains(s: string)
    ensures HasTopLevelAnd(s) ==> Contains(s, " AND ")
  {
    if HasTopLevelAnd(s) {
      var j :| 0 <= j <= |s| && TopLevelAndAt(s, j);
      assert s[j..][..5] == s[j..j + 5];
      ContainsAt(s, " AND ", j);
    }
  }

  /** The conditions extracted from a clause, before deduplication: the
      clause flattened, unwrapped once more when it is one parenthesised
      conjunction, split at its top-level ` AND `s, and each piece
      flattened in turn. */
  function ExtractedConditions(clause: string): seq<string> {
    var w := UnwrapTopLevelAnd(TrimSpace(Flattened(clause)));
    FlattenAll(SplitWhere(w), |w| + 1)
  }

  /** The conditions re-emitted for a clause: the distinct non-blank
      extracted conditions, in string order. */
  function CanonicalConditions(clause: string): (r: seq<string>)
    ensures SortedBy(r, StringLe) && Distinct(r)
    ensures forall k :: 0 <= k < |r| ==> r[k] != "" && Trimmed(r[k])
    ensures forall x :: x in r <==> x != "" && Mentions(ExtractedConditions(clause), x)
  {
    var conds := ExtractedConditions(clause);
    SortedDedup(conds);
    SortStrings(Dedup(conds))
  }

  lemma SortedDedup(conds: seq<string>)
    ensures var r := SortStrings(Dedup(conds));
      && Distinct(r)
      && (forall k :: 0 <= k < |r| ==> r[k] != "" && Trimmed(r[k]))
      && forall x :: x in r <==> x != "" && Mentions(conds, x)
  {
    var flat := Dedup(conds);
    SortedMembers(flat);
    DedupMembers(conds);
    var r := SortStrings(flat);
    forall k | 0 <= k < |r| ensures r[k] != "" && Trimmed(r[k]) {
      assert r[k] in flat;
      var j :| 0 <= j < |flat| && flat[j] == r[k];
    }
  }

  /** Sorting keeps the members, and distinct entries stay distinct. */
  lemma SortedMembers(flat: seq<string>)
    requires Distinct(flat)
    ensures Distinct(SortStrings(flat))
    ensures forall x :: x in SortStrings(flat) <==> x in flat
  {
    DistinctPermutation(flat, SortStrings(flat));
    PermutationMembers(flat, SortStrings(flat));
  }

  /** The result of `normalizeMainWhereClause`. */
  function NormalizeMainWhereClause(query: string): (r: string)
    ensures (forall j :: SearchStart(query) <= j <= |query| ==> !HasPrefix(query[j..], " WHERE ")) ==> r == query
  {
    match LocateWhere(query)
    case NoWhere => query
    case Where(before, clause, after) =>
      if HasSuffix(clause, ";") then
        var tail := if HasPrefix(after, ";") then after else ";" + after;
        before + " WHERE " + Join(CanonicalConditions(TrimSpace(TrimSuffix(clause, ";"))), " AND ") + tail
      else
        before + " WHERE " + Join(CanonicalConditions(clause), " AND ") + after
  }

  /** Otherwise the text before the first such ` WHERE ` is kept verbatim,
      followed by the sorted, distinct, non-empty conditions joined by
      ` AND `, and the text from the clause end on (a `;` that closed the
      clause is moved there). */
  lemma MainWhereShape(query: string, w: nat) returns (conds: seq<string>, tail: string)
    requires SearchStart(query) <= w <= |query| && HasPrefix(query[w..], " WHERE ")
    requires forall j :: SearchStart(query) <= j < w ==> !HasPrefix(query[j..], " WHERE ")
    ensures NormalizeMainWhereClause(query) == query[..w] + " WHERE " + Join(conds, " AND ") + tail
    ensures SortedBy(conds, StringLe) && Distinct(conds)
    ensures forall k :: 0 <= k < |conds| ==> conds[k] != "" && Trimmed(conds[k])
    ensures w + 7 <= |query|
    ensures var e := WhereEnd(query, w + 7); var clause := query[w + 7..e];
      if HasSuffix(clause, ";") then
        && conds == CanonicalConditions(TrimSpace(TrimSuffix(clause, ";")))
        && tail == (if HasPrefix(query[e..], ";") then query[e..] else ";" + query[e..])
      else
        conds == CanonicalConditions(clause) && tail == query[e..]
  {
    var loc := LocateWhere(query);
    assert FirstWhere(query) == w;
    assert loc.Where?;
    assert |loc.before| == w;
    assert loc.before == query[..w] by {
      assert query[..w] == (loc.before + " WHERE " + loc.clause + loc.after)[..w];
    }
    var e := WhereEnd(query, w + 7);
    assert loc.clause == query[w + 7..e] && loc.after == query[e..];
    if HasSuffix(loc.clause, ";") {
      conds := CanonicalConditions(TrimSpace(TrimSuffix(loc.clause, ";")));
      tail := if HasPrefix(loc.after, ";") then loc.after else ";" + loc.after;
    } else {
      conds := CanonicalConditions(loc.clause);
      tail := loc.after;
    }
  }

  /** The order and repetition of the extracted conditions do not matter:
      any two lists with the same non-blank trimmed members give the same
      sorted, deduplicated list. */
  lemma ConditionOrderIrrelevant(p: seq<string>, q: seq<string>)
    requires forall x :: Mentions(p, x) <==> Mentions(q, x)
    ensures SortStrings(Dedup(p)) == SortStrings(Dedup(q))
  {
    DedupMembers(p);
    DedupMembers(q);
    DistinctSameMembers(Dedup(p), Dedup(q));
    SortStringsPermutation(Dedup(p), Dedup(q));
  }
  // ---------------------------------------------------------------------
  // characters the pass cannot bring in

  lemma UnwrapLacks(w: string, c: char)
    requires c !in w
    ensures c !in UnwrapTopLevelAnd(w)
  {
    if |w| >= 2 && w[0] == '(' && w[|w| - 1] == ')' {
      SliceLacks(w, c, 1, |w| - 1);
      TrimSpaceLacks(w[1..|w| - 1], c);
    }
  }

  lemma CanonicalConditionsLacks(clause: string, c: char)
    requires c !in clause
    ensures NoneHas(CanonicalConditions(clause), c)
  {
    FlattenedLacks(clause, c);
    TrimSpaceLacks(Flattened(clause), c);
    var w := UnwrapTopLevelAnd(TrimSpace(Flattened(clause)));
    UnwrapLacks(TrimSpace(Flattened(clause)), c);
    SplitWhereLacks(w, c);
    FlattenAllLacks(SplitWhere(w), |w| + 1, c);
    assert ExtractedConditions(clause) == FlattenAll(SplitWhere(w), |w| + 1);
    var flat := Dedup(FlattenAll(SplitWhere(w), |w| + 1));
    DedupLacks(FlattenAll(SplitWhere(w), |w| + 1), c);
    PermutationLacks(flat, SortStrings(flat), c);
  }

  lemma ClauseLacks(clause: string, c: char)
    requires c !in clause && c != ';'
    ensures NoneHas(CanonicalConditions(TrimSpace(TrimSuffix(clause, ";"))), c)
    ensures NoneHas(CanonicalConditions(clause), c)
  {
    if HasSuffix(clause, ";") {
      SliceLacks(clause, c, 0, |clause| - 1);
    }
    TrimSpaceLacks(TrimSuffix(clause, ";"), c);
    CanonicalConditionsLacks(TrimSpace(TrimSuffix(clause, ";")), c);
    CanonicalConditionsLacks(clause, c);
  }

  /** The text a located WHERE clause is rebuilt into. */
  lemma RebuiltLacks(before: string, clause: string, after: string, c: char)
    requires c !in before && c !in clause && c !in after
    requires c != ';' && c !in " WHERE " && c !in " AND "
    ensures HasSuffix(clause, ";") ==>
      var tail := if HasPrefix(after, ";") then after else ";" + after;
      c !in before + " WHERE " + Join(CanonicalConditions(TrimSpace(TrimSuffix(clause, ";"))), " AND ") + tail
    ensures c !in before + " WHERE " + Join(CanonicalConditions(clause), " AND ") + after
  {
    ClauseLacks(clause, c);
    JoinLacks(CanonicalConditions(TrimSpace(TrimSuffix(clause, ";"))), " AND ", c);
    JoinLacks(CanonicalConditions(clause), " AND ", c);
    assert c !in ";" + after;
  }

  /** No pass brings in a character absent from the query that is neither
      `;` nor part of ` WHERE ` or ` AND `. */
  lemma NormalizeMainWhereLacks(query: string, c: char)
    requires c !in query && c != ';' && c !in " WHERE " && c !in " AND "
    ensures c !in NormalizeMainWhereClause(query)
  {
    var loc := LocateWhere(query);
    if loc.Where? {
      assert c !in loc.before && c !in loc.clause && c !in loc.after;
      RebuiltLacks(loc.before, loc.clause, loc.after, c);
    }
  }
}
