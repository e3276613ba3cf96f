/** `normalizeForComparison` and `CompareQueries` (common/query_manager.go):
    the fixed pipeline of string passes two queries go through before they
    are compared. */
module Comparison {

  import opened GoStrings
  import opened BasicNormalize
  import opened LimitClause
  import opened JoinOrder
  import opened WhereClause
  import opened Sorting

  /** The characters `[0-9A-Za-z]` of the charset pattern. */
  predicate IsAlnum(c: char) {
    ('0' <= c <= '9') || ('A' <= c <= 'Z') || ('a' <= c <= 'z')
  }

  /** `_UTF8MB4` directly followed by an alphanumeric starts `s`. */
  predicate CharsetAt(s: string) {
    |s| > 8 && s[..8] == "_UTF8MB4" && IsAlnum(s[8])
  }

  /** The left-to-right scan standing for the regular expression pass: at a
      `_UTF8MB4` followed by an alphanumeric, drop those 8 characters and
      go on; otherwise copy one character. */
  function StripCharset(s: string): (r: string)
    ensures |r| <= |s|
    decreases |s|
  {
    if CharsetAt(s) then StripCharset(s[8..])
    else if s == [] then []
    else [s[0]] + StripCharset(s[1..])
  }

  /** The length of the run of alphanumerics that starts `s`. */
  function AlnumRun(s: string): (n: nat)
    ensures n <= |s|
    ensures forall k :: 0 <= k < n ==> IsAlnum(s[k])
    ensures n < |s| ==> !IsAlnum(s[n])
  {
    if s != [] && IsAlnum(s[0]) then 1 + AlnumRun(s[1..]) else 0
  }

  /** `ReplaceAllString(s, "$1")` of `_UTF8MB4([0-9A-Za-z]+)`, as a regular
      expression engine does it: the leftmost match with a greedy run,
      replaced by the run, the search going on after the match. */
  function RegexReplace(s: string): (r: string)
    decreases |s|
  {
    if CharsetAt(s) then
      var n := AlnumRun(s[8..]);
      s[8..8 + n] + RegexReplace(s[8 + n..])
    else if s == [] then []
    else [s[0]] + RegexReplace(s[1..])
  }

  /** The scan copies a run of alphanumerics: no match can start inside one,
      since a match starts with `_`. */
  lemma {:induction false} StripCopiesRun(s: string, n: nat)
    requires n <= |s| && forall k :: 0 <= k < n ==> IsAlnum(s[k])
    ensures StripCharset(s) == s[..n] + StripCharset(s[n..])
    decreases n
  {
    if n > 0 {
      assert !CharsetAt(s) by {
        assert !IsAlnum('_') && IsAlnum(s[0]);
      }
      assert StripCharset(s) == [s[0]] + StripCharset(s[1..]);
      StripCopiesRun(s[1..], n - 1);
      assert s[1..][..n - 1] == s[1..n];
      assert s[1..][n - 1..] == s[n..];
      assert s[..n] == [s[0]] + s[1..n];
      ConcatAssoc([s[0]], s[1..n], StripCharset(s[n..]));
    }
  }

  /** The scan computes exactly what the regular expression replacement
      computes. */
  lemma {:induction false} StripCharsetIsRegex(s: string)
    ensures StripCharset(s) == RegexReplace(s)
    decreases |s|
  {
    if CharsetAt(s) {
      var t := s[8..];
      var n := AlnumRun(t);
      StripCopiesRun(t, n);
      StripCharsetIsRegex(t[n..]);
      assert t[..n] == s[8..8 + n] && t[n..] == s[8 + n..];
    } else if s != [] {
      StripCharsetIsRegex(s[1..]);
    }
  }

  /** Text without `_UTF8MB4` passes unchanged. */
  lemma {:induction false} StripCharsetNoPrefix(s: string)
    requires !Contains(s, "_UTF8MB4")
    ensures StripCharset(s) == s
    decreases |s|
  {
    if s != [] {
      assert !CharsetAt(s);
      NotContainsSlice(s, "_UTF8MB4", 1, |s|);
      StripCharsetNoPrefix(s[1..]);
    }
  }

  /** The scan brings in no character. */
  lemma {:induction false} StripCharsetChars(s: string)
    ensures forall x :: x in StripCharset(s) ==> x in s
    decreases |s|
  {
    if CharsetAt(s) {
      StripCharsetChars(s[8..]);
    } else if s != [] {
      StripCharsetChars(s[1..]);
    }
  }

  /** `x=_UTF8MB4ABC` becomes `x=ABC`. */
  lemma StripCharsetExample(q: string)
    requires q == "x=_UTF8MB4ABC"
    ensures StripCharset(q) == "x=ABC"
  {
    StripCharsetTwo(q);
    StripMarkerExample(q[2..]);
    assert q[..2] == "x=";
  }

  lemma StripCharsetTwo(s: string)
    requires |s| >= 2 && s[0] != '_' && s[1] != '_'
    ensures StripCharset(s) == s[..2] + StripCharset(s[2..])
  {
    StripCharsetCons(s);
    StripCharsetCons(s[1..]);
    assert s[1..][1..] == s[2..];
    assert s[..2] == [s[0]] + [s[1..][0]];
    ConcatAssoc([s[0]], [s[1..][0]], StripCharset(s[2..]));
  }

  /** A text that does not start with `_` begins with its first character. */
  lemma StripCharsetCons(s: string)
    requires s != [] && s[0] != '_'
    ensures StripCharset(s) == [s[0]] + StripCharset(s[1..])
  {
  }

  lemma StripMarkerExample(t: string)
    requires t == "_UTF8MB4ABC"
    ensures StripCharset(t) == "ABC"
  {
    assert CharsetAt(t);
    assert '_' !in t[8..];
    NoCharNoContains(t[8..], '_');
    StripCharsetNoPrefix(t[8..]);
  }

  /** The passes up to and including the charset stripping. */
  function Prepared(query: string): (r: string)
    ensures '`' !in r
  {
    var q := ReplaceAll(BasicNormalized(query), "`", "");
    DeleteChar(BasicNormalized(query), '`');
    StripCharsetChars(q);
    StripCharset(q)
  }

  /** The result of `normalizeForComparison`: no parenthesis is left, and
      no backtick either, since no pass after their removal brings one in. */
  function NormalizeForComparison(query: string): (r: string)
    ensures '(' !in r && ')' !in r
    ensures '`' !in r
  {
    var q := Prepared(query);
    NormalizeLimitLacks(q, '`');
    var q := NormalizeLimitClause(q);
    NormalizeJoinOrderLacks(q, '`');
    var q := NormalizeJoinOrder(q);
    NormalizeMainWhereLacks(q, '`');
    var q := NormalizeMainWhereClause(q);
    var p := ReplaceAll(q, "(", "");
    DeleteChar(q, '(');
    DeleteChar(p, ')');
    ReplaceAll(p, ")", "")
  }

  /** `CompareQueries`: the two queries agree after normalisation. */
  function CompareQueries(query1: string, query2: string): bool
  {
    NormalizeForComparison(query1) == NormalizeForComparison(query2)
  }

  /** `CompareQueries` is an equivalence relation. */
  lemma CompareQueriesEquivalence(a: string, b: string, c: string)
    ensures CompareQueries(a, a)
    ensures CompareQueries(a, b) == CompareQueries(b, a)
    ensures CompareQueries(a, b) && CompareQueries(b, c) ==> CompareQueries(a, c)
  {
  }
}
