/** The small part of Go's `strings` package (and of string ordering) that
    the comparison normaliser is built from. Strings are sequences of
    characters; every pattern searched for is ASCII, so a character position
    here corresponds to a byte position in the Go program. */
module GoStrings {

  import opened Sorting

  datatype Option<+T> = None | Some(value: T)

  /** White space as removed by `strings.TrimSpace`, restricted to ASCII:
      space, tab, line feed, vertical tab, form feed and carriage return. */
  predicate IsSpace(c: char) {
    c == ' ' || c == '\t' || c == '\n' || c == '\U{0B}' || c == '\U{0C}' || c == '\r'
  }

  /** Neither end of `s` is white space. */
  predicate Trimmed(s: string) {
    s == [] || (!IsSpace(s[0]) && !IsSpace(s[|s| - 1]))
  }

  function TrimLeft(s: string): (r: string)
    ensures |r| <= |s|
    ensures r == [] || !IsSpace(r[0])
  {
    if s != [] && IsSpace(s[0]) then TrimLeft(s[1..]) else s
  }

  function TrimRight(s: string): (r: string)
    ensures |r| <= |s|
    ensures r == [] || !IsSpace(r[|r| - 1])
  {
    if s != [] && IsSpace(s[|s| - 1]) then TrimRight(s[..|s| - 1]) else s
  }

  /** `TrimLeft` drops a prefix made of white space. */
  lemma {:induction false} TrimLeftSuffix(s: string)
    ensures TrimLeft(s) == s[|s| - |TrimLeft(s)|..]
    ensures forall i :: 0 <= i < |s| - |TrimLeft(s)| ==> IsSpace(s[i])
  {
    if s != [] && IsSpace(s[0]) {
      TrimLeftSuffix(s[1..]);
      assert forall i :: 1 <= i < |s| - |TrimLeft(s)| ==> s[i] == s[1..][i - 1];
    }
  }

  /** `TrimRight` drops a suffix made of white space. */
  lemma {:induction false} TrimRightPrefix(s: string)
    ensures TrimRight(s) == s[..|TrimRight(s)|]
    ensures forall i :: |TrimRight(s)| <= i < |s| ==> IsSpace(s[i])
  {
    if s != [] && IsSpace(s[|s| - 1]) {
      TrimRightPrefix(s[..|s| - 1]);
      assert forall i :: 0 <= i < |s| - 1 ==> s[i] == s[..|s| - 1][i];
    }
  }

  /** `strings.TrimSpace`: drop leading and trailing white space. */
  function TrimSpace(s: string): (r: string)
    ensures Trimmed(r) && |r| <= |s|
  {
    var l := TrimLeft(s);
    var r := TrimRight(l);
    TrimRightPrefix(l);
    r
  }

  /** The trimmed text is the slice of `s` between its first and last
      non-space characters. */
  lemma TrimSpaceSlice(s: string) returns (i: nat, j: nat)
    ensures i <= j <= |s| && TrimSpace(s) == s[i..j]
    ensures forall k :: 0 <= k < i ==> IsSpace(s[k])
    ensures forall k :: j <= k < |s| ==> IsSpace(s[k])
  {
    var l := TrimLeft(s);
    TrimLeftSuffix(s);
    TrimRightPrefix(l);
    i := |s| - |l|;
    j := i + |TrimRight(l)|;
    assert l == s[i..];
    assert TrimRight(l) == l[..j - i];
    forall k | j <= k < |s| ensures IsSpace(s[k]) {
      assert s[k] == l[k - i];
    }
  }

  lemma TrimSpaceOfTrimmed(s: string)
    requires Trimmed(s)
    ensures TrimSpace(s) == s
  {
  }

  /** A string is blank when nothing is left of it after trimming. */
  predicate IsBlank(s: string) {
    TrimSpace(s) == ""
  }

  lemma BlankIsAllSpace(s: string)
    ensures IsBlank(s) <==> forall k :: 0 <= k < |s| ==> IsSpace(s[k])
  {
    var i, j := TrimSpaceSlice(s);
  }

  predicate HasPrefix(s: string, p: string) {
    |p| <= |s| && s[..|p|] == p
  }

  predicate HasSuffix(s: string, p: string) {
    |p| <= |s| && s[|s| - |p|..] == p
  }

  /** `strings.TrimSuffix`: remove one copy of `p` from the end, if present. */
  function TrimSuffix(s: string, p: string): (r: string)
    ensures HasSuffix(s, p) ==> r + p == s
    ensures !HasSuffix(s, p) ==> r == s
  {
    if HasSuffix(s, p) then s[..|s| - |p|] else s
  }

  /** `strings.Index`: the position of the first occurrence of `t`, or -1. */
  function Index(s: string, t: string): (r: int)
    ensures -1 <= r <= |s|
    ensures r >= 0 ==> HasPrefix(s[r..], t)
    ensures r >= 0 ==> forall j {:trigger HasPrefix(s[j..], t)} :: 0 <= j < r ==> !HasPrefix(s[j..], t)
    ensures r == -1 ==> forall j {:trigger HasPrefix(s[j..], t)} :: 0 <= j <= |s| ==> !HasPrefix(s[j..], t)
    decreases |s|
  {
    if HasPrefix(s, t) then 0
    else if s == [] then -1
    else
      var k := Index(s[1..], t);
      PrefixInTail(s, t);
      if k == -1 then -1 else k + 1
  }

  /** An occurrence at `j >= 1` is an occurrence at `j - 1` of the tail. */
  lemma PrefixInTail(s: string, t: string)
    requires s != []
    ensures forall j {:trigger HasPrefix(s[j..], t)} :: 1 <= j <= |s| ==>
      (HasPrefix(s[j..], t) <==> HasPrefix(s[1..][j - 1..], t))
  {
    forall j | 1 <= j <= |s| ensures HasPrefix(s[j..], t) <==> HasPrefix(s[1..][j - 1..], t) {
      assert s[j..] == s[1..][j - 1..];
    }
  }

  /** A pattern longer than the string does not occur in it. */
  lemma IndexTooLong(s: string, t: string)
    requires |s| < |t|
    ensures Index(s, t) == -1
  {
  }

  /** `strings.Index(s[start:], t)` read back in the coordinates of `s`. */
  lemma IndexInSuffix(s: string, start: nat, t: string)
    requires start <= |s|
    ensures var w := Index(s[start..], t);
      && (w == -1 ==> forall j :: start <= j <= |s| ==> !HasPrefix(s[j..], t))
      && (w >= 0 ==> HasPrefix(s[start + w..], t))
      && (w >= 0 ==> forall j :: start <= j < start + w ==> !HasPrefix(s[j..], t))
  {
    var rest := s[start..];
    assert forall j :: start <= j <= |s| ==> s[j..] == rest[j - start..];
  }

  /** `i` is the first position at or after `start` where `t` occurs in `s`. */
  predicate FirstFrom(s: string, t: string, start: nat, i: int) {
    start <= i <= |s| && HasPrefix(s[i..], t) &&
    forall j {:trigger HasPrefix(s[j..], t)} :: start <= j < i ==> !HasPrefix(s[j..], t)
  }

  /** A string is the concatenation of its pieces between three cut points. */
  lemma Pieces3(s: string, a: nat, b: nat, c: nat)
    requires a <= b <= c <= |s|
    ensures s == s[..a] + s[a..b] + s[b..c] + s[c..]
  {
  }

  /** A string is what comes before an occurrence of `t`, then `t`, then what
      comes after it. */
  lemma PrefixCut(s: string, i: nat, t: string)
    requires i <= |s| && HasPrefix(s[i..], t)
    ensures s == s[..i] + t + s[i + |t|..]
  {
    assert s[i..][..|t|] == s[i..i + |t|];
    assert s == s[..i] + s[i..i + |t|] + s[i + |t|..];
  }

  /** A slice of a slice is a slice of the string. */
  lemma SliceOfSlice(s: string, a: nat, b: nat, x: nat, y: nat)
    requires a <= b <= |s| && x <= y <= b - a
    ensures s[a..b][x..y] == s[a + x..a + y]
  {
    assert forall k :: 0 <= k < y - x ==> s[a..b][x..y][k] == s[a + x + k];
  }

  /** `r` is a contiguous piece of `s`. */
  predicate SliceOf(r: string, s: string) {
    exists i, j :: 0 <= i <= j <= |s| && r == s[i..j]
  }

  /** A piece of a piece of `s` is a piece of `s`. */
  lemma SliceOfWithin(r: string, s: string, a: nat, b: nat)
    requires a <= b <= |s| && SliceOf(r, s[a..b])
    ensures SliceOf(r, s)
  {
    var x, y :| 0 <= x <= y <= b - a && r == s[a..b][x..y];
    SliceOfSlice(s, a, b, x, y);
  }

  /** `strings.Contains`, defined as in Go by `Index`. */
  predicate Contains(s: string, t: string) {
    Index(s, t) >= 0
  }

  lemma ContainsAt(s: string, t: string, j: nat)
    requires j <= |s| && HasPrefix(s[j..], t)
    ensures Contains(s, t) && Index(s, t) <= j
  {
  }

  /** The largest position at most `n` where `t` occurs, or -1. */
  function LastIndexFrom(s: string, t: string, n: int): (r: int)
    requires -1 <= n <= |s|
    ensures -1 <= r <= n
    ensures r >= 0 ==> HasPrefix(s[r..], t)
    ensures forall j :: r < j <= n ==> !HasPrefix(s[j..], t)
    decreases n + 1
  {
    if n < 0 then -1
    else if HasPrefix(s[n..], t) then n
    else LastIndexFrom(s, t, n - 1)
  }

  /** `strings.LastIndex`: the position of the last occurrence of `t`, or -1. */
  function LastIndex(s: string, t: string): (r: int)
    ensures -1 <= r <= |s|
    ensures r >= 0 ==> HasPrefix(s[r..], t)
    ensures forall j :: r < j <= |s| ==> !HasPrefix(s[j..], t)
  {
    LastIndexFrom(s, t, |s|)
  }

  /** An occurrence of `t` in `p + t + rest` is found at `|p|` when none
      starts inside `p`. */
  lemma IndexAfter(p: string, t: string, rest: string)
    requires forall j :: 0 <= j < |p| ==> !HasPrefix((p + t + rest)[j..], t)
    ensures Index(p + t + rest, t) == |p|
  {
    assert (p + t + rest)[|p|..] == t + rest;
    assert HasPrefix((p + t + rest)[|p|..], t);
  }

  /** `strings.ReplaceAll`: replace the non-overlapping occurrences of `pat`,
      found left to right, by `repl`. */
  function ReplaceAll(s: string, pat: string, repl: string): (r: string)
    requires pat != []
    decreases |s|
  {
    if HasPrefix(s, pat) then repl + ReplaceAll(s[|pat|..], pat, repl)
    else if s == [] then []
    else [s[0]] + ReplaceAll(s[1..], pat, repl)
  }

  /** Text with no occurrence of `pat` comes out of the replacement unchanged. */
  lemma {:induction false} ReplaceAllAbsent(s: string, pat: string, repl: string)
    requires pat != [] && !Contains(s, pat)
    ensures ReplaceAll(s, pat, repl) == s
    decreases |s|
  {
    if s != [] {
      assert !HasPrefix(s, pat);
      assert !Contains(s[1..], pat) by {
        NotContainsSlice(s, pat, 1, |s|);
      }
      ReplaceAllAbsent(s[1..], pat, repl);
      assert s == [s[0]] + s[1..];
    }
  }

  /** An occurrence at the front is replaced, and the scan resumes after it. */
  lemma ReplaceAllHead(rest: string, pat: string, repl: string)
    requires pat != []
    ensures ReplaceAll(pat + rest, pat, repl) == repl + ReplaceAll(rest, pat, repl)
  {
    assert (pat + rest)[..|pat|] == pat && (pat + rest)[|pat|..] == rest;
  }

  /** The replacement of a concatenation is the concatenation of the
      replacements, when no occurrence of a pattern of one or two characters
      straddles the cut. */
  lemma {:induction false} ReplaceAllAppend(s: string, t: string, pat: string, repl: string)
    requires 1 <= |pat| <= 2
    requires |pat| == 1 || s == [] || t == [] || !(s[|s| - 1] == pat[0] && t[0] == pat[1])
    ensures ReplaceAll(s + t, pat, repl) == ReplaceAll(s, pat, repl) + ReplaceAll(t, pat, repl)
    decreases |s|
  {
    var u := s + t;
    if s == [] {
      assert u == t;
    } else if HasPrefix(u, pat) {
      assert HasPrefix(s, pat) by {
        if |pat| == 2 && |s| == 1 {
          assert false;
        } else {
          assert u[..|pat|] == s[..|pat|];
        }
      }
      assert u[|pat|..] == s[|pat|..] + t;
      ReplaceAllAppend(s[|pat|..], t, pat, repl);
    } else {
      assert !HasPrefix(s, pat) by {
        if |pat| <= |s| {
          assert u[..|pat|] == s[..|pat|];
        }
      }
      assert u[0] == s[0] && u[1..] == s[1..] + t;
      ReplaceAllAppend(s[1..], t, pat, repl);
    }
  }

  /** Text without `pat`, then `pat`: only that last copy is replaced. */
  lemma ReplaceAllLast(s: string, pat: string, repl: string)
    requires 1 <= |pat| <= 2 && !Contains(s, pat)
    requires |pat| == 1 || s == [] || s[|s| - 1] != pat[0]
    ensures ReplaceAll(s + pat, pat, repl) == s + repl
  {
    ReplaceAllHead("", pat, repl);
    assert pat + "" == pat;
    ReplaceAllAbsent(s, pat, repl);
    ReplaceAllAppend(s, pat, pat, repl);
  }

  /** Replacing one character by another maps the string character by character. */
  lemma ReplaceCharAt(s: string, c: char, d: char)
    ensures |ReplaceAll(s, [c], [d])| == |s|
    ensures forall i :: 0 <= i < |s| ==>
      ReplaceAll(s, [c], [d])[i] == if s[i] == c then d else s[i]
    decreases |s|
  {
    if s != [] {
      ReplaceCharAt(s[1..], c, d);
    }
  }

  /** Deleting every copy of a character leaves none, and brings in no
      character that was not already there. */
  lemma DeleteChar(s: string, c: char)
    ensures c !in ReplaceAll(s, [c], [])
    ensures forall x :: x in ReplaceAll(s, [c], []) ==> x in s
    decreases |s|
  {
    if s != [] {
      DeleteChar(s[1..], c);
    }
  }

  /** Every character of the result comes from `s` or from `repl`. */
  lemma ReplaceAllChars(s: string, pat: string, repl: string)
    requires pat != []
    ensures forall x :: x in ReplaceAll(s, pat, repl) ==> x in s || x in repl
    decreases |s|
  {
    if HasPrefix(s, pat) {
      ReplaceAllChars(s[|pat|..], pat, repl);
    } else if s != [] {
      ReplaceAllChars(s[1..], pat, repl);
    }
  }

  /** A replacement by something strictly shorter shrinks a string that
      contains the pattern. */
  lemma ReplaceAllShrinks(s: string, pat: string, repl: string)
    requires pat != [] && |repl| < |pat|
    ensures |ReplaceAll(s, pat, repl)| <= |s|
    ensures Contains(s, pat) ==> |ReplaceAll(s, pat, repl)| < |s|
    decreases |s|
  {
    if HasPrefix(s, pat) {
      ReplaceAllShrinks(s[|pat|..], pat, repl);
    } else if s != [] {
      assert Contains(s, pat) ==> Contains(s[1..], pat) by {
        if Contains(s, pat) {
          var k := Index(s, pat);
          assert k >= 1;
          assert s[1..][k - 1..] == s[k..];
          ContainsAt(s[1..], pat, k - 1);
        }
      }
      ReplaceAllShrinks(s[1..], pat, repl);
    }
  }

  /** `strings.Join`. */
  function Join(parts: seq<string>, sep: string): string
  {
    if parts == [] then ""
    else if |parts| == 1 then parts[0]
    else parts[0] + sep + Join(parts[1..], sep)
  }

  /** `strings.Split` for a non-empty separator. */
  function Split(s: string, sep: string): (r: seq<string>)
    requires sep != []
    ensures |r| >= 1
    ensures forall k :: 0 <= k < |r| ==> !Contains(r[k], sep)
    decreases |s|
  {
    var i := Index(s, sep);
    if i == -1 then [s]
    else
      NotContainsBeforeIndex(s, sep);
      [s[..i]] + Split(s[i + |sep|..], sep)
  }

  /** A slice of a string that does not contain `t` does not contain it. */
  lemma NotContainsSlice(s: string, t: string, i: nat, j: nat)
    requires i <= j <= |s| && !Contains(s, t)
    ensures !Contains(s[i..j], t)
  {
    forall k | 0 <= k <= j - i ensures !HasPrefix(s[i..j][k..], t) {
      assert !HasPrefix(s[i + k..], t);
      if |t| <= j - i - k {
        assert s[i..j][k..][..|t|] == s[i + k..][..|t|];
      }
    }
  }

  /** Trimming cannot create an occurrence. */
  lemma TrimSpaceNotContains(s: string, t: string)
    requires !Contains(s, t)
    ensures !Contains(TrimSpace(s), t)
  {
    var i, j := TrimSpaceSlice(s);
    NotContainsSlice(s, t, i, j);
  }

  /** The text before the first occurrence of `t` does not contain `t`. */
  lemma NotContainsBeforeIndex(s: string, t: string)
    requires t != [] && Index(s, t) >= 0
    ensures !Contains(s[..Index(s, t)], t)
  {
    var i := Index(s, t);
    forall j | 0 <= j <= i ensures !HasPrefix(s[..i][j..], t) {
      if j + |t| <= i {
        PrefixInPrefix(s, i, j, t);
      }
    }
  }

  /** Inside `s[..i]`, an occurrence at `j` that ends by `i` is one of `s`. */
  lemma PrefixInPrefix(s: string, i: nat, j: nat, t: string)
    requires j + |t| <= i <= |s|
    ensures HasPrefix(s[..i][j..], t) <==> HasPrefix(s[j..], t)
  {
    assert s[..i][j..][..|t|] == s[j..j + |t|] == s[j..][..|t|];
  }

  /** A string without the character `c` does not contain `[c]`. */
  lemma NoCharNoContains(s: string, c: char)
    requires c !in s
    ensures !Contains(s, [c])
  {
    forall j | 0 <= j <= |s| ensures !HasPrefix(s[j..], [c]) {
      if j < |s| {
        assert s[j..][..1] == [s[j]];
      }
    }
  }

  /** A pattern whose first character is absent does not occur. */
  lemma SecondCharNoContains(s: string, t: string)
    requires |t| >= 2 && t[1] !in s
    ensures !Contains(s, t)
  {
    forall j | 0 <= j <= |s| ensures !HasPrefix(s[j..], t) {
      if j + 1 < |s| && |t| <= |s| - j { assert s[j..][..|t|][1] == s[j + 1]; }
    }
  }

  lemma NoHeadNoContains(s: string, t: string)
    requires t != [] && t[0] !in s
    ensures !Contains(s, t)
  {
    forall j | 0 <= j <= |s| ensures !HasPrefix(s[j..], t) {
      if j < |s| && |t| <= |s| - j {
        assert s[j..][..|t|][0] == s[j];
      }
    }
  }

  /** Splitting `a + sep + b` where `a` does not hold the separator's first
      character and `b` does not contain the separator gives `[a, b]`. */
  lemma SplitOnce(a: string, sep: string, b: string)
    requires sep != [] && sep[0] !in a && !Contains(b, sep)
    ensures Split(a + sep + b, sep) == [a, b]
  {
    var s := a + sep + b;
    forall j | 0 <= j < |a| ensures !HasPrefix(s[j..], sep) {
      assert s[j] == a[j] != sep[0];
      if |sep| <= |s| - j {
        assert s[j..][..|sep|][0] == s[j];
      }
    }
    IndexAfter(a, sep, b);
    assert s[..|a|] == a;
    assert s[|a| + |sep|..] == b;
  }

  /** A split at a found separator: the text before it, then the split of
      the rest. */
  lemma SplitAtIndex(s: string, sep: string)
    requires sep != [] && Index(s, sep) != -1
    ensures var i := Index(s, sep);
      && Split(s, sep)[0] == s[..i]
      && Split(s, sep)[1..] == Split(s[i + |sep|..], sep)
  {
    var i := Index(s, sep);
    assert Split(s, sep) == [s[..i]] + Split(s[i + |sep|..], sep);
  }

  /** One step of `JoinSplit`: joining the split of the text after the
      first separator gives that text back, so the whole comes back. */
  lemma JoinSplitStep(s: string, sep: string, i: int)
    requires sep != [] && i == Index(s, sep) && i != -1
    requires Join(Split(s[i + |sep|..], sep), sep) == s[i + |sep|..]
    ensures Join(Split(s, sep), sep) == s
  {
    var parts := Split(s, sep);
    SplitAtIndex(s, sep);
    assert Join(parts, sep) == parts[0] + sep + Join(parts[1..], sep);
    PrefixCut(s, i, sep);
  }

  /** Without a separator, the split is the whole string. */
  lemma SplitNone(s: string, sep: string)
    requires sep != [] && Index(s, sep) == -1
    ensures Split(s, sep) == [s]
  {
  }

  /** Joining the pieces of a split gives the string back. */
  lemma {:induction false} JoinSplit(s: string, sep: string)
    requires sep != []
    ensures Join(Split(s, sep), sep) == s
    decreases |s|
  {
    var i := Index(s, sep);
    if i != -1 {
      var tail := s[i + |sep|..];
      JoinSplit(tail, sep);
      JoinSplitStep(s, sep, i);
    } else {
      SplitNone(s, sep);
    }
  }

  /** For a two-character separator made of two different characters,
      splitting a join gives the pieces back when no piece contains the
      separator. */
  lemma {:induction false} SplitJoin(parts: seq<string>, sep: string)
    requires |sep| == 2 && sep[0] != sep[1]
    requires parts != []
    requires forall k :: 0 <= k < |parts| ==> !Contains(parts[k], sep)
    ensures Split(Join(parts, sep), sep) == parts
    decreases |parts|
  {
    if |parts| > 1 {
      var p, rest := parts[0], Join(parts[1..], sep);
      var s := p + sep + rest;
      assert Join(parts, sep) == s;
      FirstSeparator(p, sep, rest);
      assert s[|p| + 2..] == rest;
      assert s[..|p|] == p;
      assert Split(s, sep) == [p] + Split(rest, sep);
      SplitJoin(parts[1..], sep);
      assert parts == [p] + parts[1..];
    }
  }

  /** With a two-character separator of two different characters, the
      first separator in `p + sep + rest` is the one after `p` when `p`
      holds none. */
  lemma FirstSeparator(p: string, sep: string, rest: string)
    requires |sep| == 2 && sep[0] != sep[1] && !Contains(p, sep)
    ensures Index(p + sep + rest, sep) == |p|
  {
    var s := p + sep + rest;
    forall j | 0 <= j < |p| ensures !HasPrefix(s[j..], sep) {
      if j + 2 <= |p| {
        assert !HasPrefix(p[j..], sep);
        assert s[j..][..2] == p[j..][..2];
      } else {
        assert s[j + 1] == sep[0];
      }
    }
    IndexAfter(p, sep, rest);
  }


  /** Go's string comparison: bytewise lexicographic order, which for valid
      UTF-8 agrees with the order of code points compared here. */
  predicate Less(a: string, b: string)
    decreases |a|
  {
    if a == [] then b != []
    else if b == [] then false
    else if a[0] != b[0] then a[0] < b[0]
    else Less(a[1..], b[1..])
  }

  lemma {:induction false} LessIrreflexive(a: string)
    ensures !Less(a, a)
    decreases |a|
  {
    if a != [] {
      LessIrreflexive(a[1..]);
    }
  }

  lemma {:induction false} LessAsymmetric(a: string, b: string)
    ensures Less(a, b) ==> !Less(b, a)
    decreases |a|
  {
    if a != [] && b != [] && a[0] == b[0] {
      LessAsymmetric(a[1..], b[1..]);
    }
  }

  lemma {:induction false} LessTransitive(a: string, b: string, c: string)
    ensures Less(a, b) && Less(b, c) ==> Less(a, c)
    decreases |a|
  {
    if a != [] && b != [] && c != [] && a[0] == b[0] && b[0] == c[0] {
      LessTransitive(a[1..], b[1..], c[1..]);
    }
  }

  lemma {:induction false} LessTotal(a: string, b: string)
    ensures a == b || Less(a, b) || Less(b, a)
    decreases |a|
  {
    if a != [] && b != [] && a[0] == b[0] {
      LessTotal(a[1..], b[1..]);
      assert a == [a[0]] + a[1..] && b == [b[0]] + b[1..];
    }
  }

  /** The `<=` of Go strings. */
  predicate StringLe(a: string, b: string) {
    !Less(b, a)
  }

  /** String `<=` is a total order. */
  lemma StringLeTotalOrder()
    ensures TotalPreorder(StringLe) && Antisymmetric(StringLe)
  {
    forall x, y ensures StringLe(x, y) || StringLe(y, x) {
      LessAsymmetric(x, y);
    }
    forall x, y, z | StringLe(x, y) && StringLe(y, z) ensures StringLe(x, z) {
      LessTotal(x, y);
      LessTotal(y, z);
      LessTransitive(z, y, x);
      LessTransitive(z, x, y);
      LessTransitive(y, z, x);
    }
    forall x, y | StringLe(x, y) && StringLe(y, x) ensures x == y {
      LessTotal(x, y);
    }
  }

  /** `sort.Strings`: the strings in ascending order. */
  function SortStrings(s: seq<string>): (r: seq<string>)
    ensures SortedBy(r, StringLe)
    ensures multiset(r) == multiset(s)
  {
    StringLeTotalOrder();
    SortBy(s, StringLe)
  }

  /** Sorting strings depends only on which strings, with which multiplicity,
      are sorted: it forgets their order. */
  lemma SortStringsPermutation(a: seq<string>, b: seq<string>)
    requires multiset(a) == multiset(b)
    ensures SortStrings(a) == SortStrings(b)
  {
    StringLeTotalOrder();
    SortedUnique(SortStrings(a), SortStrings(b), StringLe);
  }

  // ---------------------------------------------------------------------
  // characters a pass cannot bring in

  /** `c` occurs in none of the strings. */
  predicate NoneHas(ss: seq<string>, c: char) {
    forall k :: 0 <= k < |ss| ==> c !in ss[k]
  }

  lemma SliceLacks(s: string, c: char, i: nat, j: nat)
    requires c !in s && i <= j <= |s|
    ensures c !in s[i..j] && c !in s[..j] && c !in s[i..]
  {
    assert forall k :: 0 <= k < j - i ==> s[i..j][k] == s[i + k];
    assert forall k :: 0 <= k < j ==> s[..j][k] == s[k];
    assert forall k :: 0 <= k < |s| - i ==> s[i..][k] == s[i + k];
  }

  lemma TrimSpaceLacks(s: string, c: char)
    requires c !in s
    ensures c !in TrimSpace(s)
  {
    var i, j := TrimSpaceSlice(s);
    SliceLacks(s, c, i, j);
  }

  /** Splitting brings in no character: the pieces join back to `s`. */
  lemma SplitLacks(s: string, sep: string, c: char)
    requires sep != [] && c !in s
    ensures NoneHas(Split(s, sep), c)
  {
    JoinSplit(s, sep);
    JoinedPartsLack(Split(s, sep), sep, c);
  }

  /** What a join lacks, each of its parts lacks. */
  lemma {:induction false} JoinedPartsLack(parts: seq<string>, sep: string, c: char)
    requires c !in Join(parts, sep)
    ensures NoneHas(parts, c)
    decreases |parts|
  {
    if |parts| > 1 {
      assert Join(parts, sep) == parts[0] + sep + Join(parts[1..], sep);
      JoinedPartsLack(parts[1..], sep, c);
      NoneHasCons(parts[0], parts[1..], c);
      assert parts == [parts[0]] + parts[1..];
    }
  }

  lemma NoneHasCons(x: string, rest: seq<string>, c: char)
    requires c !in x && NoneHas(rest, c)
    ensures NoneHas([x] + rest, c)
  {
    assert forall k :: 1 <= k < |rest| + 1 ==> ([x] + rest)[k] == rest[k - 1];
  }

  /** Joining brings in only the separator's characters. */
  lemma {:induction false} JoinLacks(parts: seq<string>, sep: string, c: char)
    requires NoneHas(parts, c) && c !in sep
    ensures c !in Join(parts, sep)
    decreases |parts|
  {
    if |parts| > 1 {
      JoinLacks(parts[1..], sep, c);
    }
  }

  /** Reordering strings brings in no character. */
  lemma PermutationLacks(a: seq<string>, b: seq<string>, c: char)
    requires multiset(a) == multiset(b) && NoneHas(a, c)
    ensures NoneHas(b, c)
  {
    forall k | 0 <= k < |b| ensures c !in b[k] {
      assert b[k] in multiset(a);
    }
  }
  lemma NoneHasConcat(a: seq<string>, b: seq<string>, c: char)
    requires NoneHas(a, c) && NoneHas(b, c)
    ensures NoneHas(a + b, c)
  {
    forall k | 0 <= k < |a + b| ensures c !in (a + b)[k] {
      if k < |a| {
        assert (a + b)[k] == a[k];
      } else {
        assert (a + b)[k] == b[k - |a|];
      }
    }
  }

  lemma NoneHasTail(ss: seq<string>, c: char)
    requires ss != [] && NoneHas(ss, c)
    ensures c !in ss[0] && NoneHas(ss[1..], c)
  {
    assert forall k :: 0 <= k < |ss[1..]| ==> ss[1..][k] == ss[k + 1];
  }
}
