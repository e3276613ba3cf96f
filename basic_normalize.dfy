/** `basicNormalize` (common/query_manager.go): trim, turn line feeds and
    tabs into spaces, collapse runs of spaces, and drop the space just inside
    a parenthesis. */
module BasicNormalize {

  import opened Sorting
  import opened GoStrings

  /** `s` nowhere has the character `a` immediately followed by `b`. */
  predicate NoPair(s: string, a: char, b: char) {
    forall i :: 0 <= i < |s| - 1 ==> !(s[i] == a && s[i + 1] == b)
  }

  lemma NoPairCons(x: char, t: string, a: char, b: char)
    ensures NoPair([x] + t, a, b) <==> (t == [] || !(x == a && t[0] == b)) && NoPair(t, a, b)
  {
    var s := [x] + t;
    if NoPair(s, a, b) {
      forall i | 0 <= i < |t| - 1 ensures !(t[i] == a && t[i + 1] == b) {
        assert t[i] == s[i + 1] && t[i + 1] == s[i + 2];
      }
      if t != [] {
        assert s[0] == x && s[1] == t[0];
      }
    }
    if (t == [] || !(x == a && t[0] == b)) && NoPair(t, a, b) {
      forall i | 0 <= i < |s| - 1 ensures !(s[i] == a && s[i + 1] == b) {
        if i > 0 {
          assert s[i] == t[i - 1] && s[i + 1] == t[i];
        }
      }
    }
  }

  /** A two-character pattern is contained exactly where its pair occurs. */
  lemma ContainsPair(s: string, a: char, b: char)
    ensures Contains(s, [a, b]) <==> !NoPair(s, a, b)
  {
    if Contains(s, [a, b]) {
      var k := Index(s, [a, b]);
      assert s[k..][..2] == [a, b];
      assert s[k] == a && s[k + 1] == b;
    }
    if !NoPair(s, a, b) {
      var i :| 0 <= i < |s| - 1 && s[i] == a && s[i + 1] == b;
      assert s[i..][..2] == [a, b];
      ContainsAt(s, [a, b], i);
    }
  }

  /** Every run of spaces collapsed into a single space: what the loop of
      repeated `ReplaceAll(query, "  ", " ")` reaches. */
  function Squeeze(s: string): (r: string)
    ensures |r| <= |s|
    ensures s != [] ==> r != [] && r[0] == s[0] && r[|r| - 1] == s[|s| - 1]
  {
    if |s| < 2 then s
    else if s[0] == ' ' && s[1] == ' ' then Squeeze(s[1..])
    else [s[0]] + Squeeze(s[1..])
  }

  lemma {:induction false} SqueezeNoDoubleSpace(s: string)
    ensures NoPair(Squeeze(s), ' ', ' ')
    ensures forall x :: x in Squeeze(s) ==> x in s
  {
    if |s| >= 2 {
      SqueezeNoDoubleSpace(s[1..]);
      if !(s[0] == ' ' && s[1] == ' ') {
        NoPairCons(s[0], Squeeze(s[1..]), ' ', ' ');
      }
    }
  }

  lemma {:induction false} SqueezeFixedPoint(s: string)
    requires NoPair(s, ' ', ' ')
    ensures Squeeze(s) == s
  {
    if |s| >= 2 {
      NoPairCons(s[0], s[1..], ' ', ' ');
      assert s == [s[0]] + s[1..];
      SqueezeFixedPoint(s[1..]);
    }
  }

  lemma SqueezeCons(c: char, x: string, y: string)
    requires Squeeze(x) == Squeeze(y)
    ensures Squeeze([c] + x) == Squeeze([c] + y)
  {
    assert ([c] + x)[1..] == x && ([c] + y)[1..] == y;
    assert x == [] <==> y == [];
  }

  /** One pass of the loop body does not change the collapsed form. */
  lemma {:induction false} SqueezeReplace(s: string)
    ensures Squeeze(ReplaceAll(s, "  ", " ")) == Squeeze(s)
    decreases |s|
  {
    if HasPrefix(s, "  ") {
      SqueezeReplace(s[2..]);
      assert s[1..] == [' '] + s[2..];
      SqueezeCons(' ', ReplaceAll(s[2..], "  ", " "), s[2..]);
    } else if s != [] {
      SqueezeReplace(s[1..]);
      assert s == [s[0]] + s[1..];
      SqueezeCons(s[0], ReplaceAll(s[1..], "  ", " "), s[1..]);
    }
  }

  lemma HasPrefixPair(s: string, a: char, b: char)
    ensures HasPrefix(s, [a, b]) <==> |s| >= 2 && s[0] == a && s[1] == b
  {
    if |s| >= 2 && s[0] == a && s[1] == b {
      assert s[..2] == [a, b];
    }
  }

  /** Dropping the space after `(`, on text without double spaces. */
  lemma {:induction false} DropSpaceAfterOpen(s: string)
    requires NoPair(s, ' ', ' ')
    ensures var r := ReplaceAll(s, "( ", "(");
      && NoPair(r, '(', ' ') && NoPair(r, ' ', ' ')
      && (forall x :: x in r ==> x in s || x == '(')
      && (s != [] ==> r != [] && r[0] == s[0])
      && (s != [] && s[|s| - 1] != ' ' ==> r[|r| - 1] == s[|s| - 1])
    decreases |s|
  {
    ReplaceAllChars(s, "( ", "(");
    HasPrefixPair(s, '(', ' ');
    if s != [] {
      NoPairCons(s[0], s[1..], ' ', ' ');
      assert s == [s[0]] + s[1..];
    }
    if HasPrefix(s, "( ") {
      NoPairCons(s[1], s[2..], ' ', ' ');
      assert s[1..] == [s[1]] + s[2..];
      DropSpaceAfterOpen(s[2..]);
      var t := ReplaceAll(s[2..], "( ", "(");
      NoPairCons('(', t, '(', ' ');
      NoPairCons('(', t, ' ', ' ');
    } else if s != [] {
      DropSpaceAfterOpen(s[1..]);
      var t := ReplaceAll(s[1..], "( ", "(");
      NoPairCons(s[0], t, '(', ' ');
      NoPairCons(s[0], t, ' ', ' ');
    }
  }

  /** Dropping the space before `)`, on text without double spaces and
      without a space after `(`. */
  lemma {:induction false} DropSpaceBeforeClose(s: string)
    requires NoPair(s, ' ', ' ') && NoPair(s, '(', ' ')
    ensures var r := ReplaceAll(s, " )", ")");
      && NoPair(r, ' ', ')') && NoPair(r, '(', ' ') && NoPair(r, ' ', ' ')
      && (forall x :: x in r ==> x in s || x == ')')
      && (s != [] ==> r != [] && r[0] == (if HasPrefix(s, " )") then ')' else s[0]))
      && (s != [] ==> r[|r| - 1] == s[|s| - 1])
    decreases |s|
  {
    ReplaceAllChars(s, " )", ")");
    HasPrefixPair(s, ' ', ')');
    if s != [] {
      NoPairCons(s[0], s[1..], ' ', ' ');
      NoPairCons(s[0], s[1..], '(', ' ');
      assert s == [s[0]] + s[1..];
    }
    if HasPrefix(s, " )") {
      NoPairCons(s[1], s[2..], ' ', ' ');
      NoPairCons(s[1], s[2..], '(', ' ');
      assert s[1..] == [s[1]] + s[2..];
      DropSpaceBeforeClose(s[2..]);
      var t := ReplaceAll(s[2..], " )", ")");
      NoPairCons(')', t, ' ', ')');
      NoPairCons(')', t, '(', ' ');
      NoPairCons(')', t, ' ', ' ');
    } else if s != [] {
      DropSpaceBeforeClose(s[1..]);
      HasPrefixPair(s[1..], ' ', ')');
      var t := ReplaceAll(s[1..], " )", ")");
      NoPairCons(s[0], t, ' ', ')');
      NoPairCons(s[0], t, '(', ' ');
      NoPairCons(s[0], t, ' ', ' ');
    }
  }

  /** The result of `basicNormalize`. */
  function BasicNormalized(query: string): (r: string)
  {
    var q := TrimSpace(query);
    var q := ReplaceAll(q, "\n", " ");
    var q := ReplaceAll(q, "\t", " ");
    var q := Squeeze(q);
    var q := ReplaceAll(q, "( ", "(");
    ReplaceAll(q, " )", ")")
  }

  /** `basicNormalize`: the loop collapsing double spaces ends with the
      collapsed form of its input. */
  method BasicNormalize(query: string) returns (r: string)
    ensures r == BasicNormalized(query)
  {
    var q := TrimSpace(query);
    q := ReplaceAll(q, "\n", " ");
    q := ReplaceAll(q, "\t", " ");
    ghost var q0 := q;
    while Contains(q, "  ")
      invariant Squeeze(q) == Squeeze(q0)
      decreases |q|
    {
      ReplaceAllShrinks(q, "  ", " ");
      SqueezeReplace(q);
      q := ReplaceAll(q, "  ", " ");
    }
    ContainsPair(q, ' ', ' ');
    SqueezeFixedPoint(q);
    q := ReplaceAll(q, "( ", "(");
    r := ReplaceAll(q, " )", ")");
  }

  /** No line feed or tab survives the two replacements. */
  lemma NoControlAfterReplace(q0: string)
    ensures '\n' !in ReplaceAll(ReplaceAll(q0, "\n", " "), "\t", " ")
    ensures '\t' !in ReplaceAll(ReplaceAll(q0, "\n", " "), "\t", " ")
  {
    var q1 := ReplaceAll(q0, "\n", " ");
    var q2 := ReplaceAll(q1, "\t", " ");
    ReplaceCharAt(q0, '\n', ' ');
    ReplaceCharAt(q1, '\t', ' ');
    forall x | x in q2 ensures x != '\n' && x != '\t' {
      var k :| 0 <= k < |q2| && q2[k] == x;
    }
  }

  /** The normalised query has no line feed and no tab. */
  lemma BasicNormalizedNoControl(query: string)
    ensures '\n' !in BasicNormalized(query) && '\t' !in BasicNormalized(query)
  {
    var q0 := TrimSpace(query);
    var q2 := ReplaceAll(ReplaceAll(q0, "\n", " "), "\t", " ");
    var q3 := Squeeze(q2);
    var q4 := ReplaceAll(q3, "( ", "(");
    var r := ReplaceAll(q4, " )", ")");
    assert r == BasicNormalized(query);
    NoControlAfterReplace(q0);
    SqueezeNoDoubleSpace(q2);
    ReplaceAllChars(q3, "( ", "(");
    ReplaceAllChars(q4, " )", ")");
  }

  /** The normalised query has no double space and no space just inside a
      parenthesis. */
  lemma BasicNormalizedPairs(query: string)
    ensures !Contains(BasicNormalized(query), "  ")
    ensures !Contains(BasicNormalized(query), "( ") && !Contains(BasicNormalized(query), " )")
  {
    var q2 := ReplaceAll(ReplaceAll(TrimSpace(query), "\n", " "), "\t", " ");
    var q3 := Squeeze(q2);
    var q4 := ReplaceAll(q3, "( ", "(");
    var r := ReplaceAll(q4, " )", ")");
    assert r == BasicNormalized(query);
    SqueezeNoDoubleSpace(q2);
    DropSpaceAfterOpen(q3);
    DropSpaceBeforeClose(q4);
    ContainsPair(r, ' ', ' ');
    ContainsPair(r, '(', ' ');
    ContainsPair(r, ' ', ')');
  }

  /** The two replacements keep the first and last characters of trimmed
      text. */
  lemma ReplaceControlEnds(q0: string)
    requires q0 != [] && Trimmed(q0)
    ensures var q2 := ReplaceAll(ReplaceAll(q0, "\n", " "), "\t", " ");
      |q2| == |q0| && q2[0] == q0[0] && q2[|q2| - 1] == q0[|q0| - 1]
  {
    var q1 := ReplaceAll(q0, "\n", " ");
    ReplaceCharAt(q0, '\n', ' ');
    ReplaceCharAt(q1, '\t', ' ');
  }

  /** The normalised query is trimmed, and empty only for blank input. */
  lemma BasicNormalizedEnds(query: string)
    ensures Trimmed(BasicNormalized(query))
    ensures BasicNormalized(query) == "" <==> IsBlank(query)
  {
    var q0 := TrimSpace(query);
    var q2 := ReplaceAll(ReplaceAll(q0, "\n", " "), "\t", " ");
    var q3 := Squeeze(q2);
    var q4 := ReplaceAll(q3, "( ", "(");
    var r := ReplaceAll(q4, " )", ")");
    assert r == BasicNormalized(query);
    if q0 == [] {
      assert q2 == [] by {
        ReplaceCharAt(q0, '\n', ' ');
        ReplaceCharAt(ReplaceAll(q0, "\n", " "), '\t', ' ');
      }
    } else {
      ReplaceControlEnds(q0);
      SqueezeNoDoubleSpace(q2);
      DropSpaceAfterOpen(q3);
      DropSpaceBeforeClose(q4);
      HasPrefixPair(q4, ' ', ')');
    }
  }

  /** The shape `basicNormalize` promises: trimmed, no line feed or tab, no
      double space, no space just inside a parenthesis; and only blank
      input normalises to the empty string. */
  lemma BasicNormalizedShape(query: string)
    ensures Trimmed(BasicNormalized(query))
    ensures '\n' !in BasicNormalized(query) && '\t' !in BasicNormalized(query)
    ensures !Contains(BasicNormalized(query), "  ")
    ensures !Contains(BasicNormalized(query), "( ") && !Contains(BasicNormalized(query), " )")
    ensures BasicNormalized(query) == "" <==> IsBlank(query)
  {
    BasicNormalizedNoControl(query);
    BasicNormalizedPairs(query);
    BasicNormalizedEnds(query);
  }

  /** Text in the form `basicNormalize` produces: trimmed, with no newline
      or tab, no double space, no space after `(` and none before `)`. */
  predicate Normal(q: string) {
    && Trimmed(q) && '\n' !in q && '\t' !in q
    && NoPair(q, ' ', ' ') && NoPair(q, '(', ' ') && NoPair(q, ' ', ')')
  }

  /** Text without white space is in that form. */
  lemma NormalWithoutSpace(q: string)
    requires forall k :: 0 <= k < |q| ==> !IsSpace(q[k])
    ensures Normal(q)
  {
    assert ' ' !in q && '\n' !in q && '\t' !in q;
  }

  /** Every result of `basicNormalize` is in that form. */
  lemma BasicNormalizedNormal(query: string)
    ensures Normal(BasicNormalized(query))
  {
    var r := BasicNormalized(query);
    BasicNormalizedShape(query);
    ContainsPair(r, ' ', ' ');
    ContainsPair(r, '(', ' ');
    ContainsPair(r, ' ', ')');
  }

  /** Text already in that form passes every step unchanged. */
  lemma BasicNormalizedOfNormal(q: string)
    requires Normal(q)
    ensures BasicNormalized(q) == q
  {
    TrimSpaceOfTrimmed(q);
    NoCharNoContains(q, '\n');
    ReplaceAllAbsent(q, "\n", " ");
    NoCharNoContains(q, '\t');
    ReplaceAllAbsent(q, "\t", " ");
    SqueezeFixedPoint(q);
    ContainsPair(q, '(', ' ');
    ReplaceAllAbsent(q, "( ", "(");
    ContainsPair(q, ' ', ')');
    ReplaceAllAbsent(q, " )", ")");
  }

  /** `basicNormalize` is idempotent. */
  lemma BasicNormalizedIdempotent(query: string)
    ensures BasicNormalized(BasicNormalized(query)) == BasicNormalized(query)
  {
    BasicNormalizedNormal(query);
    BasicNormalizedOfNormal(BasicNormalized(query));
  }

  /** The characters other than white space, in order. */
  function NonSpace(s: string): string
  {
    if s == [] then []
    else (if IsSpace(s[0]) then [] else [s[0]]) + NonSpace(s[1..])
  }

  lemma {:induction false} NonSpaceConcat(a: string, b: string)
    ensures NonSpace(a + b) == NonSpace(a) + NonSpace(b)
  {
    if a != [] {
      var h := if IsSpace(a[0]) then [] else [a[0]];
      assert (a + b)[0] == a[0] && (a + b)[1..] == a[1..] + b;
      NonSpaceConcat(a[1..], b);
      assert NonSpace(a + b) == h + NonSpace(a[1..] + b);
      assert NonSpace(a) == h + NonSpace(a[1..]);
    } else {
      assert a + b == b;
    }
  }

  lemma {:induction false} NonSpaceOfSpaces(s: string)
    requires forall k :: 0 <= k < |s| ==> IsSpace(s[k])
    ensures NonSpace(s) == []
  {
    if s != [] {
      NonSpaceOfSpaces(s[1..]);
    }
  }

  lemma {:induction false} NonSpaceReplaceAll(s: string, pat: string, repl: string)
    requires pat != [] && NonSpace(pat) == NonSpace(repl)
    ensures NonSpace(ReplaceAll(s, pat, repl)) == NonSpace(s)
    decreases |s|
  {
    if HasPrefix(s, pat) {
      NonSpaceReplaceAll(s[|pat|..], pat, repl);
      NonSpaceConcat(repl, ReplaceAll(s[|pat|..], pat, repl));
      assert s == pat + s[|pat|..];
      NonSpaceConcat(pat, s[|pat|..]);
    } else if s != [] {
      NonSpaceReplaceAll(s[1..], pat, repl);
    }
  }

  lemma {:induction false} NonSpaceSqueeze(s: string)
    ensures NonSpace(Squeeze(s)) == NonSpace(s)
  {
    if |s| >= 2 {
      NonSpaceSqueeze(s[1..]);
    }
  }

  lemma NonSpaceTrimSpace(s: string)
    ensures NonSpace(TrimSpace(s)) == NonSpace(s)
  {
    var i, j := TrimSpaceSlice(s);
    var a, m, b := s[..i], s[i..j], s[j..];
    assert s == a + m + b;
    NonSpaceConcat(a + m, b);
    NonSpaceConcat(a, m);
    NonSpaceOfSpaces(a);
    NonSpaceOfSpaces(b);
  }

  /** `basicNormalize` only edits white space: every other character
      survives, in order. */
  lemma NonSpacePreserved(query: string)
    ensures NonSpace(BasicNormalized(query)) == NonSpace(query)
  {
    var q0 := TrimSpace(query);
    var q1 := ReplaceAll(q0, "\n", " ");
    var q2 := ReplaceAll(q1, "\t", " ");
    var q3 := Squeeze(q2);
    var q4 := ReplaceAll(q3, "( ", "(");
    var r := ReplaceAll(q4, " )", ")");
    assert r == BasicNormalized(query);
    NonSpaceTrimSpace(query);
    NonSpaceReplaceAll(q0, "\n", " ");
    NonSpaceReplaceAll(q1, "\t", " ");
    NonSpaceSqueeze(q2);
    NonSpaceReplaceAll(q3, "( ", "(");
    NonSpaceReplaceAll(q4, " )", ")");
  }

  // ---------------------------------------------------------------------
  // the cases of the basicNormalize test

  /** Collapsing skips a prefix without a double space that does not end in
      a space before a space. */
  lemma {:induction false} SqueezeSkip(p: string, rest: string)
    requires NoPair(p, ' ', ' ')
    requires p == [] || rest == [] || p[|p| - 1] != ' ' || rest[0] != ' '
    ensures Squeeze(p + rest) == p + Squeeze(rest)
    decreases |p|
  {
    if p == [] {
      assert p + rest == rest;
    } else {
      var c, p' := p[0], p[1..];
      assert p == [c] + p';
      assert NoPair(p', ' ', ' ') && (p' == [] || !(c == ' ' && p'[0] == ' ')) by {
        NoPairCons(c, p', ' ', ' ');
      }
      var t := p' + rest;
      assert t != [] ==> t[0] == if p' != [] then p'[0] else rest[0];
      calc {
        Squeeze(p + rest);
      == { assert p + rest == [c] + t; }
        Squeeze([c] + t);
      == { SqueezeKeep(c, t); }
        [c] + Squeeze(t);
      == { SqueezeSkip(p', rest); }
        [c] + (p' + Squeeze(rest));
      ==
        p + Squeeze(rest);
      }
    }
  }

  /** A character not starting a double space is kept in front. */
  lemma SqueezeKeep(c: char, t: string)
    requires !(c == ' ' && t != [] && t[0] == ' ')
    ensures Squeeze([c] + t) == [c] + Squeeze(t)
  {
    assert ([c] + t)[1..] == t;
  }

  /** For text that is trimmed, has no line feed, no tab and no double
      space, only the spaces inside parentheses are edited. */
  lemma ParenSpacesOnly(q: string)
    requires Trimmed(q) && '\n' !in q && '\t' !in q && NoPair(q, ' ', ' ')
    ensures BasicNormalized(q) == ReplaceAll(ReplaceAll(q, "( ", "("), " )", ")")
  {
    TrimSpaceOfTrimmed(q);
    NoCharNoContains(q, '\n');
    ReplaceAllAbsent(q, "\n", " ");
    NoCharNoContains(q, '\t');
    ReplaceAllAbsent(q, "\t", " ");
    SqueezeFixedPoint(q);
  }

  /** The literal pieces around two parenthesised conditions, with the
      space after each `(` dropped. */
  lemma OpenPieces()
    ensures ReplaceAll("( ", "( ", "(") == "("
    ensures ReplaceAll(" ) AND ( ", "( ", "(") == " ) AND ("
    ensures ReplaceAll(" )", "( ", "(") == " )"
  {
    assert "" + "( " == "( " && " ) AND " + "( " == " ) AND ( ";
    ReplaceAllLast("", "( ", "(");
    NoHeadNoContains(" ) AND ", "( ");
    ReplaceAllLast(" ) AND ", "( ", "(");
    NoHeadNoContains(" )", "( ");
    ReplaceAllAbsent(" )", "( ", "(");
  }

  /** The same pieces, with the space before each `)` dropped. */
  lemma ClosePieces()
    ensures ReplaceAll("(", " )", ")") == "("
    ensures ReplaceAll(" ) AND (", " )", ")") == ") AND ("
    ensures ReplaceAll(" )", " )", ")") == ")"
  {
    CloseEnd();
    CloseMiddle(" ) AND (");
    SecondCharNoContains("(", " )");
    ReplaceAllAbsent("(", " )", ")");
  }

  lemma CloseEnd()
    ensures ReplaceAll(" )", " )", ")") == ")"
  {
    assert "" + " )" == " )";
    ReplaceAllLast("", " )", ")");
  }

  lemma CloseMiddle(m: string)
    requires m == " ) AND ("
    ensures ReplaceAll(m, " )", ")") == ") AND ("
  {
    var a, b := " )", " AND (";
    MiddleCut(m, a, b);
    CloseEnd();
    SecondCharNoContains(b, " )");
    ReplaceAllAbsent(b, " )", ")");
    ReplaceAllAppend(a, b, " )", ")");
    MiddleJoin(")", b);
  }

  lemma MiddleCut(m: string, a: string, b: string)
    requires m == " ) AND (" && a == " )" && b == " AND ("
    ensures m == a + b
  {
  }

  lemma MiddleJoin(a: string, b: string)
    requires a == ")" && b == " AND ("
    ensures a + b == ") AND ("
  {
  }

  /** No double pair is made where two strings meet. */
  lemma NoPairAppend(a: string, b: string, x: char, y: char)
    requires NoPair(a, x, y) && NoPair(b, x, y)
    requires a == [] || b == [] || !(a[|a| - 1] == x && b[0] == y)
    ensures NoPair(a + b, x, y)
  {
    var s := a + b;
    forall i | 0 <= i < |s| - 1 ensures !(s[i] == x && s[i + 1] == y) {
      if i + 1 < |a| {
        assert s[i] == a[i] && s[i + 1] == a[i + 1];
      } else if i >= |a| {
        assert s[i] == b[i - |a|] && s[i + 1] == b[i - |a| + 1];
      } else {
        assert s[i] == a[|a| - 1] && s[i + 1] == b[0];
      }
    }
  }

  /** Neither a line feed, nor a tab, nor a parenthesis. */
  predicate Flat(s: string) {
    forall k :: 0 <= k < |s| ==> s[k] != '\n' && s[k] != '\t' && s[k] != '(' && s[k] != ')'
  }

  /** Two parenthesised conditions after a prefix: the spaces just inside
      the parentheses go. */
  lemma ParenPairSpacing(q: string, p: string, x: string, y: string, r: string)
    requires p != [] && !IsSpace(p[0]) && x != [] && Trimmed(x) && y != [] && Trimmed(y)
    requires Flat(p) && Flat(x) && Flat(y)
    requires NoPair(p, ' ', ' ') && NoPair(x, ' ', ' ') && NoPair(y, ' ', ' ')
    requires q == p + "( " + x + " ) AND ( " + y + " )"
    requires r == p + "(" + x + ") AND (" + y + ")"
    ensures BasicNormalized(q) == r
  {
    assert '(' !in p && '(' !in x && '(' !in y && ')' !in p && ')' !in x && ')' !in y;
    assert '\n' !in q && '\t' !in q by {
      assert '\n' !in p && '\n' !in x && '\n' !in y && '\t' !in p && '\t' !in x && '\t' !in y;
    }
    assert Trimmed(q) by {
      assert q[0] == p[0] && q[|q| - 1] == ')';
    }
    assert NoPair(q, ' ', ' ') by {
      NoPairAppend(p, "( ", ' ', ' ');
      NoPairAppend(p + "( ", x, ' ', ' ');
      NoPairAppend(p + "( " + x, " ) AND ( ", ' ', ' ');
      NoPairAppend(p + "( " + x + " ) AND ( ", y, ' ', ' ');
      NoPairAppend(p + "( " + x + " ) AND ( " + y, " )", ' ', ' ');
    }
    ParenSpacesOnly(q);
    NoHeadNoContains(p, "( ");
    ReplaceAllAbsent(p, "( ", "(");
    NoHeadNoContains(x, "( ");
    ReplaceAllAbsent(x, "( ", "(");
    NoHeadNoContains(y, "( ");
    ReplaceAllAbsent(y, "( ", "(");
    ReplaceAllAppend(p, "( ", "( ", "(");
    ReplaceAllAppend(p + "( ", x, "( ", "(");
    ReplaceAllAppend(p + "( " + x, " ) AND ( ", "( ", "(");
    ReplaceAllAppend(p + "( " + x + " ) AND ( ", y, "( ", "(");
    ReplaceAllAppend(p + "( " + x + " ) AND ( " + y, " )", "( ", "(");
    OpenPieces();
    ClosePieces();
    var m := p + "(" + x + " ) AND (" + y + " )";
    assert ReplaceAll(q, "( ", "(") == m;
    SecondCharNoContains(p, " )");
    ReplaceAllAbsent(p, " )", ")");
    SecondCharNoContains(x, " )");
    ReplaceAllAbsent(x, " )", ")");
    SecondCharNoContains(y, " )");
    ReplaceAllAbsent(y, " )", ")");
    ReplaceAllAppend(p, "(", " )", ")");
    ReplaceAllAppend(p + "(", x, " )", ")");
    ReplaceAllAppend(p + "(" + x, " ) AND (", " )", ")");
    ReplaceAllAppend(p + "(" + x + " ) AND (", y, " )", ")");
    ReplaceAllAppend(p + "(" + x + " ) AND (" + y, " )", " )", ")");
  }

  /** "GORM v1 parentheses removal" of the basicNormalize test. */
  lemma ParenthesisSpacingExample(q: string, r: string)
    requires q == "SELECT * FROM users WHERE ( id > ? ) AND ( name = ? )"
    requires r == "SELECT * FROM users WHERE (id > ?) AND (name = ?)"
    ensures BasicNormalized(q) == r
  {
    var p, x, y := "SELECT * FROM users WHERE ", "id > ?", "name = ?";
    ExamplePrefix(p);
    ExampleConditions(x, y);
    ExampleInput(q, p, x, y);
    ExampleOutput(r, p, x, y);
    ParenPairSpacing(q, p, x, y, r);
  }

  lemma ExamplePrefix(p: string)
    requires p == "SELECT * FROM users WHERE "
    ensures p != [] && !IsSpace(p[0]) && Flat(p) && NoPair(p, ' ', ' ')
  {
  }

  lemma ExampleConditions(x: string, y: string)
    requires x == "id > ?" && y == "name = ?"
    ensures x != [] && Trimmed(x) && Flat(x) && NoPair(x, ' ', ' ')
    ensures y != [] && Trimmed(y) && Flat(y) && NoPair(y, ' ', ' ')
  {
  }

  lemma ExampleInput(q: string, p: string, x: string, y: string)
    requires q == "SELECT * FROM users WHERE ( id > ? ) AND ( name = ? )"
    requires p == "SELECT * FROM users WHERE " && x == "id > ?" && y == "name = ?"
    ensures q == p + "( " + x + " ) AND ( " + y + " )"
  {
  }

  lemma ExampleOutput(r: string, p: string, x: string, y: string)
    requires r == "SELECT * FROM users WHERE (id > ?) AND (name = ?)"
    requires p == "SELECT * FROM users WHERE " && x == "id > ?" && y == "name = ?"
    ensures r == p + "(" + x + ") AND (" + y + ")"
  {
  }

  /** "Empty query" and "Only whitespace" of the basicNormalize test: blank
      input normalises to "". */
  lemma BlankExamples(e: string, w: string)
    requires e == "" && w == "   \n\t   "
    ensures BasicNormalized(e) == "" && BasicNormalized(w) == ""
  {
    BasicNormalizedShape(e);
    BlankIsAllSpace(e);
    BasicNormalizedShape(w);
    BlankIsAllSpace(w);
  }

  /** Line feeds and tabs turned into spaces, as the second and third steps
      of `basicNormalize` do. */
  function Blanked(s: string): string {
    ReplaceAll(ReplaceAll(s, "\n", " "), "\t", " ")
  }

  lemma BlankedAt(s: string)
    ensures |Blanked(s)| == |s|
    ensures forall i :: 0 <= i < |s| ==>
      Blanked(s)[i] == if s[i] == '\n' || s[i] == '\t' then ' ' else s[i]
  {
    ReplaceCharAt(s, '\n', ' ');
    ReplaceCharAt(ReplaceAll(s, "\n", " "), '\t', ' ');
  }

  lemma BlankedAppend(s: string, t: string)
    ensures Blanked(s + t) == Blanked(s) + Blanked(t)
  {
    ReplaceAllAppend(s, t, "\n", " ");
    ReplaceAllAppend(ReplaceAll(s, "\n", " "), ReplaceAll(t, "\n", " "), "\t", " ");
  }

  /** A run of spaces, line feeds and tabs. */
  predicate Gap(g: string) {
    g != [] && forall k :: 0 <= k < |g| ==> g[k] == ' ' || g[k] == '\n' || g[k] == '\t'
  }

  /** A run of spaces before something that does not start with a space
      collapses to one space. */
  lemma {:induction false} SqueezeSpaces(s: string, t: string)
    requires s != [] && forall k :: 0 <= k < |s| ==> s[k] == ' '
    requires t == [] || t[0] != ' '
    ensures Squeeze(s + t) == " " + Squeeze(t)
    decreases |s|
  {
    var u := s + t;
    assert u[0] == ' ' && u[1..] == s[1..] + t;
    if |s| == 1 {
      assert s[1..] == [];
      if t != [] {
        assert u[1] == t[0];
      }
    } else {
      assert u[1] == ' ';
      SqueezeSpaces(s[1..], t);
    }
  }

  /** Blanking a word, a gap and the rest keeps the word, turns the gap into
      spaces and keeps the first character of the rest. */
  lemma GapBlanked(a: string, g: string, t: string)
    requires Flat(a) && Gap(g)
    requires t != [] && t[0] != '\n' && t[0] != '\t'
    ensures Blanked(a + g + t) == a + (Blanked(g) + Blanked(t))
    ensures Blanked(g) != [] && forall k :: 0 <= k < |Blanked(g)| ==> Blanked(g)[k] == ' '
    ensures Blanked(t) != [] && Blanked(t)[0] == t[0]
  {
    BlankedAppend(a + g, t);
    BlankedAppend(a, g);
    BlankedAt(a);
    assert Blanked(a) == a;
    BlankedAt(g);
    BlankedAt(t);
  }

  /** A word, a gap, then the rest: the gap becomes one space. */
  lemma GapStep(a: string, g: string, t: string)
    requires a != [] && Flat(a) && NoPair(a, ' ', ' ') && a[|a| - 1] != ' '
    requires Gap(g)
    requires t != [] && t[0] != ' ' && t[0] != '\n' && t[0] != '\t'
    ensures Squeeze(Blanked(a + g + t)) == a + " " + Squeeze(Blanked(t))
  {
    GapBlanked(a, g, t);
    var bg, bt := Blanked(g), Blanked(t);
    SqueezeSkip(a, bg + bt);
    SqueezeSpaces(bg, bt);
  }

  /** The last word is kept as it is. */
  lemma WordEnd(w: string)
    requires Flat(w) && NoPair(w, ' ', ' ')
    ensures Squeeze(Blanked(w)) == w
  {
    BlankedAt(w);
    assert Blanked(w) == w;
    SqueezeFixedPoint(w);
  }

  /** A word of a query: without line feed, tab, parenthesis or double
      space, and neither starting nor ending with a space. */
  predicate Word(w: string) {
    w != [] && Flat(w) && NoPair(w, ' ', ' ') && w[0] != ' ' && w[|w| - 1] != ' '
  }

  /** Six words separated by five gaps of whitespace collapse to the words
      separated by single spaces. */
  lemma FiveGaps(w1: string, g1: string, w2: string, g2: string, w3: string, g3: string,
                 w4: string, g4: string, w5: string, g5: string, w6: string)
    requires Word(w1) && Word(w2) && Word(w3) && Word(w4) && Word(w5) && Word(w6)
    requires Gap(g1) && Gap(g2) && Gap(g3) && Gap(g4) && Gap(g5)
    ensures Squeeze(Blanked(w1 + g1 + (w2 + g2 + (w3 + g3 + (w4 + g4 + (w5 + g5 + w6))))))
         == w1 + " " + (w2 + " " + (w3 + " " + (w4 + " " + (w5 + " " + w6))))
  {
    WordEnd(w6);
    var t4 := w5 + g5 + w6;
    GapStep(w5, g5, w6);
    var t3 := w4 + g4 + t4;
    assert t4[0] == w5[0];
    GapStep(w4, g4, t4);
    var t2 := w3 + g3 + t3;
    assert t3[0] == w4[0];
    GapStep(w3, g3, t3);
    var t1 := w2 + g2 + t2;
    assert t2[0] == w3[0];
    GapStep(w2, g2, t2);
    assert t1[0] == w2[0];
    GapStep(w1, g1, t1);
  }

  /** "Remove extra whitespace" of the basicNormalize test. */
  lemma WhitespaceExample(q: string, r: string)
    requires q == "SELECT  *   FROM\n\tusers\t\tWHERE    id = ?"
    requires r == "SELECT * FROM users WHERE id = ?"
    ensures BasicNormalized(q) == r
  {
    var w1, w2, w3, w4, w5, w6 := "SELECT", "*", "FROM", "users", "WHERE", "id = ?";
    var g1, g2, g3, g4, g5 := "  ", "   ", "\n\t", "\t\t", "    ";
    ExampleWords(w1, w2, w3, w4, w5, w6);
    ExampleGaps(g1, g2, g3, g4, g5);
    WhitespaceInput(q, w1, g1, w2, g2, w3, g3, w4, g4, w5, g5, w6);
    WhitespaceOutput(r, w1, w2, w3, w4, w5, w6);
    WhitespaceEnds(q);
    WhitespaceParens(r);
    FiveGaps(w1, g1, w2, g2, w3, g3, w4, g4, w5, g5, w6);
    NoParenSpacing(q, r);
  }

  /** Trimmed text whose whitespace collapses to `r`, with no parenthesis,
      normalises to `r`. */
  lemma NoParenSpacing(q: string, r: string)
    requires Trimmed(q) && Squeeze(Blanked(q)) == r && '(' !in r && ')' !in r
    ensures BasicNormalized(q) == r
  {
    TrimSpaceOfTrimmed(q);
    NoHeadNoContains(r, "( ");
    ReplaceAllAbsent(r, "( ", "(");
    SecondCharNoContains(r, " )");
    ReplaceAllAbsent(r, " )", ")");
  }

  lemma ExampleWords(w1: string, w2: string, w3: string, w4: string, w5: string, w6: string)
    requires w1 == "SELECT" && w2 == "*" && w3 == "FROM" && w4 == "users" && w5 == "WHERE" && w6 == "id = ?"
    ensures Word(w1) && Word(w2) && Word(w3) && Word(w4) && Word(w5) && Word(w6)
  {
  }

  lemma ExampleGaps(g1: string, g2: string, g3: string, g4: string, g5: string)
    requires g1 == "  " && g2 == "   " && g3 == "\n\t" && g4 == "\t\t" && g5 == "    "
    ensures Gap(g1) && Gap(g2) && Gap(g3) && Gap(g4) && Gap(g5)
  {
  }

  lemma WhitespaceInput(q: string, w1: string, g1: string, w2: string, g2: string, w3: string, g3: string,
                        w4: string, g4: string, w5: string, g5: string, w6: string)
    requires q == "SELECT  *   FROM\n\tusers\t\tWHERE    id = ?"
    requires w1 == "SELECT" && w2 == "*" && w3 == "FROM" && w4 == "users" && w5 == "WHERE" && w6 == "id = ?"
    requires g1 == "  " && g2 == "   " && g3 == "\n\t" && g4 == "\t\t" && g5 == "    "
    ensures q == w1 + g1 + (w2 + g2 + (w3 + g3 + (w4 + g4 + (w5 + g5 + w6))))
  {
  }

  lemma WhitespaceEnds(q: string)
    requires q == "SELECT  *   FROM\n\tusers\t\tWHERE    id = ?"
    ensures Trimmed(q)
  {
  }

  lemma WhitespaceOutput(r: string, w1: string, w2: string, w3: string, w4: string, w5: string, w6: string)
    requires r == "SELECT * FROM users WHERE id = ?"
    requires w1 == "SELECT" && w2 == "*" && w3 == "FROM" && w4 == "users" && w5 == "WHERE" && w6 == "id = ?"
    ensures r == w1 + " " + (w2 + " " + (w3 + " " + (w4 + " " + (w5 + " " + w6))))
  {
  }

  lemma WhitespaceParens(r: string)
    requires r == "SELECT * FROM users WHERE id = ?"
    ensures '(' !in r && ')' !in r
  {
  }
}
