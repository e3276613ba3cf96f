/** `formatValue` and `buildFullSQL` (gormgoldenv1/plugin.go): render each
    bound variable as an SQL literal and put it in place of a `?`. */
module PluginV1 {

  import opened GoStrings

  /** A bound variable as `formatValue` tells it apart: `nil`, a string, a
      byte slice, a `time.Time` (its calendar fields), a bool, anything else
      with its `%v` rendering, or a pointer (to a value, or nil) with its
      own `%v` rendering. */
  datatype Value =
    | Null
    | Str(s: string)
    | Bytes(bytes: seq<bv8>)
    | Time(year: int, month: nat, day: nat, hour: nat, minute: nat, second: nat)
    | Bool(b: bool)
    | Other(rendered: string)
    | Ptr(target: Option<Value>, printed: string)

  /** The decimal digit for `d`. */
  function Digit(d: nat): char
    requires d < 10
  {
    "0123456789"[d]
  }

  /** The value of a digit character. */
  function DigitValue(c: char): nat
  {
    if '0' <= c <= '9' then (c - '0') as nat else 0
  }

  /** `n` in decimal, without leading zeros. */
  function Digits(n: nat): (r: string)
    ensures r != []
    decreases n
  {
    if n < 10 then [Digit(n)] else Digits(n / 10) + [Digit(n % 10)]
  }

  /** `n` in decimal, padded with zeros on the left to `width` digits. */
  function Pad(n: nat, width: nat): (r: string)
  {
    var d := Digits(n);
    if |d| < width then seq(width - |d|, _ => '0') + d else d
  }

  /** The number a string of decimal digits denotes. */
  function DecimalValue(s: string): nat
  {
    if s == [] then 0 else DecimalValue(s[..|s| - 1]) * 10 + DigitValue(s[|s| - 1])
  }

  function Pow10(w: nat): (p: nat)
    ensures p >= 1
  {
    if w == 0 then 1 else 10 * Pow10(w - 1)
  }

  lemma {:induction false} DigitsValue(n: nat)
    ensures DecimalValue(Digits(n)) == n
    ensures forall k :: 0 <= k < |Digits(n)| ==> '0' <= Digits(n)[k] <= '9'
    decreases n
  {
    if n >= 10 {
      DigitsValue(n / 10);
      var d := Digits(n);
      assert d[..|d| - 1] == Digits(n / 10);
    }
  }

  lemma {:induction false} DigitsLength(n: nat, w: nat)
    requires n < Pow10(w)
    ensures |Digits(n)| <= w || (n < 10 && w == 0)
    decreases n
  {
    if n >= 10 {
      assert w > 0;
      DigitsLength(n / 10, w - 1);
    }
  }

  lemma {:induction false} ValueLeadingZeros(z: nat, t: string)
    ensures DecimalValue(seq(z, _ => '0') + t) == DecimalValue(t)
    decreases |t|
  {
    var zs := seq(z, _ => '0');
    if t == [] {
      assert zs + t == zs;
      ZerosValue(z);
    } else {
      var s := zs + t;
      assert s[..|s| - 1] == zs + t[..|t| - 1];
      ValueLeadingZeros(z, t[..|t| - 1]);
    }
  }

  lemma {:induction false} ZerosValue(z: nat)
    ensures DecimalValue(seq(z, _ => '0')) == 0
  {
    if z > 0 {
      var zs := seq(z, _ => '0');
      assert zs[..z - 1] == seq(z - 1, _ => '0');
      ZerosValue(z - 1);
    }
  }

  /** A number below `10^width` pads to exactly `width` digits, which read
      back as the number. */
  lemma PadExact(n: nat, width: nat)
    requires 0 < width && n < Pow10(width)
    ensures |Pad(n, width)| == width && DecimalValue(Pad(n, width)) == n
    ensures forall k :: 0 <= k < width ==> '0' <= Pad(n, width)[k] <= '9'
  {
    DigitsValue(n);
    DigitsLength(n, width);
    var d := Digits(n);
    if |d| < width {
      ValueLeadingZeros(width - |d|, d);
    }
  }

  /** `time.Time.Format("2006-01-02 15:04:05")` on the calendar fields:
      the year to four digits (a `-` before a negative one), the others to
      two. */
  function TimeText(year: int, month: nat, day: nat, hour: nat, minute: nat, second: nat): string
  {
    Layout(if year < 0 then "-" + Pad(-year, 4) else Pad(year, 4),
      Pad(month, 2), Pad(day, 2), Pad(hour, 2), Pad(minute, 2), Pad(second, 2))
  }

  /** The layout `2006-01-02 15:04:05` with its fields filled in. */
  function Layout(y: string, mo: string, d: string, h: string, mi: string, s: string): string
  {
    y + "-" + mo + "-" + d + " " + h + ":" + mi + ":" + s
  }

  /** `'` + text + `'`, with every `'` inside doubled. */
  function Quote(s: string): string
  {
    "'" + ReplaceAll(s, "'", "''") + "'"
  }

  /** A byte slice read as a string, one character per byte. */
  function BytesText(bytes: seq<bv8>): (r: string)
    ensures |r| == |bytes|
  {
    seq(|bytes|, k requires 0 <= k < |bytes| => (bytes[k] as int) as char)
  }

  /** The type switch of `formatValue`, after the pointer check. */
  function Render(v: Value): string
  {
    match v
    case Str(s) => Quote(s)
    case Time(y, mo, d, h, mi, s) => "'" + TimeText(y, mo, d, h, mi, s) + "'"
    case Bytes(bytes) => Quote(BytesText(bytes))
    case Bool(b) => if b then "TRUE" else "FALSE"
    case Other(rendered) => rendered
    case Ptr(_, printed) => printed
    case Null => "<nil>"
  }

  /** `formatValue`: `nil` and a nil pointer are `NULL`; a pointer is
      dereferenced once; then the type switch. */
  function FormatValue(v: Value): (r: string)
    ensures v.Null? ==> r == "NULL"
    ensures v.Ptr? && v.target.None? ==> r == "NULL"
  {
    match v
    case Null => "NULL"
    case Ptr(target, _) => if target.None? then "NULL" else Render(target.value)
    case _ => Render(v)
  }

  /** A pointer to a value that is neither `nil` nor a pointer renders as
      the value itself; a pointer to a pointer is not followed a second
      time. */
  lemma PointerOnce(x: Value, printed: string)
    ensures !x.Null? && !x.Ptr? ==> FormatValue(Ptr(Some(x), printed)) == FormatValue(x)
    ensures x.Ptr? ==> FormatValue(Ptr(Some(x), printed)) == x.printed
  {
  }

  /** Undo the doubling of quotes. */
  function Undouble(t: string): string
    decreases |t|
  {
    if HasPrefix(t, "''") then "'" + Undouble(t[2..])
    else if t == [] then []
    else [t[0]] + Undouble(t[1..])
  }

  lemma {:induction false} UndoubleDoubled(s: string)
    ensures Undouble(ReplaceAll(s, "'", "''")) == s
    decreases |s|
  {
    if s != [] {
      var t := ReplaceAll(s[1..], "'", "''");
      UndoubleDoubled(s[1..]);
      if s[0] == '\'' {
        assert ReplaceAll(s, "'", "''") == "''" + t;
        assert ("''" + t)[2..] == t;
      } else {
        assert !HasPrefix(s, "'");
        assert ReplaceAll(s, "'", "''") == [s[0]] + t;
        assert ([s[0]] + t)[1..] == t;
      }
      assert s == [s[0]] + s[1..];
    }
  }

  /** A string renders as a quoted literal whose inside, un-doubled, is the
      string again. */
  lemma StringLiteralRoundTrip(s: string)
    ensures var r := FormatValue(Str(s));
      |r| >= 2 && r[0] == '\'' && r[|r| - 1] == '\'' && Undouble(r[1..|r| - 1]) == s
  {
    var r := FormatValue(Str(s));
    assert r[1..|r| - 1] == ReplaceAll(s, "'", "''");
    UndoubleDoubled(s);
  }

  /** A byte slice renders as the quoted literal of its text. */
  lemma BytesLiteralRoundTrip(bytes: seq<bv8>)
    ensures var r := FormatValue(Bytes(bytes));
      |r| >= 2 && r[0] == '\'' && r[|r| - 1] == '\'' && Undouble(r[1..|r| - 1]) == BytesText(bytes)
  {
    var r := FormatValue(Bytes(bytes));
    assert r[1..|r| - 1] == ReplaceAll(BytesText(bytes), "'", "''");
    UndoubleDoubled(BytesText(bytes));
  }

  /** Where the date fields sit in `'YYYY-MM-DD HH:MM:SS'`. */
  lemma DateLayout(y: string, mo: string, d: string, h: string, mi: string, s: string)
    requires |y| == 4 && |mo| == 2 && |d| == 2 && |h| == 2 && |mi| == 2 && |s| == 2
    ensures |"'" + Layout(y, mo, d, h, mi, s) + "'"| == 21
    ensures ("'" + Layout(y, mo, d, h, mi, s) + "'")[0] == '\''
    ensures ("'" + Layout(y, mo, d, h, mi, s) + "'")[5] == '-'
    ensures ("'" + Layout(y, mo, d, h, mi, s) + "'")[8] == '-'
    ensures ("'" + Layout(y, mo, d, h, mi, s) + "'")[1..5] == y
    ensures ("'" + Layout(y, mo, d, h, mi, s) + "'")[6..8] == mo
    ensures ("'" + Layout(y, mo, d, h, mi, s) + "'")[9..11] == d
  {
    var date := y + "-" + mo + "-" + d;
    assert Layout(y, mo, d, h, mi, s) == date + (" " + h + ":" + mi + ":" + s);
    var r := "'" + Layout(y, mo, d, h, mi, s) + "'";
    assert r[1..11] == date;
    assert date[..4] == y && date[5..7] == mo && date[8..] == d;
  }

  /** Where the clock fields sit in `'YYYY-MM-DD HH:MM:SS'`. */
  lemma ClockLayout(y: string, mo: string, d: string, h: string, mi: string, s: string)
    requires |y| == 4 && |mo| == 2 && |d| == 2 && |h| == 2 && |mi| == 2 && |s| == 2
    ensures |"'" + Layout(y, mo, d, h, mi, s) + "'"| == 21
    ensures ("'" + Layout(y, mo, d, h, mi, s) + "'")[11] == ' '
    ensures ("'" + Layout(y, mo, d, h, mi, s) + "'")[14] == ':'
    ensures ("'" + Layout(y, mo, d, h, mi, s) + "'")[17] == ':'
    ensures ("'" + Layout(y, mo, d, h, mi, s) + "'")[20] == '\''
    ensures ("'" + Layout(y, mo, d, h, mi, s) + "'")[12..14] == h
    ensures ("'" + Layout(y, mo, d, h, mi, s) + "'")[15..17] == mi
    ensures ("'" + Layout(y, mo, d, h, mi, s) + "'")[18..20] == s
  {
    var clock := h + ":" + mi + ":" + s;
    assert Layout(y, mo, d, h, mi, s) == y + "-" + mo + "-" + d + " " + clock;
    var r := "'" + Layout(y, mo, d, h, mi, s) + "'";
    assert r[12..20] == clock;
    assert clock[..2] == h && clock[3..5] == mi && clock[6..] == s;
  }

  /** A time of a four-digit year renders as `'YYYY-MM-DD HH:MM:SS'`,
      every field zero-padded and reading back as itself. */
  lemma TimeLiteral(y: nat, mo: nat, d: nat, h: nat, mi: nat, s: nat)
    requires y <= 9999 && mo < 100 && d < 100 && h < 100 && mi < 100 && s < 100
    ensures var r := FormatValue(Time(y, mo, d, h, mi, s));
      && |r| == 21 && r[0] == '\'' && r[20] == '\''
      && r[5] == '-' && r[8] == '-' && r[11] == ' ' && r[14] == ':' && r[17] == ':'
      && DecimalValue(r[1..5]) == y && DecimalValue(r[6..8]) == mo && DecimalValue(r[9..11]) == d
      && DecimalValue(r[12..14]) == h && DecimalValue(r[15..17]) == mi && DecimalValue(r[18..20]) == s
  {
    assert Pow10(2) == 100 && Pow10(4) == 10000;
    PadExact(y, 4);
    PadExact(mo, 2);
    PadExact(d, 2);
    PadExact(h, 2);
    PadExact(mi, 2);
    PadExact(s, 2);
    DateLayout(Pad(y, 4), Pad(mo, 2), Pad(d, 2), Pad(h, 2), Pad(mi, 2), Pad(s, 2));
    ClockLayout(Pad(y, 4), Pad(mo, 2), Pad(d, 2), Pad(h, 2), Pad(mi, 2), Pad(s, 2));
  }

  /** Put `value` in place of the first `?` of `result`, if there is one. */
  function ReplaceFirstPlaceholder(result: string, value: string): (r: string)
    ensures !Contains(result, "?") ==> r == result
  {
    var idx := Index(result, "?");
    if idx != -1 then result[..idx] + value + result[idx + 1..] else result
  }

  /** The loop of `buildFullSQL`: each variable in turn, formatted, replaces
      the first `?` of the text built so far. */
  function Fill(result: string, vars: seq<Value>): string
    decreases |vars|
  {
    if vars == [] then result
    else Fill(ReplaceFirstPlaceholder(result, FormatValue(vars[0])), vars[1..])
  }

  /** `buildFullSQL`. */
  method BuildFullSql(sql: string, vars: seq<Value>) returns (result: string)
    ensures result == Fill(sql, vars)
    ensures vars == [] ==> result == sql
  {
    if |vars| == 0 {
      return sql;
    }
    result := sql;
    var i := 0;
    while i < |vars|
      invariant 0 <= i <= |vars|
      invariant Fill(result, vars[i..]) == Fill(sql, vars)
    {
      var value := FormatValue(vars[i]);
      FillStep(result, vars, i);
      var idx := Index(result, "?");
      if idx != -1 {
        result := result[..idx] + value + result[idx + 1..];
      }
      i := i + 1;
    }
  }

  /** One variable of the loop: the first of `vars[i..]` fills the first
      `?`, the others fill the result. */
  lemma FillStep(result: string, vars: seq<Value>, i: nat)
    requires i < |vars|
    ensures Fill(result, vars[i..]) == Fill(ReplaceFirstPlaceholder(result, FormatValue(vars[i])), vars[i + 1..])
  {
    assert vars[i..][1..] == vars[i + 1..];
  }

  /** Once no `?` is left, the remaining variables are dropped. */
  lemma {:induction false} SurplusVarsDropped(result: string, vars: seq<Value>)
    requires !Contains(result, "?")
    ensures Fill(result, vars) == result
    decreases |vars|
  {
    if vars != [] {
      SurplusVarsDropped(result, vars[1..]);
    }
  }

  /** The substitution one would expect: going through `sql` from left to
      right, each `?` takes the next value, and `?`s beyond the last value
      stay. */
  function LeftToRight(sql: string, values: seq<string>): string
    decreases |sql|
  {
    if values == [] then sql
    else
      var i := Index(sql, "?");
      if i == -1 then sql else sql[..i] + values[0] + LeftToRight(sql[i + 1..], values[1..])
  }

  /** The first `?` past a prefix without one. */
  lemma {:induction false} IndexPastPrefix(p: string, s: string)
    requires '?' !in p
    ensures Index(p + s, "?") == if Index(s, "?") == -1 then -1 else |p| + Index(s, "?")
    decreases |p|
  {
    if p != [] {
      assert !HasPrefix(p + s, "?") by {
        assert (p + s)[0] == p[0];
      }
      assert (p + s)[1..] == p[1..] + s;
      IndexPastPrefix(p[1..], s);
    } else {
      assert p + s == s;
    }
  }

  /** The first `?` past a prefix without one is replaced past it. */
  lemma ReplacePastPrefix(p: string, s: string, value: string)
    requires '?' !in p
    ensures ReplaceFirstPlaceholder(p + s, value) == p + ReplaceFirstPlaceholder(s, value)
  {
    IndexPastPrefix(p, s);
    var i := Index(s, "?");
    if i != -1 {
      ConcatSlices(p, s, i);
      ConcatAssocString(p, s[..i], value, s[i + 1..]);
    }
  }

  /** Text without `?` in front is carried through the substitution. */
  lemma {:induction false} FillPastPrefix(p: string, s: string, vars: seq<Value>)
    requires '?' !in p
    ensures Fill(p + s, vars) == p + Fill(s, vars)
    decreases |vars|
  {
    if vars != [] {
      var value := FormatValue(vars[0]);
      ReplacePastPrefix(p, s, value);
      FillPastPrefix(p, ReplaceFirstPlaceholder(s, value), vars[1..]);
    }
  }

  lemma ConcatAssocString<T>(p: seq<T>, a: seq<T>, v: seq<T>, b: seq<T>)
    ensures p + a + v + b == p + (a + v + b)
  {
  }

  /** Cutting `p + s` around position `i` of `s`. */
  lemma ConcatSlices<T>(p: seq<T>, s: seq<T>, i: nat)
    requires i < |s|
    ensures (p + s)[..|p| + i] == p + s[..i]
    ensures (p + s)[|p| + i + 1..] == s[i + 1..]
  {
  }

  /** No `?` comes before the first one. */
  lemma NoPlaceholderBefore(sql: string)
    requires Index(sql, "?") != -1
    ensures '?' !in sql[..Index(sql, "?")]
  {
    var i := Index(sql, "?");
    forall k | 0 <= k < i ensures sql[k] != '?' {
      assert !HasPrefix(sql[k..], "?");
    }
  }

  /** The formatted values, in order. */
  function Formatted(vars: seq<Value>): (r: seq<string>)
    ensures |r| == |vars|
    ensures forall k :: 0 <= k < |r| ==> r[k] == FormatValue(vars[k])
  {
    if vars == [] then [] else [FormatValue(vars[0])] + Formatted(vars[1..])
  }

  /** When no formatted value holds a `?`, `buildFullSQL` is the plain left
      to right substitution. */
  lemma {:induction false} FillIsLeftToRight(sql: string, vars: seq<Value>)
    requires forall k :: 0 <= k < |vars| ==> '?' !in FormatValue(vars[k])
    ensures Fill(sql, vars) == LeftToRight(sql, Formatted(vars))
    decreases |sql|
  {
    if vars != [] {
      var value := FormatValue(vars[0]);
      var i := Index(sql, "?");
      if i == -1 {
        SurplusVarsDropped(sql, vars[1..]);
      } else {
        var p := sql[..i] + value;
        NoPlaceholderBefore(sql);
        FillPastPrefix(p, sql[i + 1..], vars[1..]);
        FillIsLeftToRight(sql[i + 1..], vars[1..]);
        assert Formatted(vars)[1..] == Formatted(vars[1..]);
      }
    }
  }

  /** A `?` inside an inserted literal is taken by the next variable:
      `?,?` with `'?'` and `true` gives `'TRUE',?`. */
  lemma PlaceholderInLiteral(sql: string)
    requires sql == "?,?"
    ensures Fill(sql, [Str("?"), Bool(true)]) == "'TRUE',?"
  {
    var vars := [Str("?"), Bool(true)];
    assert FormatValue(Str("?")) == "'?'" by {
      assert ReplaceAll("?", "'", "''") == "?";
    }
    assert FormatValue(Bool(true)) == "TRUE";
    FirstPlaceholderFilled(sql);
    SecondPlaceholderFilled("'?',?");
    assert vars[1..] == [Bool(true)] && vars[1..][1..] == [];
  }

  lemma FirstPlaceholderFilled(sql: string)
    requires sql == "?,?"
    ensures ReplaceFirstPlaceholder(sql, "'?'") == "'?',?"
  {
    assert HasPrefix(sql, "?");
  }

  lemma SecondPlaceholderFilled(sql: string)
    requires sql == "'?',?"
    ensures ReplaceFirstPlaceholder(sql, "TRUE") == "'TRUE',?"
  {
    assert sql[..1] == "'" && sql[1..][..1] == "?";
    assert Index(sql, "?") == 1;
  }
}
