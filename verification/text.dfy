/** The pieces of java.lang.String, Character, Integer and Long that the CSV
    codec relies on, written out over `string` (a sequence of `char`). */
module JavaText {
  import opened Wrappers

  // ---------------------------------------------------------------------------
  // String.trim
  // ---------------------------------------------------------------------------

  /** `String.trim` treats every character at or below U+0020 as blank. */
  predicate TrimBlank(c: char) {
    c <= ' '
  }

  /** Drops the blank characters at the front of `s`. */
  function TrimStart(s: string): (r: string)
    ensures |r| <= |s| && r == s[|s| - |r|..]
    ensures forall i :: 0 <= i < |s| - |r| ==> TrimBlank(s[i])
    ensures r == [] || !TrimBlank(r[0])
    decreases |s|
  {
    if s != [] && TrimBlank(s[0]) then
      var r := TrimStart(s[1..]);
      assert s[1..][|s| - 1 - |r|..] == s[|s| - |r|..];
      r
    else
      s
  }

  /** Drops the blank characters at the back of `s`. */
  function TrimEnd(s: string): (r: string)
    ensures |r| <= |s| && r == s[..|r|]
    ensures forall i :: |r| <= i < |s| ==> TrimBlank(s[i])
    ensures r == [] || !TrimBlank(r[|r| - 1])
    decreases |s|
  {
    if s != [] && TrimBlank(s[|s| - 1]) then
      var r := TrimEnd(s[..|s| - 1]);
      assert s[..|s| - 1][..|r|] == s[..|r|];
      r
    else
      s
  }

  /** `String.trim`: blank characters removed from both ends. */
  function Trim(s: string): (r: string)
    ensures |r| <= |s|
    ensures r == [] || (!TrimBlank(r[0]) && !TrimBlank(r[|r| - 1]))
  {
    var front := TrimStart(s);
    var r := TrimEnd(front);
    assert r != [] ==> r[0] == front[0];
    r
  }

  /** A string with no blank character at either end is its own trim. */
  lemma TrimOfTrimmed(s: string)
    requires s == [] || (!TrimBlank(s[0]) && !TrimBlank(s[|s| - 1]))
    ensures Trim(s) == s
  {
  }

  // ---------------------------------------------------------------------------
  // Character.isWhitespace and String.isBlank
  // ---------------------------------------------------------------------------

  /** `Character.isWhitespace`: the Unicode space, line and paragraph
      separators other than the three no-break spaces, plus U+0009..U+000D
      and U+001C..U+001F. */
  predicate IsJavaWhitespace(c: char) {
    || ('\t' <= c <= '\r')
    || ('\U{1C}' <= c <= '\U{1F}')
    || c == ' '
    || c == '\U{1680}'
    || ('\U{2000}' <= c <= '\U{2006}')
    || ('\U{2008}' <= c <= '\U{200A}')
    || c == '\U{2028}'
    || c == '\U{2029}'
    || c == '\U{205F}'
    || c == '\U{3000}'
  }

  /** `String.isBlank`: empty, or whitespace only. */
  predicate IsBlank(s: string) {
    forall i :: 0 <= i < |s| ==> IsJavaWhitespace(s[i])
  }

  // ---------------------------------------------------------------------------
  // The three `replace` steps of the CSV escaper and its inverse
  // ---------------------------------------------------------------------------

  /** The text one character becomes under `replace("\"", "\"\"")`. */
  function QuoteOf(c: char): string {
    if c == '"' then "\"\"" else [c]
  }

  /** `replace("\"", "\"\"")`: every double quote doubled. */
  function DoubleQuotes(s: string): (r: string)
    ensures |r| >= |s|
    ensures (forall i :: 0 <= i < |s| ==> s[i] != '"') ==> r == s
    decreases |s|
  {
    if s == [] then [] else QuoteOf(s[0]) + DoubleQuotes(s[1..])
  }

  /** `replace("\"\"", "\"")`: scanning from the left, each pair of double
      quotes becomes one. */
  function CollapseQuotes(s: string): (r: string)
    ensures |r| <= |s|
    decreases |s|
  {
    if |s| >= 2 && s[0] == '"' && s[1] == '"' then "\"" + CollapseQuotes(s[2..])
    else if s == [] then []
    else [s[0]] + CollapseQuotes(s[1..])
  }

  /** With no quote to pair up, collapsing changes nothing. */
  lemma {:induction false} QuoteFreeCollapse(s: string)
    ensures '"' !in s ==> CollapseQuotes(s) == s
    decreases |s|
  {
    if s != [] && '"' !in s {
      assert '"' !in s[1..] by {
        assert s == [s[0]] + s[1..];
      }
      QuoteFreeCollapse(s[1..]);
    }
  }

  /** Trimming only removes characters, so it adds no quote. */
  lemma QuoteFreeTrim(s: string)
    ensures '"' !in s ==> '"' !in Trim(s)
  {
    var front := TrimStart(s);
    var r := TrimEnd(front);
    if '"' !in s {
      forall i | 0 <= i < |r| ensures r[i] != '"' {
        assert r[i] == front[i] == s[|s| - |front| + i];
      }
    }
  }

  /** Characters removed by `replace("\r", "")`, `replace("\n", "")` and
      `replace("\t", "")`. */
  predicate IsStripped(c: char) {
    c == '\r' || c == '\n' || c == '\t'
  }

  /** The three removals in a row; removing characters never creates new
      occurrences of the others, so one filter does all three. */
  function StripControls(s: string): (r: string)
    ensures |r| <= |s|
    ensures forall i :: 0 <= i < |r| ==> !IsStripped(r[i])
    ensures (forall i :: 0 <= i < |s| ==> !IsStripped(s[i])) ==> r == s
    decreases |s|
  {
    if s == [] then []
    else (if IsStripped(s[0]) then [] else [s[0]]) + StripControls(s[1..])
  }

  /** What the escaper keeps of a text field: controls removed, then trimmed. */
  function Sanitize(s: string): string {
    Trim(StripControls(s))
  }

  lemma {:induction false} DoubleQuotesAppend(a: string, b: string)
    ensures DoubleQuotes(a + b) == DoubleQuotes(a) + DoubleQuotes(b)
    decreases |a|
  {
    if a == [] {
      assert a + b == b;
    } else {
      assert (a + b)[0] == a[0] && (a + b)[1..] == a[1..] + b;
      DoubleQuotesAppend(a[1..], b);
      var q := QuoteOf(a[0]);
      assert q + (DoubleQuotes(a[1..]) + DoubleQuotes(b)) == (q + DoubleQuotes(a[1..])) + DoubleQuotes(b);
    }
  }

  lemma {:induction false} StripControlsAppend(a: string, b: string)
    ensures StripControls(a + b) == StripControls(a) + StripControls(b)
    decreases |a|
  {
    if a == [] {
      assert a + b == b;
    } else {
      assert (a + b)[1..] == a[1..] + b;
      StripControlsAppend(a[1..], b);
    }
  }

  /** Collapsing undoes doubling: the decoder's half of the escape. */
  lemma {:induction false} CollapseDoubleQuotes(s: string)
    ensures CollapseQuotes(DoubleQuotes(s)) == s
    decreases |s|
  {
    if s != [] {
      CollapseDoubleQuotes(s[1..]);
      CollapseStep(s[0], DoubleQuotes(s[1..]));
      assert s == [s[0]] + s[1..];
    }
  }

  /** One doubled character collapses back to itself. */
  lemma CollapseStep(c: char, d: string)
    ensures CollapseQuotes(QuoteOf(c) + d) == [c] + CollapseQuotes(d)
  {
    if c == '"' {
      assert ("\"\"" + d)[2..] == d;
    } else {
      assert ([c] + d)[1..] == d;
    }
  }

  /** Removing controls and doubling quotes commute. */
  lemma {:induction false} StripDoubleCommute(s: string)
    ensures StripControls(DoubleQuotes(s)) == DoubleQuotes(StripControls(s))
    decreases |s|
  {
    if s != [] {
      StripDoubleCommute(s[1..]);
      StripControlsAppend(QuoteOf(s[0]), DoubleQuotes(s[1..]));
      var head := if IsStripped(s[0]) then [] else [s[0]];
      DoubleQuotesAppend(head, StripControls(s[1..]));
      if s[0] == '"' {
        assert StripControls(QuoteOf(s[0])) == "\"\"";
      } else {
        assert StripControls(QuoteOf(s[0])) == head;
      }
    }
  }

  lemma {:induction false} TrimStartDoubleCommute(s: string)
    ensures TrimStart(DoubleQuotes(s)) == DoubleQuotes(TrimStart(s))
    decreases |s|
  {
    if s != [] {
      if TrimBlank(s[0]) {
        var d := DoubleQuotes(s[1..]);
        assert DoubleQuotes(s) == [s[0]] + d;
        assert ([s[0]] + d)[1..] == d;
        TrimStartDoubleCommute(s[1..]);
      }
    }
  }

  lemma {:induction false} TrimEndDoubleCommute(s: string)
    ensures TrimEnd(DoubleQuotes(s)) == DoubleQuotes(TrimEnd(s))
    decreases |s|
  {
    if s != [] {
      var init := s[..|s| - 1];
      var last := s[|s| - 1];
      assert s == init + [last];
      DoubleQuotesAppend(init, [last]);
      assert DoubleQuotes([last]) == QuoteOf(last);
      var d := DoubleQuotes(s);
      if TrimBlank(last) {
        assert d == DoubleQuotes(init) + [last];
        assert d[..|d| - 1] == DoubleQuotes(init);
        TrimEndDoubleCommute(init);
      } else {
        assert d[|d| - 1] == '"' || d[|d| - 1] == last;
      }
    }
  }

  /** The escaper's order (double, then strip, then trim) gives the doubled
      form of the sanitized text. */
  lemma EscapeOrder(s: string)
    ensures Trim(StripControls(DoubleQuotes(s))) == DoubleQuotes(Sanitize(s))
  {
    StripDoubleCommute(s);
    var t := StripControls(s);
    TrimStartDoubleCommute(t);
    TrimEndDoubleCommute(TrimStart(t));
  }

  // ---------------------------------------------------------------------------
  // Decimal integers: String.valueOf, Integer.parseInt, Long.parseLong
  // ---------------------------------------------------------------------------

  predicate IsDigit(c: char) {
    '0' <= c <= '9'
  }

  predicate AllDigits(s: string) {
    forall i :: 0 <= i < |s| ==> IsDigit(s[i])
  }

  function DigitChar(d: int): (c: char)
    requires 0 <= d < 10
    ensures IsDigit(c)
  {
    (48 + d) as char
  }

  function DigitValue(c: char): (d: int)
    requires IsDigit(c)
    ensures 0 <= d < 10
  {
    c as int - 48
  }

  /** Decimal digits of `n`, most significant first, without leading zeros. */
  function NatToString(n: nat): (r: string)
    ensures |r| >= 1 && AllDigits(r)
    decreases n
  {
    if n < 10 then [DigitChar(n)] else NatToString(n / 10) + [DigitChar(n % 10)]
  }

  /** The number a non-empty run of decimal digits denotes. */
  function DigitsValue(s: string): nat
    requires AllDigits(s)
    decreases |s|
  {
    if s == [] then 0 else DigitsValue(s[..|s| - 1]) * 10 + DigitValue(s[|s| - 1])
  }

  lemma {:induction false} DigitsValueOfNat(n: nat)
    ensures DigitsValue(NatToString(n)) == n
    decreases n
  {
    if n >= 10 {
      var r := NatToString(n);
      assert r[..|r| - 1] == NatToString(n / 10);
      DigitsValueOfNat(n / 10);
    }
  }

  /** `String.valueOf(int)` / `String.valueOf(long)`. */
  function IntToString(i: int): (r: string)
    ensures |r| >= 1
    ensures IsDigit(r[|r| - 1])
    ensures (IsDigit(r[0]) && i >= 0) || (r[0] == '-' && i < 0)
    ensures forall k :: 0 <= k < |r| ==> r[k] == '-' || IsDigit(r[k])
  {
    if i < 0 then "-" + NatToString(-i) else NatToString(i)
  }

  /** The number syntax of `Integer.parseInt` and `Long.parseLong`: an
      optional sign and one or more ASCII digits; anything else is a
      NumberFormatException, here `None`. */
  function ParseDecimal(s: string): (r: Option<int>)
    ensures r.Some? ==> s != [] && !IsJavaWhitespace(s[0])
  {
    if |s| >= 2 && (s[0] == '-' || s[0] == '+') && AllDigits(s[1..]) then
      Some(if s[0] == '-' then -(DigitsValue(s[1..]) as int) else DigitsValue(s[1..]))
    else if s != [] && AllDigits(s) then
      Some(DigitsValue(s))
    else
      None
  }

  /** Printing and parsing a number are inverse. */
  lemma ParseDecimalOfIntToString(i: int)
    ensures ParseDecimal(IntToString(i)) == Some(i)
  {
    if i < 0 {
      DigitsValueOfNat(-i);
      assert IntToString(i)[1..] == NatToString(-i);
    } else {
      DigitsValueOfNat(i);
    }
  }

  const Int32Min: int := -0x8000_0000
  const Int32Max: int := 0x7FFF_FFFF
  const Int64Min: int := -0x8000_0000_0000_0000
  const Int64Max: int := 0x7FFF_FFFF_FFFF_FFFF

  predicate InInt32(i: int) {
    Int32Min <= i <= Int32Max
  }

  predicate InInt64(i: int) {
    Int64Min <= i <= Int64Max
  }

  /** An `int` result of Java arithmetic: the true value reduced into the
      32-bit range, as `nextId++` and `id + 1` wrap past 2147483647. */
  function Wrap32(x: int): (r: int)
    ensures InInt32(r)
    ensures InInt32(x) ==> r == x
    ensures x == Int32Max + 1 ==> r == Int32Min
  {
    (x - Int32Min) % 0x1_0000_0000 + Int32Min
  }

  /** The largest number of minutes `Duration.ofMinutes` accepts: it
      multiplies by 60 with `Math.multiplyExact` and throws when the
      seconds do not fit in a `long`. */
  const MaxDurationMinutes: int := 153_722_867_280_912_930

  /** `Duration.ofMinutes(m)` does not throw. */
  predicate FitsDuration(m: int) {
    -MaxDurationMinutes <= m <= MaxDurationMinutes
  }

  /** The bound is exactly where the seconds stop fitting in a `long`. */
  lemma FitsDurationIffSecondsFit(m: int)
    ensures FitsDuration(m) <==> InInt64(m * 60)
    ensures FitsDuration(m) ==> InInt64(m)
  {
  }

  /** `Integer.parseInt`: out-of-range values are rejected too. */
  function ParseInt32(s: string): (r: Option<int>)
    ensures r.Some? ==> InInt32(r.value) && ParseDecimal(s) == r
    ensures ParseDecimal(s).Some? && InInt32(ParseDecimal(s).value) ==> r.Some?
  {
    match ParseDecimal(s)
    case Some(v) => if InInt32(v) then Some(v) else None
    case None => None
  }

  /** `Long.parseLong`. */
  function ParseInt64(s: string): (r: Option<int>)
    ensures r.Some? ==> InInt64(r.value) && ParseDecimal(s) == r
    ensures ParseDecimal(s).Some? && InInt64(ParseDecimal(s).value) ==> r.Some?
  {
    match ParseDecimal(s)
    case Some(v) => if InInt64(v) then Some(v) else None
    case None => None
  }

  // ---------------------------------------------------------------------------
  // String.join
  // ---------------------------------------------------------------------------

  /** `String.join(",", fields)`. */
  function JoinComma(fields: seq<string>): string
    decreases |fields|
  {
    if fields == [] then ""
    else if |fields| == 1 then fields[0]
    else fields[0] + "," + JoinComma(fields[1..])
  }
}
