/** Durations as configuration text (src/config.rs): reading, writing, and the round trip between them.
    A duration is its number of nanoseconds. */
module Duration {
  import opened Wrappers
  import opened Arithmetic

  const U128_MAX := 0xFFFF_FFFF_FFFF_FFFF_FFFF_FFFF_FFFF_FFFF
  const MAX_GO_DURATION_NANOS := 0x7FFF_FFFF_FFFF_FFFF
  const MAX_FRACTION_DIGITS := 19

  const NANOS_PER_MICRO := 1_000
  const NANOS_PER_MILLI := 1_000_000
  const NANOS_PER_SECOND := 1_000_000_000
  const NANOS_PER_MINUTE := 60_000_000_000
  const NANOS_PER_HOUR := 3_600_000_000_000

  datatype Error = Invalid

  // --- decimal numerals

  predicate IsDigit(c: char) {
    '0' <= c <= '9'
  }

  predicate AllDigits(s: string) {
    forall i :: 0 <= i < |s| ==> IsDigit(s[i])
  }

  function Pow10(k: nat): (p: nat)
    ensures p > 0
  {
    if k == 0 then 1 else 10 * Pow10(k - 1)
  }

  function Times(a: nat, b: nat): (p: nat) {
    a * b
  }

  function Quotient(a: nat, b: nat): (q: nat)
    requires b > 0
  {
    a / b
  }

  function Value(s: string): (v: nat)
    requires AllDigits(s)
    ensures v < Pow10(|s|)
  {
    if s == [] then 0 else 10 * Value(s[..|s| - 1]) + (s[|s| - 1] as nat - '0' as nat)
  }

  function Digit(n: nat): (c: char)
    requires n < 10
    ensures IsDigit(c) && c as nat - '0' as nat == n
  {
    '0' + n as char
  }

  /** A number without leading zeros. */
  function Decimal(n: nat): (s: string)
    ensures AllDigits(s) && s != [] && Value(s) == n
  {
    if n < 10 then [Digit(n)] else Decimal(n / 10) + [Digit(n % 10)]
  }

  /** A number filled up with leading zeros to a width. */
  function Padded(n: nat, width: nat): (s: string)
    requires n < Pow10(width)
    ensures AllDigits(s) && |s| == width && Value(s) == n
  {
    if width == 0 then [] else Padded(n / 10, width - 1) + [Digit(n % 10)]
  }

  function TrimZeros(s: string): (r: string)
    ensures r <= s
  {
    if s != [] && s[|s| - 1] == '0' then TrimZeros(s[..|s| - 1]) else s
  }

  lemma TimesTen(a: nat, b: nat)
    ensures Times(a, 10 * b) == 10 * Times(a, b)
  {
  }

  /** Trimming zeros divides by a power of ten. */
  lemma {:induction false} TrimScales(s: string)
    requires AllDigits(s)
    ensures var t := TrimZeros(s); Value(s) == Times(Value(t), Pow10(|s| - |t|))
  {
    if s == [] || s[|s| - 1] != '0' {
    } else {
      TrimScales(s[..|s| - 1]);
      var t := TrimZeros(s);
      assert Pow10(|s| - |t|) == 10 * Pow10(|s| - 1 - |t|);
      TimesTen(Value(t), Pow10(|s| - 1 - |t|));
      hide Times;
    }
  }

  lemma {:induction false} PowSplits(a: nat, b: nat)
    ensures Pow10(a + b) == Pow10(a) * Pow10(b)
  {
    if a == 0 {
    } else {
      PowSplits(a - 1, b);
      assert (10 * Pow10(a - 1)) * Pow10(b) == 10 * (Pow10(a - 1) * Pow10(b));
    }
  }

  function Log10(n: nat): (k: nat)
    requires n > 0
  {
    if n < 10 then 0 else 1 + Log10(n / 10)
  }

  // --- writing

  function FormatNumber(value: nat, unit: nat): (s: string)
    requires unit > 0 && unit == Pow10(Log10(unit))
  {
    hide Pow10, Log10;
    var whole, fraction := Quotient(value, unit), value % unit;
    if fraction == 0 then Decimal(whole)
    else Decimal(whole) + "." + TrimZeros(Padded(fraction, Log10(unit)))
  }

  function FormatDecimal(value: nat, unit: nat, suffix: string): (s: string)
    requires unit > 0 && unit == Pow10(Log10(unit))
  {
    FormatNumber(value, unit) + suffix
  }

  lemma UnitsArePowers()
    ensures NANOS_PER_MICRO == Pow10(3) && NANOS_PER_MILLI == Pow10(6) && NANOS_PER_SECOND == Pow10(9)
    ensures Log10(NANOS_PER_MICRO) == 3 && Log10(NANOS_PER_MILLI) == 6 && Log10(NANOS_PER_SECOND) == 9
  {
  }

  const MICROS := "\U{00B5}s"

  function Format(nanos: nat): (s: string) {
    UnitsArePowers();
    if nanos < NANOS_PER_MICRO then Decimal(nanos) + "ns"
    else if nanos < NANOS_PER_MILLI then FormatDecimal(nanos, NANOS_PER_MICRO, MICROS)
    else if nanos < NANOS_PER_SECOND then FormatDecimal(nanos, NANOS_PER_MILLI, "ms")
    else
      var hours, afterHours := nanos / NANOS_PER_HOUR, nanos % NANOS_PER_HOUR;
      var minutes, secondsNanos := afterHours / NANOS_PER_MINUTE, afterHours % NANOS_PER_MINUTE;
      var seconds := FormatDecimal(secondsNanos, NANOS_PER_SECOND, "s");
      if hours != 0 then Decimal(hours) + "h" + (Decimal(minutes) + "m" + seconds)
      else if minutes != 0 then Decimal(minutes) + "m" + seconds
      else seconds
  }

  // --- reading

  predicate IsNumeric(c: char) {
    IsDigit(c) || c == '.'
  }

  /** The length of the longest prefix of numeric, or of other, characters. */
  function Span(s: string, numeric: bool): (n: nat)
    ensures n <= |s|
    ensures forall i :: 0 <= i < n ==> IsNumeric(s[i]) == numeric
    ensures n < |s| ==> IsNumeric(s[n]) != numeric
  {
    if s == [] || IsNumeric(s[0]) != numeric then 0 else 1 + Span(s[1..], numeric)
  }

  function UnitNanos(unit: string): (r: Option<nat>)
    ensures r.Some? ==> 0 < r.value <= NANOS_PER_HOUR
  {
    if unit == "ns" then Some(1)
    else if unit == "us" || unit == MICROS then Some(NANOS_PER_MICRO)
    else if unit == "ms" then Some(NANOS_PER_MILLI)
    else if unit == "s" then Some(NANOS_PER_SECOND)
    else if unit == "m" then Some(NANOS_PER_MINUTE)
    else if unit == "h" then Some(NANOS_PER_HOUR)
    else None
  }

  function Checked(n: nat): (r: Result<nat, Error>) {
    if n <= U128_MAX then Ok(n) else Err(Invalid)
  }

  /** Where the first point is, or the length where there is none. */
  function PointAt(s: string): (n: nat)
    ensures n <= |s| && (forall i :: 0 <= i < n ==> s[i] != '.') && (n < |s| ==> s[n] == '.')
  {
    if s == [] || s[0] == '.' then 0 else 1 + PointAt(s[1..])
  }

  function FractionOf(number: string): (s: string) {
    var n := PointAt(number);
    if n < |number| then number[n + 1..] else []
  }

  function FractionNanos(digits: string, unit: nat): (n: nat)
    requires AllDigits(digits)
  {
    Quotient(Times(Value(digits), unit), Pow10(|digits|))
  }

  function Leading(fraction: string): (s: string) {
    if |fraction| <= MAX_FRACTION_DIGITS then fraction else fraction[..MAX_FRACTION_DIGITS]
  }

  /** The nanoseconds of a number of units; digits of the fraction past the nineteenth are ignored. */
  function Number(number: string, unit: nat): (r: Result<nat, Error>) {
    var integer, fraction := number[..PointAt(number)], FractionOf(number);
    if integer == [] && fraction == [] then Err(Invalid)
    else if !AllDigits(integer) || !AllDigits(fraction) then Err(Invalid)
    else if Value(integer) > U128_MAX || Times(Value(integer), unit) > U128_MAX then Err(Invalid)
    else Checked(Times(Value(integer), unit) + FractionNanos(Leading(fraction), unit))
  }

  function Plus(total: nat, segment: Result<nat, Error>): (r: Result<nat, Error>)
    ensures r.Ok? ==> total <= r.value <= MAX_GO_DURATION_NANOS
  {
    if segment.Err? then segment
    else if total + segment.value <= MAX_GO_DURATION_NANOS then Ok(total + segment.value)
    else Err(Invalid)
  }

  /** A number and its unit, added to the total so far. */
  function Segment(total: nat, number: string, unit: string): (r: Result<nat, Error>)
    ensures r.Ok? ==> total <= r.value <= MAX_GO_DURATION_NANOS
  {
    if UnitNanos(unit) == None then Err(Invalid) else Plus(total, Number(number, UnitNanos(unit).value))
  }

  function Segments(total: nat, s: string): (r: Result<nat, Error>)
    requires total <= MAX_GO_DURATION_NANOS
    ensures r.Ok? ==> total <= r.value <= MAX_GO_DURATION_NANOS
    decreases |s|
  {
    if s == [] then Ok(total)
    else
      var n := Span(s, true);
      var u := Span(s[n..], false);
      if n == |s| then Err(Invalid)
      else
        var next := Segment(total, s[..n], s[n..][..u]);
        if next.Err? then next else Segments(next.value, s[n..][u..])
  }

  function Unsigned(value: string): (s: string) {
    if value != [] && value[0] == '+' then value[1..] else value
  }

  /** What a text denotes; never nothing, and never more than a signed 64-bit count. */
  function Parse(value: string): (r: Result<nat, Error>)
    ensures r.Ok? ==> 1 <= r.value <= MAX_GO_DURATION_NANOS
  {
    hide Segments;
    var total := Segments(0, Unsigned(value));
    if total.Ok? && total.value == 0 then Err(Invalid) else total
  }

  // --- the loops that read

  lemma {:induction false} PowBound(k: nat)
    requires k <= MAX_FRACTION_DIGITS
    ensures Pow10(k) <= 10_000_000_000_000_000_000
    decreases MAX_FRACTION_DIGITS - k
  {
    if k < MAX_FRACTION_DIGITS {
      PowBound(k + 1);
    } else {
      PowSplits(9, 10);
    }
  }

  lemma TimesBound(a: nat, b: nat, c: nat, d: nat)
    requires a <= c && b <= d
    ensures Times(a, b) <= Times(c, d)
  {
    assert a * b <= c * b <= c * d;
  }

  /** None of the checked operations on the fraction can overflow. */
  method ParseNumber(number: string, unit: nat) returns (r: Result<nat, Error>)
    requires unit <= NANOS_PER_HOUR
    ensures r == Number(number, unit)
  {
    hide Pow10, Times, Quotient;
    var integer, fraction := number[..PointAt(number)], FractionOf(number);
    if (integer == [] && fraction == []) || !AllDigits(integer) || !AllDigits(fraction) {
      return Err(Invalid);
    }
    if Value(integer) > U128_MAX || Times(Value(integer), unit) > U128_MAX {
      return Err(Invalid);
    }
    var digits := Leading(fraction);
    var scale, numerator := 1, 0;
    PowZero();
    for i := 0 to |digits|
      invariant scale == Pow10(i) && numerator == Value(digits[..i])
    {
      PowNext(i);
      PowBound(i + 1);
      assert digits[..i + 1][..i] == digits[..i];
      assert scale * 10 <= U128_MAX;
      scale := 10 * scale;
      numerator := 10 * numerator + (digits[i] as nat - '0' as nat);
      assert numerator <= U128_MAX;
    }
    assert digits[..|digits|] == digits;
    assert Times(numerator, unit) <= U128_MAX by {
      PowBound(|digits|);
      TimesBound(numerator, unit, 10_000_000_000_000_000_000, NANOS_PER_HOUR);
      assert Times(10_000_000_000_000_000_000, NANOS_PER_HOUR) <= U128_MAX by { BoundFits(); }
    }
    r := Checked(Times(Value(integer), unit) + Quotient(Times(numerator, unit), scale));
  }

  lemma BoundFits()
    ensures Times(10_000_000_000_000_000_000, NANOS_PER_HOUR) <= U128_MAX
  {
  }

  lemma PowZero()
    ensures Pow10(0) == 1
  {
  }

  lemma PowNext(k: nat)
    ensures Pow10(k + 1) == 10 * Pow10(k)
  {
  }

  method ParseDuration(value: string) returns (r: Result<nat, Error>)
    ensures r == Parse(value)
  {
    hide Number, Plus;
    var text := Unsigned(value);
    if text == [] {
      return Err(Invalid);
    }
    var remaining := text;
    var total: nat := 0;
    while remaining != []
      invariant total <= MAX_GO_DURATION_NANOS && Segments(total, remaining) == Segments(0, text)
      decreases |remaining|
    {
      var n := Span(remaining, true);
      if n == |remaining| {
        return Err(Invalid);
      }
      var number := remaining[..n];
      var rest := remaining[n..];
      var u := Span(rest, false);
      var unit := UnitNanos(rest[..u]);
      if unit == None {
        return Err(Invalid);
      }
      var segment := ParseNumber(number, unit.value);
      var sum := Plus(total, segment);
      if sum.Err? {
        return sum;
      }
      total, remaining := sum.value, rest[u..];
    }
    r := if total == 0 then Err(Invalid) else Ok(total);
  }

  // --- reading undoes writing

  lemma PointAfter(a: string, b: string)
    requires AllDigits(a)
    ensures PointAt(a) == |a| && PointAt(a + "." + b) == |a|
  {
    var s := a + "." + b;
    assert s[|a|] == '.';
    assert forall i :: 0 <= i < |a| ==> s[i] == a[i];
  }

  lemma WholeNumber(n: nat, unit: nat)
    requires n <= U128_MAX && Times(n, unit) <= U128_MAX
    ensures Number(Decimal(n), unit) == Ok(Times(n, unit))
  {
    var s := Decimal(n);
    PointAfter(s, []);
    assert s[..|s|] == s;
    assert FractionNanos([], unit) == 0;
  }

  lemma TimesSplits(v: nat, a: nat, b: nat)
    ensures Times(v, Times(a, b)) == Times(Times(v, a), b)
  {
  }

  lemma QuotientOfTimes(a: nat, b: nat)
    requires b > 0
    ensures Quotient(Times(a, b), b) == a
  {
    QuotientUnique(a * b, b, a);
  }

  /** The trimmed fraction, read back, is the fraction. */
  lemma FractionReads(fraction: nat, width: nat)
    requires fraction < Pow10(width)
    ensures FractionNanos(TrimZeros(Padded(fraction, width)), Pow10(width)) == fraction
  {
    hide Times, Quotient, Pow10, Value, TrimZeros;
    var p := Padded(fraction, width);
    var t := TrimZeros(p);
    TrimScales(p);
    var k := width - |t|;
    PowSplits(k, |t|);
    assert Pow10(width) == Times(Pow10(k), Pow10(|t|)) by { TimesIs(Pow10(k), Pow10(|t|)); }
    TimesSplits(Value(t), Pow10(k), Pow10(|t|));
    QuotientOfTimes(fraction, Pow10(|t|));
  }

  lemma TimesIs(a: nat, b: nat)
    ensures Times(a, b) == a * b
  {
  }

  lemma DivMod(value: nat, unit: nat)
    requires unit > 0
    ensures value == Times(Quotient(value, unit), unit) + value % unit
    ensures Quotient(value, unit) <= value && value % unit < unit
  {
    QuotientBound(value, unit);
  }

  /** A number written in some unit reads back as the same nanoseconds. */
  lemma NumberReads(value: nat, unit: nat)
    requires unit > 0 && unit == Pow10(Log10(unit)) && Log10(unit) <= MAX_FRACTION_DIGITS && value <= U128_MAX
    ensures Number(FormatNumber(value, unit), unit) == Ok(value)
  {
    hide Pow10, Log10, Times, Quotient, TrimZeros, Value, PointAt;
    DivMod(value, unit);
    var whole, fraction := Quotient(value, unit), value % unit;
    if fraction == 0 {
      WholeNumber(whole, unit);
    } else {
      var a, t := Decimal(whole), TrimZeros(Padded(fraction, Log10(unit)));
      PointAfter(a, t);
      var s := a + "." + t;
      assert s[..|a|] == a && s[|a| + 1..] == t;
      FractionReads(fraction, Log10(unit));
    }
  }

  predicate IsNumber(s: string) {
    s != [] && IsDigit(s[0]) && forall i :: 0 <= i < |s| ==> IsNumeric(s[i])
  }

  lemma FormattedIsNumber(value: nat, unit: nat)
    requires unit > 0 && unit == Pow10(Log10(unit))
    ensures IsNumber(FormatNumber(value, unit))
  {
    hide Pow10, Log10, Quotient;
  }

  predicate Clear(rest: string) {
    rest == [] || IsNumeric(rest[0])
  }

  lemma SpanIs(a: string, b: string, numeric: bool)
    requires forall i :: 0 <= i < |a| ==> IsNumeric(a[i]) == numeric
    requires b == [] || IsNumeric(b[0]) != numeric
    ensures Span(a + b, numeric) == |a|
  {
    var s := a + b;
    assert forall i :: 0 <= i < |a| ==> s[i] == a[i];
    assert b != [] ==> s[|a|] == b[0];
  }

  /** One number and unit at the front of a text. */
  lemma SegmentReads(total: nat, number: string, suffix: string, rest: string, v: nat)
    requires total <= MAX_GO_DURATION_NANOS && IsNumber(number) && Clear(rest)
    requires UnitNanos(suffix).Some? && Number(number, UnitNanos(suffix).value) == Ok(v)
    ensures Segments(total, number + suffix + rest) ==
      if total + v <= MAX_GO_DURATION_NANOS then Segments(total + v, rest) else Err(Invalid)
  {
    hide Number, Segments, UnitNanos, IsNumeric;
    SuffixIsText(suffix);
    SpanIs(number, suffix + rest, true);
    SpanIs(suffix, rest, false);
    assert number + suffix + rest == number + (suffix + rest);
    SegmentsStep(total, number, suffix, rest);
  }

  lemma SegmentsStep(total: nat, number: string, unit: string, rest: string)
    requires total <= MAX_GO_DURATION_NANOS && unit != []
    requires Span(number + (unit + rest), true) == |number| && Span(unit + rest, false) == |unit|
    ensures var next := Segment(total, number, unit);
      Segments(total, number + (unit + rest)) == if next.Err? then next else Segments(next.value, rest)
  {
    hide Span, Segment;
    var s := number + (unit + rest);
    assert s[..|number|] == number && s[|number|..] == unit + rest;
    assert (unit + rest)[..|unit|] == unit && (unit + rest)[|unit|..] == rest;
  }

  lemma SuffixIsText(suffix: string)
    requires UnitNanos(suffix).Some?
    ensures suffix != [] && forall i :: 0 <= i < |suffix| ==> !IsNumeric(suffix[i])
  {
  }

  /** A text of one number and its unit. */
  lemma OneReads(number: string, suffix: string, v: nat)
    requires IsNumber(number) && UnitNanos(suffix).Some? && Number(number, UnitNanos(suffix).value) == Ok(v)
    ensures Parse(number + suffix) == Bounded(v)
  {
    hide Number, UnitNanos;
    assert number + suffix + [] == number + suffix;
    SegmentReads(0, number, suffix, [], v);
  }

  lemma SecondsRead(total: nat, d: nat)
    requires total <= MAX_GO_DURATION_NANOS && d <= U128_MAX
    requires NANOS_PER_SECOND == Pow10(Log10(NANOS_PER_SECOND)) && Log10(NANOS_PER_SECOND) <= MAX_FRACTION_DIGITS
    ensures var s := FormatDecimal(d, NANOS_PER_SECOND, "s");
      Clear(s) && Unsigned(s) == s
        && Segments(total, s) == if total + d <= MAX_GO_DURATION_NANOS then Ok(total + d) else Err(Invalid)
  {
    hide Number, FormatNumber, Segments, Pow10, Log10, UnitNanos;
    Suffixes();
    FormattedIsNumber(d, NANOS_PER_SECOND);
    NumberReads(d, NANOS_PER_SECOND);
    var number := FormatNumber(d, NANOS_PER_SECOND);
    assert number + "s" + [] == number + "s";
    SegmentReads(total, number, "s", [], d);
    NothingLeft(total + d);
  }

  lemma NothingLeft(total: nat)
    ensures total <= MAX_GO_DURATION_NANOS ==> Segments(total, []) == Ok(total)
  {
  }

  lemma WholeReads(total: nat, n: nat, suffix: string, rest: string)
    requires total <= MAX_GO_DURATION_NANOS && Clear(rest) && UnitNanos(suffix).Some?
    requires n <= U128_MAX && Times(n, UnitNanos(suffix).value) <= U128_MAX
    ensures var v := total + Times(n, UnitNanos(suffix).value); var s := Decimal(n) + suffix + rest;
      Clear(s) && Unsigned(s) == s
        && Segments(total, s) == if v <= MAX_GO_DURATION_NANOS then Segments(v, rest) else Err(Invalid)
  {
    hide Number, Segments, Times, UnitNanos;
    WholeNumber(n, UnitNanos(suffix).value);
    SegmentReads(total, Decimal(n), suffix, rest, Times(n, UnitNanos(suffix).value));
  }

  /** What reading back a duration gives. */
  function Bounded(d: nat): (r: Result<nat, Error>) {
    if 1 <= d <= MAX_GO_DURATION_NANOS then Ok(d) else Err(Invalid)
  }

  /** Reading back a written duration gives that duration, exactly for those a signed 64-bit count can
      hold, save the empty one, which is refused. */
  lemma RoundTrip(d: nat)
    requires d < 0x1_0000_0000_0000_0000 * NANOS_PER_SECOND
    ensures Parse(Format(d)) == if 1 <= d <= MAX_GO_DURATION_NANOS then Ok(d) else Err(Invalid)
  {
    hide Number, FormatNumber, Parse, Segments, Pow10, Log10, UnitNanos;
    UnitsArePowers();
    Suffixes();
    if d < NANOS_PER_MICRO {
      WholeNumber(d, 1);
      TimesIs(d, 1);
      OneReads(Decimal(d), "ns", d);
    } else if d < NANOS_PER_MILLI {
      FormattedIsNumber(d, NANOS_PER_MICRO);
      NumberReads(d, NANOS_PER_MICRO);
      OneReads(FormatNumber(d, NANOS_PER_MICRO), MICROS, d);
    } else if d < NANOS_PER_SECOND {
      FormattedIsNumber(d, NANOS_PER_MILLI);
      NumberReads(d, NANOS_PER_MILLI);
      OneReads(FormatNumber(d, NANOS_PER_MILLI), "ms", d);
    } else {
      ClockReads(d);
    }
  }

  /** Writing what a text denotes gives a text that denotes the same, however the first was spelled. */
  lemma CanonicalText(text: string)
    requires Parse(text).Ok?
    ensures Parse(Format(Parse(text).value)) == Parse(text)
  {
    hide Segments, Format;
    RoundTrip(Parse(text).value);
  }

  /** The parts of a duration of a second or more add up. */
  lemma ClockParts(d: nat)
    requires d < 0x1_0000_0000_0000_0000 * NANOS_PER_SECOND
    ensures var h, rest := d / NANOS_PER_HOUR, d % NANOS_PER_HOUR;
      var m, s := rest / NANOS_PER_MINUTE, rest % NANOS_PER_MINUTE;
      d == Times(h, NANOS_PER_HOUR) + Times(m, NANOS_PER_MINUTE) + s && d <= U128_MAX
  {
  }

  /** Hours, where there are any, then minutes, then seconds. */
  lemma HoursRead(h: nat, m: nat, s: nat)
    requires h <= U128_MAX && Times(h, NANOS_PER_HOUR) <= U128_MAX && m < 60 && s < NANOS_PER_MINUTE
    requires NANOS_PER_SECOND == Pow10(Log10(NANOS_PER_SECOND)) && Log10(NANOS_PER_SECOND) <= MAX_FRACTION_DIGITS
    ensures var d := Times(h, NANOS_PER_HOUR) + Times(m, NANOS_PER_MINUTE) + s;
      var text := Decimal(h) + "h" + (Decimal(m) + "m" + FormatDecimal(s, NANOS_PER_SECOND, "s"));
      Unsigned(text) == text && Segments(0, text) == if d <= MAX_GO_DURATION_NANOS then Ok(d) else Err(Invalid)
  {
    hide Number, FormatDecimal, Segments, Pow10, Log10, UnitNanos, Times, Decimal, Unsigned, Clear;
    Suffixes();
    var v := Times(h, NANOS_PER_HOUR);
    MinutesRead(if v <= MAX_GO_DURATION_NANOS then v else 0, m, s);
    WholeReads(0, h, "h", Decimal(m) + "m" + FormatDecimal(s, NANOS_PER_SECOND, "s"));
  }

  lemma MinutesRead(total: nat, m: nat, s: nat)
    requires total <= MAX_GO_DURATION_NANOS && m < 60 && s < NANOS_PER_MINUTE
    requires NANOS_PER_SECOND == Pow10(Log10(NANOS_PER_SECOND)) && Log10(NANOS_PER_SECOND) <= MAX_FRACTION_DIGITS
    ensures var d := total + Times(m, NANOS_PER_MINUTE) + s;
      var text := Decimal(m) + "m" + FormatDecimal(s, NANOS_PER_SECOND, "s");
      Clear(text) && Unsigned(text) == text
        && Segments(total, text) == if d <= MAX_GO_DURATION_NANOS then Ok(d) else Err(Invalid)
  {
    hide Number, FormatDecimal, Segments, Pow10, Log10, UnitNanos, Decimal, Unsigned, Clear;
    Suffixes();
    var v := total + Times(m, NANOS_PER_MINUTE);
    SecondsRead(if v <= MAX_GO_DURATION_NANOS then v else 0, s);
    WholeReads(total, m, "m", FormatDecimal(s, NANOS_PER_SECOND, "s"));
  }

  lemma ClockReads(d: nat)
    requires NANOS_PER_SECOND <= d < 0x1_0000_0000_0000_0000 * NANOS_PER_SECOND
    ensures Parse(Format(d)) == Bounded(d)
  {
    hide FormatDecimal, Segments, Pow10, Log10, Times, Decimal, Unsigned;
    UnitsArePowers();
    ClockParts(d);
    var h, rest := d / NANOS_PER_HOUR, d % NANOS_PER_HOUR;
    var m, s := rest / NANOS_PER_MINUTE, rest % NANOS_PER_MINUTE;
    TimesZero(NANOS_PER_HOUR);
    TimesZero(NANOS_PER_MINUTE);
    if h != 0 {
      HoursRead(h, m, s);
    } else if m != 0 {
      MinutesRead(0, m, s);
    } else {
      SecondsRead(0, s);
    }
  }

  lemma TimesZero(n: nat)
    ensures Times(0, n) == 0
  {
  }

  lemma Suffixes()
    ensures UnitNanos("ns") == Some(1) && UnitNanos(MICROS) == Some(NANOS_PER_MICRO)
        && UnitNanos("ms") == Some(NANOS_PER_MILLI)
    ensures UnitNanos("s") == Some(NANOS_PER_SECOND) && UnitNanos("m") == Some(NANOS_PER_MINUTE)
        && UnitNanos("h") == Some(NANOS_PER_HOUR)
  {
  }
}
