/** What durations in configuration text denote (src/config.rs): every unit, fractions and signs. */
module DurationUnits {
  import opened Wrappers
  import opened Arithmetic
  import opened Duration

  /** The units and the nanoseconds in one of each. */
  const UNITS: map<string, nat> := map[
    "ns" := 1, "us" := 1_000, "\U{00B5}s" := 1_000, "ms" := 1_000_000, "s" := 1_000_000_000,
    "m" := 60 * 1_000_000_000, "h" := 60 * 60 * 1_000_000_000]

  lemma UnitsAre(unit: string)
    ensures UnitNanos(unit) == if unit in UNITS then Some(UNITS[unit]) else None
  {
  }

  predicate AllNumeric(s: string) {
    forall i :: 0 <= i < |s| ==> IsNumeric(s[i])
  }

  predicate NoneNumeric(s: string) {
    forall i :: 0 <= i < |s| ==> !IsNumeric(s[i])
  }

  /** A sum of one segment is a duration unless it is nothing. */
  function Positive(r: Result<nat, Error>): (p: Result<nat, Error>) {
    if r == Ok(0) then Err(Invalid) else r
  }

  /** A text of one number and one unit denotes what that segment does. */
  lemma OneSegment(number: string, unit: string)
    requires number != [] && AllNumeric(number) && unit != [] && NoneNumeric(unit)
    ensures Parse(number + unit) == Positive(Segment(0, number, unit))
  {
    hide Segment, Segments;
    SpanIs(number, unit, true);
    SpanIs(unit, [], false);
    assert unit + [] == unit && number + (unit + []) == number + unit;
    SegmentsStep(0, number, unit, []);
    var next := Segment(0, number, unit);
    if next.Ok? {
      NothingLeft(next.value);
    }
    assert (number + unit)[0] == number[0];
  }

  /** A whole number of any unit denotes that many nanoseconds of it, within the bounds of a duration. */
  lemma WholeUnitsRead(n: nat, unit: string)
    requires unit in UNITS
    ensures Parse(Decimal(n) + unit) == Bounded(n * UNITS[unit])
  {
    hide Number, Segments, Parse, Decimal, UnitNanos, Times;
    UnitsAre(unit);
    SuffixIsText(unit);
    OneSegment(Decimal(n), unit);
    WholeIs(n, UNITS[unit]);
    TimesIs(n, UNITS[unit]);
  }

  lemma WholeIs(n: nat, unit: nat)
    requires unit > 0
    ensures Plus(0, Number(Decimal(n), unit)) ==
            if Times(n, unit) <= MAX_GO_DURATION_NANOS then Ok(Times(n, unit)) else Err(Invalid)
  {
    hide Decimal, Number, Times;
    NotFewer(n, unit);
    if Times(n, unit) <= U128_MAX {
      WholeNumber(n, unit);
    } else {
      TooLarge(n, unit);
    }
  }

  lemma NotFewer(n: nat, unit: nat)
    requires unit > 0
    ensures n <= Times(n, unit)
  {
    MulMonotone(1, unit, n);
  }

  lemma TooLarge(n: nat, unit: nat)
    requires Times(n, unit) > U128_MAX
    ensures Number(Decimal(n), unit) == Err(Invalid)
  {
    hide Times, Quotient, Pow10;
    var s := Decimal(n);
    PointAfter(s, []);
    assert s[..|s|] == s;
  }

  /** No other unit is read. */
  lemma OtherUnitsRefused(number: string, unit: string)
    requires number != [] && AllNumeric(number) && unit != [] && NoneNumeric(unit) && unit !in UNITS
    ensures Parse(number + unit) == Err(Invalid)
  {
    hide Parse;
    UnitsAre(unit);
    OneSegment(number, unit);
  }

  /** A number with a point: the fraction counts to its nineteenth digit, rounded down to a nanosecond; the
      digits on one side of the point may be missing, not on both. */
  lemma PointedNumber(integer: string, fraction: string, unit: nat)
    requires AllDigits(integer) && AllDigits(fraction)
    ensures var digits := if |fraction| > 19 then fraction[..19] else fraction;
            Number(integer + "." + fraction, unit) ==
            if integer + fraction == [] || Value(integer) > U128_MAX || Times(Value(integer), unit) > U128_MAX
            then Err(Invalid)
            else Checked(Times(Value(integer), unit) + Quotient(Times(Value(digits), unit), Pow10(|digits|)))
  {
    hide Value, Pow10, Times, Quotient;
    var s := integer + "." + fraction;
    PointAfter(integer, fraction);
    assert s[..|integer|] == integer && s[|integer| + 1..] == fraction;
  }

  /** More than one point is refused. */
  lemma TwoPointsRefused(a: string, b: string, unit: nat)
    requires AllDigits(a) && '.' in b
    ensures Number(a + "." + b, unit) == Err(Invalid)
  {
    var s := a + "." + b;
    PointAfter(a, b);
    assert s[|a| + 1..] == b;
    var i :| 0 <= i < |b| && b[i] == '.';
    assert !IsDigit(b[i]);
  }

  /** One leading plus sign changes nothing, and a second one is refused. */
  lemma PlusSign(text: string)
    ensures Parse("+" + text) == if text != [] && text[0] == '+' then Err(Invalid) else Parse(text)
  {
    assert ("+" + text)[1..] == text;
    if text != [] && text[0] == '+' {
      var n := Span(text, true);
      assert Number([], 1) == Err(Invalid);
      assert forall unit: nat :: Number([], unit) == Err(Invalid);
      assert text[..n] == [];
    }
  }

  lemma WholeFormat(n: nat, unit: nat)
    requires unit > 0 && unit == Pow10(Log10(unit))
    ensures FormatNumber(n * unit, unit) == Decimal(n)
  {
    hide Pow10, Log10, Decimal;
    QuotientUnique(n * unit, unit, n);
    TimesIs(n, unit);
    DivMod(n * unit, unit);
  }

  /** Less than a second is written in the greatest unit that is not longer. */
  lemma ShortForms(n: nat)
    requires 0 < n < 1_000
    ensures Format(n) == Decimal(n) + "ns"
    ensures Format(n * 1_000) == Decimal(n) + "\U{00B5}s"
    ensures Format(n * 1_000_000) == Decimal(n) + "ms"
  {
    hide Pow10, Log10, Decimal, FormatNumber;
    UnitsArePowers();
    WholeFormat(n, NANOS_PER_MICRO);
    WholeFormat(n, NANOS_PER_MILLI);
  }

  lemma ClockSplits(h: nat, m: nat, s: nat)
    requires m < 60 && s < 60 && h + m + s > 0
    ensures var rest := m * 60_000_000_000 + s * 1_000_000_000;
            var d := h * 3_600_000_000_000 + rest;
            && d >= 1_000_000_000
            && d / 3_600_000_000_000 == h && d % 3_600_000_000_000 == rest
            && rest / 60_000_000_000 == m && rest % 60_000_000_000 == s * 1_000_000_000
  {
    var rest := m * 60_000_000_000 + s * 1_000_000_000;
    RemainderUnique(h * 3_600_000_000_000 + rest, 3_600_000_000_000, h, rest);
    RemainderUnique(rest, 60_000_000_000, m, s * 1_000_000_000);
  }

  lemma ClockFormat(d: nat, h: nat, m: nat, nanos: nat)
    requires d >= NANOS_PER_SECOND && NANOS_PER_SECOND == Pow10(Log10(NANOS_PER_SECOND))
    requires d / NANOS_PER_HOUR == h && d % NANOS_PER_HOUR / NANOS_PER_MINUTE == m
    requires d % NANOS_PER_HOUR % NANOS_PER_MINUTE == nanos
    ensures var seconds := FormatNumber(nanos, NANOS_PER_SECOND) + "s";
            Format(d) == if h > 0 then Decimal(h) + "h" + (Decimal(m) + "m" + seconds)
                         else if m > 0 then Decimal(m) + "m" + seconds
                         else seconds
  {
    hide Pow10, Log10, Decimal, FormatNumber;
  }

  /** A second or more is written in seconds, after minutes where there are any, after hours where there
      are any; the minutes stay where there are hours. */
  lemma ClockForms(h: nat, m: nat, s: nat)
    requires m < 60 && s < 60 && h + m + s > 0
    ensures Format(h * 3_600_000_000_000 + m * 60_000_000_000 + s * 1_000_000_000) ==
            (if h > 0 then Decimal(h) + "h" + (Decimal(m) + "m" + (Decimal(s) + "s"))
             else if m > 0 then Decimal(m) + "m" + (Decimal(s) + "s")
             else Decimal(s) + "s")
  {
    hide Pow10, Log10, Decimal, FormatNumber, Format;
    UnitsArePowers();
    ClockSplits(h, m, s);
    WholeFormat(s, NANOS_PER_SECOND);
    ClockFormat(h * 3_600_000_000_000 + m * 60_000_000_000 + s * 1_000_000_000, h, m, s * 1_000_000_000);
  }
}
