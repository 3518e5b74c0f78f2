/** Durations as text, in exact nanoseconds. */
module Durations {
  import opened Patterns
  import opened Decimals

  const SECOND: nat := 1_000_000_000
  const MINUTE: nat := 60 * SECOND
  const HOUR: nat := 60 * MINUTE
  const DAY: nat := 24 * HOUR
  const WEEK: nat := 7 * DAY
  const MONTH: nat := 30 * DAY
  const YEAR: nat := 365 * DAY
  const LEAP: nat := 4 * YEAR

  /** The suffixes of the components, empty for those that are not wanted, and what goes between them. */
  datatype Format = Format(
    years: string, months: string, weeks: string, days: string,
    hours: string, minutes: string, seconds: string,
    componentSeparator: string, positiveSign: string, preamble: string, dateTimeSeparator: string)

  /** The default format. */
  const PLAIN := Format("y", "", "", "d", "h", "m", "s", " ", "", "", "")

  /** The format of section 4.4.3.2 of ISO 8601:2004. */
  const ISO8601 := Format("Y", "", "", "D", "H", "M", "S", "", "", "P", "T")

  const JSON := Format("", "", "", "", "", "", "s", " ", "", "", "")

  datatype Division = Division(suffix: string, size: nat)

  function DateDivisions(f: Format): seq<Division> {
    [Division(f.years, YEAR), Division(f.months, MONTH), Division(f.weeks, WEEK), Division(f.days, DAY)]
  }

  function TimeDivisions(f: Format): seq<Division> {
    [Division(f.hours, HOUR), Division(f.minutes, MINUTE)]
  }

  predicate Sized(divisions: seq<Division>) {
    forall i :: 0 <= i < |divisions| ==> divisions[i].size > 0
  }

  // ---- Division into components

  /** How often a division goes into a remainder; one without a suffix is passed over. */
  function Count(remainder: nat, d: Division): nat
    requires d.size > 0
  {
    if d.suffix != "" && remainder >= d.size then remainder / d.size else 0
  }

  function Left(remainder: nat, d: Division): nat
    requires d.size > 0
  {
    if d.suffix != "" && remainder >= d.size then remainder % d.size else remainder
  }

  function LeftAfter(remainder: nat, divisions: seq<Division>): nat
    requires Sized(divisions)
    decreases |divisions|
  {
    if divisions == [] then remainder else LeftAfter(Left(remainder, divisions[0]), divisions[1..])
  }

  function Counts(remainder: nat, divisions: seq<Division>): (c: seq<nat>)
    requires Sized(divisions)
    ensures |c| == |divisions|
    decreases |divisions|
  {
    if divisions == [] then []
    else [Count(remainder, divisions[0])] + Counts(Left(remainder, divisions[0]), divisions[1..])
  }

  function Weight(count: nat, d: Division): nat {
    count * d.size
  }

  function WeightedSum(counts: seq<nat>, divisions: seq<Division>): nat
    requires |counts| == |divisions|
    decreases |divisions|
  {
    if divisions == [] then 0 else Weight(counts[0], divisions[0]) + WeightedSum(counts[1..], divisions[1..])
  }

  lemma DivisionSplits(remainder: nat, d: Division)
    requires d.size > 0
    ensures Weight(Count(remainder, d), d) + Left(remainder, d) == remainder
    ensures d.suffix != "" ==> Left(remainder, d) < d.size
  {
    if d.suffix != "" && remainder >= d.size {
      assert remainder / d.size * d.size + remainder % d.size == remainder;
    } else {
      assert 0 * d.size == 0;
    }
  }

  lemma {:induction false} LeftShrinks(remainder: nat, divisions: seq<Division>)
    requires Sized(divisions)
    ensures LeftAfter(remainder, divisions) <= remainder
    decreases |divisions|
  {
    if divisions != [] {
      DivisionSplits(remainder, divisions[0]);
      LeftShrinks(Left(remainder, divisions[0]), divisions[1..]);
    }
  }

  /** The components add up to the duration. */
  lemma {:induction false} CountsAddUp(remainder: nat, divisions: seq<Division>)
    requires Sized(divisions)
    ensures WeightedSum(Counts(remainder, divisions), divisions) + LeftAfter(remainder, divisions) == remainder
    decreases |divisions|
  {
    if divisions != [] {
      var left := Left(remainder, divisions[0]);
      DivisionSplits(remainder, divisions[0]);
      CountsAddUp(left, divisions[1..]);
      assert Counts(remainder, divisions)[1..] == Counts(left, divisions[1..]);
    }
  }

  /** The components after one that is printed amount to less than one unit of it. */
  lemma {:induction false} CountsAreDigits(remainder: nat, divisions: seq<Division>, i: nat)
    requires Sized(divisions) && i < |divisions| && divisions[i].suffix != ""
    ensures WeightedSum(Counts(remainder, divisions)[i + 1..], divisions[i + 1..]) + LeftAfter(remainder, divisions)
          < divisions[i].size
    decreases |divisions|
  {
    var left := Left(remainder, divisions[0]);
    assert Counts(remainder, divisions)[1..] == Counts(left, divisions[1..]);
    if i == 0 {
      DivisionSplits(remainder, divisions[0]);
      CountsAddUp(left, divisions[1..]);
    } else {
      CountsAreDigits(left, divisions[1..], i - 1);
      assert divisions[1..][i..] == divisions[i + 1..];
      assert Counts(remainder, divisions)[1..][i..] == Counts(remainder, divisions)[i + 1..];
    }
  }

  // ---- Text

  function CountParts(remainder: nat, divisions: seq<Division>): seq<string>
    requires Sized(divisions)
    decreases |divisions|
  {
    if divisions == [] then []
    else CountPart(remainder, divisions[0]) + CountParts(Left(remainder, divisions[0]), divisions[1..])
  }

  function CountPart(remainder: nat, d: Division): seq<string>
    requires d.size > 0
  {
    if d.suffix != "" && remainder >= d.size then [Decimal(remainder / d.size) + d.suffix] else []
  }

  /** Drops trailing groups of three zeros. */
  function StripThousands(s: string): string {
    if |s| >= 3 && s[|s| - 3..] == "000" then StripThousands(s[..|s| - 3]) else s
  }

  function StripPoint(s: string): string {
    if s != "" && (s[|s| - 1] == '.' || s[|s| - 1] == ',') then StripPoint(s[..|s| - 1]) else s
  }

  /** Seconds with nine decimals. */
  function Fixed9(ns: nat): string {
    Decimal(ns / SECOND) + "." + Padded(ns % SECOND, 9)
  }

  /** Seconds with as many decimals, in threes, as needed. */
  function SecondsText(ns: nat): string {
    StripPoint(StripThousands(Fixed9(ns)))
  }

  function Join(separator: string, parts: seq<string>): string {
    if parts == [] then ""
    else if |parts| == 1 then parts[0]
    else parts[0] + separator + Join(separator, parts[1..])
  }

  /** More than four years lose a day for every four. */
  function Shortened(ns: nat): (r: nat)
    ensures r <= ns && (r == ns <==> ns <= LEAP)
    ensures ns - r == DAY * if ns > LEAP then ns / LEAP else 0
  {
    if ns > LEAP then
      assert DAY * (ns / LEAP) <= ns;
      ns - DAY * (ns / LEAP)
    else ns
  }

  /** The separator before the time, unless nothing is left after a date. */
  function SeparatorPart(separator: string, dateParts: seq<string>, left: nat): seq<string> {
    if separator != "" && (left != 0 || dateParts == []) then [separator] else []
  }

  function SecondsPart(suffix: string, parts: seq<string>, left: nat): seq<string> {
    if suffix != "" && (left != 0 || parts == []) then [SecondsText(left) + suffix] else []
  }

  function Parts(f: Format, ns: nat): seq<string> {
    var date := CountParts(ns, DateDivisions(f));
    var afterDate := LeftAfter(ns, DateDivisions(f));
    var parts := date + SeparatorPart(f.dateTimeSeparator, date, afterDate) + CountParts(afterDate, TimeDivisions(f));
    parts + SecondsPart(f.seconds, parts, LeftAfter(afterDate, TimeDivisions(f)))
  }

  function Magnitude(ns: int): nat {
    if ns >= 0 then ns else -ns
  }

  function SignOf(f: Format, ns: int): string {
    if ns > 0 then f.positiveSign else if ns < 0 then "-" else ""
  }

  function Text(f: Format, ns: int): string {
    SignOf(f, ns) + f.preamble + Join(f.componentSeparator, Parts(f, Shortened(Magnitude(ns))))
  }

  lemma TextOfShortened(f: Format, x: int, y: int)
    requires SignOf(f, x) == SignOf(f, y) && Shortened(Magnitude(x)) == Shortened(Magnitude(y))
    ensures Text(f, x) == Text(f, y)
  {
  }

  /**
   A duration between four years and four years and a day has the same text, in any format, as the one a day less:
   no parser can tell them apart.
   */
  lemma LongDurationsCollide(f: Format, ns: int)
    requires LEAP < ns <= LEAP + DAY
    ensures Text(f, ns) == Text(f, ns - DAY) && Text(f, -ns) == Text(f, -(ns - DAY))
  {
    assert ns / LEAP == 1;
    TextOfShortened(f, ns, ns - DAY);
    TextOfShortened(f, -ns, -(ns - DAY));
  }

  // ---- The text of the seconds

  lemma StripThousandsOf(s: string, m: nat)
    requires m < 1000
    ensures StripThousands(s + Padded(m, 3)) == if m == 0 then StripThousands(s) else s + Padded(m, 3)
  {
    var t := s + Padded(m, 3);
    ThreeZeros(m);
    assert t[|t| - 3..] == Padded(m, 3);
    assert t[..|t| - 3] == s;
  }

  /** Nine decimals lose their trailing zeros in threes. */
  lemma NineDecimals(point: string, f: nat)
    requires f < SECOND
    ensures StripThousands(point + Padded(f, 9)) ==
            if f == 0 then StripThousands(point)
            else if f % 1_000_000 == 0 then point + Padded(f / 1_000_000, 3)
            else if f % 1000 == 0 then point + Padded(f / 1000, 6)
            else point + Padded(f, 9)
  {
    PaddedThousands(f, 6);
    assert point + (Padded(f / 1000, 6) + Padded(f % 1000, 3)) == point + Padded(f / 1000, 6) + Padded(f % 1000, 3);
    StripThousandsOf(point + Padded(f / 1000, 6), f % 1000);
    if f % 1000 == 0 {
      SixDecimals(point, f / 1000);
      assert f == 1000 * (f / 1000);
      assert f / 1000 / 1000 == f / 1_000_000;
    }
  }

  lemma SixDecimals(point: string, f: nat)
    requires f < 1_000_000
    ensures StripThousands(point + Padded(f, 6)) ==
            if f == 0 then StripThousands(point)
            else if f % 1000 == 0 then point + Padded(f / 1000, 3)
            else point + Padded(f, 6)
  {
    PaddedThousands(f, 3);
    assert point + (Padded(f / 1000, 3) + Padded(f % 1000, 3)) == point + Padded(f / 1000, 3) + Padded(f % 1000, 3);
    StripThousandsOf(point + Padded(f / 1000, 3), f % 1000);
    StripThousandsOf(point, f / 1000);
  }

  lemma DigitsAreNotStripped(s: string, digits: string)
    requires digits != "" && AllDigits(digits)
    ensures StripPoint(s + digits) == s + digits
  {
    assert IsDigit(digits[|digits| - 1]);
  }

  lemma PointIsStripped(whole: string)
    requires whole != "" && AllDigits(whole)
    ensures StripPoint(StripThousands(whole + ".")) == whole
  {
    var point := whole + ".";
    assert point[|point| - 1] == '.';
    if |point| >= 3 {
      assert point[|point| - 3..][2] == '.';
    }
    assert StripThousands(point) == point;
    assert point[..|point| - 1] == whole;
    DigitsAreNotStripped("", whole);
    assert "" + whole == whole;
  }

  /** The decimals of a fraction of a second: as many, in threes, as needed. */
  datatype Fraction = Fraction(digits: nat, width: nat)

  function FractionOf(f: nat): Fraction {
    if f % 1_000_000 == 0 then Fraction(f / 1_000_000, 3)
    else if f % 1000 == 0 then Fraction(f / 1000, 6)
    else Fraction(f, 9)
  }

  /** The whole seconds, and the decimals if there are any. */
  lemma SecondsTextIs(ns: nat)
    ensures var whole, f := Decimal(ns / SECOND), ns % SECOND;
            SecondsText(ns) ==
              if f == 0 then whole else whole + "." + Padded(FractionOf(f).digits, FractionOf(f).width)
  {
    var whole, f := Decimal(ns / SECOND), ns % SECOND;
    NineDecimals(whole + ".", f);
    if f == 0 {
      PointIsStripped(whole);
    } else {
      var fraction := FractionOf(f);
      DigitsAreNotStripped(whole + ".", Padded(fraction.digits, fraction.width));
    }
  }
}
