/** Which durations survive being printed and parsed. */
module DurationRoundTrips {
  import opened Collections
  import opened Patterns
  import opened Decimals
  import D = Durations
  import opened DurationParser

  // ---- The numbers that are printed

  lemma {:induction false} RunOfDigits(s: string)
    requires AllDigits(s)
    ensures DigitRun(s) == |s|
  {
    DigitsThenOther(s, "");
    assert s + "" == s;
  }

  lemma DecimalIsNumeral(n: nat)
    ensures IsNumeral(Decimal(n)) && NumberValue(Decimal(n)) == n as real
  {
    var s := Decimal(n);
    RunOfDigits(s);
    assert s[..|s|] == s;
  }

  /** Whole seconds with a fraction of some decimals. */
  lemma FractionIsNumeral(whole: nat, f: nat, width: nat, power: nat)
    requires f < power == Power10(width)
    ensures var s := Decimal(whole) + "." + Padded(f, width);
            IsNumeral(s) && NumberValue(s) == whole as real + f as real / power as real
  {
    var digits, fraction := Decimal(whole), Padded(f, width);
    var s := digits + "." + fraction;
    assert s == digits + ("." + (fraction + ""));
    FractionEnds(digits, fraction, "");
    DigitsThenOther(digits, "." + (fraction + ""));
    RunOfDigits(fraction);
    assert s[..|digits|] == digits;
    assert s[|digits| + 1..] == fraction;
    assert fraction[..|fraction|] == fraction;
    PaddedValue(f, width);
  }

  lemma PowersOfThousand()
    ensures Power10(3) == 1000 && Power10(6) == 1_000_000 && Power10(9) == 1_000_000_000
  {
    assert Power10(3) == 1000;
    assert Power10(6) == 1000 * Power10(3) by { TimesThousand(3); }
    assert Power10(9) == 1000 * Power10(6) by { TimesThousand(6); }
  }

  lemma TimesThousand(k: nat)
    ensures Power10(k + 3) == 1000 * Power10(k)
  {
    assert Power10(k + 3) == 10 * Power10(k + 2);
    assert Power10(k + 2) == 10 * Power10(k + 1);
  }

  lemma Thousandths(ns: nat, whole: nat, g: nat)
    requires ns == whole * 1_000_000_000 + g * 1_000_000
    ensures whole as real + g as real / 1000.0 == ns as real / 1_000_000_000.0
  {
    assert ns as real == whole as real * 1_000_000_000.0 + g as real * 1_000_000.0;
  }

  lemma Millionths(ns: nat, whole: nat, g: nat)
    requires ns == whole * 1_000_000_000 + g * 1000
    ensures whole as real + g as real / 1_000_000.0 == ns as real / 1_000_000_000.0
  {
    assert ns as real == whole as real * 1_000_000_000.0 + g as real * 1000.0;
  }

  lemma Billionths(ns: nat, whole: nat, g: nat)
    requires ns == whole * 1_000_000_000 + g
    ensures whole as real + g as real / 1_000_000_000.0 == ns as real / 1_000_000_000.0
  {
    assert ns as real == whole as real * 1_000_000_000.0 + g as real;
  }

  predicate Denotes(text: string, ns: nat) {
    IsNumeral(text) && NumberValue(text) == ns as real / 1_000_000_000.0
  }

  lemma DenotesFraction(ns: nat, whole: nat, g: nat, width: nat, power: nat)
    requires g < power == Power10(width)
    requires whole as real + g as real / power as real == ns as real / 1_000_000_000.0
    ensures Denotes(Decimal(whole) + "." + Padded(g, width), ns)
  {
    FractionIsNumeral(whole, g, width, power);
  }

  lemma WholeSeconds(whole: nat)
    ensures (whole * 1_000_000_000) as real / 1_000_000_000.0 == whole as real
  {
    assert (whole * 1_000_000_000) as real == whole as real * 1_000_000_000.0;
  }

  lemma DenotesSeconds(whole: nat)
    ensures Denotes(Decimal(whole), whole * 1_000_000_000)
  {
    WholeSeconds(whole);
    DecimalIsNumeral(whole);
  }

  /** The fraction of a second that is printed is exact. */
  lemma FractionIsExact(ns: nat, whole: nat, f: nat)
    requires ns == whole * 1_000_000_000 + f && f < 1_000_000_000
    ensures var fraction := D.FractionOf(f);
            && fraction.digits < Power10(fraction.width)
            && whole as real + fraction.digits as real / Power10(fraction.width) as real == ns as real / 1_000_000_000.0
  {
    PowersOfThousand();
    if f % 1_000_000 == 0 {
      Thousandths(ns, whole, f / 1_000_000);
    } else if f % 1000 == 0 {
      Millionths(ns, whole, f / 1000);
    } else {
      Billionths(ns, whole, f);
    }
  }

  /** The seconds are printed exactly. */
  lemma SecondsAreNumeral(ns: nat)
    ensures Denotes(D.SecondsText(ns), ns)
  {
    var whole, f := ns / 1_000_000_000, ns % 1_000_000_000;
    D.SecondsTextIs(ns);
    if f == 0 {
      DenotesSeconds(whole);
    } else {
      var fraction := D.FractionOf(f);
      FractionIsExact(ns, whole, f);
      DenotesFraction(ns, whole, fraction.digits, fraction.width, Power10(fraction.width));
    }
  }

  // ---- Components of a duration

  function Counted(space: string, count: nat, unit: string): Component {
    if count == 0 then Omitted else Spelled(space, Decimal(count), unit)
  }

  function SecondsComponent(space: string, ns: nat, unit: string): Component {
    if ns == 0 then Omitted else Spelled(space, D.SecondsText(ns), unit)
  }

  /** The components that the formats have: years, days, hours, minutes and seconds. */
  function ComponentsOf(y: Component, d: Component, h: Component, m: Component, s: Component): seq<Component> {
    [y, Omitted, Omitted, d, h, m, s, Omitted, Omitted, Omitted]
  }

  function Amount(k: nat, c: Component): real {
    Contribution(k, WordOf(c))
  }

  // ---- The components that are printed

  /** Years, days, hours and minutes, and what is left. */
  datatype Split = Split(years: nat, days: nat, hours: nat, minutes: nat, rest: nat)

  function SplitOf(ns: nat): Split {
    var afterYears := ns % D.YEAR;
    var afterDays := afterYears % D.DAY;
    var afterHours := afterDays % D.HOUR;
    Split(ns / D.YEAR, afterYears / D.DAY, afterDays / D.HOUR, afterHours / D.MINUTE, afterHours % D.MINUTE)
  }

  lemma SplitAddsUp(ns: nat)
    ensures var p := SplitOf(ns);
            && ns == D.YEAR * p.years + D.DAY * p.days + D.HOUR * p.hours + D.MINUTE * p.minutes + p.rest
            && ns % D.YEAR % D.DAY == D.HOUR * p.hours + D.MINUTE * p.minutes + p.rest
  {
  }

  /** A part that is printed unless it is zero. */
  function Piece(count: nat, suffix: string): seq<string> {
    if count == 0 then [] else [Decimal(count) + suffix]
  }

  lemma CountedPiece(ns: nat, d: D.Division)
    requires d.size > 0 && d.suffix != ""
    ensures D.CountPart(ns, d) == Piece(ns / d.size, d.suffix) && D.Left(ns, d) == ns % d.size
  {
    if ns < d.size {
      assert ns / d.size == 0 && ns % d.size == ns by { SmallQuotient(ns, d.size); }
    } else {
      assert ns / d.size > 0 by { LargeQuotient(ns, d.size); }
    }
  }

  lemma SmallQuotient(n: nat, size: nat)
    requires n < size
    ensures n / size == 0 && n % size == n
  {
  }

  lemma LargeQuotient(n: nat, size: nat)
    requires 0 < size <= n
    ensures n / size > 0
  {
    assert n == n / size * size + n % size;
    if n / size == 0 {
      assert 0 * size == 0;
    }
  }

  /** The date of the formats with years and days only. */
  lemma DateParts(f: D.Format, ns: nat)
    requires f.years != "" && f.months == "" && f.weeks == "" && f.days != ""
    ensures var p := SplitOf(ns);
            && D.CountParts(ns, D.DateDivisions(f)) == Piece(p.years, f.years) + Piece(p.days, f.days)
            && D.LeftAfter(ns, D.DateDivisions(f)) == ns % D.YEAR % D.DAY
  {
    var ds := D.DateDivisions(f);
    var l := ns % D.YEAR;
    CountedPiece(ns, ds[0]);
    CountedPiece(l, ds[3]);
    PartsStep(ns, ds);
    PartsStep(l, ds[1..]);
    PartsStep(l, ds[1..][1..]);
    PartsStep(l, ds[1..][1..][1..]);
    assert ds[1..][1..][1..][1..] == [];
  }

  lemma PartsStep(ns: nat, ds: seq<D.Division>)
    requires D.Sized(ds) && ds != []
    ensures D.CountParts(ns, ds) == D.CountPart(ns, ds[0]) + D.CountParts(D.Left(ns, ds[0]), ds[1..])
    ensures D.LeftAfter(ns, ds) == D.LeftAfter(D.Left(ns, ds[0]), ds[1..])
  {
  }

  lemma TimeParts(f: D.Format, ns: nat)
    requires f.hours != "" && f.minutes != ""
    ensures D.CountParts(ns, D.TimeDivisions(f))
         == Piece(ns / D.HOUR, f.hours) + Piece(ns % D.HOUR / D.MINUTE, f.minutes)
    ensures D.LeftAfter(ns, D.TimeDivisions(f)) == ns % D.HOUR % D.MINUTE
  {
    var ds := D.TimeDivisions(f);
    CountedPiece(ns, ds[0]);
    CountedPiece(ns % D.HOUR, ds[1]);
    PartsStep(ns, ds);
    PartsStep(ns % D.HOUR, ds[1..]);
    assert ds[1..][1..] == [];
  }

  /** Components that are not wanted are passed over. */
  lemma NoParts(ns: nat, ds: seq<D.Division>)
    requires D.Sized(ds) && forall i :: 0 <= i < |ds| ==> ds[i].suffix == ""
    ensures D.CountParts(ns, ds) == [] && D.LeftAfter(ns, ds) == ns
    decreases |ds|
  {
    if ds != [] {
      NoParts(ns, ds[1..]);
    }
  }

  // ---- Durations as sums of seconds

  const NANO: real := 1_000_000_000.0

  lemma SplitSeconds(ns: nat)
    ensures var p := SplitOf(ns);
            31536000.0 * p.years as real + 86400.0 * p.days as real + 3600.0 * p.hours as real
            + 60.0 * p.minutes as real + p.rest as real / NANO == ns as real / NANO
  {
    var p := SplitOf(ns);
    SplitAddsUp(ns);
    assert ns as real == (D.YEAR * p.years) as real + (D.DAY * p.days) as real + (D.HOUR * p.hours) as real
                       + (D.MINUTE * p.minutes) as real + p.rest as real;
  }

  /** The seconds of the leap days that the parser adds for years. */
  function LeapSeconds(years: nat): real {
    86400.0 * (years / 126_144_000) as real
  }

  lemma FloorOfQuotient(v: real, n: nat)
    requires v == n as real
    ensures (v / 126144000.0).Floor == n / 126_144_000
  {
    var q, r := n / 126_144_000, n % 126_144_000;
    assert v == q as real * 126144000.0 + r as real;
    assert q as real <= v / 126144000.0 < q as real + 1.0;
  }

  /** The seconds of a duration, printed even when zero if nothing else is. */
  predicate HasSeconds(c: Component, ns: nat) {
    if c.Spelled? then c.number == D.SecondsText(ns) else ns == 0
  }

  lemma HasSecondsAmount(c: Component, ns: nat)
    requires HasSeconds(c, ns)
    ensures Amount(6, c) == ns as real / NANO
  {
    SecondsAreNumeral(ns);
  }

  predicate HasCount(c: Component, count: nat) {
    if c.Spelled? then c.number == Decimal(count) else count == 0
  }

  lemma HasCountAmount(k: nat, c: Component, count: nat)
    requires HasCount(c, count)
    ensures Amount(k, c) == Factor(k) * count as real
  {
    DecimalIsNumeral(count);
  }

  lemma HasCountLeap(c: Component, years: nat)
    requires HasCount(c, years)
    ensures LeapDays(WordOf(c)) == LeapSeconds(years)
  {
    if c.Spelled? {
      DecimalIsNumeral(years);
      FloorOfQuotient(NumberValue(c.number), years);
    }
  }

  predicate Holds(y: Component, d: Component, h: Component, m: Component, s: Component, p: Split) {
    && HasCount(y, p.years) && HasCount(d, p.days) && HasCount(h, p.hours) && HasCount(m, p.minutes)
    && HasSeconds(s, p.rest)
  }

  lemma CountedStep(words: seq<Word>, cs: seq<Component>, k: nat, count: nat, sum: real)
    requires AreWordsOf(words, cs) && k < END && HasCount(cs[k], count) && Total(words, k) == sum
    ensures Total(words, k + 1) == sum + Factor(k) * count as real
  {
    HasCountAmount(k, cs[k], count);
  }

  lemma SecondsStep(words: seq<Word>, cs: seq<Component>, k: nat, ns: nat, sum: real)
    requires AreWordsOf(words, cs) && k == 6 && HasSeconds(cs[k], ns) && Total(words, k) == sum
    ensures Total(words, k + 1) == sum + ns as real / NANO
  {
    HasSecondsAmount(cs[k], ns);
  }

  lemma OmittedStep(words: seq<Word>, cs: seq<Component>, k: nat, sum: real)
    requires AreWordsOf(words, cs) && k < END && cs[k].Omitted? && Total(words, k) == sum
    ensures Total(words, k + 1) == sum
  {
  }

  /** Only years, days, hours, minutes and seconds may be spelled. */
  predicate IsSelection(cs: seq<Component>) {
    |cs| == END && cs[1].Omitted? && cs[2].Omitted? && cs[7].Omitted? && cs[8].Omitted? && cs[9].Omitted?
  }

  lemma DateTotal(words: seq<Word>, cs: seq<Component>, p: Split)
    requires AreWordsOf(words, cs) && IsSelection(cs) && HasCount(cs[0], p.years) && HasCount(cs[3], p.days)
    ensures Total(words, TIME) == 31536000.0 * p.years as real + 86400.0 * p.days as real
  {
    var sum := 31536000.0 * p.years as real;
    CountedStep(words, cs, 0, p.years, 0.0);
    OmittedStep(words, cs, 1, sum);
    OmittedStep(words, cs, 2, sum);
    CountedStep(words, cs, 3, p.days, sum);
  }

  lemma TimeTotal(words: seq<Word>, cs: seq<Component>, p: Split, sum: real)
    requires AreWordsOf(words, cs) && IsSelection(cs) && Total(words, TIME) == sum
    requires HasCount(cs[4], p.hours) && HasCount(cs[5], p.minutes) && HasSeconds(cs[6], p.rest)
    ensures Total(words, END) == sum + 3600.0 * p.hours as real + 60.0 * p.minutes as real + p.rest as real / NANO
  {
    CountedStep(words, cs, 4, p.hours, sum);
    var withHours := sum + 3600.0 * p.hours as real;
    CountedStep(words, cs, 5, p.minutes, withHours);
    var withMinutes := withHours + 60.0 * p.minutes as real;
    SecondsStep(words, cs, 6, p.rest, withMinutes);
    SmallUnitsTotal(words, cs, withMinutes + p.rest as real / NANO);
  }

  lemma SmallUnitsTotal(words: seq<Word>, cs: seq<Component>, total: real)
    requires AreWordsOf(words, cs) && IsSelection(cs) && Total(words, 7) == total
    ensures Total(words, END) == total
  {
    OmittedStep(words, cs, 7, total);
    OmittedStep(words, cs, 8, total);
    OmittedStep(words, cs, 9, total);
  }

  lemma SelectionOf(y: Component, d: Component, h: Component, m: Component, s: Component)
    ensures var cs := ComponentsOf(y, d, h, m, s);
            IsSelection(cs) && cs[0] == y && cs[3] == d && cs[4] == h && cs[5] == m && cs[6] == s
  {
  }

  lemma SelectionTotal(cs: seq<Component>, p: Split)
    requires IsSelection(cs) && Holds(cs[0], cs[3], cs[4], cs[5], cs[6], p)
    ensures Total(WordsFrom(cs, 0), END)
         == 31536000.0 * p.years as real + 86400.0 * p.days as real + 3600.0 * p.hours as real
            + 60.0 * p.minutes as real + p.rest as real / NANO
  {
    AllWords(cs);
    DateTotal(WordsFrom(cs, 0), cs, p);
    TimeTotal(WordsFrom(cs, 0), cs, p, 31536000.0 * p.years as real + 86400.0 * p.days as real);
  }

  lemma TotalOfSplit(y: Component, d: Component, h: Component, m: Component, s: Component, p: Split)
    requires Holds(y, d, h, m, s, p)
    ensures Total(WordsFrom(ComponentsOf(y, d, h, m, s), 0), END)
         == 31536000.0 * p.years as real + 86400.0 * p.days as real + 3600.0 * p.hours as real
            + 60.0 * p.minutes as real + p.rest as real / NANO
  {
    SelectionOf(y, d, h, m, s);
    SelectionTotal(ComponentsOf(y, d, h, m, s), p);
  }

  lemma ValueOfSome(sign: string, cs: seq<Component>, k: nat)
    requires k < END == |cs| && cs[k].Spelled?
    ensures Value(sign, cs) == Seconds(Signed(sign, Total(WordsFrom(cs, 0), END) + LeapDays(WordOf(cs[0]))))
  {
    assert !(forall i :: 0 <= i < END ==> cs[i].Omitted?) by { assert cs[k].Spelled?; }
  }

  /** The components of a duration have its value, and leap days for very many years. */
  lemma SplitValue(sign: string, y: Component, d: Component, h: Component, m: Component, s: Component, ns: nat)
    requires Holds(y, d, h, m, s, SplitOf(ns))
    requires !(y.Omitted? && d.Omitted? && h.Omitted? && m.Omitted? && s.Omitted?)
    ensures Value(sign, ComponentsOf(y, d, h, m, s))
         == Seconds(Signed(sign, ns as real / NANO + LeapSeconds(SplitOf(ns).years)))
  {
    var cs := ComponentsOf(y, d, h, m, s);
    var k := if y.Spelled? then 0 else if d.Spelled? then 3 else if h.Spelled? then 4 else if m.Spelled? then 5 else 6;
    ValueOfSome(sign, cs, k);
    TotalOfSplit(y, d, h, m, s, SplitOf(ns));
    SplitSeconds(ns);
    HasCountLeap(y, SplitOf(ns).years);
  }

  lemma AreComponents(y: Component, d: Component, h: Component, m: Component, s: Component)
    requires IsComponent(0, y) && IsComponent(3, d) && IsComponent(4, h) && IsComponent(5, m) && IsComponent(6, s)
    ensures Components(ComponentsOf(y, d, h, m, s))
  {
  }

  // ---- Texts

  lemma {:induction false} JoinNothing(a: seq<string>, b: seq<string>)
    ensures D.Join("", a + b) == D.Join("", a) + D.Join("", b)
    decreases |a|
  {
    if a == [] {
      assert a + b == b;
      assert "" + D.Join("", b) == D.Join("", b);
    } else {
      JoinFirst(a);
      JoinFirst(a + b);
      assert (a + b)[1..] == a[1..] + b;
      JoinNothing(a[1..], b);
      assert a[0] + (D.Join("", a[1..]) + D.Join("", b)) == a[0] + D.Join("", a[1..]) + D.Join("", b);
    }
  }

  lemma JoinFirst(a: seq<string>)
    requires a != []
    ensures D.Join("", a) == a[0] + D.Join("", a[1..])
  {
    if |a| == 1 {
      assert D.Join("", a[1..]) == "";
      assert a[0] + "" == a[0];
    } else {
      assert a[0] + "" == a[0];
    }
  }

  lemma NothingBefore(number: string, unit: string)
    ensures "" + number + unit == number + unit
  {
    assert "" + number == number;
  }

  lemma JoinPiece(count: nat, unit: string)
    ensures D.Join("", Piece(count, unit)) == ComponentText(Counted("", count, unit))
  {
    NothingBefore(Decimal(count), unit);
  }

  lemma TimeTextOf(y: Component, d: Component, h: Component, m: Component, s: Component)
    ensures TimeText(ComponentsOf(y, d, h, m, s), TIME) == ComponentText(h) + (ComponentText(m) + ComponentText(s))
  {
    var cs := ComponentsOf(y, d, h, m, s);
    NoTextFrom(cs, 7);
    assert TimeText(cs, 6) == ComponentText(s) + "";
    assert TimeText(cs, 6) == ComponentText(s);
    assert TimeText(cs, 5) == ComponentText(m) + TimeText(cs, 6);
    assert TimeText(cs, 4) == ComponentText(h) + TimeText(cs, 5);
  }

  lemma {:induction false} NoTextFrom(cs: seq<Component>, k: nat)
    requires k <= END == |cs| && forall i :: k <= i < END ==> cs[i].Omitted?
    ensures TimeText(cs, k) == ""
    decreases END - k
  {
    if k < END {
      NoTextFrom(cs, k + 1);
    }
  }

  lemma DateTextOfSelection(cs: seq<Component>)
    requires IsSelection(cs)
    ensures DateText(cs, 0) == ComponentText(cs[0]) + (ComponentText(cs[3]) + DateText(cs, TIME))
  {
    OmittedHasNoText(cs, 1);
    OmittedHasNoText(cs, 2);
    assert DateText(cs, 3) == ComponentText(cs[3]) + DateText(cs, TIME);
  }

  lemma DateTextOf(y: Component, d: Component, h: Component, m: Component, s: Component)
    ensures var cs := ComponentsOf(y, d, h, m, s);
            DateText(cs, 0) == ComponentText(y) + (ComponentText(d) + DateText(cs, TIME))
  {
    DateTextOfSelection(ComponentsOf(y, d, h, m, s));
  }

  lemma TimeAfterDate(y: Component, d: Component, h: Component, m: Component, s: Component)
    ensures var cs := ComponentsOf(y, d, h, m, s);
            DateText(cs, TIME) == if h.Omitted? && m.Omitted? && s.Omitted? then "" else "T" + TimeText(cs, TIME)
  {
    HasTimeOfSelection(ComponentsOf(y, d, h, m, s));
  }

  lemma HasTimeOfSelection(cs: seq<Component>)
    requires IsSelection(cs)
    ensures HasTime(cs) <==> !(cs[4].Omitted? && cs[5].Omitted? && cs[6].Omitted?)
  {
  }

  // ---- ISO 8601

  function IsoComponents(p: Split): seq<Component> {
    ComponentsOf(Counted("", p.years, "Y"), Counted("", p.days, "D"), Counted("", p.hours, "H"),
                 Counted("", p.minutes, "M"), SecondsComponent("", p.rest, "S"))
  }

  lemma CountedIsComponent(k: nat, space: string, count: nat, unit: string)
    requires AllSpace(space) && IsUnit(k, unit)
    ensures IsComponent(k, Counted(space, count, unit))
  {
    DecimalIsNumeral(count);
  }

  lemma IsoComponentsAre(p: Split)
    ensures Components(IsoComponents(p))
  {
    CountedIsComponent(0, "", p.years, "Y");
    CountedIsComponent(3, "", p.days, "D");
    CountedIsComponent(4, "", p.hours, "H");
    CountedIsComponent(5, "", p.minutes, "M");
    SecondsAreNumeral(p.rest);
    AreComponents(Counted("", p.years, "Y"), Counted("", p.days, "D"), Counted("", p.hours, "H"),
                  Counted("", p.minutes, "M"), SecondsComponent("", p.rest, "S"));
  }

  function SecondsPiece(ns: nat, suffix: string): seq<string> {
    if ns == 0 then [] else [D.SecondsText(ns) + suffix]
  }

  /** The time of the ISO format. */
  function IsoTime(p: Split): seq<string> {
    Piece(p.hours, "H") + (Piece(p.minutes, "M") + SecondsPiece(p.rest, "S"))
  }

  function IsoDate(p: Split): seq<string> {
    Piece(p.years, "Y") + Piece(p.days, "D")
  }

  predicate HasTimeOfDay(p: Split) {
    p.hours != 0 || p.minutes != 0 || p.rest != 0
  }

  lemma PartsOf(f: D.Format, ns: nat, date: seq<string>, left: nat, time: seq<string>, rest: nat)
    requires D.CountParts(ns, D.DateDivisions(f)) == date && D.LeftAfter(ns, D.DateDivisions(f)) == left
    requires D.CountParts(left, D.TimeDivisions(f)) == time && D.LeftAfter(left, D.TimeDivisions(f)) == rest
    ensures D.Parts(f, ns) ==
              var parts := date + D.SeparatorPart(f.dateTimeSeparator, date, left) + time;
              parts + D.SecondsPart(f.seconds, parts, rest)
  {
  }

  lemma TimeOfDay(ns: nat)
    ensures var p := SplitOf(ns);
            var left := ns % D.YEAR % D.DAY;
            && p.hours == left / D.HOUR && p.minutes == left % D.HOUR / D.MINUTE && p.rest == left % D.HOUR % D.MINUTE
            && (left != 0 <==> HasTimeOfDay(p))
            && (ns > 0 ==> left != 0 || p.years != 0 || p.days != 0)
  {
    SplitAddsUp(ns);
  }

  lemma IsoParts(ns: nat)
    requires ns > 0
    ensures var p := SplitOf(ns);
            D.Parts(D.ISO8601, ns) == IsoDate(p) + (if HasTimeOfDay(p) then ["T"] + IsoTime(p) else [])
  {
    var p := SplitOf(ns);
    var left := ns % D.YEAR % D.DAY;
    var time := Piece(p.hours, "H") + Piece(p.minutes, "M");
    TimeOfDay(ns);
    DateParts(D.ISO8601, ns);
    TimeParts(D.ISO8601, left);
    PartsOf(D.ISO8601, ns, IsoDate(p), left, time, p.rest);
    IsoPartsJoined(p, left);
  }

  lemma IsoPartsJoined(p: Split, left: nat)
    requires left != 0 <==> HasTimeOfDay(p)
    requires left != 0 || p.years != 0 || p.days != 0
    ensures var time := Piece(p.hours, "H") + Piece(p.minutes, "M");
            var parts := IsoDate(p) + D.SeparatorPart("T", IsoDate(p), left) + time;
            parts + D.SecondsPart("S", parts, p.rest) ==
              IsoDate(p) + (if HasTimeOfDay(p) then ["T"] + IsoTime(p) else [])
  {
    var time := Piece(p.hours, "H") + Piece(p.minutes, "M");
    var parts := IsoDate(p) + D.SeparatorPart("T", IsoDate(p), left) + time;
    assert parts != [];
    assert D.SecondsPart("S", parts, p.rest) == SecondsPiece(p.rest, "S");
    assert time + SecondsPiece(p.rest, "S") == IsoTime(p);
    if HasTimeOfDay(p) {
      Associative(IsoDate(p) + ["T"], time, SecondsPiece(p.rest, "S"));
      Associative(IsoDate(p), ["T"], time + SecondsPiece(p.rest, "S"));
    } else {
      assert time == [] && SecondsPiece(p.rest, "S") == [];
    }
  }

  lemma JoinTime(p: Split)
    ensures D.Join("", IsoTime(p)) == ComponentText(Counted("", p.hours, "H"))
              + (ComponentText(Counted("", p.minutes, "M")) + ComponentText(SecondsComponent("", p.rest, "S")))
  {
    JoinNothing(Piece(p.hours, "H"), Piece(p.minutes, "M") + SecondsPiece(p.rest, "S"));
    JoinNothing(Piece(p.minutes, "M"), SecondsPiece(p.rest, "S"));
    JoinPiece(p.hours, "H");
    JoinPiece(p.minutes, "M");
    JoinSeconds("", p.rest, "S");
  }

  lemma JoinSeconds(separator: string, ns: nat, unit: string)
    ensures D.Join(separator, SecondsPiece(ns, unit)) == ComponentText(SecondsComponent("", ns, unit))
  {
    NothingBefore(D.SecondsText(ns), unit);
  }

  lemma JoinDate(p: Split)
    ensures D.Join("", IsoDate(p)) == ComponentText(Counted("", p.years, "Y")) + ComponentText(Counted("", p.days, "D"))
  {
    JoinNothing(Piece(p.years, "Y"), Piece(p.days, "D"));
    JoinPiece(p.years, "Y");
    JoinPiece(p.days, "D");
  }

  lemma JoinAfterDate(p: Split, y: Component, d: Component)
    ensures var h, m, s := Counted("", p.hours, "H"), Counted("", p.minutes, "M"), SecondsComponent("", p.rest, "S");
            D.Join("", if HasTimeOfDay(p) then ["T"] + IsoTime(p) else []) ==
              DateText(ComponentsOf(y, d, h, m, s), TIME)
  {
    var h, m, s := Counted("", p.hours, "H"), Counted("", p.minutes, "M"), SecondsComponent("", p.rest, "S");
    JoinFirst(["T"] + IsoTime(p));
    assert (["T"] + IsoTime(p))[1..] == IsoTime(p);
    JoinTime(p);
    TimeAfterDate(y, d, h, m, s);
    TimeTextOf(y, d, h, m, s);
  }

  lemma JoinIso(p: Split, y: Component, d: Component, after: seq<string>)
    requires y == Counted("", p.years, "Y") && d == Counted("", p.days, "D")
    ensures D.Join("", IsoDate(p) + after) == ComponentText(y) + (ComponentText(d) + D.Join("", after))
  {
    JoinNothing(IsoDate(p), after);
    JoinDate(p);
    Associative(ComponentText(y), ComponentText(d), D.Join("", after));
  }

  lemma IsoText(p: Split)
    ensures D.Join("", IsoDate(p) + (if HasTimeOfDay(p) then ["T"] + IsoTime(p) else []))
         == DateText(IsoComponents(p), 0)
  {
    var y, d, h := Counted("", p.years, "Y"), Counted("", p.days, "D"), Counted("", p.hours, "H");
    var m, s := Counted("", p.minutes, "M"), SecondsComponent("", p.rest, "S");
    JoinIso(p, y, d, if HasTimeOfDay(p) then ["T"] + IsoTime(p) else []);
    JoinAfterDate(p, y, d);
    DateTextOf(y, d, h, m, s);
  }

  function MinusIf(x: int): string {
    if x < 0 then "-" else ""
  }

  lemma ShortenedIsPositive(ns: nat)
    requires ns > 0
    ensures D.Shortened(ns) > 0
  {
  }

  lemma IsoComponentsHold(sign: string, ns: nat)
    requires ns > 0
    ensures Value(sign, IsoComponents(SplitOf(ns)))
         == Seconds(Signed(sign, ns as real / NANO + LeapSeconds(SplitOf(ns).years)))
  {
    var p := SplitOf(ns);
    TimeOfDay(ns);
    SplitValue(sign, Counted("", p.years, "Y"), Counted("", p.days, "D"), Counted("", p.hours, "H"),
               Counted("", p.minutes, "M"), SecondsComponent("", p.rest, "S"), ns);
  }

  lemma IsoTextOf(x: int)
    requires x != 0
    ensures D.Text(D.ISO8601, x)
         == MinusIf(x) + ("P" + DateText(IsoComponents(SplitOf(D.Shortened(D.Magnitude(x)))), 0))
  {
    var ns := D.Shortened(D.Magnitude(x));
    ShortenedIsPositive(D.Magnitude(x));
    IsoParts(ns);
    IsoText(SplitOf(ns));
    Associative(MinusIf(x), "P", D.Join("", D.Parts(D.ISO8601, ns)));
  }

  lemma IsoParse(sign: string, p: Split)
    requires IsSign(sign)
    ensures FromString(sign + ("P" + DateText(IsoComponents(p), 0))) == Value(sign, IsoComponents(p))
  {
    IsoComponentsAre(p);
    DateTextHasValue(sign, IsoComponents(p));
  }

  lemma IsoTextValue(text: string, sign: string, ns: nat)
    requires ns > 0 && IsSign(sign) && text == sign + ("P" + DateText(IsoComponents(SplitOf(ns)), 0))
    ensures FromString(text) == Seconds(Signed(sign, ns as real / NANO + LeapSeconds(SplitOf(ns).years)))
  {
    IsoParse(sign, SplitOf(ns));
    IsoComponentsHold(sign, ns);
  }

  /** What the ISO format of a duration is parsed to. */
  lemma IsoValue(x: int)
    requires x != 0
    ensures FromString(D.Text(D.ISO8601, x)) ==
              var ns := D.Shortened(D.Magnitude(x));
              Seconds(Signed(MinusIf(x), ns as real / NANO + LeapSeconds(SplitOf(ns).years)))
  {
    IsoTextOf(x);
    ShortenedIsPositive(D.Magnitude(x));
    IsoTextValue(D.Text(D.ISO8601, x), MinusIf(x), D.Shortened(D.Magnitude(x)));
  }
}
