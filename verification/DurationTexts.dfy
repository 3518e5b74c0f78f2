/** The text of a duration in any format, with its components in nanoseconds. */
module DurationTexts {
  import opened Collections
  import opened Decimals
  import opened D = Durations
  import R = DurationRoundTrips

  /** How often a size goes into a number of nanoseconds, unless its component is not wanted. */
  function Times(suffix: string, ns: nat, size: nat): nat
    requires size > 0
  {
    if suffix == "" then 0 else ns / size
  }

  function Rest(suffix: string, ns: nat, size: nat): nat
    requires size > 0
  {
    if suffix == "" then ns else ns % size
  }

  function Part(count: nat, suffix: string): seq<string> {
    if count == 0 then [] else [Decimal(count) + suffix]
  }

  lemma PartOfDivision(ns: nat, d: Division)
    requires d.size > 0
    ensures CountPart(ns, d) == Part(Times(d.suffix, ns, d.size), d.suffix)
    ensures Left(ns, d) == Rest(d.suffix, ns, d.size)
  {
    if d.suffix != "" {
      R.CountedPiece(ns, d);
    }
  }

  /** What is left after years, months, weeks and days. */
  function RestOfYear(f: Format, ns: nat): nat {
    Rest(f.years, ns, 31_536_000_000_000_000)
  }

  function RestOfMonth(f: Format, ns: nat): nat {
    Rest(f.months, RestOfYear(f, ns), 2_592_000_000_000_000)
  }

  function RestOfWeek(f: Format, ns: nat): nat {
    Rest(f.weeks, RestOfMonth(f, ns), 604_800_000_000_000)
  }

  function RestOfDay(f: Format, ns: nat): nat {
    Rest(f.days, RestOfWeek(f, ns), 86_400_000_000_000)
  }

  function RestOfHour(f: Format, ns: nat): nat {
    Rest(f.hours, RestOfDay(f, ns), 3_600_000_000_000)
  }

  function RestOfMinute(f: Format, ns: nat): nat {
    Rest(f.minutes, RestOfHour(f, ns), 60_000_000_000)
  }

  function DateOf(f: Format, ns: nat): seq<string> {
    Part(Times(f.years, ns, 31_536_000_000_000_000), f.years)
    + (Part(Times(f.months, RestOfYear(f, ns), 2_592_000_000_000_000), f.months)
       + (Part(Times(f.weeks, RestOfMonth(f, ns), 604_800_000_000_000), f.weeks)
          + Part(Times(f.days, RestOfWeek(f, ns), 86_400_000_000_000), f.days)))
  }

  function TimeOf(f: Format, ns: nat): seq<string> {
    Part(Times(f.hours, RestOfDay(f, ns), 3_600_000_000_000), f.hours)
    + Part(Times(f.minutes, RestOfHour(f, ns), 60_000_000_000), f.minutes)
  }

  lemma DateIs(f: Format, ns: nat)
    ensures CountParts(ns, DateDivisions(f)) == DateOf(f, ns)
    ensures LeftAfter(ns, DateDivisions(f)) == RestOfDay(f, ns)
  {
    var ds := DateDivisions(f);
    PartOfDivision(ns, ds[0]);
    PartOfDivision(RestOfYear(f, ns), ds[1]);
    PartOfDivision(RestOfMonth(f, ns), ds[2]);
    PartOfDivision(RestOfWeek(f, ns), ds[3]);
    R.PartsStep(ns, ds);
    R.PartsStep(RestOfYear(f, ns), ds[1..]);
    R.PartsStep(RestOfMonth(f, ns), ds[1..][1..]);
    R.PartsStep(RestOfWeek(f, ns), ds[1..][1..][1..]);
    assert ds[1..][1..][1..][1..] == [];
  }

  lemma TimeIs(f: Format, ns: nat)
    ensures CountParts(RestOfDay(f, ns), TimeDivisions(f)) == TimeOf(f, ns)
    ensures LeftAfter(RestOfDay(f, ns), TimeDivisions(f)) == RestOfMinute(f, ns)
  {
    var ds := TimeDivisions(f);
    PartOfDivision(RestOfDay(f, ns), ds[0]);
    PartOfDivision(RestOfHour(f, ns), ds[1]);
    R.PartsStep(RestOfDay(f, ns), ds);
    R.PartsStep(RestOfHour(f, ns), ds[1..]);
    assert ds[1..][1..] == [];
  }

  /** The date, the separator if a time follows or nothing precedes, the time, and the seconds likewise. */
  function AllParts(f: Format, ns: nat): seq<string> {
    var date := DateOf(f, ns);
    var separator := if f.dateTimeSeparator != "" && (RestOfDay(f, ns) != 0 || date == []) then [f.dateTimeSeparator]
                     else [];
    var parts := date + separator + TimeOf(f, ns);
    if f.seconds != "" && (RestOfMinute(f, ns) != 0 || parts == []) then
      parts + [SecondsText(RestOfMinute(f, ns)) + f.seconds]
    else parts
  }

  /** Above four years, a day is taken off for every four. */
  function Days365(x: int): nat {
    var ns := if x >= 0 then x else -x;
    if ns > 126_144_000_000_000_000 then ns - 86_400_000_000_000 * (ns / 126_144_000_000_000_000) else ns
  }

  /** The text of any duration in any format: a sign, the preamble and the parts with separators. */
  lemma TextIs(f: Format, x: int)
    ensures Text(f, x) ==
            (if x > 0 then f.positiveSign else if x < 0 then "-" else "") + f.preamble
            + Join(f.componentSeparator, AllParts(f, Days365(x)))
  {
    var ns := Days365(x);
    assert Shortened(Magnitude(x)) == ns;
    DateIs(f, ns);
    TimeIs(f, ns);
    NoPartMore(DateOf(f, ns) + SeparatorPart(f.dateTimeSeparator, DateOf(f, ns), RestOfDay(f, ns)) + TimeOf(f, ns));
  }

  lemma NoPartMore(parts: seq<string>)
    ensures parts + [] == parts
  {
  }

  // ---- The three formats

  /** Years, days, hours, minutes and what is left, in nanoseconds. */
  function SplitUp(ns: nat): R.Split {
    var day := ns % 31_536_000_000_000_000 % 86_400_000_000_000;
    R.Split(ns / 31_536_000_000_000_000, ns % 31_536_000_000_000_000 / 86_400_000_000_000,
            day / 3_600_000_000_000, day % 3_600_000_000_000 / 60_000_000_000,
            day % 3_600_000_000_000 % 60_000_000_000)
  }

  function MinusIf(x: int): string {
    if x < 0 then "-" else ""
  }

  function IsoTime(p: R.Split): seq<string> {
    if p.hours == 0 && p.minutes == 0 && p.rest == 0 then []
    else
      ["T"] + (Part(p.hours, "H") + (Part(p.minutes, "M") + if p.rest == 0 then [] else [SecondsText(p.rest) + "S"]))
  }

  lemma IsoPartsAre(ns: nat)
    requires ns > 0
    ensures var p := SplitUp(ns);
            Parts(ISO8601, ns) == Part(p.years, "Y") + Part(p.days, "D") + IsoTime(p)
  {
    R.IsoParts(ns);
    assert R.SplitOf(ns) == SplitUp(ns);
  }

  lemma SignedText(f: Format, x: int)
    requires f.positiveSign == ""
    ensures Text(f, x) == MinusIf(x) + (f.preamble + Join(f.componentSeparator, Parts(f, Days365(x))))
  {
    assert Shortened(Magnitude(x)) == Days365(x);
    Associative(MinusIf(x), f.preamble, Join(f.componentSeparator, Parts(f, Days365(x))));
  }

  /** ISO 8601: years and days, and after a T hours, minutes and seconds, without anything between them. */
  lemma IsoTextIs(x: int)
    requires x != 0
    ensures var p := SplitUp(Days365(x));
            Text(ISO8601, x) == MinusIf(x) + ("P" + Join("", Part(p.years, "Y") + Part(p.days, "D") + IsoTime(p)))
  {
    R.ShortenedIsPositive(Magnitude(x));
    SignedText(ISO8601, x);
    IsoPartsAre(Days365(x));
  }

  lemma JsonPartsAre(ns: nat)
    ensures Parts(JSON, ns) == [SecondsText(ns) + "s"]
  {
    DateIs(JSON, ns);
    TimeIs(JSON, ns);
  }

  /** JSON: seconds. */
  lemma JsonTextIs(x: int)
    ensures Text(JSON, x) == MinusIf(x) + (SecondsText(Days365(x)) + "s")
  {
    SignedText(JSON, x);
    JsonPartsAre(Days365(x));
    assert "" + (SecondsText(Days365(x)) + "s") == SecondsText(Days365(x)) + "s";
  }

  function PlainCounts(p: R.Split): seq<string> {
    Part(p.years, "y") + Part(p.days, "d") + (Part(p.hours, "h") + Part(p.minutes, "m"))
  }

  lemma PlainPartsAre(ns: nat)
    ensures var p := SplitUp(ns);
            Parts(PLAIN, ns) == PlainCounts(p) +
              if p.rest == 0 && PlainCounts(p) != [] then [] else [SecondsText(p.rest) + "s"]
  {
    var p := SplitUp(ns);
    R.DateParts(PLAIN, ns);
    R.TimeParts(PLAIN, ns % YEAR % DAY);
    NoPartMore(Part(p.years, "y") + Part(p.days, "d"));
    R.PartsOf(PLAIN, ns, Part(p.years, "y") + Part(p.days, "d"), ns % YEAR % DAY,
              Part(p.hours, "h") + Part(p.minutes, "m"), p.rest);
  }

  /** The default: years, days, hours, minutes and seconds, with spaces between them. */
  lemma PlainTextIs(x: int)
    ensures var p := SplitUp(Days365(x));
            Text(PLAIN, x) == MinusIf(x) + Join(" ", PlainCounts(p) +
              if p.rest == 0 && PlainCounts(p) != [] then [] else [SecondsText(p.rest) + "s"])
  {
    SignedText(PLAIN, x);
    PlainPartsAre(Days365(x));
    assert "" + Join(" ", Parts(PLAIN, Days365(x))) == Join(" ", Parts(PLAIN, Days365(x)));
  }
}
