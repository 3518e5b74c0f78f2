/** Exactly which durations survive being printed in each format and parsed. */
module DurationFormats {
  import opened Collections
  import opened Decimals
  import D = Durations
  import opened DurationParser
  import opened DurationRoundTrips

  /** The text is parsed to the duration it was printed from. */
  predicate Survives(f: D.Format, x: int) {
    FromString(D.Text(f, x)) == Seconds(x as real / NANO)
  }

  // ---- ISO 8601

  lemma TimeAfterTIsEmpty()
    ensures MatchFrom(Duration(), TIME, "T") == MatchFrom(Duration(), TIME, "")
  {
    StartAfterT("");
    assert "T" + "" == "T";
    SameStart(TIME, "T", "");
  }

  lemma OnlyTMatchesTime(cs: seq<Component>)
    requires cs == ComponentsOf(Omitted, Omitted, Omitted, Omitted, Omitted)
    ensures MatchesFrom(cs, TIME, "T")
  {
    NoTextFrom(cs, TIME);
    TimeMatches(cs, TIME);
    TimeAfterTIsEmpty();
  }

  lemma {:induction false} OnlyTMatches(cs: seq<Component>, k: nat)
    requires k <= TIME && cs == ComponentsOf(Omitted, Omitted, Omitted, Omitted, Omitted)
    ensures MatchesFrom(cs, k, "T")
    decreases TIME - k
  {
    if k == TIME {
      OnlyTMatchesTime(cs);
    } else {
      OnlyTMatches(cs, k + 1);
      Skips(k, "T");
      OmittedExtends(cs, k, "T");
    }
  }

  lemma IsoZeroText()
    ensures D.Text(D.ISO8601, 0) == "" + ("P" + "T")
  {
    DateParts(D.ISO8601, 0);
    TimeParts(D.ISO8601, 0);
    PartsOf(D.ISO8601, 0, [], 0, [], 0);
    assert D.Parts(D.ISO8601, 0) == ["T"];
  }

  lemma PTIsInvalid()
    ensures FromString("" + ("P" + "T")) == Invalid
  {
    var cs := ComponentsOf(Omitted, Omitted, Omitted, Omitted, Omitted);
    DateIsMatched("", "T");
    OnlyTMatches(cs, 0);
    MatchedValue("", cs);
    NothingSpelled(cs);
  }

  lemma NothingSpelled(cs: seq<Component>)
    requires cs == ComponentsOf(Omitted, Omitted, Omitted, Omitted, Omitted)
    ensures Value("", cs) == Invalid
  {
    assert forall k :: 0 <= k < END ==> cs[k].Omitted?;
  }

  /** A zero duration is printed without a number, and refused. */
  lemma IsoZeroIsInvalid()
    ensures D.Text(D.ISO8601, 0) == "PT" && FromString("PT") == Invalid
  {
    IsoZeroText();
    PTIsInvalid();
    assert "" + ("P" + "T") == "PT";
  }

  lemma LeapYearsAreFew(x: int)
    requires D.Magnitude(x) > D.LEAP
    ensures var ns := D.Shortened(D.Magnitude(x));
            ns + D.DAY * (SplitOf(ns).years / 126_144_000) < D.Magnitude(x)
  {
    var whole := D.Magnitude(x);
    var ns := D.Shortened(whole);
    var q := whole / D.LEAP;
    var years := ns / D.YEAR;
    assert whole < D.LEAP * (q + 1);
    assert years * D.YEAR <= ns;
    assert years < 4 * (q + 1);
    assert years / 126_144_000 < q;
  }

  lemma NoLeapSeconds(ns: nat)
    requires ns <= D.LEAP
    ensures LeapSeconds(SplitOf(ns).years) == 0.0
  {
    assert SplitOf(ns).years <= 4;
  }

  /** What the ISO format is parsed to. */
  function IsoSeconds(x: int): real {
    var ns := D.Shortened(D.Magnitude(x));
    Signed(MinusIf(x), ns as real / NANO + LeapSeconds(SplitOf(ns).years))
  }

  lemma IsoShortValue(x: int)
    requires D.Magnitude(x) <= D.LEAP
    ensures IsoSeconds(x) == x as real / NANO
  {
    NoLeapSeconds(D.Magnitude(x));
    SameAsBefore(x);
  }

  lemma AddedDays(ns: nat, extra: nat)
    ensures (ns + D.DAY * extra) as real / NANO == ns as real / NANO + 86400.0 * extra as real
  {
    assert (ns + D.DAY * extra) as real == ns as real + 86_400_000_000_000.0 * extra as real;
  }

  lemma LessThanBefore(v: real, ns: nat, x: int)
    requires v == ns as real / NANO && ns < D.Magnitude(x)
    ensures Signed(MinusIf(x), v) != x as real / NANO
  {
  }

  lemma IsoLongValue(x: int)
    requires D.Magnitude(x) > D.LEAP
    ensures IsoSeconds(x) != x as real / NANO
  {
    var ns := D.Shortened(D.Magnitude(x));
    var extra := SplitOf(ns).years / 126_144_000;
    LeapYearsAreFew(x);
    AddedDays(ns, extra);
    LessThanBefore(ns as real / NANO + 86400.0 * extra as real, ns + D.DAY * extra, x);
  }

  lemma SurvivesIff(f: D.Format, x: int, v: real)
    requires FromString(D.Text(f, x)) == Seconds(v)
    ensures Survives(f, x) <==> v == x as real / NANO
  {
  }

  /** The ISO format is exact up to four years of 365 days, but for zero. */
  lemma IsoSurvivesIff(x: int)
    ensures Survives(D.ISO8601, x) <==> 0 < D.Magnitude(x) <= D.LEAP
  {
    if x == 0 {
      IsoZeroIsInvalid();
    } else {
      IsoValue(x);
      SurvivesIff(D.ISO8601, x, IsoSeconds(x));
      if D.Magnitude(x) <= D.LEAP {
        IsoShortValue(x);
      } else {
        IsoLongValue(x);
      }
    }
  }

  // ---- JSON

  function JsonComponents(ns: nat): seq<Component> {
    ComponentsOf(Omitted, Omitted, Omitted, Omitted, Spelled("", D.SecondsText(ns), "s"))
  }

  lemma JsonParts(ns: nat)
    ensures D.Parts(D.JSON, ns) == [D.SecondsText(ns) + "s"]
  {
    NoParts(ns, D.DateDivisions(D.JSON));
    NoParts(ns, D.TimeDivisions(D.JSON));
    PartsOf(D.JSON, ns, [], ns, [], ns);
  }

  lemma JsonText(ns: nat)
    ensures TimeText(JsonComponents(ns), TIME) == D.SecondsText(ns) + "s"
  {
    TimeTextOf(Omitted, Omitted, Omitted, Omitted, Spelled("", D.SecondsText(ns), "s"));
    assert "" + ("" + ("" + D.SecondsText(ns) + "s")) == D.SecondsText(ns) + "s";
  }

  lemma JsonComponentsValue(sign: string, ns: nat)
    ensures Components(JsonComponents(ns))
    ensures Value(sign, JsonComponents(ns)) == Seconds(Signed(sign, ns as real / NANO))
  {
    var s := Spelled("", D.SecondsText(ns), "s");
    SecondsAreNumeral(ns);
    AreComponents(Omitted, Omitted, Omitted, Omitted, s);
    TotalOfSplit(Omitted, Omitted, Omitted, Omitted, s, Split(0, 0, 0, 0, ns));
    ValueOfSome(sign, JsonComponents(ns), 6);
  }

  lemma JsonTextOf(x: int)
    ensures D.Text(D.JSON, x) == MinusIf(x) + TimeText(JsonComponents(D.Shortened(D.Magnitude(x))), TIME)
  {
    var ns := D.Shortened(D.Magnitude(x));
    JsonParts(ns);
    JsonText(ns);
    assert MinusIf(x) + "" == MinusIf(x);
  }

  lemma JsonTextValue(text: string, sign: string, ns: nat)
    requires IsSign(sign) && text == sign + TimeText(JsonComponents(ns), TIME)
    ensures FromString(text) == Seconds(Signed(sign, ns as real / NANO))
  {
    JsonComponentsValue(sign, ns);
    TimeTextHasValue(sign, JsonComponents(ns));
  }

  lemma JsonValue(x: int)
    ensures FromString(D.Text(D.JSON, x)) ==
            Seconds(Signed(MinusIf(x), D.Shortened(D.Magnitude(x)) as real / NANO))
  {
    JsonTextOf(x);
    JsonTextValue(D.Text(D.JSON, x), MinusIf(x), D.Shortened(D.Magnitude(x)));
  }

  /** The JSON format is exact up to four years of 365 days. */
  lemma JsonSurvivesIff(x: int)
    ensures Survives(D.JSON, x) <==> D.Magnitude(x) <= D.LEAP
  {
    var ns := D.Shortened(D.Magnitude(x));
    var v := Signed(MinusIf(x), ns as real / NANO);
    JsonValue(x);
    SurvivesIff(D.JSON, x, v);
    if D.Magnitude(x) > D.LEAP {
      LessThanBefore(ns as real / NANO, ns, x);
    } else {
      SameAsBefore(x);
    }
  }

  lemma SameAsBefore(x: int)
    ensures Signed(MinusIf(x), D.Magnitude(x) as real / NANO) == x as real / NANO
  {
  }

  // ---- The default format

  /** Parts that are each preceded by a space. */
  function Spaced(parts: seq<string>): string {
    if parts == [] then "" else " " + parts[0] + Spaced(parts[1..])
  }

  lemma {:induction false} JoinSpaced(first: string, parts: seq<string>)
    ensures D.Join(" ", [first] + parts) == first + Spaced(parts)
    decreases |parts|
  {
    if parts != [] {
      JoinSpaced(parts[0], parts[1..]);
      assert ([first] + parts)[1..] == [parts[0]] + parts[1..];
      assert first + " " + (parts[0] + Spaced(parts[1..])) == first + (" " + parts[0] + Spaced(parts[1..]));
    } else {
      assert [first] + parts == [first];
      assert first + "" == first;
    }
  }

  lemma {:induction false} SpacedAppend(a: seq<string>, b: seq<string>)
    ensures Spaced(a + b) == Spaced(a) + Spaced(b)
    decreases |a|
  {
    if a == [] {
      assert a + b == b;
    } else {
      assert (a + b)[1..] == a[1..] + b;
      SpacedAppend(a[1..], b);
      assert " " + a[0] + (Spaced(a[1..]) + Spaced(b)) == " " + a[0] + Spaced(a[1..]) + Spaced(b);
    }
  }

  function PlainSeconds(p: Split): seq<string> {
    if p.rest == 0 && (p.hours != 0 || p.minutes != 0) then [] else [D.SecondsText(p.rest) + "s"]
  }

  function PlainTime(p: Split): seq<string> {
    Piece(p.hours, "h") + (Piece(p.minutes, "m") + PlainSeconds(p))
  }

  lemma PlainPartsJoined(p: Split)
    ensures var time := Piece(p.hours, "h") + Piece(p.minutes, "m");
            [] + [] + time + D.SecondsPart("s", [] + [] + time, p.rest) == PlainTime(p)
  {
    var time := Piece(p.hours, "h") + Piece(p.minutes, "m");
    assert [] + [] + time == time;
    assert D.SecondsPart("s", time, p.rest) == PlainSeconds(p);
    assert time + PlainSeconds(p) == PlainTime(p);
  }

  lemma PlainDate(ns: nat)
    requires ns < D.DAY
    ensures D.CountParts(ns, D.DateDivisions(D.PLAIN)) == [] && D.LeftAfter(ns, D.DateDivisions(D.PLAIN)) == ns
    ensures var p := SplitOf(ns);
            p.hours == ns / D.HOUR && p.minutes == ns % D.HOUR / D.MINUTE && p.rest == ns % D.HOUR % D.MINUTE
  {
    TimeOfDay(ns);
    DateParts(D.PLAIN, ns);
    NoDays(ns);
  }

  lemma PlainParts(ns: nat)
    requires ns < D.DAY
    ensures D.Parts(D.PLAIN, ns) == PlainTime(SplitOf(ns))
  {
    var p := SplitOf(ns);
    PlainDate(ns);
    TimeParts(D.PLAIN, ns);
    PartsOf(D.PLAIN, ns, [], ns, Piece(p.hours, "h") + Piece(p.minutes, "m"), p.rest);
    PlainPartsJoined(p);
  }

  function SpaceIf(b: bool): string {
    if b then " " else ""
  }

  function PlainH(p: Split): Component {
    Counted("", p.hours, "h")
  }

  function PlainM(p: Split): Component {
    Counted(SpaceIf(p.hours != 0), p.minutes, "m")
  }

  function PlainS(p: Split): Component {
    if PlainSeconds(p) == [] then Omitted
    else Spelled(SpaceIf(p.hours != 0 || p.minutes != 0), D.SecondsText(p.rest), "s")
  }

  lemma SpacedPiece(count: nat, unit: string)
    ensures Spaced(Piece(count, unit)) == ComponentText(Counted(" ", count, unit))
  {
    if count != 0 {
      assert Spaced([]) == "";
      assert " " + (Decimal(count) + unit) + "" == " " + Decimal(count) + unit;
    }
  }

  lemma SpacedSeconds(p: Split)
    requires p.hours != 0 || p.minutes != 0
    ensures Spaced(PlainSeconds(p)) == ComponentText(PlainS(p))
  {
    if PlainSeconds(p) != [] {
      assert Spaced([]) == "";
      assert " " + (D.SecondsText(p.rest) + "s") + "" == " " + D.SecondsText(p.rest) + "s";
    }
  }

  lemma PlainText(p: Split)
    ensures D.Join(" ", PlainTime(p))
         == ComponentText(PlainH(p)) + (ComponentText(PlainM(p)) + ComponentText(PlainS(p)))
  {
    if p.hours != 0 {
      JoinSpaced(Decimal(p.hours) + "h", Piece(p.minutes, "m") + PlainSeconds(p));
      SpacedAppend(Piece(p.minutes, "m"), PlainSeconds(p));
      SpacedPiece(p.minutes, "m");
      SpacedSeconds(p);
      assert "" + Decimal(p.hours) + "h" == Decimal(p.hours) + "h";
    } else if p.minutes != 0 {
      assert [] + ([Decimal(p.minutes) + "m"] + PlainSeconds(p)) == [Decimal(p.minutes) + "m"] + PlainSeconds(p);
      JoinSpaced(Decimal(p.minutes) + "m", PlainSeconds(p));
      SpacedSeconds(p);
      assert "" + Decimal(p.minutes) + "m" == Decimal(p.minutes) + "m";
    } else {
      assert "" + D.SecondsText(p.rest) + "s" == D.SecondsText(p.rest) + "s";
    }
  }

  function PlainComponents(p: Split): seq<Component> {
    ComponentsOf(Omitted, Omitted, PlainH(p), PlainM(p), PlainS(p))
  }

  lemma PlainComponentsAre(p: Split)
    ensures Components(PlainComponents(p))
  {
    CountedIsComponent(4, "", p.hours, "h");
    CountedIsComponent(5, SpaceIf(p.hours != 0), p.minutes, "m");
    SecondsAreNumeral(p.rest);
    AreComponents(Omitted, Omitted, PlainH(p), PlainM(p), PlainS(p));
  }

  lemma PlainParsed(x: int)
    requires D.Magnitude(x) < D.DAY
    ensures FromString(D.Text(D.PLAIN, x)) == Value(MinusIf(x), PlainComponents(SplitOf(D.Magnitude(x))))
  {
    PlainTextOf(x);
    PlainValue(MinusIf(x), SplitOf(D.Magnitude(x)));
  }

  lemma PlainAmount(x: int)
    requires D.Magnitude(x) < D.DAY
    ensures Value(MinusIf(x), PlainComponents(SplitOf(D.Magnitude(x)))) == Seconds(x as real / NANO)
  {
    var ns := D.Magnitude(x);
    PlainComponentsValue(MinusIf(x), ns);
    NoLeapSeconds(ns);
    SameAsBefore(x);
  }

  lemma PlainShort(x: int)
    requires D.Magnitude(x) < D.DAY
    ensures Survives(D.PLAIN, x)
  {
    PlainParsed(x);
    PlainAmount(x);
  }

  lemma PlainValue(sign: string, p: Split)
    requires IsSign(sign)
    ensures FromString(sign + TimeText(PlainComponents(p), TIME)) == Value(sign, PlainComponents(p))
  {
    PlainComponentsAre(p);
    TimeTextHasValue(sign, PlainComponents(p));
  }

  lemma PlainTextOf(x: int)
    requires D.Magnitude(x) < D.DAY
    ensures D.Text(D.PLAIN, x) == MinusIf(x) + TimeText(PlainComponents(SplitOf(D.Magnitude(x))), TIME)
  {
    var p := SplitOf(D.Magnitude(x));
    PlainParts(D.Magnitude(x));
    PlainText(p);
    TimeTextOf(Omitted, Omitted, PlainH(p), PlainM(p), PlainS(p));
    assert MinusIf(x) + "" == MinusIf(x);
  }

  lemma NoDays(ns: nat)
    requires ns < D.DAY
    ensures SplitOf(ns).years == 0 && SplitOf(ns).days == 0
  {
  }

  lemma PlainComponentsValue(sign: string, ns: nat)
    requires ns < D.DAY
    ensures Value(sign, PlainComponents(SplitOf(ns)))
         == Seconds(Signed(sign, ns as real / NANO + LeapSeconds(SplitOf(ns).years)))
  {
    var p := SplitOf(ns);
    NoDays(ns);
    SplitValue(sign, Omitted, Omitted, PlainH(p), PlainM(p), PlainS(p), ns);
  }

  /** The default format of a day or more begins with a date, which needs a P. */
  lemma PlainLong(x: int)
    requires D.Magnitude(x) >= D.DAY
    ensures FromString(D.Text(D.PLAIN, x)) == Invalid
  {
    var ns := D.Shortened(D.Magnitude(x));
    ShortenedIsLong(D.Magnitude(x));
    var p := SplitOf(ns);
    var number, unit, after := PlainStart(ns);
    DecimalIsNumeral(if p.years != 0 then p.years else p.days);
    DateNeedsP(MinusIf(x), number, unit, after);
    assert MinusIf(x) + "" == MinusIf(x);
  }

  lemma ShortenedIsLong(ns: nat)
    requires ns >= D.DAY
    ensures D.Shortened(ns) >= D.DAY
  {
    var q := ns / D.LEAP;
    assert ns >= D.LEAP * q;
  }

  lemma PlainDateStart(ns: nat)
    requires ns >= D.DAY
    ensures var date := D.CountParts(ns, D.DateDivisions(D.PLAIN));
            var p := SplitOf(ns);
            date != [] && date[0] == if p.years != 0 then Decimal(p.years) + "y" else Decimal(p.days) + "d"
  {
    DateParts(D.PLAIN, ns);
  }

  lemma JoinFirstPart(parts: seq<string>)
    requires parts != []
    ensures D.Join(" ", parts) == parts[0] + Spaced(parts[1..])
  {
    assert parts == [parts[0]] + parts[1..];
    JoinSpaced(parts[0], parts[1..]);
  }

  lemma PlainStart(ns: nat) returns (number: string, unit: string, after: string)
    requires ns >= D.DAY
    ensures D.Join(" ", D.Parts(D.PLAIN, ns)) == number + (unit + after)
    ensures var p := SplitOf(ns);
            number == Decimal(if p.years != 0 then p.years else p.days)
    ensures unit == "y" || unit == "d"
  {
    var p := SplitOf(ns);
    var parts := D.Parts(D.PLAIN, ns);
    PlainDateStart(ns);
    JoinFirstPart(parts);
    number := Decimal(if p.years != 0 then p.years else p.days);
    unit := if p.years != 0 then "y" else "d";
    after := Spaced(parts[1..]);
    Associative(number, unit, after);
  }

  /** The default format is exact below a day. */
  lemma PlainSurvivesIff(x: int)
    ensures Survives(D.PLAIN, x) <==> D.Magnitude(x) < D.DAY
  {
    if D.Magnitude(x) < D.DAY {
      PlainShort(x);
    } else {
      PlainLong(x);
    }
  }
}
