/** The units of durations in seconds, and which texts are read as durations at all. */
module DurationUnits {
  import opened Collections
  import opened Patterns
  import opened Decimals
  import opened DurationParser

  // ---- Numbers and units

  /** The units of each component; only milliseconds and below are case sensitive. */
  lemma UnitsAre(k: nat, unit: string)
    requires k < END
    ensures IsUnit(k, unit) <==>
              match k
              case 0 => unit == "y" || unit == "Y"
              case 1 => unit == "m" || unit == "M"
              case 2 => unit == "w" || unit == "W"
              case 3 => unit == "d" || unit == "D"
              case 4 => unit == "h" || unit == "H"
              case 5 => unit == "m" || unit == "M"
              case 6 => unit == "s" || unit == "S"
              case 7 => unit == "ms"
              case 8 => unit == "us"
              case _ => unit == "ns"
  {
    assert |unit| == 1 ==> unit == [unit[0]];
    assert |unit| == 2 ==> unit == [unit[0], unit[1]];
  }

  /** Digits, followed by a point and more digits if any: the first `d` characters are before the point. */
  predicate IsCutAt(s: string, d: nat) {
    0 < d <= |s| && AllDigits(s[..d]) && (d == |s| || (s[d] == '.' && AllDigits(s[d + 1..])))
  }

  lemma CutNumeral(s: string, d: nat)
    requires IsCutAt(s, d)
    ensures IsNumeral(s)
  {
    assert s == s[..d] + s[d..];
    DigitsThenOther(s[..d], s[d..]);
    if d < |s| {
      assert s[d + 1..] + "" == s[d + 1..];
      DigitsThenOther(s[d + 1..], "");
    }
  }

  lemma NumeralIsCut(s: string)
    requires IsNumeral(s)
    ensures IsCutAt(s, DigitRun(s))
  {
    NumeralParts(s);
  }

  lemma NumeralsAre(s: string)
    ensures IsNumeral(s) <==> exists d :: IsCutAt(s, d)
  {
    if IsNumeral(s) {
      NumeralIsCut(s);
    }
    if d :| IsCutAt(s, d) {
      CutNumeral(s, d);
    }
  }

  /** Numbers are decimal. */
  lemma WholeNumeralValue(digits: string)
    requires digits != "" && AllDigits(digits)
    ensures NumberValue(digits) == NatOf(digits) as real
  {
    assert digits + "" == digits;
    DigitsThenOther(digits, "");
    assert digits[..|digits|] == digits;
  }

  lemma AllAreRun(digits: string)
    requires AllDigits(digits)
    ensures DigitRun(digits) == |digits| && digits[..|digits|] == digits
  {
    assert digits + "" == digits;
    DigitsThenOther(digits, "");
  }

  lemma CutAround(digits: string, fraction: string)
    requires AllDigits(digits)
    ensures var s := digits + ("." + fraction);
            DigitRun(s) == |digits| && s[..|digits|] == digits && s[|digits| + 1..] == fraction && |digits| < |s|
  {
    DigitsThenOther(digits, "." + fraction);
  }

  lemma NumeralValue(digits: string, fraction: string)
    requires digits != "" && AllDigits(digits) && AllDigits(fraction)
    ensures NumberValue(digits + ("." + fraction)) ==
            NatOf(digits) as real + NatOf(fraction) as real / Power10(|fraction|) as real
  {
    CutAround(digits, fraction);
    AllAreRun(fraction);
  }

  // ---- The sum of the components

  /** How many of its units a component has. */
  function Amount(c: Component): real {
    if c.Spelled? then NumberValue(c.number) else 0.0
  }

  /** The seconds of components: a month has 30 days and a year 365, and a day is added for every four years. */
  function SecondsOf(cs: seq<Component>): real
    requires |cs| == END
  {
    31536000.0 * Amount(cs[0]) + 2592000.0 * Amount(cs[1]) + 604800.0 * Amount(cs[2]) + 86400.0 * Amount(cs[3])
    + 3600.0 * Amount(cs[4]) + 60.0 * Amount(cs[5]) + Amount(cs[6])
    + 0.001 * Amount(cs[7]) + 0.000001 * Amount(cs[8]) + 0.000000001 * Amount(cs[9])
    + 86400.0 * (Amount(cs[0]) / 126144000.0).Floor as real
  }

  lemma StepOfTotal(words: seq<Word>, cs: seq<Component>, k: nat)
    requires AreWordsOf(words, cs) && k < END
    ensures Total(words, k + 1) == Total(words, k) + Factor(k) * Amount(cs[k])
  {
  }

  lemma TotalOfDate(words: seq<Word>, cs: seq<Component>)
    requires AreWordsOf(words, cs)
    ensures Total(words, 4) ==
            31536000.0 * Amount(cs[0]) + 2592000.0 * Amount(cs[1]) + 604800.0 * Amount(cs[2]) + 86400.0 * Amount(cs[3])
  {
    StepOfTotal(words, cs, 0);
    StepOfTotal(words, cs, 1);
    StepOfTotal(words, cs, 2);
    StepOfTotal(words, cs, 3);
  }

  lemma TotalOfTime(words: seq<Word>, cs: seq<Component>)
    requires AreWordsOf(words, cs)
    ensures Total(words, 7) == Total(words, 4) + 3600.0 * Amount(cs[4]) + 60.0 * Amount(cs[5]) + Amount(cs[6])
  {
    StepOfTotal(words, cs, 4);
    StepOfTotal(words, cs, 5);
    StepOfTotal(words, cs, 6);
  }

  lemma TotalOfSmallUnits(words: seq<Word>, cs: seq<Component>, k: nat)
    requires AreWordsOf(words, cs) && k == 7
    ensures Total(words, k + 3) ==
            Total(words, k) + 0.001 * Amount(cs[7]) + 0.000001 * Amount(cs[8]) + 0.000000001 * Amount(cs[9])
  {
    StepOfTotal(words, cs, k);
    StepOfTotal(words, cs, k + 1);
    StepOfTotal(words, cs, k + 2);
  }

  /** The value of components, spelled out in seconds. */
  lemma ValueInSeconds(sign: string, cs: seq<Component>)
    requires |cs| == END
    ensures Value(sign, cs) ==
            if forall k :: 0 <= k < END ==> cs[k].Omitted? then Invalid
            else Seconds(if sign == "-" then -SecondsOf(cs) else SecondsOf(cs))
  {
    AllWords(cs);
    TotalInSeconds(WordsFrom(cs, 0), cs);
  }

  lemma TotalInSeconds(words: seq<Word>, cs: seq<Component>)
    requires AreWordsOf(words, cs)
    ensures Total(words, END) + LeapDays(WordOf(cs[0])) == SecondsOf(cs)
  {
    TotalOfDate(words, cs);
    TotalOfTime(words, cs);
    TotalOfSmallUnits(words, cs, 7);
    LeapDaysOf(cs[0]);
  }

  lemma LeapDaysOf(c: Component)
    ensures LeapDays(WordOf(c)) == 86400.0 * (Amount(c) / 126144000.0).Floor as real
  {
  }

  /** After a P, any selection of dates and times in order is read as the sum of their seconds. */
  lemma DateTextInSeconds(sign: string, cs: seq<Component>)
    requires Components(cs) && IsSign(sign) && exists k :: 0 <= k < END && cs[k].Spelled?
    ensures FromString(sign + ("P" + DateText(cs, 0))) ==
            Seconds(if sign == "-" then -SecondsOf(cs) else SecondsOf(cs))
  {
    DateTextHasValue(sign, cs);
    ValueInSeconds(sign, cs);
  }

  /** Without a P, so are times alone. */
  lemma TimeTextInSeconds(sign: string, cs: seq<Component>)
    requires Components(cs) && IsSign(sign) && forall k :: 0 <= k < TIME ==> cs[k].Omitted?
    requires exists k :: 0 <= k < END && cs[k].Spelled?
    ensures FromString(sign + TimeText(cs, TIME)) == Seconds(if sign == "-" then -SecondsOf(cs) else SecondsOf(cs))
  {
    TimeTextHasValue(sign, cs);
    ValueInSeconds(sign, cs);
  }

  // ---- What is read at all

  /** What may stand before a component: white space, and before the first of a time also a T. */
  predicate IsGap(k: nat, gap: string) {
    || AllSpace(gap)
    || (k == TIME && exists i :: 0 <= i < |gap| && gap[i] == 'T' && AllSpace(gap[..i]) && AllSpace(gap[i + 1..]))
  }

  /** The text of components from one on, each after its gap. */
  function Spelling(gaps: seq<string>, cs: seq<Component>, k: nat, end: string): string
    requires k <= END == |cs| == |gaps|
    decreases END - k, |cs|
  {
    if k == END then end else gaps[k] + (Body(cs[k]) + Spelling(gaps, cs, k + 1, end))
  }

  ghost predicate AreGaps(gaps: seq<string>, k: nat) {
    |gaps| == END && forall i :: k <= i < END ==> IsGap(i, gaps[i])
  }

  predicate AreComponentsFrom(cs: seq<Component>, k: nat) {
    |cs| == END && forall i :: k <= i < END ==> IsComponent(i, cs[i])
  }

  lemma DropSpaceSplits(s: string)
    ensures AllSpace(s[..SpaceRun(s)]) && s == s[..SpaceRun(s)] + DropSpace(s)
  {
    var n := SpaceRun(s);
    assert s[..n] + s[n..] == s;
  }

  lemma TimeStartSplits(s: string, before: string, t: string)
    requires AllSpace(before) && s == before + t && t != "" && t[0] == 'T'
    ensures var gap := before + ("T" + t[1..][..SpaceRun(t[1..])]);
            IsGap(TIME, gap) && s == gap + DropSpace(t[1..])
  {
    var after, rest := t[1..][..SpaceRun(t[1..])], DropSpace(t[1..]);
    DropSpaceSplits(t[1..]);
    assert t == "T" + (after + rest);
    Associative("T", after, rest);
    Associative(before, "T" + after, rest);
    var gap := before + ("T" + after);
    assert gap[|before|] == 'T' && gap[..|before|] == before && gap[|before| + 1..] == after;
  }

  lemma StartSplits(k: nat, s: string) returns (gap: string)
    ensures IsGap(k, gap) && s == gap + Start(k, s)
  {
    var before, t := s[..SpaceRun(s)], DropSpace(s);
    DropSpaceSplits(s);
    gap := before;
    if k == TIME && t != "" && t[0] == 'T' {
      TimeStartSplits(s, before, t);
      gap := before + ("T" + t[1..][..SpaceRun(t[1..])]);
    }
  }

  lemma FrontSplits(k: nat, t: string)
    requires FrontOf(k, t).Present?
    ensures var front, unit := FrontOf(k, t), UnitOf(k, t);
            IsNumeral(front.number) && IsUnit(k, unit) && t == front.number + unit + front.after
  {
    var n := NumberLength(t);
    var u := UnitLength(k, t[n..]);
    assert t[..n] + t[n..][..u] + t[n + u..] == t;
    NumberStands(t);
    UnitStands(k, t[n..]);
  }

  function UnitOf(k: nat, t: string): string {
    t[NumberLength(t)..][..UnitLength(k, t[NumberLength(t)..])]
  }

  lemma NumberStands(t: string)
    requires NumberLength(t) > 0
    ensures IsNumeral(t[..NumberLength(t)])
  {
    var d, n := DigitRun(t), NumberLength(t);
    var number := t[..n];
    assert t[..d] == number[..d];
    if n > d {
      assert number[d + 1..] == t[d + 1..][..DigitRun(t[d + 1..])];
    }
    NumeralsAre(number);
  }

  lemma UnitStands(k: nat, t: string)
    requires UnitLength(k, t) > 0
    ensures IsUnit(k, t[..UnitLength(k, t)])
  {
  }

  ghost predicate Spells(gaps: seq<string>, cs: seq<Component>, k: nat, end: string, s: string)
    requires k <= END
  {
    AreGaps(gaps, k) && AreComponentsFrom(cs, k) && (end == "" || end == "\n") && s == Spelling(gaps, cs, k, end)
  }

  /** A match takes a component, or skips it. */
  lemma MatchTakesOrSkips(k: nat, s: string)
    requires k < END && MatchFrom(Duration(), k, s).Groups?
    ensures var t := Start(k, s);
            var front := FrontOf(k, t);
            || (front.Present? && MatchFrom(Duration(), k + 1, front.after).Groups?
                && MatchFrom(Duration(), k, s) ==
                   Prepend(Word(front.number), MatchFrom(Duration(), k + 1, front.after)))
            || (MatchFrom(Duration(), k + 1, t).Groups?
                && MatchFrom(Duration(), k, s) == Prepend(NoWord, MatchFrom(Duration(), k + 1, t)))
  {
  }

  lemma SpelledInFront(gaps: seq<string>, cs: seq<Component>, k: nat, end: string, rest: string, gap: string,
                       c: Component, s: string)
    requires k < END && Spells(gaps, cs, k + 1, end, rest)
    requires IsGap(k, gap) && IsComponent(k, c) && s == gap + (Body(c) + rest)
    ensures Spells(gaps[k := gap], cs[k := c], k, end, s)
  {
    Prolonged(gaps, cs, k, end, gap, c);
  }

  lemma MatchedInFront(cs: seq<Component>, k: nat, rest: string, c: Component, s: string)
    requires k < END == |cs| && MatchesFrom(cs, k + 1, rest)
    requires MatchFrom(Duration(), k, s) == Prepend(WordOf(c), MatchFrom(Duration(), k + 1, rest))
    ensures MatchesFrom(cs[k := c], k, s)
  {
    Prolonged(seq(END, _ => ""), cs, k, "", "", c);
  }

  /** The component at the front of a text, and what is matched after it. */
  lemma NextSpelled(k: nat, s: string) returns (gap: string, c: Component, rest: string)
    requires k < END && MatchFrom(Duration(), k, s).Groups?
    ensures IsGap(k, gap) && IsComponent(k, c) && s == gap + (Body(c) + rest)
    ensures MatchFrom(Duration(), k + 1, rest).Groups?
    ensures MatchFrom(Duration(), k, s) == Prepend(WordOf(c), MatchFrom(Duration(), k + 1, rest))
  {
    var t := Start(k, s);
    gap := StartSplits(k, s);
    MatchTakesOrSkips(k, s);
    var front := FrontOf(k, t);
    if front.Present? && MatchFrom(Duration(), k + 1, front.after).Groups?
       && MatchFrom(Duration(), k, s) == Prepend(Word(front.number), MatchFrom(Duration(), k + 1, front.after)) {
      FrontSplits(k, t);
      c, rest := Spelled("", front.number, UnitOf(k, t)), front.after;
    } else {
      c, rest := Omitted, t;
      assert "" + t == t;
    }
  }

  /** The text of a match is that of the components that were found. */
  lemma {:induction false} MatchedTextIsSpelled(k: nat, s: string)
      returns (gaps: seq<string>, cs: seq<Component>, end: string)
    requires k <= END && MatchFrom(Duration(), k, s).Groups?
    ensures |cs| == END && Spells(gaps, cs, k, end, s) && MatchesFrom(cs, k, s)
    decreases END - k
  {
    if k == END {
      gaps, cs, end := seq(END, _ => ""), seq(END, _ => Omitted), s;
    } else {
      var gap, c, rest := NextSpelled(k, s);
      gaps, cs, end := MatchedTextIsSpelled(k + 1, rest);
      SpelledInFront(gaps, cs, k, end, rest, gap, c, s);
      MatchedInFront(cs, k, rest, c, s);
      gaps, cs := gaps[k := gap], cs[k := c];
    }
  }

  /** One component more in front. */
  lemma Prolonged(gaps: seq<string>, cs: seq<Component>, k: nat, end: string, gap: string, c: Component)
    requires k < END == |cs| == |gaps|
    ensures Spelling(gaps[k := gap], cs[k := c], k, end) == gap + (Body(c) + Spelling(gaps, cs, k + 1, end))
    ensures WordsFrom(cs[k := c], k) == [WordOf(c)] + WordsFrom(cs, k + 1)
  {
    LaterSpelling(gaps, cs, k, k + 1, end, gap, c);
  }

  lemma {:induction false} LaterSpelling(gaps: seq<string>, cs: seq<Component>, k: nat, j: nat, end: string,
                                         gap: string, c: Component)
    requires k < j <= END == |cs| == |gaps|
    ensures Spelling(gaps[k := gap], cs[k := c], j, end) == Spelling(gaps, cs, j, end)
    ensures WordsFrom(cs[k := c], j) == WordsFrom(cs, j)
    decreases END - j
  {
    if j < END {
      LaterSpelling(gaps, cs, k, j + 1, end, gap, c);
    }
  }

  lemma NothingInFront(gaps: seq<string>, cs: seq<Component>, k: nat, end: string)
    requires k < END == |cs| == |gaps| && cs[k].Omitted? && gaps[k] == ""
    ensures Spelling(gaps, cs, k, end) == Spelling(gaps, cs, k + 1, end)
  {
    var rest := Spelling(gaps, cs, k + 1, end);
    assert "" + ("" + rest) == rest;
  }

  lemma {:induction false} SameSpelling(gaps: seq<string>, cs: seq<Component>, gaps': seq<string>,
                                        cs': seq<Component>, k: nat, end: string)
    requires k <= END == |cs| == |gaps| == |cs'| == |gaps'|
    requires forall i :: k <= i < END ==> cs'[i] == cs[i] && gaps'[i] == gaps[i]
    ensures Spelling(gaps', cs', k, end) == Spelling(gaps, cs, k, end) && WordsFrom(cs', k) == WordsFrom(cs, k)
    decreases END - k
  {
    if k < END {
      SameSpelling(gaps, cs, gaps', cs', k + 1, end);
    }
  }

  /** Without a date, there are neither components of it nor gaps between them. */
  predicate HasNoDate(gaps: seq<string>, cs: seq<Component>)
    requires |gaps| == |cs| == END
  {
    forall k :: 0 <= k < TIME ==> cs[k].Omitted? && gaps[k] == ""
  }

  lemma SpelledWithoutDate(gaps: seq<string>, cs: seq<Component>, end: string)
    requires |gaps| == |cs| == END && HasNoDate(gaps, cs)
    ensures Spelling(gaps, cs, 0, end) == Spelling(gaps, cs, TIME, end)
  {
    NothingInFront(gaps, cs, 0, end);
    NothingInFront(gaps, cs, 1, end);
    NothingInFront(gaps, cs, 2, end);
    NothingInFront(gaps, cs, 3, end);
  }

  /** Time components, with nothing in front of them. */
  function TimeOnly<T>(nothing: T, xs: seq<T>): (r: seq<T>)
    requires |xs| == END
    ensures |r| == END && forall k :: 0 <= k < TIME ==> r[k] == nothing
    ensures forall k :: TIME <= k < END ==> r[k] == xs[k]
  {
    [nothing, nothing, nothing, nothing] + xs[TIME..]
  }

  lemma WithoutDateSpelled(gaps: seq<string>, cs: seq<Component>, end: string, s: string)
    requires |cs| == |gaps| == END && Spells(gaps, cs, TIME, end, s)
    ensures Spells(TimeOnly("", gaps), TimeOnly(Omitted, cs), 0, end, s)
    ensures HasNoDate(TimeOnly("", gaps), TimeOnly(Omitted, cs))
  {
    SameSpelling(gaps, cs, TimeOnly("", gaps), TimeOnly(Omitted, cs), TIME, end);
    SpelledWithoutDate(TimeOnly("", gaps), TimeOnly(Omitted, cs), end);
  }

  lemma WithoutDateWords(cs: seq<Component>)
    requires |cs| == END
    ensures WordsFrom(TimeOnly(Omitted, cs), 0) == [NoWord, NoWord, NoWord, NoWord] + WordsFrom(cs, TIME)
  {
    var none := seq(END, _ => "");
    SameSpelling(none, cs, none, TimeOnly(Omitted, cs), TIME, "");
    NoDateWords(TimeOnly(Omitted, cs));
  }

  lemma AcceptedValue(input: string, sign: string, cs: seq<Component>)
    requires |cs| == END && IsSign(sign) && (sign == "-" <==> IsNegative(input))
    requires MatchAll(input) == Groups(WordsFrom(cs, 0)) && FromString(input).Seconds?
    ensures exists k :: 0 <= k < END && cs[k].Spelled?
    ensures FromString(input) == Seconds(if sign == "-" then -SecondsOf(cs) else SecondsOf(cs))
  {
    MatchedValue(sign, cs);
    ValueInSeconds(sign, cs);
  }

  lemma TimeIsSpelled(s: string) returns (gaps: seq<string>, cs: seq<Component>, end: string)
    requires MatchFrom(Duration(), TIME, s).Groups?
    ensures |cs| == |gaps| == END && Spells(gaps, cs, 0, end, s) && HasNoDate(gaps, cs)
    ensures WithoutDate(MatchFrom(Duration(), TIME, s)) == Groups(WordsFrom(cs, 0))
  {
    gaps, cs, end := MatchedTextIsSpelled(TIME, s);
    WithoutDateSpelled(gaps, cs, end, s);
    WithoutDateWords(cs);
    gaps, cs := TimeOnly("", gaps), TimeOnly(Omitted, cs);
  }

  /** What is matched after the sign. */
  function MatchUnsigned(s: string): Match {
    if s != "" && s[0] == 'P' then MatchFrom(Duration(), 0, s[1..]) else WithoutDate(MatchFrom(Duration(), TIME, s))
  }

  lemma MatchAfterSign(input: string)
    ensures MatchAll(input) == MatchUnsigned(Unsigned(input))
    ensures FromString(input).Seconds? ==> MatchAll(input).Groups?
  {
  }

  /** A text after its sign, read as components. */
  ghost predicate IsRead(s: string, p: string, gaps: seq<string>, cs: seq<Component>, end: string) {
    && (p == "P" || p == "") && |cs| == |gaps| == END && (p == "" ==> HasNoDate(gaps, cs))
    && AreGaps(gaps, 0) && Components(cs) && (end == "" || end == "\n")
    && s == p + Spelling(gaps, cs, 0, end)
  }

  lemma DateIsRead(s: string) returns (gaps: seq<string>, cs: seq<Component>, end: string)
    requires s != "" && s[0] == 'P' && MatchFrom(Duration(), 0, s[1..]).Groups?
    ensures IsRead(s, "P", gaps, cs, end) && MatchFrom(Duration(), 0, s[1..]) == Groups(WordsFrom(cs, 0))
  {
    gaps, cs, end := MatchedTextIsSpelled(0, s[1..]);
    FirstIsP(s);
  }

  lemma FirstIsP(s: string)
    requires s != "" && s[0] == 'P'
    ensures s == "P" + s[1..]
  {
  }

  lemma TimeIsRead(s: string) returns (gaps: seq<string>, cs: seq<Component>, end: string)
    requires MatchFrom(Duration(), TIME, s).Groups?
    ensures IsRead(s, "", gaps, cs, end)
    ensures WithoutDate(MatchFrom(Duration(), TIME, s)) == Groups(WordsFrom(cs, 0))
  {
    gaps, cs, end := TimeIsSpelled(s);
    assert "" + s == s;
  }

  lemma UnsignedIsRead(s: string) returns (p: string, gaps: seq<string>, cs: seq<Component>, end: string)
    requires MatchUnsigned(s).Groups?
    ensures IsRead(s, p, gaps, cs, end) && MatchUnsigned(s) == Groups(WordsFrom(cs, 0))
  {
    if s != "" && s[0] == 'P' {
      p := "P";
      gaps, cs, end := DateIsRead(s);
    } else {
      p := "";
      gaps, cs, end := TimeIsRead(s);
    }
  }

  /**
   Nothing else is read: a text that is accepted is a sign, a P if there is a date, and components in order with a
   number and a unit each, at least one of them, with white space between them and a T before the time if any; and its
   value is the sum of their seconds.
   */
  lemma AcceptedTextIsSpelled(input: string)
      returns (sign: string, p: string, gaps: seq<string>, cs: seq<Component>, end: string)
    requires FromString(input).Seconds?
    ensures IsSign(sign) && input == sign + Unsigned(input) && IsRead(Unsigned(input), p, gaps, cs, end)
    ensures exists k :: 0 <= k < END && cs[k].Spelled?
    ensures FromString(input) == Seconds(if sign == "-" then -SecondsOf(cs) else SecondsOf(cs))
  {
    MatchAfterSign(input);
    sign := if HasSign(input) then input[..1] else "";
    p, gaps, cs, end := UnsignedIsRead(Unsigned(input));
    AcceptedValue(input, sign, cs);
    SignInFront(input);
  }

  lemma SignInFront(input: string)
    ensures input == (if HasSign(input) then input[..1] else "") + Unsigned(input)
    ensures HasSign(input) ==> IsSign(input[..1]) && (input[..1] == "-" <==> IsNegative(input))
  {
  }
}
