/**
 Durations from text: the components that a regular expression finds, and their sum in seconds.

 The components are numbered in the order of the expression: years, months, weeks, days, and from 4 on hours,
 minutes, seconds, milliseconds, microseconds and nanoseconds.
 */
module DurationParser {
  import opened Collections
  import opened Patterns
  import opened Decimals

  const TIME: nat := 4
  const END: nat := 10

  // ---- The expression

  /** Digits, possibly followed by a point and more digits: the length in front of a text. */
  function NumberLength(s: string): (n: nat)
    ensures n <= |s|
  {
    var d := DigitRun(s);
    if d == 0 then 0
    else if d < |s| && s[d] == '.' then d + 1 + DigitRun(s[d + 1..])
    else d
  }

  predicate StartsWith(s: string, lower: char, upper: char) {
    s != "" && (s[0] == lower || s[0] == upper)
  }

  /** The length of the unit of a component in front of a text. */
  function UnitLength(k: nat, s: string): (n: nat)
    ensures n <= |s|
  {
    if k < 7 then
      if || (k == 0 && StartsWith(s, 'y', 'Y'))
         || (k == 1 && StartsWith(s, 'm', 'M'))
         || (k == 2 && StartsWith(s, 'w', 'W'))
         || (k == 3 && StartsWith(s, 'd', 'D'))
         || (k == 4 && StartsWith(s, 'h', 'H'))
         || (k == 5 && StartsWith(s, 'm', 'M'))
         || (k == 6 && StartsWith(s, 's', 'S')) then 1 else 0
    else
      if && |s| >= 2 && s[1] == 's'
         && ((k == 7 && s[0] == 'm') || (k == 8 && s[0] == 'u') || (k == 9 && s[0] == 'n')) then 2 else 0
  }

  function DropSpace(s: string): string {
    s[SpaceRun(s)..]
  }

  /** What is left before a component: white space is skipped, and a T before the time. */
  function Start(k: nat, s: string): string {
    var t := DropSpace(s);
    if k == TIME && t != "" && t[0] == 'T' then DropSpace(t[1..]) else t
  }

  datatype Word = NoWord | Word(text: string)

  datatype Match = NoMatch | Groups(words: seq<Word>)

  function Prepend(w: Word, m: Match): Match {
    if m.Groups? then Groups([w] + m.words) else NoMatch
  }

  /** A component in front of a text, and what follows it. */
  datatype Front = Absent | Present(number: string, after: string)

  function FrontOf(k: nat, t: string): Front {
    var n := NumberLength(t);
    var u := UnitLength(k, t[n..]);
    if n > 0 && u > 0 then Present(t[..n], t[n + u..]) else Absent
  }

  /** An expression of optional components in order: where each starts, and what it takes there. */
  datatype Expression = Expression(start: (nat, string) -> string, front: (nat, string) -> Front)

  function Duration(): Expression {
    Expression((k: nat, s: string) => Start(k, s), (k: nat, t: string) => FrontOf(k, t))
  }

  /** Matches the rest of a text from a component on.  A component is skipped where taking it leads nowhere. */
  function MatchFrom(e: Expression, k: nat, s: string): (m: Match)
    requires k <= END
    ensures m.Groups? ==> |m.words| == END - k
    decreases END - k, |s|
  {
    if k == END then
      if s == "" || s == "\n" then Groups([]) else NoMatch
    else
      var t := e.start(k, s);
      var front := e.front(k, t);
      if front.Present? && MatchFrom(e, k + 1, front.after).Groups? then
        Prepend(Word(front.number), MatchFrom(e, k + 1, front.after))
      else
        Prepend(NoWord, MatchFrom(e, k + 1, t))
  }

  predicate HasSign(input: string) {
    input != "" && (input[0] == '+' || input[0] == '-')
  }

  predicate IsNegative(input: string) {
    input != "" && input[0] == '-'
  }

  function Unsigned(input: string): string {
    if HasSign(input) then input[1..] else input
  }

  /** The date is only looked for after a P. */
  function MatchAll(input: string): (m: Match)
    ensures m.Groups? ==> |m.words| == END
  {
    var s := Unsigned(input);
    if s != "" && s[0] == 'P' then MatchFrom(Duration(), 0, s[1..])
    else
      var time := MatchFrom(Duration(), TIME, s);
      if time.Groups? then Groups([NoWord, NoWord, NoWord, NoWord] + time.words) else NoMatch
  }

  // ---- The value

  predicate IsNumeral(word: string) {
    word != "" && NumberLength(word) == |word|
  }

  function NumberValue(word: string): real {
    var d := DigitRun(word);
    if d < |word| then
      var fraction := word[d + 1..];
      var f := DigitRun(fraction);
      NatOf(word[..d]) as real + NatOf(fraction[..f]) as real / Power10(f) as real
    else
      NatOf(word[..d]) as real
  }

  /** The seconds in a unit. */
  function Factor(k: nat): real {
    match k
    case 0 => 31536000.0
    case 1 => 2592000.0
    case 2 => 604800.0
    case 3 => 86400.0
    case 4 => 3600.0
    case 5 => 60.0
    case 6 => 1.0
    case 7 => 0.001
    case 8 => 0.000001
    case _ => 0.000000001
  }

  function Contribution(k: nat, w: Word): real {
    if w.Word? then Factor(k) * NumberValue(w.text) else 0.0
  }

  /** The sum of the first `n` components. */
  function Total(words: seq<Word>, n: nat): real
    requires n <= |words|
  {
    if n == 0 then 0.0 else Total(words, n - 1) + Contribution(n - 1, words[n - 1])
  }

  /** The days added for years: one for as many years as there are seconds in four years. */
  function LeapDays(years: Word): real {
    if years.Word? then 86400.0 * (NumberValue(years.text) / 126144000.0).Floor as real else 0.0
  }

  datatype Interval = Seconds(value: real) | Invalid

  function FromString(input: string): Interval {
    IntervalOf(IsNegative(input), MatchAll(input))
  }

  function IntervalOf(negative: bool, m: Match): Interval
    requires m.Groups? ==> |m.words| == END
  {
    if m.NoMatch? || (forall k :: 0 <= k < END ==> m.words[k].NoWord?) then Invalid
    else
      var total := Total(m.words, END) + LeapDays(m.words[0]);
      Seconds(if negative then -total else total)
  }

  // ---- Texts made of components

  datatype Component = Omitted | Spelled(space: string, number: string, unit: string)

  predicate IsUnit(k: nat, unit: string) {
    unit != "" && UnitLength(k, unit) == |unit|
  }

  predicate IsComponent(k: nat, c: Component) {
    c.Spelled? ==> AllSpace(c.space) && IsNumeral(c.number) && IsUnit(k, c.unit)
  }

  predicate Components(cs: seq<Component>) {
    |cs| == END && forall k :: 0 <= k < END ==> IsComponent(k, cs[k])
  }

  function WordOf(c: Component): Word {
    if c.Spelled? then Word(c.number) else NoWord
  }

  function WordsFrom(cs: seq<Component>, k: nat): (w: seq<Word>)
    requires k <= END == |cs|
    ensures |w| == END - k
    ensures forall i :: 0 <= i < END - k ==> w[i] == WordOf(cs[k + i])
    decreases END - k, |cs|
  {
    if k == END then [] else [WordOf(cs[k])] + WordsFrom(cs, k + 1)
  }

  function Body(c: Component): string {
    if c.Spelled? then c.number + c.unit else ""
  }

  function ComponentText(c: Component): string {
    if c.Spelled? then c.space + c.number + c.unit else ""
  }

  function TimeText(cs: seq<Component>, k: nat): string
    requires k <= END == |cs|
    decreases END - k, |cs|
  {
    if k == END then "" else ComponentText(cs[k]) + TimeText(cs, k + 1)
  }

  predicate HasTime(cs: seq<Component>)
    requires |cs| == END
  {
    exists k :: TIME <= k < END && cs[k].Spelled?
  }

  function DateText(cs: seq<Component>, k: nat): string
    requires k <= TIME && |cs| == END
    decreases TIME - k, |cs|
  {
    if k == TIME then (if HasTime(cs) then "T" + TimeText(cs, TIME) else "")
    else ComponentText(cs[k]) + DateText(cs, k + 1)
  }

  // ---- Such texts are parsed

  lemma DropSpaceTwice(space: string, s: string)
    requires AllSpace(space)
    ensures DropSpace(space + s) == DropSpace(s)
    decreases |space|
  {
    if space == "" {
      assert space + s == s;
    } else {
      assert (space + s)[1..] == space[1..] + s;
      DropSpaceTwice(space[1..], s);
      assert DropSpace(space + s) == DropSpace(space[1..] + s);
    }
  }

  lemma StartAfterSpace(k: nat, space: string, s: string)
    requires AllSpace(space)
    ensures Start(k, space + s) == Start(k, s)
  {
    DropSpaceTwice(space, s);
  }

  lemma FractionEnds(digits: string, fraction: string, after: string)
    requires digits != "" && AllDigits(digits) && AllDigits(fraction) && (after != "" ==> !IsDigit(after[0]))
    ensures NumberLength(digits + ("." + (fraction + after))) == |digits| + 1 + |fraction|
  {
    var s := digits + ("." + (fraction + after));
    DigitsThenOther(digits, "." + (fraction + after));
    assert s[|digits| + 1..] == fraction + after;
    DigitsThenOther(fraction, after);
  }

  lemma CutAtPoint(s: string, d: nat)
    requires d < |s| && s[d] == '.'
    ensures s == s[..d] + ("." + s[d + 1..])
  {
  }

  /** A numeral is digits, possibly with a point and a fraction. */
  lemma NumeralParts(number: string)
    requires IsNumeral(number)
    ensures var d := DigitRun(number);
            && 0 < d
            && (d < |number| ==> number == number[..d] + ("." + number[d + 1..]) && AllDigits(number[d + 1..]))
  {
    var d := DigitRun(number);
    if d < |number| {
      CutAtPoint(number, d);
      AllDigitsWhenRun(number[d + 1..]);
    }
  }

  lemma AllDigitsWhenRun(s: string)
    requires DigitRun(s) == |s|
    ensures AllDigits(s)
  {
    assert s[..|s|] == s;
  }

  lemma NumeralEnds(number: string, after: string)
    requires IsNumeral(number) && (after != "" ==> !IsDigit(after[0]) && after[0] != '.')
    ensures NumberLength(number + after) == |number|
  {
    var d := DigitRun(number);
    NumeralParts(number);
    if d == |number| {
      DigitsThenOther(number, after);
    } else {
      var digits, fraction := number[..d], number[d + 1..];
      FractionEnds(digits, fraction, after);
      Associative(digits, "." + fraction, after);
      Associative(".", fraction, after);
    }
  }

  lemma NumeralStartsWithDigit(number: string)
    requires IsNumeral(number)
    ensures IsDigit(number[0])
  {
  }

  lemma DigitIsNotSpace(c: char)
    requires IsDigit(c)
    ensures !IsSpace(c) && c != 'T'
  {
  }

  lemma UnitStart(k: nat, unit: string)
    requires IsUnit(k, unit)
    ensures !IsDigit(unit[0]) && unit[0] != '.' && !IsSpace(unit[0])
  {
  }

  /** No component takes the unit of a later one in the same part, except that minutes take the m of "ms". */
  lemma UnitsDiffer(k: nat, j: nat, unit: string, after: string)
    requires k < j < END && (j < TIME || TIME <= k) && IsUnit(j, unit)
    ensures UnitLength(k, unit + after) == if k == 5 && j == 7 then 1 else 0
  {
  }

  lemma BodyParts(c: Component, after: string)
    requires c.Spelled?
    ensures Body(c) + after == c.number + (c.unit + after)
    ensures ComponentText(c) + after == c.space + (Body(c) + after)
  {
    assert c.number + c.unit + after == c.number + (c.unit + after);
    assert c.space + c.number + c.unit + after == c.space + (c.number + c.unit + after);
  }

  /** What stands at a number with a unit. */
  lemma NumberThenUnit(k: nat, number: string, rest: string)
    requires IsNumeral(number) && rest != "" && !IsDigit(rest[0]) && rest[0] != '.'
    ensures var s := number + rest;
            && Start(k, s) == s
            && FrontOf(k, s) == if UnitLength(k, rest) > 0 then Present(number, rest[UnitLength(k, rest)..]) else Absent
  {
    var s := number + rest;
    NumeralStartsWithDigit(number);
    DigitIsNotSpace(s[0]);
    NumeralEnds(number, rest);
    assert s[..|number|] == number;
    assert s[|number|..] == rest;
    var u := UnitLength(k, rest);
    assert s[|number| + u..] == rest[u..];
  }

  /** A spelled component is taken at its place. */
  lemma TakesComponent(k: nat, c: Component, after: string)
    requires IsComponent(k, c) && c.Spelled?
    ensures Start(k, Body(c) + after) == Body(c) + after
    ensures FrontOf(k, Body(c) + after) == Present(c.number, after)
  {
    BodyParts(c, after);
    UnitStart(k, c.unit);
    NumberThenUnit(k, c.number, c.unit + after);
    assert (c.unit + after)[|c.unit|..] == after;
  }

  /** A later component is not taken, except that minutes take the m of "ms". */
  lemma PassesComponent(k: nat, j: nat, c: Component, after: string)
    requires k < j < END && (j < TIME || TIME <= k) && IsComponent(j, c) && c.Spelled?
    ensures Start(k, Body(c) + after) == Body(c) + after
    ensures FrontOf(k, Body(c) + after) == if k == 5 && j == 7 then Present(c.number, "s" + after) else Absent
  {
    BodyParts(c, after);
    UnitStart(j, c.unit);
    UnitsDiffer(k, j, c.unit, after);
    NumberThenUnit(k, c.number, c.unit + after);
    if k == 5 && j == 7 {
      SecondLetter(c.unit, after);
    }
  }

  lemma SecondLetter(unit: string, after: string)
    requires IsUnit(7, unit)
    ensures (unit + after)[1..] == "s" + after
  {
    assert |unit| == 2 && unit[1] == 's';
  }

  /** Nothing starts with something strange. */
  lemma NothingTaken(k: nat, s: string)
    requires s != "" ==> !IsSpace(s[0]) && !IsDigit(s[0]) && (k == TIME ==> s[0] != 'T')
    ensures Start(k, s) == s && FrontOf(k, s) == Absent
  {
  }

  // ---- Steps of the match

  lemma SkipStep(k: nat, s: string, t: string)
    requires k < END && Start(k, s) == t
    requires IsFutile(k, FrontOf(k, t))
    ensures MatchFrom(Duration(), k, s) == Prepend(NoWord, MatchFrom(Duration(), k + 1, t))
  {
  }

  /** A component is not taken, and what is left is the same for the next one. */
  predicate IsSkipped(k: nat, text: string)
    requires k < END
  {
    MatchFrom(Duration(), k, text) == Prepend(NoWord, MatchFrom(Duration(), k + 1, text))
  }

  lemma TakeStep(k: nat, s: string, t: string, number: string, after: string)
    requires k < END && Start(k, s) == t && FrontOf(k, t) == Present(number, after)
    requires MatchFrom(Duration(), k + 1, after).Groups?
    ensures MatchFrom(Duration(), k, s) == Prepend(Word(number), MatchFrom(Duration(), k + 1, after))
  {
  }

  lemma SameStart(k: nat, s: string, t: string)
    requires k < END && Start(k, s) == Start(k, t)
    ensures MatchFrom(Duration(), k, s) == MatchFrom(Duration(), k, t)
  {
  }

  /** A text that starts with something strange does not match. */
  lemma {:induction false} Stuck(k: nat, s: string)
    requires TIME <= k <= END && s != "" && !IsSpace(s[0]) && !IsDigit(s[0]) && (k == TIME ==> s[0] != 'T')
    ensures MatchFrom(Duration(), k, s) == NoMatch
    decreases END - k
  {
    if k < END {
      NothingTaken(k, s);
      SkipStep(k, s, s);
      Stuck(k + 1, s);
    } else {
      assert IsSpace('\n');
    }
  }

  /** The first component that is spelled, from one on. */
  function First(cs: seq<Component>, k: nat): (j: nat)
    requires k <= END == |cs|
    ensures k <= j <= END && (j < END ==> cs[j].Spelled?)
    decreases END - k
  {
    if k == END || cs[k].Spelled? then k else First(cs, k + 1)
  }

  function TextFrom(cs: seq<Component>, j: nat): string
    requires j <= END == |cs| && (j < END ==> cs[j].Spelled?)
  {
    if j == END then "" else cs[j].space + (Body(cs[j]) + TimeText(cs, j + 1))
  }

  lemma SpelledText(cs: seq<Component>, k: nat)
    requires k < END == |cs| && cs[k].Spelled?
    ensures TimeText(cs, k) == TextFrom(cs, k)
  {
    BodyParts(cs[k], TimeText(cs, k + 1));
  }

  lemma {:induction false} TimeTextFromFirst(cs: seq<Component>, k: nat)
    requires k <= END == |cs|
    ensures TimeText(cs, k) == TextFrom(cs, First(cs, k))
    decreases END - k
  {
    if k == END {
    } else if cs[k].Spelled? {
      SpelledText(cs, k);
    } else {
      TimeTextFromFirst(cs, k + 1);
      OmittedHasNoText(cs, k);
    }
  }

  /** Nothing can be taken for a component, or only what leads nowhere. */
  predicate IsFutile(k: nat, front: Front)
    requires k < END
  {
    front.Present? ==> MatchFrom(Duration(), k + 1, front.after) == NoMatch
  }

  /** Taking the m of "ms" for minutes leads nowhere. */
  lemma MinutesAreFutile(number: string, after: string)
    ensures IsFutile(5, Present(number, "s" + after))
  {
    Stuck(6, "s" + after);
  }

  lemma StartsAtBody(k: nat, c: Component, after: string)
    requires (exists j :: IsComponent(j, c)) && c.Spelled?
    ensures Start(k, c.space + (Body(c) + after)) == Body(c) + after
    ensures Start(k, Body(c) + after) == Body(c) + after
  {
    StartAfterSpace(k, c.space, Body(c) + after);
    BodyParts(c, after);
    NumeralStartsWithDigit(c.number);
    DigitIsNotSpace((Body(c) + after)[0]);
  }

  lemma SkipTo(k: nat, s: string, t: string)
    requires k + 1 < END && Start(k, s) == t && Start(k + 1, s) == Start(k + 1, t) && IsFutile(k, FrontOf(k, t))
    ensures IsSkipped(k, s)
  {
    SkipStep(k, s, t);
    SameStart(k + 1, s, t);
  }

  /** Where a component is omitted, it is skipped. */
  lemma SkipsOmitted(k: nat, j: nat, c: Component, after: string)
    requires k < j < END && (j < TIME || TIME <= k) && IsComponent(j, c) && c.Spelled?
    ensures IsSkipped(k, c.space + (Body(c) + after))
  {
    var t := Body(c) + after;
    StartsAtBody(k, c, after);
    StartsAtBody(k + 1, c, after);
    PassesComponent(k, j, c, after);
    MinutesAreFutile(c.number, after);
    SkipTo(k, c.space + t, t);
  }

  lemma SkipsSpelled(k: nat, j: nat, c: Component, after: string, text: string)
    requires k < j < END && (j < TIME || TIME <= k) && IsComponent(j, c) && c.Spelled?
    requires text == ComponentText(c) + after
    ensures IsSkipped(k, text)
  {
    BodyParts(c, after);
    SkipsOmitted(k, j, c, after);
  }

  lemma MatchesSpelled(k: nat, c: Component, after: string, rest: seq<Word>)
    requires k < END && IsComponent(k, c) && c.Spelled? && MatchFrom(Duration(), k + 1, after) == Groups(rest)
    ensures MatchFrom(Duration(), k, ComponentText(c) + after) == Groups([WordOf(c)] + rest)
  {
    BodyParts(c, after);
    StartAfterSpace(k, c.space, Body(c) + after);
    TakesComponent(k, c, after);
    TakeStep(k, c.space + (Body(c) + after), Body(c) + after, c.number, after);
  }

  lemma Skips(k: nat, s: string)
    requires k < END
    requires s != "" ==> !IsSpace(s[0]) && !IsDigit(s[0]) && (k == TIME ==> s[0] != 'T')
    ensures IsSkipped(k, s)
  {
    NothingTaken(k, s);
    SkipStep(k, s, s);
  }

  lemma OmittedInTime(cs: seq<Component>, k: nat)
    requires Components(cs) && TIME <= k < END && cs[k].Omitted?
    ensures IsSkipped(k, TimeText(cs, k))
  {
    OmittedHasNoText(cs, k);
    TimeTextFromFirst(cs, k + 1);
    SkippedBefore(cs, k, First(cs, k + 1));
  }

  lemma SkippedBefore(cs: seq<Component>, k: nat, j: nat)
    requires Components(cs) && TIME <= k < j <= END && (j < END ==> cs[j].Spelled?)
    ensures IsSkipped(k, TextFrom(cs, j))
  {
    if j == END {
      Skips(k, "");
    } else {
      SkipsOmitted(k, j, cs[j], TimeText(cs, j + 1));
    }
  }

  lemma OmittedHasNoText(cs: seq<Component>, k: nat)
    requires |cs| == END && k < END && cs[k].Omitted?
    ensures k < TIME ==> DateText(cs, k) == DateText(cs, k + 1)
    ensures TimeText(cs, k) == TimeText(cs, k + 1)
  {
  }

  /** The words from a component on are those of a match of some text. */
  predicate MatchesFrom(cs: seq<Component>, k: nat, text: string)
    requires k <= END == |cs|
  {
    MatchFrom(Duration(), k, text) == Groups(WordsFrom(cs, k))
  }

  lemma SpelledExtends(cs: seq<Component>, k: nat, after: string)
    requires k < END == |cs| && IsComponent(k, cs[k]) && cs[k].Spelled? && MatchesFrom(cs, k + 1, after)
    ensures MatchesFrom(cs, k, ComponentText(cs[k]) + after)
  {
    MatchesSpelled(k, cs[k], after, WordsFrom(cs, k + 1));
  }

  lemma OmittedExtends(cs: seq<Component>, k: nat, text: string)
    requires k < END == |cs| && cs[k].Omitted? && MatchesFrom(cs, k + 1, text)
    requires IsSkipped(k, text)
    ensures MatchesFrom(cs, k, text)
  {
  }

  lemma TimeExtends(cs: seq<Component>, k: nat)
    requires Components(cs) && TIME <= k < END && MatchesFrom(cs, k + 1, TimeText(cs, k + 1))
    ensures MatchesFrom(cs, k, TimeText(cs, k))
  {
    if cs[k].Spelled? {
      SpelledExtends(cs, k, TimeText(cs, k + 1));
    } else {
      OmittedHasNoText(cs, k);
      OmittedInTime(cs, k);
      OmittedExtends(cs, k, TimeText(cs, k));
    }
  }

  /** The components of a time are found. */
  lemma {:induction false} TimeMatches(cs: seq<Component>, k: nat)
    requires Components(cs) && TIME <= k <= END
    ensures MatchesFrom(cs, k, TimeText(cs, k))
    decreases END - k
  {
    if k < END {
      TimeMatches(cs, k + 1);
      TimeExtends(cs, k);
    }
  }

  lemma StartAfterT(s: string)
    requires DropSpace(s) != "" ==> DropSpace(s)[0] != 'T'
    ensures Start(TIME, "T" + s) == Start(TIME, s)
  {
    assert SpaceRun("T" + s) == 0;
    assert ("T" + s)[1..] == s;
  }

  lemma ComponentAfterSpace(c: Component, after: string)
    requires (exists j :: IsComponent(j, c)) && c.Spelled?
    ensures var t := DropSpace(c.space + (Body(c) + after));
            t != "" && IsDigit(t[0])
  {
    BodyParts(c, after);
    NumeralStartsWithDigit(c.number);
    DropSpaceTwice(c.space, Body(c) + after);
  }

  /** After a T the time starts where it does without it. */
  lemma TimeStartsAfterT(cs: seq<Component>)
    requires Components(cs)
    ensures Start(TIME, "T" + TimeText(cs, TIME)) == Start(TIME, TimeText(cs, TIME))
  {
    var j := First(cs, TIME);
    TimeTextFromFirst(cs, TIME);
    if j < END {
      ComponentAfterSpace(cs[j], TimeText(cs, j + 1));
    }
    StartAfterT(TimeText(cs, TIME));
  }

  lemma {:induction false} NoTimeText(cs: seq<Component>, k: nat)
    requires TIME <= k <= END == |cs| && !HasTime(cs)
    ensures TimeText(cs, k) == ""
    decreases END - k
  {
    if k < END {
      NoTimeText(cs, k + 1);
    }
  }

  lemma OmittedBeforeTime(cs: seq<Component>, i: nat)
    requires |cs| == END && i < TIME
    ensures IsSkipped(i, DateText(cs, TIME))
  {
    Skips(i, DateText(cs, TIME));
  }

  lemma OmittedBeforeSpelled(cs: seq<Component>, i: nat, k: nat)
    requires Components(cs) && i < k < TIME && cs[k].Spelled?
    ensures IsSkipped(i, DateText(cs, k))
  {
    SkipsSpelled(i, k, cs[k], DateText(cs, k + 1), DateText(cs, k));
  }

  /** The text of a date is that from the first component on that is spelled, or from the time on. */
  lemma {:induction false} DateTextFromFirst(cs: seq<Component>, k: nat) returns (j: nat)
    requires |cs| == END && k <= TIME
    ensures k <= j <= TIME && (j < TIME ==> cs[j].Spelled?) && DateText(cs, k) == DateText(cs, j)
    decreases TIME - k
  {
    j := k;
    if k < TIME && cs[k].Omitted? {
      OmittedHasNoText(cs, k);
      j := DateTextFromFirst(cs, k + 1);
    }
  }

  /** A component of a date that is omitted is skipped, whatever follows. */
  lemma OmittedInDate(cs: seq<Component>, i: nat)
    requires Components(cs) && i < TIME && cs[i].Omitted?
    ensures IsSkipped(i, DateText(cs, i))
  {
    OmittedHasNoText(cs, i);
    var j := DateTextFromFirst(cs, i + 1);
    if j == TIME {
      OmittedBeforeTime(cs, i);
    } else {
      OmittedBeforeSpelled(cs, i, j);
    }
  }

  lemma TimeAfterDateMatches(cs: seq<Component>)
    requires Components(cs)
    ensures MatchesFrom(cs, TIME, DateText(cs, TIME))
  {
    TimeMatches(cs, TIME);
    if HasTime(cs) {
      TimeStartsAfterT(cs);
      SameStart(TIME, "T" + TimeText(cs, TIME), TimeText(cs, TIME));
    } else {
      NoTimeText(cs, TIME);
    }
  }

  lemma DateExtends(cs: seq<Component>, k: nat)
    requires Components(cs) && k < TIME && MatchesFrom(cs, k + 1, DateText(cs, k + 1))
    ensures MatchesFrom(cs, k, DateText(cs, k))
  {
    if cs[k].Spelled? {
      SpelledExtends(cs, k, DateText(cs, k + 1));
    } else {
      OmittedHasNoText(cs, k);
      OmittedInDate(cs, k);
      OmittedExtends(cs, k, DateText(cs, k));
    }
  }

  /** The components of a date, and of the time after it, are found. */
  lemma {:induction false} DateMatches(cs: seq<Component>, k: nat)
    requires Components(cs) && k <= TIME
    ensures MatchesFrom(cs, k, DateText(cs, k))
    decreases TIME - k
  {
    if k == TIME {
      TimeAfterDateMatches(cs);
    } else {
      DateMatches(cs, k + 1);
      DateExtends(cs, k);
    }
  }

  // ---- The value of such texts

  predicate IsSign(sign: string) {
    sign == "" || sign == "+" || sign == "-"
  }

  function Signed(sign: string, value: real): real {
    if sign == "-" then -value else value
  }

  /** The value of the components, as long as there are any. */
  function Value(sign: string, cs: seq<Component>): Interval
    requires |cs| == END
  {
    if forall k :: 0 <= k < END ==> cs[k].Omitted? then Invalid
    else Seconds(Signed(sign, Total(WordsFrom(cs, 0), END) + LeapDays(WordOf(cs[0]))))
  }

  predicate AreWordsOf(words: seq<Word>, cs: seq<Component>) {
    |words| == |cs| == END && forall k :: 0 <= k < END ==> words[k] == WordOf(cs[k])
  }

  lemma NoWordsIffOmitted(words: seq<Word>, cs: seq<Component>)
    requires AreWordsOf(words, cs)
    ensures (forall k :: 0 <= k < END ==> words[k].NoWord?) <==> (forall k :: 0 <= k < END ==> cs[k].Omitted?)
  {
    assert forall k :: 0 <= k < END ==> (words[k].NoWord? <==> cs[k].Omitted?);
  }

  lemma AllWords(cs: seq<Component>)
    requires |cs| == END
    ensures AreWordsOf(WordsFrom(cs, 0), cs)
  {
    var words := WordsFrom(cs, 0);
    forall k | 0 <= k < END
      ensures words[k] == WordOf(cs[k])
    {
      assert words[k] == WordOf(cs[0 + k]);
    }
  }

  lemma MatchedValue(sign: string, cs: seq<Component>)
    requires |cs| == END && IsSign(sign)
    ensures IntervalOf(sign == "-", Groups(WordsFrom(cs, 0))) == Value(sign, cs)
  {
    AllWords(cs);
    NoWordsIffOmitted(WordsFrom(cs, 0), cs);
  }

  lemma SignIsSplitOff(sign: string, s: string)
    requires IsSign(sign) && (s != "" ==> s[0] != '+' && s[0] != '-')
    ensures Unsigned(sign + s) == s && (IsNegative(sign + s) <==> sign == "-")
  {
  }

  lemma DateIsMatched(sign: string, date: string)
    requires IsSign(sign)
    ensures MatchAll(sign + ("P" + date)) == MatchFrom(Duration(), 0, date)
    ensures IsNegative(sign + ("P" + date)) <==> sign == "-"
  {
    SignIsSplitOff(sign, "P" + date);
    assert ("P" + date)[1..] == date;
  }

  function WithoutDate(m: Match): Match {
    if m.Groups? then Groups([NoWord, NoWord, NoWord, NoWord] + m.words) else NoMatch
  }

  lemma TimeIsMatched(sign: string, time: string)
    requires IsSign(sign) && (time != "" ==> time[0] != 'P' && time[0] != '+' && time[0] != '-')
    ensures MatchAll(sign + time) == WithoutDate(MatchFrom(Duration(), TIME, time))
    ensures IsNegative(sign + time) <==> sign == "-"
  {
    SignIsSplitOff(sign, time);
  }

  /**
   A sign, and after a P any selection of dates and times in order, each with its number and unit, is the sum of
   its components.
   */
  lemma DateTextHasValue(sign: string, cs: seq<Component>)
    requires Components(cs) && IsSign(sign)
    ensures FromString(sign + ("P" + DateText(cs, 0))) == Value(sign, cs)
  {
    DateIsMatched(sign, DateText(cs, 0));
    DateMatches(cs, 0);
    MatchedValue(sign, cs);
  }

  /** Without a P it is the same for times alone. */
  lemma TimeTextHasValue(sign: string, cs: seq<Component>)
    requires Components(cs) && IsSign(sign)
    requires forall k :: 0 <= k < TIME ==> cs[k].Omitted?
    ensures FromString(sign + TimeText(cs, TIME)) == Value(sign, cs)
  {
    TimeTextStart(cs);
    TimeIsMatched(sign, TimeText(cs, TIME));
    TimeMatches(cs, TIME);
    NoDateWords(cs);
    MatchedValue(sign, cs);
  }

  lemma NoDateWords(cs: seq<Component>)
    requires |cs| == END && forall k :: 0 <= k < TIME ==> cs[k].Omitted?
    ensures WordsFrom(cs, 0) == [NoWord, NoWord, NoWord, NoWord] + WordsFrom(cs, TIME)
  {
  }

  lemma TimeTextStart(cs: seq<Component>)
    requires Components(cs)
    ensures var s := TimeText(cs, TIME);
            s != "" ==> s[0] != 'P' && s[0] != '+' && s[0] != '-'
  {
    TimeTextFromFirst(cs, TIME);
    var j := First(cs, TIME);
    if j < END {
      var c, after := cs[j], TimeText(cs, j + 1);
      BodyParts(c, after);
      NumeralStartsWithDigit(c.number);
      SpaceThenDigit(c.space, Body(c) + after);
    }
  }

  lemma SpaceThenDigit(space: string, rest: string)
    requires AllSpace(space) && rest != "" && IsDigit(rest[0])
    ensures var s := space + rest;
            s != "" && s[0] != 'P' && s[0] != '+' && s[0] != '-'
  {
    if space != "" {
      assert IsSpace(space[0]);
    }
  }

  /** A date is not recognized without a P. */
  lemma DateNeedsP(sign: string, number: string, unit: string, after: string)
    requires IsSign(sign) && IsNumeral(number) && (IsUnit(0, unit) || IsUnit(2, unit) || IsUnit(3, unit))
    ensures FromString(sign + (number + (unit + after))) == Invalid
  {
    var s := number + (unit + after);
    NumeralStartsWithDigit(number);
    TimeIsMatched(sign, s);
    NoTimeMatches(TIME, number, unit + after);
  }

  /** A letter that is the unit of a component of a date, and of none of a time. */
  predicate IsDateLetter(c: char) {
    c == 'y' || c == 'Y' || c == 'w' || c == 'W' || c == 'd' || c == 'D'
  }

  lemma DateLetter(k: nat, rest: string)
    requires TIME <= k && rest != "" && IsDateLetter(rest[0])
    ensures UnitLength(k, rest) == 0
  {
  }

  lemma NumberIsNoMatch(number: string, rest: string)
    requires IsNumeral(number)
    ensures MatchFrom(Duration(), END, number + rest) == NoMatch
  {
    NumeralStartsWithDigit(number);
    assert (number + rest)[0] == number[0] != '\n';
  }

  lemma {:induction false} NoTimeMatches(k: nat, number: string, rest: string)
    requires TIME <= k <= END && IsNumeral(number)
    requires rest != "" && IsDateLetter(rest[0])
    ensures MatchFrom(Duration(), k, number + rest) == NoMatch
    decreases END - k
  {
    var s := number + rest;
    if k < END {
      NumberThenUnit(k, number, rest);
      DateLetter(k, rest);
      NoTimeMatches(k + 1, number, rest);
      SkipStep(k, s, s);
    } else {
      NumberIsNoMatch(number, rest);
    }
  }
}
