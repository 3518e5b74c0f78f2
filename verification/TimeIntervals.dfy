/** The loops that print and parse durations. */
module TimeIntervals {
  import opened Decimals
  import opened Durations
  import P = DurationParser

  lemma AfterComponent(remainder: nat, divisions: seq<Division>, i: nat)
    requires Sized(divisions) && i < |divisions|
    ensures CountParts(remainder, divisions[i..])
         == CountPart(remainder, divisions[i]) + CountParts(Left(remainder, divisions[i]), divisions[i + 1..])
    ensures LeftAfter(remainder, divisions[i..]) == LeftAfter(Left(remainder, divisions[i]), divisions[i + 1..])
  {
    assert divisions[i..][1..] == divisions[i + 1..];
  }

  /** Appends a part for every division that fits, and returns what is left. */
  method AppendComponents(before: seq<string>, ns: nat, divisions: seq<Division>)
    returns (parts: seq<string>, remainder: nat)
    requires Sized(divisions)
    ensures parts == before + CountParts(ns, divisions) && remainder == LeftAfter(ns, divisions)
  {
    parts, remainder := before, ns;
    assert divisions[0..] == divisions;
    for i := 0 to |divisions|
      invariant parts + CountParts(remainder, divisions[i..]) == before + CountParts(ns, divisions)
      invariant LeftAfter(remainder, divisions[i..]) == LeftAfter(ns, divisions)
    {
      var d := divisions[i];
      AfterComponent(remainder, divisions, i);
      ghost var rest := CountParts(Left(remainder, d), divisions[i + 1..]);
      assert parts + (CountPart(remainder, d) + rest) == parts + CountPart(remainder, d) + rest;
      if d.suffix != "" && remainder >= d.size {
        var count := remainder / d.size;
        parts := parts + [Decimal(count) + d.suffix];
        remainder := remainder % d.size;
      } else {
        assert parts + [] == parts;
      }
    }
    assert parts + [] == parts;
  }

  /** The seconds, with decimals in threes as needed. */
  method SecondsString(ns: nat) returns (s: string)
    ensures s == SecondsText(ns)
  {
    s := Fixed9(ns);
    while |s| >= 3 && s[|s| - 3..] == "000"
      invariant StripThousands(s) == StripThousands(Fixed9(ns))
    {
      s := s[..|s| - 3];
    }
    s := StripPoint(s);
  }

  /** Prints a duration as a date, a separator if there is a time or no date, a time, and seconds. */
  method ToString(f: Format, x: int) returns (s: string)
    ensures s == Text(f, x)
  {
    var remainder := Shortened(if x >= 0 then x else -x);
    var ns := remainder;
    var parts: seq<string>;
    parts, remainder := AppendComponents([], remainder, DateDivisions(f));
    assert [] + CountParts(ns, DateDivisions(f)) == CountParts(ns, DateDivisions(f));
    ghost var date := parts;
    if f.dateTimeSeparator != "" && (remainder != 0 || parts == []) {
      parts := parts + [f.dateTimeSeparator];
    } else {
      assert parts + [] == parts;
    }
    assert parts == date + SeparatorPart(f.dateTimeSeparator, date, remainder);
    parts, remainder := AppendComponents(parts, remainder, TimeDivisions(f));
    if f.seconds != "" && (remainder != 0 || parts == []) {
      var seconds := SecondsString(remainder);
      parts := parts + [seconds + f.seconds];
    } else {
      assert parts + [] == parts;
    }
    s := SignOf(f, x) + f.preamble + Join(f.componentSeparator, parts);
  }

  method SumComponents(words: seq<P.Word>) returns (interval: real, hit: bool)
    requires |words| == P.END
    ensures interval == P.Total(words, P.END)
    ensures hit <==> !(forall k :: 0 <= k < P.END ==> words[k].NoWord?)
  {
    interval, hit := 0.0, false;
    for k := 0 to P.END
      invariant interval == P.Total(words, k)
      invariant hit <==> !(forall i :: 0 <= i < k ==> words[i].NoWord?)
    {
      var word := words[k];
      assert P.Total(words, k + 1) == P.Total(words, k) + P.Contribution(k, word);
      if word.Word? {
        interval := interval + P.Factor(k) * P.NumberValue(word.text);
        hit := true;
      }
    }
  }

  method Evaluate(negative: bool, m: P.Match) returns (r: P.Interval)
    requires m.Groups? ==> |m.words| == P.END
    ensures r == P.IntervalOf(negative, m)
  {
    if m.NoMatch? {
      return P.Invalid;
    }
    var interval, hit := SumComponents(m.words);
    if m.words[0].Word? {
      interval := interval + P.LeapDays(m.words[0]);
    }
    if negative {
      interval := -interval;
    }
    r := if hit then P.Seconds(interval) else P.Invalid;
  }

  /** Parses a duration: the sum of its components, or an error if it has none. */
  method FromString(input: string) returns (r: P.Interval)
    ensures r == P.FromString(input)
  {
    var m := P.MatchAll(input);
    r := Evaluate(P.IsNegative(input), m);
  }
}
