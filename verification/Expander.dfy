/**
 The expander itself: it scans a text for tokens with a position that moves forward, and appends lines read from
 a stream to the text.  It is proved to compute the expansion that is read from the front.
 */
module Expander {
  import opened Options
  import opened ExpanderSyntax
  import opened Expansion

  datatype Parsed =
    | Parsed(value: string, text: string, pos: nat, lines: seq<string>, endToken: Option<char>, calls: seq<Call>)
    | Error(problem: Problem, calls: seq<Call>)

  function SourceAt(text: string, pos: nat, lines: seq<string>): Source
    requires pos <= |text|
  {
    Source(text[pos..], lines)
  }

  predicate InText(p: Parsed) {
    p.Parsed? ==> p.pos <= |p.text|
  }

  function ResultOf(p: Parsed): Result
    requires InText(p)
  {
    match p
    case Parsed(value, text, pos, lines, endToken, calls) => Done(value, SourceAt(text, pos, lines), endToken, calls)
    case Error(problem, calls) => Failed(problem, calls)
  }

  /** Where the next token begins, or the end of the text. */
  function Search(text: string, pos: nat, nested: bool): (start: nat)
    requires pos <= |text|
    ensures pos <= start <= |text|
    ensures start < |text| ==> TokenAt(text[start..], nested) != Plain
    ensures forall i :: pos <= i < start ==> TokenAt(text[i..], nested) == Plain
    decreases |text| - pos
  {
    if pos == |text| || TokenAt(text[pos..], nested) != Plain then pos else Search(text, pos + 1, nested)
  }

  function TokenLength(token: Token): nat {
    if token.Subexpression? then 2 else 1
  }

  lemma PlainStep(eval: Evaluator, nested: bool, text: string, pos: nat, lines: seq<string>, calls: seq<Call>)
    requires pos < |text| && TokenAt(text[pos..], nested) == Plain
    ensures Expand(eval, nested, SourceAt(text, pos, lines), calls)
         == Prefixed([text[pos]], Expand(eval, nested, SourceAt(text, pos + 1, lines), calls))
  {
    assert text[pos..][1..] == text[pos + 1..];
    assert NextMove(nested, SourceAt(text, pos, lines)) == Emit([text[pos]], SourceAt(text, pos + 1, lines));
  }

  lemma FirstOfSlice(text: string, pos: nat, end: nat)
    requires pos < end <= |text|
    ensures text[pos..end] == [text[pos]] + text[pos + 1..end]
  {
  }

  /** Text up to the next token expands to itself. */
  lemma {:induction false} IntroExpands(eval: Evaluator, nested: bool, text: string, pos: nat, start: nat,
                                        lines: seq<string>, calls: seq<Call>)
    requires pos <= start <= |text|
    requires forall i :: pos <= i < start ==> TokenAt(text[i..], nested) == Plain
    ensures Expand(eval, nested, SourceAt(text, pos, lines), calls)
         == Prefixed(text[pos..start], Expand(eval, nested, SourceAt(text, start, lines), calls))
    decreases start - pos
  {
    var after := Expand(eval, nested, SourceAt(text, start, lines), calls);
    if pos == start {
      PrefixedNothing(after);
    } else {
      PlainStep(eval, nested, text, pos, lines, calls);
      IntroExpands(eval, nested, text, pos + 1, start, lines, calls);
      PrefixedTwice([text[pos]], text[pos + 1..start], after);
      FirstOfSlice(text, pos, start);
    }
  }

  /** A backslash: it joins lines, reading another when the text ends, or stands for a character. */
  method ProcessBackslash(text: string, pos: nat, lines: seq<string>, calls: seq<Call>) returns (p: Parsed)
    requires pos <= |text|
    ensures InText(p)
    ensures var r := Backslash(SourceAt(text, pos, lines));
            ResultOf(p) == match r
                           case Yields(value, source) => Done(value, source, None, calls)
                           case Crashes(problem) => Failed(problem, calls)
  {
    var lineEnd := LineEnd(text[pos..]);
    if lineEnd.Some? {
      var end := pos + lineEnd.value;
      if end == |text| {
        if lines == [] || lines[0] == "" {
          p := Error(EndOfInput, calls);
        } else {
          p := Parsed("", text + lines[0], end, lines[1..], None, calls);
          assert (text + lines[0])[end..] == lines[0];
        }
      } else {
        p := Parsed("", text, end, lines, None, calls);
        assert text[pos..][lineEnd.value..] == text[end..];
      }
    } else {
      match Unescape(text[pos..])
      case Stands(c, length) =>
        p := Parsed([c], text, pos + length, lines, None, calls);
        assert text[pos..][length..] == text[pos + length..];
      case Unsupported =>
        p := Error(UnsupportedEscape, calls);
    }
  }

  /** Expands the contents of a subexpression, checks its closing bracket and evaluates it. */
  method ProcessSubexpression(eval: Evaluator, open: char, text: string, pos: nat, lines: seq<string>, calls: seq<Call>)
    returns (p: Parsed)
    requires pos <= |text| && IsOpener(open)
    ensures InText(p)
    ensures ResultOf(p) == Evaluate(eval, open, Expand(eval, true, SourceAt(text, pos, lines), calls))
    decreases |lines|, |text| - pos, 2
  {
    p := ExpandText(eval, true, text, pos, lines, calls);
    if p.Parsed? {
      if p.endToken.None? {
        p := Error(MissingCloser, p.calls);
      } else if p.endToken.value != CloserOf(open) {
        p := Error(WrongCloser, p.calls);
      } else {
        var made := p.calls + [Call(open, p.value)];
        match Replacement(eval(made))
        case Some(replacement) => p := Parsed(replacement, p.text, p.pos, p.lines, None, made);
        case None => p := Error(EvaluationFailed, made);
      }
    }
  }

  /** Expands the contents of a plain group, and puts its brackets around them. */
  method ProcessSubNested(eval: Evaluator, open: char, text: string, pos: nat, lines: seq<string>, calls: seq<Call>)
    returns (p: Parsed)
    requires pos <= |text| && IsOpener(open)
    ensures InText(p)
    ensures ResultOf(p) == Grouped(open, Expand(eval, true, SourceAt(text, pos, lines), calls))
    decreases |lines|, |text| - pos, 2
  {
    p := ExpandText(eval, true, text, pos, lines, calls);
    if p.Parsed? {
      var closing := if p.endToken.Some? then [p.endToken.value] else "";
      p := Parsed([open] + p.value + closing, p.text, p.pos, p.lines, None, p.calls);
    }
  }

  /** What a token other than a closing bracket is processed to, at the front of a text. */
  function Processed(eval: Evaluator, nested: bool, s: Source, calls: seq<Call>): (r: Result)
    ensures r.Done? ==> Before(r.source, s)
  {
    match NextMove(nested, s)
    case Emit(text, t) => Done(text, t, None, calls)
    case Open(open, evaluated, t) => Bracketed(eval, open, evaluated, Expand(eval, true, t, calls))
    case Crash(problem) => Failed(problem, calls)
    case Finish => Failed(EndOfInput, calls)
    case Close(_, _) => Failed(EndOfInput, calls)
  }

  lemma ProcessedStep(eval: Evaluator, nested: bool, s: Source, calls: seq<Call>)
    requires s.rest != "" && !TokenAt(s.rest, nested).End?
    ensures Expand(eval, nested, s, calls) ==
      var part := Processed(eval, nested, s, calls);
      if part.Failed? then part else Prefixed(part.value, Expand(eval, nested, part.source, part.calls))
  {
  }

  /** Processes the token at a position, unless it is a closing bracket. */
  method ProcessToken(eval: Evaluator, nested: bool, text: string, start: nat, lines: seq<string>, calls: seq<Call>)
    returns (p: Parsed)
    requires start < |text| && TokenAt(text[start..], nested) != Plain && !TokenAt(text[start..], nested).End?
    ensures InText(p)
    ensures ResultOf(p) == Processed(eval, nested, SourceAt(text, start, lines), calls)
    decreases |lines|, |text| - start, 0
  {
    var token := TokenAt(text[start..], nested);
    var pos := start + TokenLength(token);
    assert text[start..][TokenLength(token)..] == text[pos..];
    match token
    case Escape => p := ProcessBackslash(text, pos, lines, calls);
    case Subexpression(open) => p := ProcessSubexpression(eval, open, text, pos, lines, calls);
    case Nested(open) => p := ProcessSubNested(eval, open, text, pos, lines, calls);
  }

  /** A text that is expanded up to a position, in parts. */
  predicate Expanding(eval: Evaluator, nested: bool, whole: Result, parts: string, s: Source, calls: seq<Call>) {
    whole == Prefixed(parts, Expand(eval, nested, s, calls))
  }

  lemma ExpandingOn(eval: Evaluator, nested: bool, whole: Result, parts: string, s: Source, calls: seq<Call>,
                    value: string, t: Source, made: seq<Call>)
    requires Expanding(eval, nested, whole, parts, s, calls)
    requires Expand(eval, nested, s, calls) == Prefixed(value, Expand(eval, nested, t, made))
    ensures Expanding(eval, nested, whole, parts + value, t, made)
  {
    PrefixedTwice(parts, value, Expand(eval, nested, t, made));
  }

  lemma ExpandingDone(eval: Evaluator, nested: bool, whole: Result, parts: string, s: Source, calls: seq<Call>)
    requires Expanding(eval, nested, whole, parts, s, calls)
    ensures s.rest == "" ==> whole == Done(parts, s, None, calls)
    ensures NextMove(nested, s).Close? ==>
              whole == Done(parts, NextMove(nested, s).source, Some(NextMove(nested, s).closer), calls)
  {
    assert parts + "" == parts;
  }

  /** Expands a text from a position on, up to its end or to a closing bracket inside brackets. */
  method ExpandText(eval: Evaluator, nested: bool, input: string, begin: nat, unread: seq<string>, made: seq<Call>)
    returns (p: Parsed)
    requires begin <= |input|
    ensures InText(p)
    ensures ResultOf(p) == Expand(eval, nested, SourceAt(input, begin, unread), made)
    decreases |unread|, |input| - begin, 1
  {
    var text, pos: nat, lines, calls := input, begin, unread, made;
    var parts := "";
    ghost var first := SourceAt(input, begin, unread);
    ghost var whole := Expand(eval, nested, first, made);
    IntroExpands(eval, nested, text, pos, pos, lines, calls);
    while pos < |text|
      invariant pos <= |text|
      invariant NotAfter(SourceAt(text, pos, lines), first)
      invariant Expanding(eval, nested, whole, parts, SourceAt(text, pos, lines), calls)
      decreases |lines|, |text| - pos
    {
      var start := Search(text, pos, nested);
      IntroExpands(eval, nested, text, pos, start, lines, calls);
      ghost var from := SourceAt(text, start, lines);
      ExpandingOn(eval, nested, whole, parts, SourceAt(text, pos, lines), calls, text[pos..start], from, calls);
      parts := parts + text[pos..start];
      if start == |text| {
        pos := start;
        break;
      }
      var token := TokenAt(text[start..], nested);
      if token.End? {
        ExpandingDone(eval, nested, whole, parts, from, calls);
        assert text[start..][1..] == text[start + 1..];
        return Parsed(parts, text, start + 1, lines, Some(token.close), calls);
      }
      var part := ProcessToken(eval, nested, text, start, lines, calls);
      ProcessedStep(eval, nested, from, calls);
      if part.Error? {
        return part;
      }
      ghost var t := SourceAt(part.text, part.pos, part.lines);
      ExpandingOn(eval, nested, whole, parts, from, calls, part.value, t, part.calls);
      parts := parts + part.value;
      text, pos, lines, calls := part.text, part.pos, part.lines, part.calls;
    }
    ExpandingDone(eval, nested, whole, parts, SourceAt(text, pos, lines), calls);
    p := Parsed(parts, text, pos, lines, None, calls);
  }

  /** Expands a text, or the first line of a stream and the lines that continue it. */
  method Substitute(eval: Evaluator, input: Input) returns (r: Substitution)
    ensures r == Expansion.Substitute(eval, input)
  {
    var template, stream := "", [];
    match input {
      case Text(text) => template := text;
      case Nothing =>
      case Stream(lines) =>
        if lines == [] || lines[0] == "" {
          return Raised(EndOfInput, []);
        }
        template, stream := lines[0], lines[1..];
    }
    var p := ExpandText(eval, false, template, 0, stream, []);
    assert template[0..] == template;
    r := if p.Parsed? then Substituted(p.value, p.calls) else Raised(p.problem, p.calls);
  }
}
