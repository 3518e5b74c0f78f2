/** The expansion of a text with placeholders, read from the front. */
module Expansion {
  import opened Options
  import opened ExpanderSyntax

  /** A subexpression that is evaluated: its opening bracket, and its contents once expanded. */
  datatype Call = Call(open: char, argument: string)

  datatype Evaluation = Value(text: string) | NoValue | Failure

  /** Evaluates the last of the calls made so far; the others are its history, on which it may depend. */
  type Evaluator = seq<Call> -> Evaluation

  datatype Problem =
    | EndOfInput
    | MissingCloser
    | WrongCloser
    | EvaluationFailed
    | UnsupportedEscape

  /** The unread part of the current line, and the unread lines of the stream. */
  datatype Source = Source(rest: string, lines: seq<string>)

  datatype Result =
    | Done(value: string, source: Source, closer: Option<char>, calls: seq<Call>)
    | Failed(problem: Problem, calls: seq<Call>)

  /** Unread lines count first, then the rest of the current one. */
  predicate NotAfter(s: Source, t: Source) {
    |s.lines| < |t.lines| || (|s.lines| == |t.lines| && |s.rest| <= |t.rest|)
  }

  predicate Before(s: Source, t: Source) {
    |s.lines| < |t.lines| || (|s.lines| == |t.lines| && |s.rest| < |t.rest|)
  }

  function Prefixed(prefix: string, r: Result): Result {
    match r
    case Done(value, _, _, _) => r.(value := prefix + value)
    case Failed(_, _) => r
  }

  function WithPrefix(prefix: string, s: Source): Source {
    s.(rest := prefix + s.rest)
  }

  lemma PrefixedTwice(a: string, b: string, r: Result)
    ensures Prefixed(a, Prefixed(b, r)) == Prefixed(a + b, r)
  {
    if r.Done? {
      assert a + (b + r.value) == a + b + r.value;
    }
  }

  lemma PrefixedNothing(r: Result)
    ensures Prefixed("", r) == r
  {
    if r.Done? {
      assert "" + r.value == r.value;
    }
  }

  datatype Escaped = Yields(text: string, source: Source) | Crashes(problem: Problem)

  /** Reads the next line of the stream. */
  function ReadLine(lines: seq<string>): Escaped {
    if lines == [] || lines[0] == "" then Crashes(EndOfInput) else Yields("", Source(lines[0], lines[1..]))
  }

  /** What a backslash does; `s` starts after it. */
  function Backslash(s: Source): (r: Escaped)
    ensures r.Yields? ==> NotAfter(r.source, s)
  {
    var lineEnd := LineEnd(s.rest);
    if lineEnd == Some(|s.rest|) then ReadLine(s.lines)
    else if lineEnd.Some? then Yields("", s.(rest := s.rest[lineEnd.value..]))
    else if s.rest == "" then Crashes(EndOfInput)
    else
      match Unescape(s.rest)
      case Stands(c, length) => Yields([c], s.(rest := s.rest[length..]))
      case Unsupported => Crashes(UnsupportedEscape)
  }

  /** What replaces a subexpression, unless its evaluation fails. */
  function Replacement(e: Evaluation): Option<string> {
    match e
    case Value(text) => Some(text)
    case NoValue => Some("")
    case Failure => None
  }

  /** What is done with the front of the text. */
  datatype Move =
    | Finish
    | Close(closer: char, source: Source)
    | Emit(text: string, source: Source)
    | Open(open: char, evaluated: bool, source: Source)
    | Crash(problem: Problem)

  function NextMove(nested: bool, s: Source): (m: Move)
    ensures m.Close? || m.Emit? || m.Open? ==> Before(m.source, s)
    ensures m.Open? ==> IsOpener(m.open)
    ensures m.Close? ==> nested && IsCloser(m.closer)
  {
    if s.rest == "" then Finish
    else
      var after := s.(rest := s.rest[1..]);
      match TokenAt(s.rest, nested)
      case Plain => Emit([s.rest[0]], after)
      case End(close) => Close(close, after)
      case Escape =>
        (match Backslash(after)
         case Yields(text, source) => Emit(text, source)
         case Crashes(problem) => Crash(problem))
      case Subexpression(open) => Open(open, true, s.(rest := s.rest[2..]))
      case Nested(open) => Open(open, false, after)
  }

  /** Evaluates a subexpression whose contents have been expanded. */
  function Evaluate(eval: Evaluator, open: char, contents: Result): (r: Result)
    ensures r.Done? ==> contents.Done? && r.source == contents.source
  {
    match contents
    case Failed(_, _) => contents
    case Done(argument, source, closer, calls) =>
      if closer == None then Failed(MissingCloser, calls)
      else if closer.value != CloserOf(open) then Failed(WrongCloser, calls)
      else
        var made := calls + [Call(open, argument)];
        match Replacement(eval(made))
        case Some(text) => Done(text, source, None, made)
        case None => Failed(EvaluationFailed, made)
  }

  /** A bracketed group keeps its brackets; any closing bracket ends it, and so does the end of the text. */
  function Grouped(open: char, contents: Result): (r: Result)
    ensures r.Done? ==> contents.Done? && r.source == contents.source
  {
    match contents
    case Failed(_, _) => contents
    case Done(value, source, closer, calls) =>
      Done([open] + value + (if closer.Some? then [closer.value] else ""), source, None, calls)
  }

  function Bracketed(eval: Evaluator, open: char, evaluated: bool, contents: Result): (r: Result)
    ensures r.Done? ==> contents.Done? && r.source == contents.source
  {
    if evaluated then Evaluate(eval, open, contents) else Grouped(open, contents)
  }

  /** Expands up to the end of the text, or up to a closing bracket inside brackets. */
  function Expand(eval: Evaluator, nested: bool, s: Source, calls: seq<Call>): (r: Result)
    ensures r.Done? ==> NotAfter(r.source, s)
    decreases |s.lines|, |s.rest|
  {
    match NextMove(nested, s)
    case Finish => Done("", s, None, calls)
    case Close(closer, t) => Done("", t, Some(closer), calls)
    case Emit(text, t) => Prefixed(text, Expand(eval, nested, t, calls))
    case Crash(problem) => Failed(problem, calls)
    case Open(open, evaluated, t) =>
      var part := Bracketed(eval, open, evaluated, Expand(eval, true, t, calls));
      if part.Failed? then part
      else Prefixed(part.value, Expand(eval, nested, part.source, part.calls))
  }

  datatype Input = Text(text: string) | Stream(lines: seq<string>) | Nothing

  datatype Substitution = Substituted(value: string, calls: seq<Call>) | Raised(problem: Problem, calls: seq<Call>)

  function Outcome(r: Result): Substitution {
    match r
    case Done(value, _, _, calls) => Substituted(value, calls)
    case Failed(problem, calls) => Raised(problem, calls)
  }

  /** Expands a text, or the first line of a stream with the lines that continue it. */
  function Substitute(eval: Evaluator, input: Input): Substitution {
    match input
    case Text(text) => Outcome(Expand(eval, false, Source(text, []), []))
    case Nothing => Outcome(Expand(eval, false, Source("", []), []))
    case Stream(lines) =>
      match ReadLine(lines)
      case Yields(_, source) => Outcome(Expand(eval, false, source, []))
      case Crashes(problem) => Raised(problem, [])
  }

  /** At the top level closing brackets are text, so expansion reads up to the end. */
  lemma {:induction false} TopLevelReadsAll(eval: Evaluator, s: Source, calls: seq<Call>)
    ensures var r := Expand(eval, false, s, calls);
            r.Done? ==> r.closer == None && r.source.rest == ""
    decreases |s.lines|, |s.rest|
  {
    match NextMove(false, s)
    case Finish =>
    case Emit(_, t) => TopLevelReadsAll(eval, t, calls);
    case Crash(_) =>
    case Open(open, evaluated, t) =>
      var part := Bracketed(eval, open, evaluated, Expand(eval, true, t, calls));
      if part.Done? {
        TopLevelReadsAll(eval, part.source, part.calls);
      }
  }
}
