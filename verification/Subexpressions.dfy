/**
 When subexpressions are evaluated: only after their own closing bracket was read, for all texts; and what comes of
 them when it is missing, or another one stands in its place.
 */
module Subexpressions {
  import opened Options
  import opened Collections
  import opened ExpanderSyntax
  import opened Expansion
  import opened Templates

  predicate AreMatching(open: char, close: char) {
    (open == '{' && close == '}') || (open == '[' && close == ']') || (open == '(' && close == ')')
  }

  // ---- Outcomes of a subexpression

  /** What expanding a subexpression gives when its contents are read, but not evaluated: the calls are theirs alone. */
  function Unevaluated(contents: Meaning, problem: Problem): Result {
    match contents
    case Means(_, made) => Failed(problem, made)
    case Fails(made) => Failed(EvaluationFailed, made)
  }

  /** A subexpression that ends in the closing bracket of another is not evaluated, and expansion fails. */
  lemma WrongCloserFails(eval: Evaluator, nested: bool, open: char, body: Template, close: char, rest: Source,
                         calls: seq<Call>)
    requires IsOpener(open) && EndsInside(body) && IsCloser(close) && !AreMatching(open, close)
    ensures Expand(eval, nested, WithPrefix(['$', open], Render(body, WithPrefix([close], rest))), calls) ==
            Unevaluated(Evaluated(eval, body, calls), WrongCloser)
  {
    SubStep(eval, nested, open, Render(body, WithPrefix([close], rest)), calls);
    ContentsExpand(eval, body, close, rest, calls);
  }

  /** So does one that the text ends in. */
  lemma MissingCloserFails(eval: Evaluator, nested: bool, open: char, body: Template, lines: seq<string>,
                           calls: seq<Call>)
    requires IsOpener(open) && WellFormed(body)
    ensures Expand(eval, nested, WithPrefix(['$', open], Render(body, Source("", lines))), calls) ==
            Unevaluated(Evaluated(eval, body, calls), MissingCloser)
  {
    SubStep(eval, nested, open, Render(body, Source("", lines)), calls);
    ExpansionEvaluatesTree(eval, true, body, Source("", lines), calls);
  }

  /** What a subexpression and the text after it expand to, given what its contents mean. */
  function Continued(eval: Evaluator, nested: bool, open: char, contents: Meaning, rest: Source): Result {
    match contents
    case Fails(calls) => Failed(EvaluationFailed, calls)
    case Means(argument, calls) =>
      var made := calls + [Call(open, argument)];
      match eval(made)
      case Value(text) => Prefixed(text, Expand(eval, nested, rest, made))
      case NoValue => Expand(eval, nested, rest, made)
      case Failure => Failed(EvaluationFailed, made)
  }

  /** One that ends in its own is evaluated once, and replaced with the value, with nothing if there is none. */
  lemma SubexpressionIsReplaced(eval: Evaluator, nested: bool, open: char, body: Template, close: char, rest: Source,
                                calls: seq<Call>)
    requires IsOpener(open) && EndsInside(body) && AreMatching(open, close)
    ensures Expand(eval, nested, WithPrefix(['$', open], Render(body, WithPrefix([close], rest))), calls) ==
            Continued(eval, nested, open, Evaluated(eval, body, calls), rest)
  {
    SubBefore(eval, nested, open, body, rest, calls);
    var contents := Evaluated(eval, body, calls);
    if contents.Means? {
      PrefixedNothing(Expand(eval, nested, rest, contents.calls + [Call(open, contents.value)]));
    }
  }

  /** Substituting in a text with a wrongly closed subexpression raises, after evaluating what precedes it. */
  lemma WronglyClosedTextRaises(eval: Evaluator, before: Template, open: char, body: Template, close: char,
                                rest: string)
    requires WellFormed(before) && IsOpener(open) && EndsInside(body) && IsCloser(close) && !AreMatching(open, close)
    requires Render(before, WithPrefix(['$', open], Render(body, Source([close] + rest, [])))).lines == []
    ensures var text := Render(before, WithPrefix(['$', open], Render(body, Source([close] + rest, [])))).rest;
            var first := Evaluated(eval, before, []);
            Substitute(eval, Text(text)) ==
            Outcome(if first.Fails? then Failed(EvaluationFailed, first.calls)
                    else Unevaluated(Evaluated(eval, body, first.calls), WrongCloser))
  {
    var after := WithPrefix(['$', open], Render(body, WithPrefix([close], Source(rest, []))));
    ExpansionEvaluatesTree(eval, false, before, after, []);
    var first := Evaluated(eval, before, []);
    if first.Means? {
      WrongCloserFails(eval, false, open, body, close, Source(rest, []), first.calls);
    }
  }

  // ---- Closing brackets precede evaluation

  function Concat(lines: seq<string>): string {
    if lines == [] then "" else lines[0] + Concat(lines[1..])
  }

  /** All that is left to be read. */
  function Unread(s: Source): string {
    s.rest + Concat(s.lines)
  }

  /** What a move reads. */
  function ReadBy(nested: bool, s: Source): string {
    match NextMove(nested, s)
    case Close(closer, _) => [closer]
    case Open(open, evaluated, _) => if evaluated then ['$', open] else [open]
    case Emit(_, t) => Unread(s)[..if |Unread(t)| <= |Unread(s)| then |Unread(s)| - |Unread(t)| else 0]
    case _ => ""
  }

  predicate IsSuffix(s: string, of: string) {
    |s| <= |of| && s == of[|of| - |s|..]
  }

  lemma Behind(a: string, b: string, c: string)
    ensures IsSuffix(b + c, a + b + c)
  {
    assert a + b + c == a + (b + c);
  }

  lemma BackslashReads(s: Source)
    requires Backslash(s).Yields?
    ensures IsSuffix(Unread(Backslash(s).source), Unread(s))
  {
    var t := Backslash(s).source;
    if LineEnd(s.rest) == Some(|s.rest|) {
      assert Unread(s) == s.rest + (s.lines[0] + Concat(s.lines[1..]));
      Behind(s.rest, s.lines[0], Concat(s.lines[1..]));
      Associative(s.rest, s.lines[0], Concat(s.lines[1..]));
    } else {
      var n := |s.rest| - |t.rest|;
      assert s.rest == s.rest[..n] + t.rest;
      Behind(s.rest[..n], t.rest, Concat(s.lines));
    }
  }

  lemma OpenReads(nested: bool, s: Source)
    requires NextMove(nested, s).Open? && NextMove(nested, s).evaluated
    ensures Unread(s) == ReadBy(nested, s) + Unread(NextMove(nested, s).source)
  {
    var open := NextMove(nested, s).open;
    assert s.rest == ['$', open] + s.rest[2..];
    Associative(['$', open], s.rest[2..], Concat(s.lines));
  }

  lemma FirstRead(s: Source)
    requires s.rest != ""
    ensures Unread(s) == [s.rest[0]] + Unread(s.(rest := s.rest[1..]))
  {
    assert s.rest == [s.rest[0]] + s.rest[1..];
    Associative([s.rest[0]], s.rest[1..], Concat(s.lines));
  }

  /** What is emitted leaves the rest of the text behind it. */
  lemma EmitLeavesSuffix(nested: bool, s: Source)
    requires NextMove(nested, s).Emit?
    ensures IsSuffix(Unread(NextMove(nested, s).source), Unread(s.(rest := s.rest[1..])))
  {
    var after := s.(rest := s.rest[1..]);
    if TokenAt(s.rest, nested).Escape? {
      BackslashReads(after);
    } else {
      assert NextMove(nested, s).source == after;
      SuffixOfItself(Unread(after));
    }
  }

  lemma SuffixOfItself(s: string)
    ensures IsSuffix(s, s)
  {
  }

  lemma EmitReads(nested: bool, s: Source)
    requires NextMove(nested, s).Emit?
    ensures Unread(s) == ReadBy(nested, s) + Unread(NextMove(nested, s).source)
  {
    var after, t := s.(rest := s.rest[1..]), NextMove(nested, s).source;
    FirstRead(s);
    EmitLeavesSuffix(nested, s);
    SuffixOfLonger(Unread(t), Unread(after), s.rest[0]);
    SuffixIsRest(Unread(t), Unread(s));
  }

  lemma MoveReads(nested: bool, s: Source)
    requires var m := NextMove(nested, s); m.Close? || m.Open? || m.Emit?
    ensures Unread(s) == ReadBy(nested, s) + Unread(NextMove(nested, s).source)
  {
    var m := NextMove(nested, s);
    if m.Emit? {
      EmitReads(nested, s);
    } else if m.Open? && m.evaluated {
      OpenReads(nested, s);
    } else {
      FirstRead(s);
    }
  }

  lemma SuffixOfLonger(s: string, of: string, c: char)
    requires IsSuffix(s, of)
    ensures IsSuffix(s, [c] + of)
  {
  }

  lemma SuffixIsRest(s: string, of: string)
    requires IsSuffix(s, of)
    ensures of == of[..|of| - |s|] + s
  {
  }

  /**
   Each call was made after the closing bracket that matches its opening one was read, which stands after the opening
   one and its dollar sign, and after the closing brackets of all calls made before.
   */
  predicate AreJustified(calls: seq<Call>, text: string, at: seq<nat>) {
    && |at| == |calls|
    && (forall k :: 0 <= k < |at| ==> IsClosed(calls[k].open, text, at[k]))
    && (forall k, l :: 0 <= k < l < |at| ==> at[k] < at[l])
  }

  predicate IsClosed(open: char, text: string, at: nat) {
    && at < |text| && AreMatching(open, text[at])
    && exists i :: 0 <= i < at - 1 && text[i] == '$' && text[i + 1] == open
  }

  function Shift(at: seq<nat>, n: nat): seq<nat> {
    seq(|at|, k requires 0 <= k < |at| => at[k] + n)
  }

  lemma ClosedLater(open: char, before: string, text: string, after: string, at: nat)
    requires IsClosed(open, text, at)
    ensures IsClosed(open, before + text + after, |before| + at)
  {
    var all := before + text + after;
    var i :| 0 <= i < at - 1 && text[i] == '$' && text[i + 1] == open;
    assert all[|before| + i] == '$' && all[|before| + i + 1] == open && all[|before| + at] == text[at];
  }

  lemma JustifiedLater(calls: seq<Call>, before: string, text: string, after: string, at: seq<nat>)
    requires AreJustified(calls, text, at)
    ensures AreJustified(calls, before + text + after, Shift(at, |before|))
  {
    forall k | 0 <= k < |at|
      ensures IsClosed(calls[k].open, before + text + after, Shift(at, |before|)[k])
    {
      ClosedLater(calls[k].open, before, text, after, at[k]);
    }
  }

  lemma JustifiedInTurn(calls: seq<Call>, text: string, at: seq<nat>, calls': seq<Call>, text': string, at': seq<nat>)
    requires AreJustified(calls, text, at) && AreJustified(calls', text', at')
    ensures AreJustified(calls + calls', text + text', at + Shift(at', |text|))
  {
    var all, ats := text + text', at + Shift(at', |text|);
    forall k | 0 <= k < |ats|
      ensures IsClosed((calls + calls')[k].open, all, ats[k])
    {
      if k < |at| {
        ClosedLater(calls[k].open, "", text, text', at[k]);
        assert "" + text + text' == all;
      } else {
        ClosedLater(calls'[k - |at|].open, text, text', "", at'[k - |at|]);
        assert text + text' + "" == all;
      }
    }
  }

  /**
   The calls that expansion adds are justified by what it reads of the text: all of what was unread but is not any
   more, or at least by what was unread, if expansion fails.
   */
  ghost predicate IsJustified(r: Result, calls: seq<Call>, unread: string, read: string, at: seq<nat>) {
    && calls <= r.calls && AreJustified(r.calls[|calls|..], read, at)
    && (match r
        case Failed(_, _) => read <= unread
        case Done(_, source, closer, _) =>
          && unread == read + Unread(source)
          && (closer.Some? ==> read != "" && read[|read| - 1] == closer.value
                               && forall k :: 0 <= k < |at| ==> at[k] < |read| - 1))
  }

  lemma NoCallsMade(r: Result, calls: seq<Call>, unread: string, read: string)
    requires r.calls == calls
    requires match r
             case Failed(_, _) => read <= unread
             case Done(_, source, closer, _) =>
               unread == read + Unread(source) && (closer.Some? ==> read != "" && read[|read| - 1] == closer.value)
    ensures IsJustified(r, calls, unread, read, [])
  {
    assert r.calls[|calls|..] == [];
  }

  /** Reading something first moves the positions on. */
  lemma JustifiedAfter(r: Result, prefix: string, calls: seq<Call>, first: string, unread: string, read: string,
                       at: seq<nat>)
    requires IsJustified(r, calls, unread, read, at)
    ensures IsJustified(Prefixed(prefix, r), calls, first + unread, first + read, Shift(at, |first|))
  {
    JustifiedLater(r.calls[|calls|..], first, read, "", at);
    assert first + read + "" == first + read;
    if r.Done? {
      Associative(first, read, Unread(r.source));
    }
  }

  /** One expansion after another. */
  lemma JustifiedThen(part: Result, next: Result, calls: seq<Call>, unread: string, read: string, at: seq<nat>,
                      read': string, at': seq<nat>)
    requires part.Done? && part.closer.None? && IsJustified(part, calls, unread, read, at)
    requires IsJustified(next, part.calls, Unread(part.source), read', at')
    ensures IsJustified(Prefixed(part.value, next), calls, unread, read + read', at + Shift(at', |read|))
  {
    JustifiedInTurn(part.calls[|calls|..], read, at, next.calls[|part.calls|..], read', at');
    assert next.calls[|calls|..] == part.calls[|calls|..] + next.calls[|part.calls|..];
    if next.Done? {
      Associative(read, read', Unread(next.source));
    }
  }

  /** A subexpression whose closing bracket was read. */
  lemma JustifiedCall(open: char, argument: string, contents: Result, calls: seq<Call>, unread: string, read: string,
                      at: seq<nat>)
    requires contents.Done? && IsJustified(contents, calls, unread, read, at)
    requires contents.closer.Some? && AreMatching(open, contents.closer.value)
    ensures var made := contents.calls + [Call(open, argument)];
            var all, ats := ['$', open] + read, Shift(at, 2) + [|read| + 1];
            calls <= made && AreJustified(made[|calls|..], all, ats)
  {
    var made := contents.calls + [Call(open, argument)];
    var all, ats := ['$', open] + read, Shift(at, 2) + [|read| + 1];
    JustifiedLater(contents.calls[|calls|..], ['$', open], read, "", at);
    assert all + "" == all;
    assert made[|calls|..] == contents.calls[|calls|..] + [Call(open, argument)];
    assert all[0] == '$' && all[1] == open && all[|read| + 1] == read[|read| - 1];
    assert IsClosed(open, all, |read| + 1);
  }

  /** A subexpression or a group, given its contents. */
  lemma JustifiedPart(eval: Evaluator, open: char, evaluated: bool, contents: Result, calls: seq<Call>,
                      unread: string, read: string, at: seq<nat>)
      returns (ats: seq<nat>)
    requires IsOpener(open) && IsJustified(contents, calls, unread, read, at)
    ensures var first := if evaluated then ['$', open] else [open];
            IsJustified(Bracketed(eval, open, evaluated, contents), calls, first + unread, first + read, ats)
            && (Bracketed(eval, open, evaluated, contents).Done? ==>
                  Bracketed(eval, open, evaluated, contents).closer.None?)
  {
    var first := if evaluated then ['$', open] else [open];
    JustifiedAfter(contents, "", calls, first, unread, read, at);
    ats := Shift(at, |first|);
    if evaluated && contents.Done? && contents.closer.Some? && AreMatching(open, contents.closer.value) {
      JustifiedCall(open, contents.value, contents, calls, unread, read, at);
      ats := Shift(at, 2) + [|read| + 1];
    }
  }

  /**
   For every text, and whatever the evaluators do: a subexpression is evaluated only after its own closing bracket
   was read, and subexpressions are evaluated in the order of their closing brackets.
   */
  lemma {:induction false} EvaluatedOnlyAfterCloser(eval: Evaluator, nested: bool, s: Source, calls: seq<Call>)
      returns (read: string, at: seq<nat>)
    ensures IsJustified(Expand(eval, nested, s, calls), calls, Unread(s), read, at)
    decreases |s.lines|, |s.rest|
  {
    var r := Expand(eval, nested, s, calls);
    match NextMove(nested, s)
    case Finish =>
      read, at := "", [];
      NoCallsMade(r, calls, Unread(s), read);
    case Crash(_) =>
      read, at := "", [];
      NoCallsMade(r, calls, Unread(s), read);
    case Close(closer, t) =>
      read, at := [closer], [];
      MoveReads(nested, s);
      NoCallsMade(r, calls, Unread(s), read);
    case Emit(text, t) =>
      MoveReads(nested, s);
      var rest, ats := EvaluatedOnlyAfterCloser(eval, nested, t, calls);
      JustifiedAfter(Expand(eval, nested, t, calls), text, calls, ReadBy(nested, s), Unread(t), rest, ats);
      read, at := ReadBy(nested, s) + rest, Shift(ats, |ReadBy(nested, s)|);
    case Open(open, evaluated, t) =>
      MoveReads(nested, s);
      var inside, within := EvaluatedOnlyAfterCloser(eval, true, t, calls);
      var contents := Expand(eval, true, t, calls);
      at := JustifiedPart(eval, open, evaluated, contents, calls, Unread(t), inside, within);
      read := ReadBy(nested, s) + inside;
      var part := Bracketed(eval, open, evaluated, contents);
      if part.Done? {
        var rest, ats := EvaluatedOnlyAfterCloser(eval, nested, part.source, part.calls);
        JustifiedThen(part, Expand(eval, nested, part.source, part.calls), calls, Unread(s), read, at, rest, ats);
        read, at := read + rest, at + Shift(ats, |read|);
      }
  }

  /** So it is when substituting in a text: the calls are justified by the text. */
  lemma SubstituteEvaluatesOnlyAfterCloser(eval: Evaluator, text: string) returns (at: seq<nat>)
    ensures AreJustified(Substitute(eval, Text(text)).calls, text, at)
  {
    var r := Expand(eval, false, Source(text, []), []);
    var read, ats := EvaluatedOnlyAfterCloser(eval, false, Source(text, []), []);
    assert Unread(Source(text, [])) == text && r.calls[0..] == r.calls;
    var after := text[|read|..];
    assert text == "" + read + after;
    JustifiedLater(r.calls, "", read, after, ats);
    at := Shift(ats, 0);
  }

  // ---- Codes of characters

  /** Three octal digits stand for the character of that number, whatever follows. */
  lemma OctalCodesStandFor(a: nat, b: nat, c: nat, after: string)
    requires a < 8 && b < 8 && c < 8
    ensures var digits := "01234567";
            Unescape([digits[a], digits[b], digits[c]] + after) == Stands((64 * a + 8 * b + c) as char, 3)
  {
    var digits := "01234567";
    var rest := [digits[a], digits[b], digits[c]] + after;
    OctalDigitOf(a);
    OctalDigitOf(b);
    OctalDigitOf(c);
    assert rest[0] == digits[a] && rest[1] == digits[b] && rest[2] == digits[c];
  }

  lemma OctalDigitOf(d: nat)
    requires d < 8
    ensures IsOctal("01234567"[d]) && HexDigit("01234567"[d]) == d
  {
  }

  /** So do two hexadecimal ones, in either case, after an x. */
  lemma HexCodesStandFor(a: nat, b: nat, digits: string, after: string)
    requires a < 16 && b < 16 && (digits == "0123456789abcdef" || digits == "0123456789ABCDEF")
    ensures Unescape(['x', digits[a], digits[b]] + after) == Stands((16 * a + b) as char, 3)
  {
    var rest := ['x', digits[a], digits[b]] + after;
    HexDigitOf(a, digits);
    HexDigitOf(b, digits);
    assert rest[0] == 'x' && rest[1] == digits[a] && rest[2] == digits[b];
  }

  lemma HexDigitOf(d: nat, digits: string)
    requires d < 16 && (digits == "0123456789abcdef" || digits == "0123456789ABCDEF")
    ensures IsHex(digits[d]) && HexDigit(digits[d]) == d
  {
  }

  /** The letters that stand for control characters, and the zero, unless it begins an octal code. */
  lemma LetterCodesStandFor(after: string)
    ensures Unescape("n" + after) == Stands(10 as char, 1) && Unescape("r" + after) == Stands(13 as char, 1)
    ensures Unescape("t" + after) == Stands(9 as char, 1) && Unescape("a" + after) == Stands(7 as char, 1)
    ensures Unescape("b" + after) == Stands(8 as char, 1) && Unescape("f" + after) == Stands(12 as char, 1)
    ensures Unescape("v" + after) == Stands(11 as char, 1)
    ensures !(|after| >= 2 && IsOctal(after[0]) && IsOctal(after[1])) ==>
              Unescape("0" + after) == Stands(0 as char, 1)
  {
    assert forall c :: ([c] + after)[0] == c;
    var zero := "0" + after;
    assert |after| >= 2 ==> zero[1] == after[0] && zero[2] == after[1];
  }
}
