/** Template trees: what they look like as texts, and that expanding the text evaluates the tree. */
module Templates {
  import opened Options
  import opened ExpanderSyntax
  import opened Patterns
  import opened Expansion

  /** A template, from its first part on. */
  datatype Template =
    | Nil
    | Char(c: char, next: Template)
    | Code(code: string, next: Template)
    | Continuation(space: string, next: Template)
    | Joint(space: string, next: Template)
    | Group(open: char, body: Template, close: char, next: Template)
    | Sub(open: char, body: Template, next: Template)

  /** A code for a character that reads the same whatever follows it. */
  predicate IsCode(code: string) {
    || (|code| == 3 && IsOctal(code[0]) && IsOctal(code[1]) && IsOctal(code[2]))
    || (|code| == 3 && code[0] == 'x' && IsHex(code[1]) && IsHex(code[2]))
    || (|code| == 1 && code[0] != '0' && ControlCode(code[0]).Some?)
  }

  /** The character that a code stands for. */
  function CodedChar(code: string): char
    requires IsCode(code)
  {
    if |code| == 1 then ControlCode(code[0]).value
    else if code[0] == 'x' then (16 * HexDigit(code[1]) + HexDigit(code[2])) as char
    else (64 * HexDigit(code[0]) + 8 * HexDigit(code[1]) + HexDigit(code[2])) as char
  }

  /** White space up to and including a newline. */
  predicate EndsLine(space: string) {
    space != "" && AllSpace(space) && space[|space| - 1] == '\n'
  }

  /** The text of the template starts with something else than white space. */
  predicate IsVisible(t: Template) {
    t != Nil && (t.Char? ==> !IsSpace(t.c))
  }

  predicate WellFormed(t: Template) {
    match t
    case Nil => true
    case Char(_, next) => WellFormed(next)
    case Code(code, next) => IsCode(code) && WellFormed(next)
    case Continuation(space, next) => AllSpace(space) && next != Nil && WellFormed(next)
    case Joint(space, next) => EndsLine(space) && IsVisible(next) && WellFormed(next)
    case Group(open, body, close, next) =>
      IsOpener(open) && IsCloser(close) && EndsInside(body) && WellFormed(next)
    case Sub(open, body, next) => IsOpener(open) && EndsInside(body) && WellFormed(next)
  }

  /** Like WellFormed, but a closing bracket follows, so a continued line may end the template. */
  predicate EndsInside(t: Template) {
    match t
    case Nil => true
    case Char(_, next) => EndsInside(next)
    case Code(code, next) => IsCode(code) && EndsInside(next)
    case Continuation(space, next) => AllSpace(space) && EndsInside(next)
    case Joint(space, next) => EndsLine(space) && IsVisible(next) && EndsInside(next)
    case Group(open, body, close, next) =>
      IsOpener(open) && IsCloser(close) && EndsInside(body) && EndsInside(next)
    case Sub(open, body, next) => IsOpener(open) && EndsInside(body) && EndsInside(next)
  }

  /** The characters to be written with a backslash. */
  predicate IsSpecial(c: char) {
    c == BACKSLASH || c == '$' || IsOpener(c) || IsCloser(c)
  }

  function Spelled(c: char): string {
    if IsSpecial(c) then [BACKSLASH, c] else [c]
  }

  /**
   The text of a template, followed by `s`.  A continuation ends a line of the stream, so that what follows is
   on the next; a joint is a line end within the same text.
   */
  function Render(t: Template, s: Source): Source {
    match t
    case Nil => s
    case Char(c, next) => WithPrefix(Spelled(c), Render(next, s))
    case Code(code, next) => WithPrefix([BACKSLASH] + code, Render(next, s))
    case Continuation(space, next) =>
      var after := Render(next, s);
      Source([BACKSLASH] + space, [after.rest] + after.lines)
    case Joint(space, next) => WithPrefix([BACKSLASH] + space, Render(next, s))
    case Group(open, body, close, next) =>
      WithPrefix([open], Render(body, WithPrefix([close], Render(next, s))))
    case Sub(open, body, next) =>
      WithPrefix(['$', open], Render(body, WithPrefix([CloserOf(open)], Render(next, s))))
  }

  datatype Meaning = Means(value: string, calls: seq<Call>) | Fails(calls: seq<Call>)

  function Then(m: Meaning, prefix: string): Meaning {
    if m.Means? then m.(value := prefix + m.value) else m
  }

  function Surrounded(open: char, inner: Meaning, close: char): Meaning {
    if inner.Means? then inner.(value := [open] + inner.value + [close]) else inner
  }

  /** Evaluates one subexpression whose contents have been evaluated. */
  function Replaced(eval: Evaluator, open: char, inner: Meaning): Meaning {
    match inner
    case Fails(_) => inner
    case Means(argument, calls) =>
      var made := calls + [Call(open, argument)];
      match Replacement(eval(made))
      case Some(text) => Means(text, made)
      case None => Fails(made)
  }

  /** Evaluates a tree: each subexpression once, after those inside it and before those that follow it. */
  function Evaluated(eval: Evaluator, t: Template, calls: seq<Call>): Meaning {
    match t
    case Nil => Means("", calls)
    case Char(c, next) => Then(Evaluated(eval, next, calls), [c])
    case Code(code, next) => Then(Evaluated(eval, next, calls), if IsCode(code) then [CodedChar(code)] else code)
    case Continuation(_, next) => Evaluated(eval, next, calls)
    case Joint(_, next) => Evaluated(eval, next, calls)
    case Group(open, body, close, next) =>
      var group := Surrounded(open, Evaluated(eval, body, calls), close);
      if group.Fails? then group
      else Then(Evaluated(eval, next, group.calls), group.value)
    case Sub(open, body, next) =>
      var replaced := Replaced(eval, open, Evaluated(eval, body, calls));
      if replaced.Fails? then replaced
      else Then(Evaluated(eval, next, replaced.calls), replaced.value)
  }

  /** What follows once a template has been expanded to its meaning. */
  function After(eval: Evaluator, nested: bool, m: Meaning, s: Source): Result {
    match m
    case Means(value, calls) => Prefixed(value, Expand(eval, nested, s, calls))
    case Fails(calls) => Failed(EvaluationFailed, calls)
  }

  lemma SpelledIsEmitted(nested: bool, c: char, s: Source)
    ensures NextMove(nested, WithPrefix(Spelled(c), s)) == Emit([c], s)
  {
    var rest := Spelled(c) + s.rest;
    if IsSpecial(c) {
      BackslashQuotes(c, s.rest);
      assert rest[1..] == [c] + s.rest;
      assert ([c] + s.rest)[1..] == s.rest;
    } else {
      assert rest[1..] == s.rest;
    }
  }

  lemma CodeIsEmitted(nested: bool, code: string, s: Source)
    requires IsCode(code)
    ensures NextMove(nested, WithPrefix([BACKSLASH] + code, s)) == Emit([CodedChar(code)], s)
  {
    var rest := code + s.rest;
    assert ([BACKSLASH] + code + s.rest)[1..] == rest;
    CodeIsRead(code, s.rest);
    assert rest[|code|..] == s.rest;
  }

  lemma CodeIsRead(code: string, after: string)
    requires IsCode(code)
    ensures LineEnd(code + after) == None && Unescape(code + after) == Stands(CodedChar(code), |code|)
  {
    var rest := code + after;
    assert rest[0] == code[0] && (|code| == 3 ==> rest[1] == code[1] && rest[2] == code[2]);
    assert SpaceRun(rest) == 0;
  }

  lemma ContinuationReadsLine(nested: bool, space: string, s: Source)
    requires AllSpace(space) && s.rest != ""
    ensures NextMove(nested, Source([BACKSLASH] + space, [s.rest] + s.lines)) == Emit("", s)
  {
    LineEndIsLongest(space);
    assert IsLineEnd(space, |space|);
    assert ([BACKSLASH] + space)[1..] == space;
    assert ([s.rest] + s.lines)[1..] == s.lines;
  }

  lemma JointIsSkipped(nested: bool, space: string, s: Source)
    requires EndsLine(space) && s.rest != "" && !IsSpace(s.rest[0])
    ensures NextMove(nested, WithPrefix([BACKSLASH] + space, s)) == Emit("", s)
  {
    var text := space + s.rest;
    assert ([BACKSLASH] + space + s.rest)[1..] == text;
    SpaceThenVisible(space, s.rest);
    assert text[..|space|] == space;
    assert LineEnd(text) == Some(|space|);
    assert text[|space|..] == s.rest;
  }

  lemma {:induction false} RendersSomething(t: Template, s: Source)
    requires t != Nil
    ensures Render(t, s).rest != ""
    ensures (IsVisible(t) && (WellFormed(t) || EndsInside(t)) ==> !IsSpace(Render(t, s).rest[0]))
  {
  }

  /** Prefixing a meaning prefixes the expansion. */
  lemma AfterThen(eval: Evaluator, nested: bool, m: Meaning, prefix: string, s: Source)
    ensures After(eval, nested, Then(m, prefix), s) == Prefixed(prefix, After(eval, nested, m, s))
  {
    if m.Means? {
      PrefixedTwice(prefix, m.value, Expand(eval, nested, s, m.calls));
    }
  }

  /** Expanding the text of a template, whatever follows it, evaluates the tree and then expands what follows. */
  lemma {:induction false} ExpansionEvaluatesTree(eval: Evaluator, nested: bool, t: Template, s: Source,
                                                  calls: seq<Call>)
    requires WellFormed(t) || (EndsInside(t) && s.rest != "")
    ensures Expand(eval, nested, Render(t, s), calls) == After(eval, nested, Evaluated(eval, t, calls), s)
    decreases t, 1
  {
    match t
    case Nil => PrefixedNothing(Expand(eval, nested, s, calls));
    case Char(c, next) =>
      SpelledIsEmitted(nested, c, Render(next, s));
      ExpansionEvaluatesTree(eval, nested, next, s, calls);
      AfterThen(eval, nested, Evaluated(eval, next, calls), [c], s);
    case Code(code, next) =>
      CodeIsEmitted(nested, code, Render(next, s));
      ExpansionEvaluatesTree(eval, nested, next, s, calls);
      AfterThen(eval, nested, Evaluated(eval, next, calls), [CodedChar(code)], s);
    case Continuation(space, next) =>
      if next != Nil { RendersSomething(next, s); }
      ContinuationReadsLine(nested, space, Render(next, s));
      ExpansionEvaluatesTree(eval, nested, next, s, calls);
      PrefixedNothing(Expand(eval, nested, Render(next, s), calls));
    case Joint(space, next) =>
      RendersSomething(next, s);
      JointIsSkipped(nested, space, Render(next, s));
      ExpansionEvaluatesTree(eval, nested, next, s, calls);
      PrefixedNothing(Expand(eval, nested, Render(next, s), calls));
    case Group(open, body, close, next) =>
      GroupBefore(eval, nested, open, body, close, Render(next, s), calls);
      GoesOn(eval, nested, Surrounded(open, Evaluated(eval, body, calls), close), next, s);
    case Sub(open, body, next) =>
      SubBefore(eval, nested, open, body, Render(next, s), calls);
      GoesOn(eval, nested, Replaced(eval, open, Evaluated(eval, body, calls)), next, s);
  }

  lemma {:induction false} GoesOn(eval: Evaluator, nested: bool, m: Meaning, next: Template, s: Source)
    requires WellFormed(next) || (EndsInside(next) && s.rest != "")
    ensures After(eval, nested, m, Render(next, s))
         == After(eval, nested, if m.Fails? then m else Then(Evaluated(eval, next, m.calls), m.value), s)
    decreases next, 2
  {
    if m.Means? {
      ExpansionEvaluatesTree(eval, nested, next, s, m.calls);
      AfterThen(eval, nested, Evaluated(eval, next, m.calls), m.value, s);
    }
  }

  /** Inside brackets, the contents expand up to the closing bracket. */
  lemma {:induction false} ContentsExpand(eval: Evaluator, body: Template, close: char, s: Source, calls: seq<Call>)
    requires EndsInside(body) && IsCloser(close)
    ensures Expand(eval, true, Render(body, WithPrefix([close], s)), calls)
         == match Evaluated(eval, body, calls)
            case Means(value, made) => Done(value, s, Some(close), made)
            case Fails(made) => Failed(EvaluationFailed, made)
    decreases body, 2
  {
    var closing := WithPrefix([close], s);
    ExpansionEvaluatesTree(eval, true, body, closing, calls);
    assert closing.rest[1..] == s.rest;
    assert NextMove(true, closing) == Close(close, s);
    var m := Evaluated(eval, body, calls);
    if m.Means? {
      assert Expand(eval, true, closing, m.calls) == Done("", s, Some(close), m.calls);
      assert m.value + "" == m.value;
    }
  }

  /** Expansion goes on after a bracketed part. */
  function Onward(eval: Evaluator, nested: bool, part: Result): Result {
    match part
    case Failed(_, _) => part
    case Done(value, source, _, calls) => Prefixed(value, Expand(eval, nested, source, calls))
  }

  lemma GroupStep(eval: Evaluator, nested: bool, open: char, contents: Source, calls: seq<Call>)
    requires IsOpener(open)
    ensures Expand(eval, nested, WithPrefix([open], contents), calls)
         == Onward(eval, nested, Grouped(open, Expand(eval, true, contents, calls)))
  {
    assert ([open] + contents.rest)[1..] == contents.rest;
    assert NextMove(nested, WithPrefix([open], contents)) == Open(open, false, contents);
  }

  lemma SubStep(eval: Evaluator, nested: bool, open: char, contents: Source, calls: seq<Call>)
    requires IsOpener(open)
    ensures Expand(eval, nested, WithPrefix(['$', open], contents), calls)
         == Onward(eval, nested, Evaluate(eval, open, Expand(eval, true, contents, calls)))
  {
    assert (['$', open] + contents.rest)[2..] == contents.rest;
    assert NextMove(nested, WithPrefix(['$', open], contents)) == Open(open, true, contents);
  }

  /** A group in front of `rest` expands to its evaluation and what `rest` expands to. */
  lemma {:induction false} GroupBefore(eval: Evaluator, nested: bool, open: char, body: Template, close: char,
                                       rest: Source, calls: seq<Call>)
    requires IsOpener(open) && IsCloser(close) && EndsInside(body)
    ensures Expand(eval, nested, WithPrefix([open], Render(body, WithPrefix([close], rest))), calls)
         == After(eval, nested, Surrounded(open, Evaluated(eval, body, calls), close), rest)
    decreases body, 4
  {
    GroupStep(eval, nested, open, Render(body, WithPrefix([close], rest)), calls);
    ContentsExpand(eval, body, close, rest, calls);
  }

  lemma {:induction false} SubBefore(eval: Evaluator, nested: bool, open: char, body: Template,
                                     rest: Source, calls: seq<Call>)
    requires IsOpener(open) && EndsInside(body)
    ensures Expand(eval, nested, WithPrefix(['$', open], Render(body, WithPrefix([CloserOf(open)], rest))), calls)
         == After(eval, nested, Replaced(eval, open, Evaluated(eval, body, calls)), rest)
    decreases body, 4
  {
    SubStep(eval, nested, open, Render(body, WithPrefix([CloserOf(open)], rest)), calls);
    SubEvaluates(eval, open, body, rest, calls);
  }

  lemma {:induction false} SubEvaluates(eval: Evaluator, open: char, body: Template, rest: Source, calls: seq<Call>)
    requires IsOpener(open) && EndsInside(body)
    ensures Evaluate(eval, open, Expand(eval, true, Render(body, WithPrefix([CloserOf(open)], rest)), calls))
         == match Replaced(eval, open, Evaluated(eval, body, calls))
            case Means(text, made) => Done(text, rest, None, made)
            case Fails(made) => Failed(EvaluationFailed, made)
    decreases body, 3
  {
    ContentsExpand(eval, body, CloserOf(open), rest, calls);
  }

  // ---- Whole inputs

  function OutcomeOf(m: Meaning): Substitution {
    match m
    case Means(value, calls) => Substituted(value, calls)
    case Fails(calls) => Raised(EvaluationFailed, calls)
  }

  /** Substituting in the text of a template on a single line evaluates the tree. */
  lemma SubstitutionEvaluatesTree(eval: Evaluator, t: Template)
    requires WellFormed(t) && Render(t, Source("", [])).lines == []
    ensures Substitute(eval, Text(Render(t, Source("", [])).rest)) == OutcomeOf(Evaluated(eval, t, []))
  {
    ExpansionEvaluatesTree(eval, false, t, Source("", []), []);
    var m := Evaluated(eval, t, []);
    if m.Means? {
      assert m.value + "" == m.value;
    }
  }

  /** Substituting in a stream whose first lines are the text of a template evaluates the tree. */
  lemma StreamSubstitutionEvaluatesTree(eval: Evaluator, t: Template, unread: seq<string>)
    requires WellFormed(t) && t != Nil
    ensures var s := Render(t, Source("", unread));
            Substitute(eval, Stream([s.rest] + s.lines)) == OutcomeOf(Evaluated(eval, t, []))
  {
    var s := Render(t, Source("", unread));
    RendersSomething(t, Source("", unread));
    assert ([s.rest] + s.lines)[1..] == s.lines;
    ExpansionEvaluatesTree(eval, false, t, Source("", unread), []);
    var m := Evaluated(eval, t, []);
    if m.Means? {
      assert m.value + "" == m.value;
    }
  }

  // ---- The order of evaluation

  /** Adds the opening brackets of the subexpressions of a tree, the inner before the outer, then left to right. */
  function PostOrder(t: Template, before: string): string {
    match t
    case Nil => before
    case Char(_, next) => PostOrder(next, before)
    case Code(_, next) => PostOrder(next, before)
    case Continuation(_, next) => PostOrder(next, before)
    case Joint(_, next) => PostOrder(next, before)
    case Group(_, body, _, next) => PostOrder(next, PostOrder(body, before))
    case Sub(open, body, next) => PostOrder(next, PostOrder(body, before) + [open])
  }

  function Opens(calls: seq<Call>): string {
    if calls == [] then "" else Opens(calls[..|calls| - 1]) + [calls[|calls| - 1].open]
  }

  lemma OpensOfLast(calls: seq<Call>, call: Call)
    ensures Opens(calls + [call]) == Opens(calls) + [call.open]
  {
    assert (calls + [call])[..|calls|] == calls;
  }

  /** Every subexpression is evaluated exactly once, innermost first: the calls are those of the tree in post-order. */
  lemma {:induction false} EachEvaluatedOnceInnermostFirst(eval: Evaluator, t: Template, calls: seq<Call>)
    requires Evaluated(eval, t, calls).Means?
    ensures Opens(Evaluated(eval, t, calls).calls) == PostOrder(t, Opens(calls))
    decreases t
  {
    match t
    case Nil =>
    case Char(_, next) => EachEvaluatedOnceInnermostFirst(eval, next, calls);
    case Code(_, next) => EachEvaluatedOnceInnermostFirst(eval, next, calls);
    case Continuation(_, next) => EachEvaluatedOnceInnermostFirst(eval, next, calls);
    case Joint(_, next) => EachEvaluatedOnceInnermostFirst(eval, next, calls);
    case Group(_, body, _, next) =>
      EachEvaluatedOnceInnermostFirst(eval, body, calls);
      EachEvaluatedOnceInnermostFirst(eval, next, Evaluated(eval, body, calls).calls);
    case Sub(open, body, next) =>
      EachEvaluatedOnceInnermostFirst(eval, body, calls);
      var inner := Evaluated(eval, body, calls);
      var call := Call(open, inner.value);
      OpensOfLast(inner.calls, call);
      EachEvaluatedOnceInnermostFirst(eval, next, inner.calls + [call]);
  }

  lemma {:induction false} PostOrderAdds(t: Template, before: string)
    ensures before <= PostOrder(t, before)
    decreases t
  {
    match t
    case Nil =>
    case Char(_, next) => PostOrderAdds(next, before);
    case Code(_, next) => PostOrderAdds(next, before);
    case Continuation(_, next) => PostOrderAdds(next, before);
    case Joint(_, next) => PostOrderAdds(next, before);
    case Group(_, body, _, next) =>
      PostOrderAdds(body, before);
      PostOrderAdds(next, PostOrder(body, before));
    case Sub(open, body, next) =>
      PostOrderAdds(body, before);
      PostOrderAdds(next, PostOrder(body, before) + [open]);
  }

  /** Nothing is evaluated after a failure: the calls made are those of the tree up to the one that failed. */
  lemma {:induction false} NothingEvaluatedAfterFailure(eval: Evaluator, t: Template, calls: seq<Call>)
    requires Evaluated(eval, t, calls).Fails?
    ensures var made := Evaluated(eval, t, calls).calls;
            eval(made) == Failure && Opens(made) <= PostOrder(t, Opens(calls))
    decreases t
  {
    match t
    case Char(_, next) => NothingEvaluatedAfterFailure(eval, next, calls);
    case Code(_, next) => NothingEvaluatedAfterFailure(eval, next, calls);
    case Continuation(_, next) => NothingEvaluatedAfterFailure(eval, next, calls);
    case Joint(_, next) => NothingEvaluatedAfterFailure(eval, next, calls);
    case Group(_, body, _, next) =>
      var inner := Evaluated(eval, body, calls);
      if inner.Fails? {
        NothingEvaluatedAfterFailure(eval, body, calls);
        PostOrderAdds(next, PostOrder(body, Opens(calls)));
      } else {
        EachEvaluatedOnceInnermostFirst(eval, body, calls);
        NothingEvaluatedAfterFailure(eval, next, inner.calls);
      }
    case Sub(open, body, next) =>
      var inner := Evaluated(eval, body, calls);
      if inner.Fails? {
        NothingEvaluatedAfterFailure(eval, body, calls);
        PostOrderAdds(next, PostOrder(body, Opens(calls)) + [open]);
      } else {
        EachEvaluatedOnceInnermostFirst(eval, body, calls);
        var made := inner.calls + [Call(open, inner.value)];
        OpensOfLast(inner.calls, Call(open, inner.value));
        PostOrderAdds(next, Opens(made));
        if eval(made) != Failure {
          NothingEvaluatedAfterFailure(eval, next, made);
        }
      }
  }
}
