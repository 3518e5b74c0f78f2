/** Escaping of a text, and that expanding the escaped text gives it back. */
module Escaping {
  import opened Options
  import opened ExpanderSyntax
  import opened Patterns
  import opened Expansion

  /** A run of ten characters that the pattern of characters to escape matches as a whole. */
  const LITERAL_RUN: string :=
    [0 as char, '-', 'x', '1', 'F', 127 as char, '-', 'x', 'A', '0']

  /** The letter that stands for a character after a backslash. */
  function EscapeLetter(c: char): Option<char> {
    match c
    case '\n' => Some('n')
    case '\r' => Some('r')
    case '\t' => Some('t')
    case '\'' => Some('\'')
    case '\"' => Some('\"')
    case '$' => Some('$')
    case '\\' => Some(BACKSLASH)
    case _ => None
  }

  function EscapeOf(c: char): Option<string> {
    if EscapeLetter(c).Some? then Some([BACKSLASH, EscapeLetter(c).value]) else None
  }

  /** The length of the match in front of a text, zero if it needs no escape. */
  function MatchLength(text: string): (n: nat)
    requires text != ""
    ensures n <= |text|
  {
    if EscapeOf(text[0]).Some? then 1
    else if LITERAL_RUN <= text then |LITERAL_RUN|
    else 0
  }

  /** What a match is replaced with; there is no replacement for the run. */
  function Replaced(matched: string, keep: string -> bool): Option<string>
    requires matched != ""
  {
    if keep(matched) then Some(matched) else EscapeOf(matched[0])
  }

  function Joined(first: Option<string>, second: Option<string>): Option<string> {
    if first.Some? && second.Some? then Some(first.value + second.value) else None
  }

  /** The escaped text; none when the run occurs and is not kept. */
  function Escaped(text: string, keep: string -> bool): Option<string>
    decreases |text|
  {
    if text == "" then Some("")
    else
      var n := MatchLength(text);
      if n == 0 then Joined(Some([text[0]]), Escaped(text[1..], keep))
      else Joined(Replaced(text[..n], keep), Escaped(text[n..], keep))
  }

  /** Where the next match begins, or the end of the text. */
  function NextMatch(text: string, pos: nat): (n: nat)
    requires pos <= |text|
    ensures pos <= n <= |text|
    ensures n < |text| ==> MatchLength(text[n..]) > 0
    decreases |text| - pos
  {
    if pos == |text| || MatchLength(text[pos..]) > 0 then pos else NextMatch(text, pos + 1)
  }

  lemma {:induction false} UpToNextMatch(text: string, pos: nat, keep: string -> bool)
    requires pos <= |text|
    ensures var n := NextMatch(text, pos);
            Escaped(text[pos..], keep) == Joined(Some(text[pos..n]), Escaped(text[n..], keep))
    decreases |text| - pos
  {
    var n := NextMatch(text, pos);
    if pos == n {
      JoinedNothing(Escaped(text[pos..], keep));
    } else {
      UpToNextMatch(text, pos + 1, keep);
      assert text[pos..][1..] == text[pos + 1..];
      assert text[pos..n] == [text[pos]] + text[pos + 1..n];
      JoinedTwice(Some([text[pos]]), Some(text[pos + 1..n]), Escaped(text[n..], keep));
    }
  }

  lemma JoinedNothing(s: Option<string>)
    ensures Joined(Some(""), s) == s
  {
    if s.Some? {
      assert "" + s.value == s.value;
    }
  }

  lemma JoinedTwice(a: Option<string>, b: Option<string>, c: Option<string>)
    ensures Joined(a, Joined(b, c)) == Joined(Joined(a, b), c)
  {
    if a.Some? && b.Some? && c.Some? {
      assert a.value + (b.value + c.value) == a.value + b.value + c.value;
    }
  }

  /** The escaped text goes on with the replacement of the next match. */
  lemma AtMatch(text: string, pos: nat, at: nat, end: nat, keep: string -> bool, done: string, whole: Option<string>)
    requires pos <= |text| && at == NextMatch(text, pos) < |text| && end == at + MatchLength(text[at..])
    requires whole == Joined(Some(done), Escaped(text[pos..], keep))
    ensures var replaced := Replaced(text[at..end], keep);
            whole == if replaced.None? then None
                     else Joined(Some(done + text[pos..at] + replaced.value), Escaped(text[end..], keep))
  {
    UpToNextMatch(text, pos, keep);
    OneMatch(text, at, end, keep);
    JoinedTwice(Some(done), Some(text[pos..at]), Escaped(text[at..], keep));
    JoinedTwice(Some(done + text[pos..at]), Replaced(text[at..end], keep), Escaped(text[end..], keep));
  }

  lemma OneMatch(text: string, at: nat, end: nat, keep: string -> bool)
    requires at < end <= |text| && end == at + MatchLength(text[at..])
    ensures Escaped(text[at..], keep) == Joined(Replaced(text[at..end], keep), Escaped(text[end..], keep))
  {
    assert text[at..][..end - at] == text[at..end];
    assert text[at..][end - at..] == text[end..];
  }

  lemma AfterLastMatch(text: string, pos: nat, keep: string -> bool, done: string, whole: Option<string>)
    requires pos <= |text| && NextMatch(text, pos) == |text|
    requires whole == Joined(Some(done), Escaped(text[pos..], keep))
    ensures whole == Some(done + text[pos..])
  {
    UpToNextMatch(text, pos, keep);
    assert text[pos..|text|] + "" == text[pos..];
  }

  /** Escapes a text from a position on, between quotes; fails when the run occurs and is not kept. */
  method Escape(text: string, pos: nat, keep: string -> bool, quote: string) returns (r: Option<string>)
    ensures var escaped := Escaped(text[if pos < |text| then pos else |text|..], keep);
            r == if escaped.None? then None else Some(quote + escaped.value + quote)
  {
    var start := if pos < |text| then pos else |text|;
    ghost var whole := Escaped(text[start..], keep);
    var parts := "";
    JoinedNothing(whole);
    var at := NextMatch(text, start);
    while at < |text|
      invariant start <= at <= |text| && at == NextMatch(text, start)
      invariant whole == Joined(Some(parts), Escaped(text[start..], keep))
      decreases |text| - at
    {
      var end := at + MatchLength(text[at..]);
      var escape := Replaced(text[at..end], keep);
      AtMatch(text, start, at, end, keep, parts, whole);
      if escape.None? {
        return None;
      }
      parts := parts + text[start..at] + escape.value;
      start := end;
      at := NextMatch(text, start);
    }
    AfterLastMatch(text, start, keep, parts, whole);
    parts := parts + text[start..];
    r := Some(quote + parts + quote);
  }

  // ---- When escaping fails

  predicate ContainsRun(text: string) {
    exists i :: 0 <= i <= |text| && LITERAL_RUN <= text[i..]
  }

  /** Escaping fails exactly on the texts that contain the run, unless it is kept. */
  lemma {:induction false} EscapingFailsIff(text: string, keep: string -> bool)
    ensures Escaped(text, keep).None? <==> ContainsRun(text) && !keep(LITERAL_RUN)
    decreases |text|
  {
    if text != "" {
      var n := MatchLength(text);
      var skip := if n == 0 then 1 else n;
      EscapingFailsIff(text[skip..], keep);
      if keep(LITERAL_RUN) {
        if n > 1 {
          assert text[..n] == LITERAL_RUN;
        }
      } else if LITERAL_RUN <= text {
        assert text[0] in LITERAL_RUN;
        assert text[0..] == text;
        assert text[..n] == LITERAL_RUN;
      } else {
        RunFurtherOn(text);
      }
    }
  }

  lemma RunFurtherOn(text: string)
    requires text != "" && !(LITERAL_RUN <= text)
    ensures ContainsRun(text) <==> ContainsRun(text[1..])
  {
    if ContainsRun(text) {
      var i :| 0 <= i <= |text| && LITERAL_RUN <= text[i..];
      assert text[0..] == text;
      assert text[1..][i - 1..] == text[i..];
    }
    if ContainsRun(text[1..]) {
      var i :| 0 <= i <= |text[1..]| && LITERAL_RUN <= text[1..][i..];
      assert text[1..][i..] == text[i + 1..];
    }
  }

  // ---- Text between quotes

  /** Line ends, tabs, quotes, dollar signs and backslashes. */
  predicate IsUnsafe(c: char) {
    c in "\n\r\t'\"$\\"
  }

  /**
   A text that can be read between quotes: it has no unsafe character, other than those that are kept, but after a
   backslash that is part of it; and a backslash precedes nothing but the letters for these.
   */
  predicate IsQuotable(s: string, keep: string -> bool)
    decreases |s|
  {
    || s == ""
    || ((!IsUnsafe(s[0]) || keep([s[0]])) && IsQuotable(s[1..], keep))
    || (s[0] == '\\' && |s| >= 2 && s[1] in "nrt'\"$\\" && IsQuotable(s[2..], keep))
  }

  lemma QuotablePair(letter: char, s: string, keep: string -> bool)
    requires letter in "nrt'\"$\\" && IsQuotable(s, keep)
    ensures IsQuotable(['\\', letter] + s, keep)
  {
    assert (['\\', letter] + s)[2..] == s;
  }

  lemma {:induction false} QuotableText(text: string, s: string, keep: string -> bool)
    requires IsQuotable(s, keep) && forall i :: 0 <= i < |text| ==> !IsUnsafe(text[i]) || keep([text[i]])
    ensures IsQuotable(text + s, keep)
  {
    if text == "" {
      assert text + s == s;
    } else {
      QuotableText(text[1..], s, keep);
      assert (text + s)[1..] == text[1..] + s;
    }
  }

  lemma EscapedLetters(c: char)
    ensures EscapeLetter(c).Some? <==> IsUnsafe(c)
    ensures EscapeLetter(c).Some? ==> EscapeLetter(c).value in "nrt'\"$\\"
  {
  }

  lemma QuotableReplacement(matched: string, s: string, keep: string -> bool)
    requires matched != "" && Replaced(matched, keep).Some? && IsQuotable(s, keep)
    requires |matched| == 1 || matched == LITERAL_RUN
    ensures IsQuotable(Replaced(matched, keep).value + s, keep)
  {
    EscapedLetters(matched[0]);
    if keep(matched) {
      assert |matched| == 1 ==> matched == [matched[0]];
      QuotableText(matched, s, keep);
    } else {
      QuotablePair(EscapeLetter(matched[0]).value, s, keep);
    }
  }

  /** Escaped text can be put between quotes. */
  lemma {:induction false} EscapedIsQuotable(text: string, keep: string -> bool)
    requires Escaped(text, keep).Some?
    ensures IsQuotable(Escaped(text, keep).value, keep)
    decreases |text|
  {
    if text != "" {
      var n := MatchLength(text);
      EscapedLetters(text[0]);
      if n == 0 {
        EscapedIsQuotable(text[1..], keep);
        QuotableText([text[0]], Escaped(text[1..], keep).value, keep);
      } else {
        EscapedIsQuotable(text[n..], keep);
        assert |text[..n]| == 1 || text[..n] == LITERAL_RUN;
        QuotableReplacement(text[..n], Escaped(text[n..], keep).value, keep);
      }
    }
  }

  // ---- Expanding escaped text

  /** The escaped text, character by character. */
  function Spelled(text: string, keep: string -> bool): string
    decreases |text|
  {
    if text == "" then "" else SpelledChar(text[0], keep) + Spelled(text[1..], keep)
  }

  function SpelledChar(c: char, keep: string -> bool): string {
    if EscapeOf(c).Some? && !keep([c]) then EscapeOf(c).value else [c]
  }

  lemma {:induction false} SpelledAsIs(first: string, after: string, keep: string -> bool)
    requires forall c :: c in first ==> EscapeOf(c).None?
    ensures Spelled(first + after, keep) == first + Spelled(after, keep)
    decreases |first|
  {
    if first == "" {
      assert first + after == after;
      assert first + Spelled(after, keep) == Spelled(after, keep);
    } else {
      assert (first + after)[1..] == first[1..] + after;
      SpelledAsIs(first[1..], after, keep);
      assert first[0] in first;
      assert [first[0]] + (first[1..] + Spelled(after, keep)) == first + Spelled(after, keep);
    }
  }

  /** Where escaping succeeds, a run of characters matched as a whole is no different from its characters. */
  lemma {:induction false} EscapedIsSpelled(text: string, keep: string -> bool)
    requires Escaped(text, keep).Some?
    ensures Escaped(text, keep).value == Spelled(text, keep)
    decreases |text|
  {
    if text != "" {
      var n := MatchLength(text);
      if n <= 1 {
        EscapedIsSpelled(text[1..], keep);
        assert text[..1] == [text[0]];
      } else {
        EscapedIsSpelled(text[n..], keep);
        assert text == LITERAL_RUN + text[n..];
        SpelledAsIs(LITERAL_RUN, text[n..], keep);
      }
    }
  }

  /** A position where keeping the character would make it a token that is not text. */
  predicate NeedsEscape(text: string, i: nat)
    requires i < |text|
  {
    text[i] == BACKSLASH || (text[i] == '$' && i + 1 < |text| && IsOpener(text[i + 1]))
  }

  /** No backslash is kept, and no dollar sign before an opening bracket. */
  predicate KeepsOnlyText(text: string, keep: string -> bool) {
    forall i :: 0 <= i < |text| && NeedsEscape(text, i) ==> !keep([text[i]])
  }

  lemma KeepsOnlyTextFrom(text: string, n: nat, keep: string -> bool)
    requires n <= |text| && KeepsOnlyText(text, keep)
    ensures KeepsOnlyText(text[n..], keep)
  {
    forall i | 0 <= i < |text[n..]| && NeedsEscape(text[n..], i)
      ensures !keep([text[n..][i]])
    {
      assert NeedsEscape(text, n + i);
    }
  }

  function Closing(closer: Option<char>): string {
    if closer.Some? then [closer.value] else ""
  }

  /** The first part of a text, the closing bracket that ends it, and what comes after. */
  datatype Split = Split(value: string, closer: Option<char>, after: string)

  /** Splits a text at the closing bracket without a partner of its own, if it is inside brackets. */
  function SplitAt(nested: bool, text: string): (p: Split)
    ensures |p.after| <= |text|
    ensures p.closer.None? ==> p.after == ""
    ensures p.closer.Some? ==> nested
    decreases |text|
  {
    if text == "" then Split("", None, "")
    else if nested && IsCloser(text[0]) then Split("", Some(text[0]), text[1..])
    else if IsOpener(text[0]) then
      var q := SplitAt(true, text[1..]);
      var r := SplitAt(nested, q.after);
      r.(value := [text[0]] + q.value + Closing(q.closer) + r.value)
    else
      var r := SplitAt(nested, text[1..]);
      r.(value := [text[0]] + r.value)
  }

  function Whole(p: Split): string {
    p.value + Closing(p.closer) + p.after
  }

  lemma WholePrefixed(prefix: string, p: Split)
    ensures Whole(p.(value := prefix + p.value)) == prefix + Whole(p)
  {
    assert prefix + p.value + Closing(p.closer) + p.after == prefix + (p.value + Closing(p.closer) + p.after);
  }

  lemma {:induction false} SplitIsWhole(nested: bool, text: string)
    ensures Whole(SplitAt(nested, text)) == text
    decreases |text|
  {
    if text == "" {
    } else if nested && IsCloser(text[0]) {
      assert "" + [text[0]] + text[1..] == text;
    } else if IsOpener(text[0]) {
      SplitIsWhole(true, text[1..]);
      SplitIsWhole(nested, SplitAt(true, text[1..]).after);
      GroupIsWhole(nested, text);
    } else {
      SplitIsWhole(nested, text[1..]);
      WholePrefixed([text[0]], SplitAt(nested, text[1..]));
    }
  }

  lemma GroupIsWhole(nested: bool, text: string)
    requires text != "" && IsOpener(text[0]) && Whole(SplitAt(true, text[1..])) == text[1..]
    requires Whole(SplitAt(nested, SplitAt(true, text[1..]).after)) == SplitAt(true, text[1..]).after
    ensures Whole(SplitAt(nested, text)) == text
  {
    var q := SplitAt(true, text[1..]);
    WholePrefixed([text[0]] + q.value + Closing(q.closer), SplitAt(nested, q.after));
  }

  lemma AfterKeepsOnlyText(nested: bool, text: string, keep: string -> bool)
    requires KeepsOnlyText(text, keep)
    ensures KeepsOnlyText(SplitAt(nested, text).after, keep)
  {
    var p := SplitAt(nested, text);
    SplitIsWhole(nested, text);
    var n := |p.value + Closing(p.closer)|;
    assert (p.value + Closing(p.closer) + p.after)[n..] == p.after;
    KeepsOnlyTextFrom(text, n, keep);
  }

  lemma LetterIsRead(c: char, after: string)
    requires EscapeLetter(c).Some?
    ensures var rest := [EscapeLetter(c).value] + after;
            LineEnd(rest) == None && Unescape(rest) == Stands(c, 1)
  {
    assert SpaceRun([EscapeLetter(c).value] + after) == 0;
  }

  lemma EscapeIsEmitted(nested: bool, c: char, s: Source)
    requires EscapeLetter(c).Some?
    ensures NextMove(nested, WithPrefix(EscapeOf(c).value, s)) == Emit([c], s)
  {
    var after := WithPrefix([EscapeLetter(c).value], s);
    LetterIsRead(c, s.rest);
    assert after.rest[1..] == s.rest;
    assert Backslash(after) == Yields([c], s);
    assert (EscapeOf(c).value + s.rest)[1..] == after.rest;
  }

  lemma PlainIsEmitted(nested: bool, c: char, s: Source)
    requires TokenAt([c] + s.rest, nested) == Plain
    ensures NextMove(nested, WithPrefix([c], s)) == Emit([c], s)
  {
    assert ([c] + s.rest)[1..] == s.rest;
  }

  lemma BracketIsRead(nested: bool, c: char, s: Source)
    ensures nested && IsCloser(c) ==> NextMove(nested, WithPrefix([c], s)) == Close(c, s)
    ensures IsOpener(c) ==> NextMove(nested, WithPrefix([c], s)) == Open(c, false, s)
  {
    assert ([c] + s.rest)[1..] == s.rest;
  }

  /** The expansion of `s` reads the text up to where it splits, and leaves what comes after to be read. */
  predicate ReadsUpTo(eval: Evaluator, nested: bool, s: Source, p: Split, after: Source, calls: seq<Call>) {
    Expand(eval, nested, s, calls) == Done(p.value, after, p.closer, calls)
  }

  function Escaping(text: string, keep: string -> bool): Source {
    Source(Spelled(text, keep), [])
  }

  /** Escaped text expands to the text, up to a closing bracket when inside brackets. */
  lemma {:induction false} EscapedExpands(eval: Evaluator, nested: bool, text: string, keep: string -> bool,
                                          calls: seq<Call>)
    requires KeepsOnlyText(text, keep)
    ensures var p := SplitAt(nested, text);
            ReadsUpTo(eval, nested, Escaping(text, keep), p, Escaping(p.after, keep), calls)
    decreases |text|
  {
    if text != "" {
      var c, rest := text[0], text[1..];
      var s, t := Escaping(text, keep), Escaping(rest, keep);
      KeepsOnlyTextFrom(text, 1, keep);
      FirstMove(nested, text, keep);
      if nested && IsCloser(c) {
        assert Expand(eval, nested, s, calls) == Done("", t, Some(c), calls);
      } else if IsOpener(c) {
        var q := SplitAt(true, rest);
        EscapedExpands(eval, true, rest, keep, calls);
        AfterKeepsOnlyText(true, rest, keep);
        EscapedExpands(eval, nested, q.after, keep, calls);
        var p := SplitAt(nested, q.after);
      } else {
        EscapedExpands(eval, nested, rest, keep, calls);
        var p := SplitAt(nested, rest);
      }
    }
  }

  /** How the expansion of an escaped text begins. */
  lemma FirstMove(nested: bool, text: string, keep: string -> bool)
    requires KeepsOnlyText(text, keep) && text != ""
    ensures NextMove(nested, Escaping(text, keep))
         == var t := Escaping(text[1..], keep);
            if nested && IsCloser(text[0]) then Close(text[0], t)
            else if IsOpener(text[0]) then Open(text[0], false, t)
            else Emit([text[0]], t)
  {
    var c, t := text[0], Escaping(text[1..], keep);
    if IsOpener(c) || (nested && IsCloser(c)) {
      BracketIsVerbatim(c, keep);
      BracketIsRead(nested, c, t);
    } else {
      CharIsEmitted(nested, text, keep);
    }
  }

  lemma BracketIsVerbatim(c: char, keep: string -> bool)
    requires IsOpener(c) || IsCloser(c)
    ensures SpelledChar(c, keep) == [c]
  {
  }

  lemma CharIsEmitted(nested: bool, text: string, keep: string -> bool)
    requires KeepsOnlyText(text, keep) && text != "" && !IsOpener(text[0]) && !(nested && IsCloser(text[0]))
    ensures var s := Escaping(text[1..], keep);
            NextMove(nested, WithPrefix(SpelledChar(text[0], keep), s)) == Emit([text[0]], s)
  {
    var c, s := text[0], Escaping(text[1..], keep);
    if EscapeOf(c).Some? && !keep([c]) {
      EscapeIsEmitted(nested, c, s);
    } else {
      assert !NeedsEscape(text, 0);
      PlainIsEmitted(nested, c, s);
    }
  }

  /** Substituting in an escaped text gives the text back without evaluating anything, whatever brackets it has. */
  lemma EscapedSubstitutesBack(eval: Evaluator, text: string, keep: string -> bool)
    requires Escaped(text, keep).Some? && KeepsOnlyText(text, keep)
    ensures Substitute(eval, Text(Escaped(text, keep).value)) == Substituted(text, [])
  {
    EscapedIsSpelled(text, keep);
    EscapedExpands(eval, false, text, keep, []);
    SplitIsWhole(false, text);
    assert SplitAt(false, text).value + "" + "" == SplitAt(false, text).value;
  }

  /** By default nothing is kept: then any text without the run survives. */
  lemma EscapeRoundTrip(eval: Evaluator, text: string)
    ensures Escaped(text, _ => false).Some? <==> !ContainsRun(text)
    ensures !ContainsRun(text) ==>
              Substitute(eval, Text(Escaped(text, _ => false).value)) == Substituted(text, [])
  {
    EscapingFailsIff(text, _ => false);
    if !ContainsRun(text) {
      EscapedSubstitutesBack(eval, text, _ => false);
    }
  }

  lemma {:induction false} KeepingAllChangesNothing(text: string)
    ensures Escaped(text, _ => true) == Some(text)
    decreases |text|
  {
    if text != "" {
      var n := MatchLength(text);
      if n == 0 {
        KeepingAllChangesNothing(text[1..]);
        assert [text[0]] + text[1..] == text;
      } else {
        KeepingAllChangesNothing(text[n..]);
        assert text[..n] + text[n..] == text;
      }
    }
  }

  /** `after` is what remains of `before`, and nothing in between needs an escape. */
  predicate ReadsOnlyText(before: string, after: string) {
    && |after| <= |before|
    && forall i :: 0 <= i < |before| - |after| ==> !NeedsEscape(before, i)
  }

  predicate Remains(before: string, after: string) {
    |after| <= |before| && before[|before| - |after|..] == after
  }

  lemma RemainsTwice(a: string, b: string, c: string)
    requires Remains(a, b) && Remains(b, c)
    ensures Remains(a, c) && (ReadsOnlyText(a, b) && ReadsOnlyText(b, c) ==> ReadsOnlyText(a, c))
  {
    var n, m := |a| - |b|, |b| - |c|;
    assert a[n..][m..] == a[n + m..];
    if ReadsOnlyText(a, b) && ReadsOnlyText(b, c) {
      forall i | 0 <= i < n + m
        ensures !NeedsEscape(a, i)
      {
        if i >= n {
          assert b[i - n] == a[i];
          assert !NeedsEscape(b, i - n);
        }
      }
    }
  }

  lemma BackslashShrinks(s: Source)
    requires s.lines == [] && Backslash(s).Yields?
    ensures var r := Backslash(s);
            r.source.lines == [] && Remains(s.rest, r.source.rest) && |r.text| + |r.source.rest| <= |s.rest|
  {
  }

  /** A move emits less than it reads, unless it reads plain text. */
  predicate Lessens(s: Source, m: Move) {
    && (m.Emit? || m.Close? || m.Open? ==> m.source.lines == [] && Remains(s.rest, m.source.rest))
    && (m.Emit? ==> |m.text| + |m.source.rest| <= |s.rest|)
    && (m.Emit? && |m.text| + |m.source.rest| == |s.rest| ==> ReadsOnlyText(s.rest, m.source.rest))
    && (m.Close? || (m.Open? && !m.evaluated) ==>
          1 + |m.source.rest| == |s.rest| && ReadsOnlyText(s.rest, m.source.rest))
  }

  lemma EscapeShrinks(nested: bool, s: Source)
    requires s.lines == [] && s.rest != "" && TokenAt(s.rest, nested).Escape?
    ensures Lessens(s, NextMove(nested, s))
  {
    var after := s.(rest := s.rest[1..]);
    if Backslash(after).Yields? {
      BackslashShrinks(after);
      assert Remains(s.rest, after.rest);
      RemainsOnly(s.rest, after.rest, Backslash(after).source.rest);
    }
  }

  lemma OtherMoveShrinks(nested: bool, s: Source)
    requires s.lines == [] && (s.rest == "" || !TokenAt(s.rest, nested).Escape?)
    ensures Lessens(s, NextMove(nested, s))
  {
  }

  /** So does every move on the last line. */
  lemma MoveShrinks(nested: bool, s: Source)
    requires s.lines == []
    ensures Lessens(s, NextMove(nested, s))
  {
    if s.rest != "" && TokenAt(s.rest, nested).Escape? {
      EscapeShrinks(nested, s);
    } else {
      OtherMoveShrinks(nested, s);
    }
  }

  lemma RemainsOnly(a: string, b: string, c: string)
    requires Remains(a, b) && Remains(b, c)
    ensures Remains(a, c)
  {
    assert a[|a| - |b|..][|b| - |c|..] == a[|a| - |c|..];
  }

  /** What is known when nothing was evaluated: the result is no longer than the text, and as long only if plain. */
  predicate Shrinks(s: Source, calls: seq<Call>, r: Result) {
    r.Done? ==>
      && r.source.lines == [] && Remains(s.rest, r.source.rest) && |calls| <= |r.calls|
      && (|calls| == |r.calls| ==>
            var size := |r.value| + |Closing(r.closer)| + |r.source.rest|;
            size <= |s.rest| && (size == |s.rest| ==> ReadsOnlyText(s.rest, r.source.rest)))
  }

  lemma ShrinksFurther(s: Source, calls: seq<Call>, first: string, t: Source, made: seq<Call>, r: Result)
    requires Remains(s.rest, t.rest) && |calls| <= |made|
    requires |calls| == |made| ==> |first| + |t.rest| <= |s.rest|
    requires |calls| == |made| && |first| + |t.rest| == |s.rest| ==> ReadsOnlyText(s.rest, t.rest)
    requires Shrinks(t, made, r)
    ensures Shrinks(s, calls, Prefixed(first, r))
  {
    if r.Done? {
      RemainsTwice(s.rest, t.rest, r.source.rest);
    }
  }

  lemma {:induction false} ExpansionShrinks(eval: Evaluator, nested: bool, s: Source, calls: seq<Call>)
    requires s.lines == []
    ensures Shrinks(s, calls, Expand(eval, nested, s, calls))
    decreases |s.rest|, 1
  {
    MoveShrinks(nested, s);
    match NextMove(nested, s)
    case Finish =>
    case Close(_, _) =>
    case Crash(_) =>
    case Emit(text, t) =>
      ExpansionShrinks(eval, nested, t, calls);
      ShrinksFurther(s, calls, text, t, calls, Expand(eval, nested, t, calls));
    case Open(open, evaluated, t) =>
      var part := Bracketed(eval, open, evaluated, Expand(eval, true, t, calls));
      BracketsShrink(eval, nested, s, calls);
      if part.Done? {
        ExpansionShrinks(eval, nested, part.source, part.calls);
        ShrinksFurther(s, calls, part.value, part.source, part.calls, Expand(eval, nested, part.source, part.calls));
      }
  }

  lemma {:induction false} BracketsShrink(eval: Evaluator, nested: bool, s: Source, calls: seq<Call>)
    requires s.lines == [] && NextMove(nested, s).Open?
    ensures var m := NextMove(nested, s);
            Shrinks(s, calls, Bracketed(eval, m.open, m.evaluated, Expand(eval, true, m.source, calls)))
    decreases |s.rest|, 0
  {
    var m := NextMove(nested, s);
    MoveShrinks(nested, s);
    ExpansionShrinks(eval, true, m.source, calls);
    var contents := Expand(eval, true, m.source, calls);
    if contents.Done? {
      RemainsTwice(s.rest, m.source.rest, contents.source.rest);
    }
  }

  /**
   A text expands to itself without anything being evaluated exactly when it has no backslash, and no dollar sign
   before an opening bracket.
   */
  lemma PlainTextIsUnchangedIff(eval: Evaluator, text: string)
    ensures Substitute(eval, Text(text)) == Substituted(text, [])
       <==> forall i :: 0 <= i < |text| ==> !NeedsEscape(text, i)
  {
    if forall i :: 0 <= i < |text| ==> !NeedsEscape(text, i) {
      KeepingAllChangesNothing(text);
      EscapedSubstitutesBack(eval, text, _ => true);
    }
    ExpansionShrinks(eval, false, Source(text, []), []);
    TopLevelReadsAll(eval, Source(text, []), []);
  }
}
