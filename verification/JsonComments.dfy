/** Removal of comments from JSON text by a single substitution over a fixed pattern. */
module JsonComments {
  import opened Options
  import opened Collections

  // ---- What the pattern matches in front of a text

  /** The length up to the end of the line. */
  function LineLength(s: string): (n: nat)
    ensures n <= |s|
    ensures forall i :: 0 <= i < n ==> s[i] != '\n'
    ensures n < |s| ==> s[n] == '\n'
  {
    if s == "" || s[0] == '\n' then 0 else 1 + LineLength(s[1..])
  }

  /** The length up to and including the first end of a block comment. */
  function BlockLength(s: string): (r: Option<nat>)
    ensures r.Some? ==> 2 <= r.value <= |s|
  {
    if |s| < 2 then None
    else if s[0] == '*' && s[1] == '/' then Some(2)
    else
      var r := BlockLength(s[1..]);
      if r.Some? then Some(r.value + 1) else None
  }

  /** The length up to and including the closing quote; a backslash takes the next character with it. */
  function StringLength(s: string, quote: char): (r: Option<nat>)
    ensures r.Some? ==> 1 <= r.value <= |s|
    decreases |s|
  {
    if s == "" then None
    else if s[0] == quote then Some(1)
    else if s[0] == '\\' then
      if |s| < 2 then None
      else
        var r := StringLength(s[2..], quote);
        if r.Some? then Some(r.value + 2) else None
    else
      var r := StringLength(s[1..], quote);
      if r.Some? then Some(r.value + 1) else None
  }

  predicate IsQuote(c: char) {
    c == '\'' || c == '\"'
  }

  /** An alternative that matches, and the length of its match. */
  datatype Match =
    | NoMatch
    | LineComment(marker: string, length: nat)
    | BlockComment(length: nat)
    | Quoted(length: nat)

  /** The alternatives of the pattern, in order. */
  function MatchAt(s: string): (m: Match)
    requires s != ""
    ensures m.LineComment? ==> 0 < |m.marker| <= m.length <= |s| && m.marker <= s
    ensures m.BlockComment? ==> 4 <= m.length <= |s|
    ensures m.Quoted? ==> 2 <= m.length <= |s|
  {
    if |s| >= 2 && s[0] == '/' && s[1] == '/' then LineComment("//", 2 + LineLength(s[2..]))
    else if |s| >= 2 && s[0] == '/' && s[1] == '*' && BlockLength(s[2..]).Some? then
      BlockComment(2 + BlockLength(s[2..]).value)
    else if s[0] == '#' then LineComment("#", 1 + LineLength(s[1..]))
    else if IsQuote(s[0]) && StringLength(s[1..], s[0]).Some? then
      Quoted(1 + StringLength(s[1..], s[0]).value)
    else NoMatch
  }

  /** Drops comments, keeps strings and everything that does not match. */
  function RemoveComments(s: string): string
    decreases |s|
  {
    if s == "" then ""
    else
      match MatchAt(s)
      case LineComment(_, n) => RemoveComments(s[n..])
      case BlockComment(n) => RemoveComments(s[n..])
      case Quoted(n) => s[..n] + RemoveComments(s[n..])
      case NoMatch => [s[0]] + RemoveComments(s[1..])
  }

  // ---- Documents

  /** A text as a sequence of plain characters, strings and comments. */
  datatype Document =
    | Nil
    | Plain(c: char, next: Document)
    | Text(quote: char, body: string, next: Document)
    | Line(marker: string, body: string, next: Document)
    | Block(body: string, next: Document)

  function Render(d: Document): string {
    match d
    case Nil => ""
    case Plain(c, next) => [c] + Render(next)
    case Text(quote, body, next) => [quote] + body + [quote] + Render(next)
    case Line(marker, body, next) => marker + body + Render(next)
    case Block(body, next) => "/*" + body + "*/" + Render(next)
  }

  function WithoutComments(d: Document): Document {
    match d
    case Nil => Nil
    case Plain(c, next) => Plain(c, WithoutComments(next))
    case Text(quote, body, next) => Text(quote, body, WithoutComments(next))
    case Line(_, _, next) => WithoutComments(next)
    case Block(_, next) => WithoutComments(next)
  }

  /** The inside of a string: escaped characters, and characters other than the quote and the backslash. */
  predicate IsStringBody(body: string, quote: char)
    decreases |body|
  {
    body == ""
    || (body[0] == '\\' && |body| >= 2 && IsStringBody(body[2..], quote))
    || (body[0] != '\\' && body[0] != quote && IsStringBody(body[1..], quote))
  }

  predicate IsBlockEnd(s: string, i: nat) {
    i + 1 < |s| && s[i] == '*' && s[i + 1] == '/'
  }

  predicate ContainsBlockEnd(s: string) {
    exists i :: 0 <= i < |s| && IsBlockEnd(s, i)
  }

  predicate IsTerminated(s: string, quote: char)
    decreases |s|
  {
    s != "" && (s[0] == quote
                || (s[0] == '\\' && |s| >= 2 && IsTerminated(s[2..], quote))
                || (s[0] != '\\' && IsTerminated(s[1..], quote)))
  }

  /** A character that begins neither a comment nor a string, given what comes after it. */
  predicate IsPlain(c: char, after: string) {
    && c != '#'
    && (c == '/' && after != "" ==> after[0] != '/' && (after[0] == '*' ==> !ContainsBlockEnd(after[1..])))
    && (IsQuote(c) ==> !IsTerminated(after, c))
  }

  predicate WellFormed(d: Document) {
    match d
    case Nil => true
    case Plain(c, next) => IsPlain(c, Render(next)) && WellFormed(next)
    case Text(quote, body, next) => IsQuote(quote) && IsStringBody(body, quote) && WellFormed(next)
    case Line(marker, body, next) =>
      && (marker == "//" || marker == "#") && '\n' !in body
      && (next == Nil || (next.Plain? && next.c == '\n'))
      && WellFormed(next)
    case Block(body, next) => !ContainsBlockEnd(body) && WellFormed(next)
  }

  // ---- Matches of documents

  lemma {:induction false} LineEnds(body: string, after: string)
    requires '\n' !in body && (after == "" || after[0] == '\n')
    ensures LineLength(body + after) == |body|
    decreases |body|
  {
    if body == "" {
      assert body + after == after;
    } else {
      assert (body + after)[1..] == body[1..] + after;
      assert body[0] in body;
      LineEnds(body[1..], after);
    }
  }

  lemma EndShifts(s: string)
    requires s != ""
    ensures ContainsBlockEnd(s) <==> IsBlockEnd(s, 0) || ContainsBlockEnd(s[1..])
  {
    if ContainsBlockEnd(s[1..]) {
      var i :| 0 <= i < |s[1..]| && IsBlockEnd(s[1..], i);
      assert IsBlockEnd(s, i + 1);
    }
    if ContainsBlockEnd(s) {
      var i :| 0 <= i < |s| && IsBlockEnd(s, i);
      if i > 0 {
        assert IsBlockEnd(s[1..], i - 1);
      }
    }
  }

  lemma {:induction false} BlockEnds(body: string, after: string)
    requires !ContainsBlockEnd(body)
    ensures BlockLength(body + ("*/" + after)) == Some(|body| + 2)
    decreases |body|
  {
    var s := body + ("*/" + after);
    if body == "" {
      assert s == "*/" + after;
    } else {
      assert s[1..] == body[1..] + ("*/" + after);
      EndShifts(body);
      assert s[1] == if |body| >= 2 then body[1] else '*';
      BlockEnds(body[1..], after);
    }
  }

  lemma {:induction false} BlockLengthIff(s: string)
    ensures BlockLength(s).Some? <==> ContainsBlockEnd(s)
    decreases |s|
  {
    if |s| >= 2 {
      EndShifts(s);
      BlockLengthIff(s[1..]);
    }
  }

  lemma {:induction false} StringEnds(body: string, quote: char, after: string)
    requires IsStringBody(body, quote) && IsQuote(quote)
    ensures StringLength(body + ([quote] + after), quote) == Some(|body| + 1)
    decreases |body|
  {
    var s := body + ([quote] + after);
    if body == "" {
      assert s == [quote] + after;
    } else if body[0] == '\\' {
      assert s[2..] == body[2..] + ([quote] + after);
      StringEnds(body[2..], quote, after);
    } else {
      assert s[1..] == body[1..] + ([quote] + after);
      StringEnds(body[1..], quote, after);
    }
  }

  lemma {:induction false} StringLengthIff(s: string, quote: char)
    ensures StringLength(s, quote).Some? <==> IsTerminated(s, quote)
    decreases |s|
  {
    if s != "" && s[0] != quote {
      if s[0] != '\\' {
        StringLengthIff(s[1..], quote);
      } else if |s| >= 2 {
        StringLengthIff(s[2..], quote);
      }
    }
  }

  /** A plain character is not matched, and nothing else is left out. */
  lemma PlainIff(c: char, after: string)
    ensures MatchAt([c] + after).NoMatch? <==> IsPlain(c, after)
  {
    var s := [c] + after;
    assert s[1..] == after;
    if after != "" {
      assert s[2..] == after[1..];
      BlockLengthIff(after[1..]);
    }
    StringLengthIff(after, c);
  }

  lemma TextMatches(quote: char, body: string, after: string)
    requires IsQuote(quote) && IsStringBody(body, quote)
    ensures MatchAt([quote] + body + [quote] + after) == Quoted(|body| + 2)
  {
    var s := [quote] + body + [quote] + after;
    Associative([quote] + body, [quote], after);
    Associative([quote], body, [quote] + after);
    assert s[1..] == body + ([quote] + after);
    StringEnds(body, quote, after);
  }

  lemma LineMatches(marker: string, body: string, after: string)
    requires (marker == "//" || marker == "#") && '\n' !in body && (after == "" || after[0] == '\n')
    ensures MatchAt(marker + body + after) == LineComment(marker, |marker| + |body|)
  {
    var s := marker + body + after;
    assert s[|marker|..] == body + after;
    LineEnds(body, after);
  }

  lemma BlockMatches(body: string, after: string)
    requires !ContainsBlockEnd(body)
    ensures MatchAt("/*" + body + "*/" + after) == BlockComment(|body| + 4)
  {
    var s := "/*" + body + "*/" + after;
    assert s[2..] == body + ("*/" + after);
    BlockEnds(body, after);
  }

  /**
   Removing comments from the text of a document leaves the document without its comments: markers inside strings
   and quotes inside comments have no effect.
   */
  lemma {:induction false} CommentsAreRemoved(d: Document)
    requires WellFormed(d)
    ensures RemoveComments(Render(d)) == Render(WithoutComments(d))
    decreases d
  {
    match d
    case Nil =>
    case Plain(c, next) =>
      PlainIff(c, Render(next));
      assert Render(d)[1..] == Render(next);
      CommentsAreRemoved(next);
    case Text(quote, body, next) =>
      TextMatches(quote, body, Render(next));
      var text := [quote] + body + [quote];
      assert Render(d) == text + Render(next);
      assert Render(d)[|body| + 2..] == Render(next) && Render(d)[..|body| + 2] == text;
      CommentsAreRemoved(next);
    case Line(marker, body, next) =>
      LineMatches(marker, body, Render(next));
      assert Render(d)[|marker| + |body|..] == Render(next);
      CommentsAreRemoved(next);
    case Block(body, next) =>
      BlockMatches(body, Render(next));
      assert Render(d)[|body| + 4..] == Render(next);
      CommentsAreRemoved(next);
  }

  // ---- Every text is a document

  /** The document that a text is. */
  function Lex(s: string): Document
    decreases |s|
  {
    if s == "" then Nil
    else
      match MatchAt(s)
      case NoMatch => Plain(s[0], Lex(s[1..]))
      case Quoted(n) => Text(s[0], s[1..n - 1], Lex(s[n..]))
      case LineComment(marker, n) => Line(marker, s[|marker|..n], Lex(s[n..]))
      case BlockComment(n) => Block(s[2..n - 2], Lex(s[n..]))
  }

  lemma Shifted(s: string, n: nat)
    requires 2 < n <= |s|
    ensures s[..n - 2][1..] == s[1..][..n - 3] && s[n - 2..n] == s[1..][n - 3..n - 1]
  {
    assert s[..n - 2][1..] == s[1..n - 2] == s[1..][..n - 3];
    assert s[1..][n - 3..n - 1] == s[n - 2..n];
  }

  lemma {:induction false} BlockBody(s: string)
    requires BlockLength(s).Some?
    ensures var n := BlockLength(s).value;
            s[n - 2..n] == "*/" && !ContainsBlockEnd(s[..n - 2])
    decreases |s|
  {
    var n := BlockLength(s).value;
    if n > 2 {
      BlockBody(s[1..]);
      EndShifts(s[..n - 2]);
      Shifted(s, n);
    }
  }

  lemma {:induction false} StringBody(s: string, quote: char)
    requires StringLength(s, quote).Some? && IsQuote(quote)
    ensures var n := StringLength(s, quote).value;
            s[n - 1] == quote && IsStringBody(s[..n - 1], quote)
    decreases |s|
  {
    var n := StringLength(s, quote).value;
    if s[0] == quote {
    } else if s[0] == '\\' {
      StringBody(s[2..], quote);
      assert s[..n - 1][2..] == s[2..][..n - 3];
    } else {
      StringBody(s[1..], quote);
      assert s[..n - 1][1..] == s[1..][..n - 2];
    }
  }

  lemma LineIsFollowed(s: string, n: nat)
    requires n <= |s| && (n < |s| ==> s[n] == '\n')
    ensures var next := Lex(s[n..]);
            next == Nil || (next.Plain? && next.c == '\n')
  {
  }

  lemma LexedText(s: string, n: nat)
    requires s != "" && MatchAt(s) == Quoted(n)
    ensures IsQuote(s[0]) && IsStringBody(s[1..n - 1], s[0])
    ensures s == [s[0]] + s[1..n - 1] + [s[0]] + s[n..]
  {
    StringBody(s[1..], s[0]);
    assert s[1..][..n - 2] == s[1..n - 1];
    assert s[1..][n - 2] == s[n - 1];
  }

  lemma LexedLine(s: string, marker: string, n: nat)
    requires s != "" && MatchAt(s) == LineComment(marker, n)
    ensures (marker == "//" || marker == "#") && '\n' !in s[|marker|..n] && (n < |s| ==> s[n] == '\n')
    ensures s == marker + s[|marker|..n] + s[n..]
  {
    var body := s[|marker|..];
    assert s[|marker|..n] == body[..n - |marker|];
    assert n < |s| ==> s[n] == body[n - |marker|];
  }

  lemma LexedBlock(s: string, n: nat)
    requires s != "" && MatchAt(s) == BlockComment(n)
    ensures !ContainsBlockEnd(s[2..n - 2])
    ensures s == "/*" + s[2..n - 2] + "*/" + s[n..]
  {
    BlockStart(s, n);
    BlockInside(s, n);
    CutBlock(s, n);
  }

  lemma BlockStart(s: string, n: nat)
    requires s != "" && MatchAt(s) == BlockComment(n)
    ensures 4 <= n <= |s| && s[..2] == "/*" && BlockLength(s[2..]) == Some(n - 2)
  {
  }

  lemma BlockInside(s: string, n: nat)
    requires 4 <= n <= |s| && BlockLength(s[2..]) == Some(n - 2)
    ensures s[n - 2..n] == "*/" && !ContainsBlockEnd(s[2..n - 2])
  {
    BlockBody(s[2..]);
    assert s[2..][..n - 4] == s[2..n - 2];
    assert s[2..][n - 4..n - 2] == s[n - 2..n];
  }

  lemma CutBlock(s: string, n: nat)
    requires 4 <= n <= |s| && s[..2] == "/*" && s[n - 2..n] == "*/"
    ensures s == "/*" + s[2..n - 2] + "*/" + s[n..]
  {
  }

  /** The document of a text renders it, and is well-formed. */
  predicate IsLexed(s: string) {
    Render(Lex(s)) == s && WellFormed(Lex(s))
  }

  lemma PlainIsLexed(s: string)
    requires s != "" && MatchAt(s).NoMatch? && IsLexed(s[1..])
    ensures IsLexed(s)
  {
    assert [s[0]] + s[1..] == s;
    PlainIff(s[0], s[1..]);
  }

  lemma StringIsLexed(s: string, n: nat)
    requires s != "" && MatchAt(s) == Quoted(n) && IsLexed(s[n..])
    ensures IsLexed(s)
  {
    LexedText(s, n);
  }

  lemma LineIsLexed(s: string, marker: string, n: nat)
    requires s != "" && MatchAt(s) == LineComment(marker, n) && IsLexed(s[n..])
    ensures IsLexed(s)
  {
    LexedLine(s, marker, n);
    LineIsFollowed(s, n);
  }

  lemma BlockIsLexed(s: string, n: nat)
    requires s != "" && MatchAt(s) == BlockComment(n) && IsLexed(s[n..])
    ensures IsLexed(s)
  {
    LexedBlock(s, n);
  }

  /** Every text is the text of a well-formed document. */
  lemma {:induction false} EveryTextIsADocument(s: string)
    ensures IsLexed(s)
    decreases |s|
  {
    if s != "" {
      match MatchAt(s)
      case NoMatch =>
        EveryTextIsADocument(s[1..]);
        PlainIsLexed(s);
      case Quoted(n) =>
        EveryTextIsADocument(s[n..]);
        StringIsLexed(s, n);
      case LineComment(marker, n) =>
        EveryTextIsADocument(s[n..]);
        LineIsLexed(s, marker, n);
      case BlockComment(n) =>
        EveryTextIsADocument(s[n..]);
        BlockIsLexed(s, n);
    }
  }

  /** What remains of any text is its document without the comments. */
  lemma RemovesExactlyTheComments(s: string)
    ensures RemoveComments(s) == Render(WithoutComments(Lex(s)))
  {
    EveryTextIsADocument(s);
    CommentsAreRemoved(Lex(s));
  }

  // ---- What is removed and what is kept

  /** A string in either kind of quotes is kept, whatever is in it. */
  lemma StringIsKept(quote: char, body: string, after: string)
    requires (quote == '"' || quote == '\'') && IsStringBody(body, quote)
    ensures RemoveComments([quote] + body + [quote] + after) == [quote] + body + [quote] + RemoveComments(after)
  {
    var s := [quote] + body + [quote] + after;
    TextMatches(quote, body, after);
    assert s[..|body| + 2] == [quote] + body + [quote] && s[|body| + 2..] == after;
  }

  /** A line comment is removed up to the end of its line. */
  lemma LineCommentIsRemoved(marker: string, body: string, after: string)
    requires (marker == "//" || marker == "#") && '\n' !in body && (after == "" || after[0] == '\n')
    ensures RemoveComments(marker + body + after) == RemoveComments(after)
  {
    var s := marker + body + after;
    LineMatches(marker, body, after);
    assert s[|marker| + |body|..] == after;
  }

  /** A block comment is removed up to its first end. */
  lemma BlockCommentIsRemoved(body: string, after: string)
    requires forall i :: 0 <= i < |body| - 1 ==> !(body[i] == '*' && body[i + 1] == '/')
    ensures RemoveComments("/*" + body + "*/" + after) == RemoveComments(after)
  {
    var s := "/*" + body + "*/" + after;
    BlockMatches(body, after);
    assert s[|body| + 4..] == after;
  }

  /** Any other character is kept. */
  lemma OtherTextIsKept(c: char, after: string)
    requires c != '/' && c != '#' && c != '"' && c != '\''
    ensures RemoveComments([c] + after) == [c] + RemoveComments(after)
  {
    assert ([c] + after)[1..] == after;
  }
}
