/**
 The tokens of a text with placeholders, and the backslash sequences in it.

 Texts are read from the front: `rest` is what remains of the text after the current position.
 */
module ExpanderSyntax {
  import opened Options
  import opened Patterns

  const BACKSLASH: char := '\\'

  predicate IsOpener(c: char) {
    c == '{' || c == '[' || c == '('
  }

  predicate IsCloser(c: char) {
    c == '}' || c == ']' || c == ')'
  }

  /** The closing bracket that a subexpression needs. */
  function CloserOf(open: char): char {
    if open == '{' then '}' else if open == '[' then ']' else ')'
  }

  datatype Token = Plain | Escape | Subexpression(open: char) | Nested(open: char) | End(close: char)

  /** What stands at the front of a text; closing brackets only count inside brackets. */
  function TokenAt(rest: string, nested: bool): (t: Token)
    requires rest != ""
    ensures t.Subexpression? ==> |rest| > 1 && IsOpener(t.open)
    ensures t.Nested? ==> IsOpener(t.open)
  {
    var c := rest[0];
    if c == BACKSLASH then Escape
    else if c == '$' && |rest| > 1 && IsOpener(rest[1]) then Subexpression(rest[1])
    else if IsOpener(c) then Nested(c)
    else if nested && IsCloser(c) then End(c)
    else Plain
  }

  // ---- Line continuation

  function AfterLastNewline(s: string): (n: nat)
    ensures n <= |s|
    ensures n > 0 ==> s[n - 1] == '\n'
    ensures forall i :: n <= i < |s| ==> s[i] != '\n'
  {
    if s == "" then 0
    else if s[|s| - 1] == '\n' then |s|
    else AfterLastNewline(s[..|s| - 1])
  }

  /** White space up to a line end: it reaches the end of the text, or ends in a newline. */
  predicate IsLineEnd(s: string, n: nat) {
    n <= |s| && AllSpace(s[..n]) && (n == |s| || (n > 0 && s[n - 1] == '\n'))
  }

  /** The longest line end in front of a text. */
  function LineEnd(s: string): (r: Option<nat>)
    ensures r.Some? ==> r.value <= |s|
  {
    var run := SpaceRun(s);
    if run == |s| then Some(run)
    else
      var n := AfterLastNewline(s[..run]);
      if n > 0 then Some(n) else None
  }

  lemma LineEndIsLongest(s: string)
    ensures LineEnd(s).Some? ==> IsLineEnd(s, LineEnd(s).value)
    ensures forall n: nat :: IsLineEnd(s, n) ==> LineEnd(s).Some? && n <= LineEnd(s).value
  {
    var run := SpaceRun(s);
    forall n: nat | IsLineEnd(s, n)
      ensures LineEnd(s).Some? && n <= LineEnd(s).value
    {
      SpaceRunIsLongest(s, n);
      if run < |s| {
        assert s[..run][n - 1] == '\n';
      }
    }
  }

  // ---- Backslash sequences

  predicate IsOctal(c: char) {
    '0' <= c <= '7'
  }

  predicate IsHex(c: char) {
    '0' <= c <= '9' || 'a' <= c <= 'f' || 'A' <= c <= 'F'
  }

  function HexDigit(c: char): (n: nat)
    requires IsHex(c)
    ensures n < 16
  {
    if '0' <= c <= '9' then c as int - '0' as int
    else if 'a' <= c <= 'f' then c as int - 'a' as int + 10
    else c as int - 'A' as int + 10
  }

  predicate AllHex(s: string) {
    forall i :: 0 <= i < |s| ==> IsHex(s[i])
  }

  /** The characters that single letters stand for. */
  function ControlCode(c: char): Option<char> {
    match c
    case '0' => Some(0 as char)
    case 'a' => Some(7 as char)
    case 'b' => Some(8 as char)
    case 'n' => Some('\n')
    case 'f' => Some(12 as char)
    case 'r' => Some('\r')
    case 't' => Some('\t')
    case 'v' => Some(11 as char)
    case _ => None
  }

  /** What a backslash sequence stands for and how long it is, or a crash on an unsupported one. */
  datatype Sequence = Stands(c: char, length: nat) | Unsupported

  function Unescape(rest: string): (r: Sequence)
    requires rest != ""
    ensures r.Stands? ==> 0 < r.length <= |rest|
  {
    if |rest| >= 3 && IsOctal(rest[0]) && IsOctal(rest[1]) && IsOctal(rest[2]) then
      Stands((64 * HexDigit(rest[0]) + 8 * HexDigit(rest[1]) + HexDigit(rest[2])) as char, 3)
    else if |rest| >= 3 && rest[0] == 'x' && IsHex(rest[1]) && IsHex(rest[2]) then
      Stands((16 * HexDigit(rest[1]) + HexDigit(rest[2])) as char, 3)
    else if ControlCode(rest[0]).Some? then
      Stands(ControlCode(rest[0]).value, 1)
    else if || (rest[0] == 'u' && |rest| >= 5 && AllHex(rest[1..5]))
            || (rest[0] == 'U' && |rest| >= 9 && AllHex(rest[1..9])) then
      Unsupported
    else
      Stands(rest[0], 1)
  }

  /** A text that begins with the code of a character, supported or not. */
  predicate BeginsCode(rest: string) {
    || (|rest| >= 3 && IsOctal(rest[0]) && IsOctal(rest[1]) && IsOctal(rest[2]))
    || (|rest| >= 3 && rest[0] == 'x' && AllHex(rest[1..3]))
    || (|rest| >= 5 && rest[0] == 'u' && AllHex(rest[1..5]))
    || (|rest| >= 9 && rest[0] == 'U' && AllHex(rest[1..9]))
    || (rest != "" && rest[0] in "0abnfrtv")
  }

  /** A backslash yields the next character exactly when that neither begins a code nor a line end. */
  lemma QuotesIff(rest: string)
    requires rest != ""
    ensures LineEnd(rest).None? && Unescape(rest) == Stands(rest[0], 1) <==>
            (forall n :: !IsLineEnd(rest, n)) && !BeginsCode(rest)
  {
    LineEndIsLongest(rest);
    if |rest| >= 3 {
      assert AllHex(rest[1..3]) <==> IsHex(rest[1..3][0]) && IsHex(rest[1..3][1]);
    }
  }

  /** A backslash before a character that is neither white space nor part of a code yields the character. */
  lemma BackslashQuotes(c: char, after: string)
    requires !IsSpace(c) && !IsHex(c) && ControlCode(c).None? && c != 'x' && c != 'u' && c != 'U'
    ensures LineEnd([c] + after) == None && Unescape([c] + after) == Stands(c, 1)
  {
    assert SpaceRun([c] + after) == 0;
  }
}
