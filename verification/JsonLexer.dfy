/**
  The scanner of json.hpp. Scan says what the next token of a text is, by its grammar; Lexer.Scan
  is the automaton re2c generated, label by label, with its marker for backtracking, over a buffer
  that ends in a NUL byte. The first is what the second is proved to compute.
*/
module JsonLexer {
  import opened Machine
  import opened Ascii

  datatype Token =
    | LiteralTrue
    | LiteralFalse
    | LiteralNull
    | ValueString
    | ValueNumber
    | BeginArray
    | BeginObject
    | EndArray
    | EndObject
    | NameSeparator
    | ValueSeparator
    | ParseError
    | EndOfInput

  /** A token and where it lies: m_start and m_cursor after a call of scan. */
  datatype Lexeme = Lexeme(token: Token, start: nat, end: nat)

  /** The byte at p of a NUL-terminated text. */
  function At(s: bytes, p: nat): byte {
    if p < |s| then s[p] else NUL
  }

  // ----- the grammar of tokens -----

  predicate IsSpace(b: byte) { b == SPACE || b == TAB || b == NEWLINE || b == RETURN }

  predicate IsEscape(b: byte) {
    || b == QUOTE || b == SLASH || b == BACKSLASH || b == LOWER_B || b == LOWER_F || b == LOWER_N
    || b == LOWER_R || b == LOWER_T
  }

  /** n hexadecimal digits at p. */
  predicate HexRun(s: bytes, p: nat, n: nat): (r: bool)
    ensures r && p <= |s| ==> p + n <= |s|
    decreases n
  {
    n == 0 || (IsHex(At(s, p)) && HexRun(s, p + 1, n - 1))
  }

  /** The end of a string token whose body starts at p, just past its closing quote. */
  function StringEnd(s: bytes, p: nat): (r: Option<nat>)
    requires p <= |s|
    ensures r.Some? ==> p < r.value <= |s| && s[r.value - 1] == QUOTE
    decreases |s| - p
  {
    var b := At(s, p);
    if b == QUOTE then Some(p + 1)
    else if b == BACKSLASH then
      if IsEscape(At(s, p + 1)) then StringEnd(s, p + 2)
      else if At(s, p + 1) == LOWER_U && HexRun(s, p + 2, 4) then StringEnd(s, p + 6)
      else None
    else if b <= 0x0F then None
    else StringEnd(s, p + 1)
  }

  /** The same, when n hexadecimal digits of a \u escape are still to come. */
  function AfterHex(s: bytes, p: nat, n: nat): Option<nat>
    requires p <= |s|
  {
    if HexRun(s, p, n) then StringEnd(s, p + n) else None
  }

  function DigitsEnd(s: bytes, p: nat): (e: nat)
    requires p <= |s|
    ensures p <= e <= |s|
    decreases |s| - p
  {
    if IsDigit(At(s, p)) then DigitsEnd(s, p + 1) else p
  }

  /** A fraction is taken only with a digit behind the point, an exponent only with a digit. */
  function FractionEnd(s: bytes, p: nat): (e: nat)
    requires p <= |s|
    ensures p <= e <= |s|
  {
    if At(s, p) == DOT && IsDigit(At(s, p + 1)) then DigitsEnd(s, p + 1) else p
  }

  function ExponentEnd(s: bytes, p: nat): (e: nat)
    requires p <= |s|
    ensures p <= e <= |s|
  {
    if At(s, p) == LOWER_E || At(s, p) == UPPER_E then
      var q := if At(s, p + 1) == PLUS || At(s, p + 1) == MINUS then p + 2 else p + 1;
      if IsDigit(At(s, q)) then DigitsEnd(s, q) else p
    else p
  }

  /** The end of a number whose leading digit is at p. */
  function NumberEnd(s: bytes, p: nat): (e: nat)
    requires p < |s| && IsDigit(s[p])
    ensures p < e <= |s|
  {
    ExponentEnd(s, FractionEnd(s, if s[p] == DIGIT_0 then p + 1 else DigitsEnd(s, p)))
  }

  predicate Spells(s: bytes, p: nat, word: bytes) {
    p + |word| <= |s| && s[p..p + |word|] == word
  }

  lemma SpellsFirst(s: bytes, p: nat, word: bytes)
    requires word != []
    ensures Spells(s, p, word) ==> p < |s| && s[p] == word[0]
  {
    if Spells(s, p, word) { assert s[p..p + |word|][0] == word[0]; }
  }

  lemma SpellsOne(s: bytes, p: nat, b: byte)
    ensures Spells(s, p, [b]) <==> p < |s| && s[p] == b
  {
    if p < |s| { assert s[p..p + 1] == [s[p]]; }
  }

  lemma SpellsSplit(s: bytes, p: nat, a: bytes, b: bytes)
    ensures Spells(s, p, a + b) <==> Spells(s, p, a) && Spells(s, p + |a|, b)
  {
    if p + |a| + |b| <= |s| {
      assert s[p..p + |a| + |b|] == s[p..p + |a|] + s[p + |a|..p + |a| + |b|];
      if s[p..p + |a| + |b|] == a + b {
        assert (a + b)[..|a|] == a && (a + b)[|a|..] == b;
      }
    }
  }

  const TRUE_TEXT: bytes := [LOWER_T, LOWER_R, LOWER_U, LOWER_E]
  const FALSE_TEXT: bytes := [LOWER_F, LOWER_A, LOWER_L, LOWER_S, LOWER_E]
  const NULL_TEXT: bytes := [LOWER_N, LOWER_U, LOWER_L, LOWER_L]

  /** The one-byte tokens. */
  function Punctuation(b: byte): Option<Token> {
    if b == OPEN_BRACKET then Some(BeginArray)
    else if b == CLOSE_BRACKET then Some(EndArray)
    else if b == OPEN_BRACE then Some(BeginObject)
    else if b == CLOSE_BRACE then Some(EndObject)
    else if b == COLON then Some(NameSeparator)
    else if b == COMMA then Some(ValueSeparator)
    else None
  }

  /** The token that starts at p, where there is neither white space nor a byte order mark. */
  function TokenAt(s: bytes, p: nat): (r: Lexeme)
    requires p <= |s|
    ensures r.start == p < r.end <= |s| + 1
    ensures r.token != EndOfInput ==> r.end <= |s|
  {
    var b := At(s, p);
    if b == NUL then Lexeme(EndOfInput, p, p + 1)
    else if b == QUOTE && StringEnd(s, p + 1).Some? then Lexeme(ValueString, p, StringEnd(s, p + 1).value)
    else if IsDigit(b) then Lexeme(ValueNumber, p, NumberEnd(s, p))
    else if b == MINUS && IsDigit(At(s, p + 1)) then Lexeme(ValueNumber, p, NumberEnd(s, p + 1))
    else if Spells(s, p, TRUE_TEXT) then Lexeme(LiteralTrue, p, p + 4)
    else if Spells(s, p, FALSE_TEXT) then Lexeme(LiteralFalse, p, p + 5)
    else if Spells(s, p, NULL_TEXT) then Lexeme(LiteralNull, p, p + 4)
    else if Punctuation(b).Some? then Lexeme(Punctuation(b).value, p, p + 1)
    else Lexeme(ParseError, p, p + 1)
  }

  predicate ByteOrderMark(s: bytes, p: nat) {
    At(s, p) == 0xEF && At(s, p + 1) == 0xBB && At(s, p + 2) == 0xBF
  }

  /** The next token from p on. */
  function Scan(s: bytes, p: nat): (r: Lexeme)
    requires p <= |s|
    ensures p <= r.start < r.end <= |s| + 1
    ensures r.token != EndOfInput ==> r.end <= |s|
    ensures r == TokenAt(s, r.start)
    decreases |s| - p
  {
    if IsSpace(At(s, p)) then Scan(s, p + 1)
    else if ByteOrderMark(s, p) then Scan(s, p + 3)
    else TokenAt(s, p)
  }
}
