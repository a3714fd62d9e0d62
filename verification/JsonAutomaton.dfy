/**
  The scanner as re2c generated it: a goto program over a buffer that ends in a NUL byte. A label
  of the source is a value of Label; the gotos of one token class form one loop. The conditions
  under which the source refills the buffer only concern streams, so they are left out.
*/
module JsonAutomaton {
  import opened Machine
  import opened Ascii
  import opened JsonLexer
  import opened JsonString
  import opened Unicode

  datatype Label =
    | L2 | L4 | L5 | L6 | L9 | L10 | L12 | L13 | L14 | L15 | L17 | L19 | L21 | L23 | L24 | L25 | L26
    | L28 | L30 | L31 | L32 | L33 | L34 | L36 | L37 | L38 | L39 | L40 | L41 | L42 | L43 | L44 | L46
    | L47 | L49 | L50 | L51 | L52 | L54 | L55 | L56 | L58 | L60 | L61 | L63

  // ----- the goto decisions -----

  /** The class tests of the table yybm: white space, digits, and bytes a string takes as they are. */
  predicate InSpace(b: byte) { b == 9 || b == 10 || b == 13 || b == 32 }
  predicate InDigits(b: byte) { 48 <= b < 58 }
  predicate InBody(b: byte) { 16 <= b && b != 34 && b != 92 }

  /** From the first byte of a token. */
  function Dispatch(yych: byte): Label {
    if InSpace(yych) then L6
    else if yych <= BACKSLASH then
      if yych <= MINUS then
        if yych <= QUOTE then
          if yych <= 0x00 then L2 else if yych <= 33 then L4 else L9
        else if yych <= PLUS then L4 else if yych <= COMMA then L10 else L12
      else if yych <= DIGIT_9 then
        if yych <= SLASH then L4 else if yych <= DIGIT_0 then L13 else L15
      else if yych <= COLON then L17 else if yych == OPEN_BRACKET then L19 else L4
    else if yych <= LOWER_T then
      if yych <= LOWER_F then
        if yych <= CLOSE_BRACKET then L21 else if yych <= LOWER_E then L4 else L23
      else if yych == LOWER_N then L24 else if yych <= LOWER_S then L4 else L25
    else if yych <= 124 then
      if yych == OPEN_BRACE then L26 else L4
    else if yych <= CLOSE_BRACE then L28 else if yych == 0xEF then L30 else L4
  }

  /** Label 32, on a byte of a string's body. */
  function InString(yych: byte): Label {
    if InBody(yych) then L31
    else if yych <= 0x0F then L33
    else if yych <= QUOTE then L34
    else L36
  }

  /** Label 36, on the byte after a backslash. */
  function AfterBackslash(yych: byte): Label {
    if yych <= LOWER_E then
      if yych <= SLASH then
        if yych == QUOTE then L31 else if yych <= DOT then L33 else L31
      else if yych <= BACKSLASH then
        if yych <= OPEN_BRACKET then L33 else L31
      else if yych == LOWER_B then L31 else L33
    else if yych <= 113 then
      if yych <= LOWER_F then L31 else if yych == LOWER_N then L31 else L33
    else if yych <= LOWER_S then
      if yych <= LOWER_R then L31 else L33
    else if yych <= LOWER_T then L31 else if yych <= LOWER_U then L43 else L33
  }

  /** Labels 43, 54, 60 and 63, on a hexadecimal digit. */
  function OnHex(yych: byte, next: Label): Label {
    if yych <= 64 then
      if yych <= SLASH then L33 else if yych <= DIGIT_9 then next else L33
    else if yych <= UPPER_F then next
    else if yych <= 96 then L33
    else if yych <= LOWER_F then next
    else L33
  }

  /** Label 12, on the byte after a minus sign. */
  function AfterMinus(yych: byte): Label {
    if yych <= SLASH then L5
    else if yych <= DIGIT_0 then L13
    else if yych <= DIGIT_9 then L15
    else L5
  }

  /** Labels 13 and 15, on a byte that is no digit of the integer part. */
  function AfterInteger(yych: byte): Label {
    if yych <= 68 then if yych == DOT then L37 else L14
    else if yych <= UPPER_E then L38
    else if yych == LOWER_E then L38
    else L14
  }

  function AfterDot(yych: byte): Label {
    if yych <= SLASH then L33 else if yych <= DIGIT_9 then L44 else L33
  }

  function InFraction(yych: byte): Label {
    if yych <= 68 then
      if yych <= SLASH then L14 else if yych <= DIGIT_9 then L44 else L14
    else if yych <= UPPER_E then L38
    else if yych == LOWER_E then L38
    else L14
  }

  function AfterE(yych: byte): Label {
    if yych <= COMMA then if yych == PLUS then L46 else L33
    else if yych <= MINUS then L46
    else if yych <= SLASH then L33
    else if yych <= DIGIT_9 then L47
    else L33
  }

  function AfterSign(yych: byte): Label {
    if yych <= SLASH then L33 else if yych >= COLON then L33 else L47
  }

  function InExponent(yych: byte): Label {
    if yych <= SLASH then L14 else if yych <= DIGIT_9 then L47 else L14
  }

  /** The labels of a string token: each advances the cursor, reads a byte and decides. */
  function StringNext(at: Label, yych: byte): Label {
    match at
    case L31 => InString(yych)
    case L36 => AfterBackslash(yych)
    case L43 => OnHex(yych, L54)
    case L54 => OnHex(yych, L60)
    case L60 => OnHex(yych, L63)
    case L63 => OnHex(yych, L31)
    case _ => L33
  }

  /** The labels of a number token; 13, 15 and 44 also set the marker. */
  function NumberNext(at: Label, yych: byte): Label {
    match at
    case L12 => AfterMinus(yych)
    case L13 => AfterInteger(yych)
    case L15 => if InDigits(yych) then L15 else AfterInteger(yych)
    case L37 => AfterDot(yych)
    case L38 => AfterE(yych)
    case L44 => InFraction(yych)
    case L46 => AfterSign(yych)
    case L47 => InExponent(yych)
    case _ => L33
  }

  /** The labels that wait for one byte of a fixed word, and where they go when it comes. */
  function Awaits(at: Label): Option<(byte, Label)> {
    match at
    case L23 => Some((LOWER_A, L39))
    case L39 => Some((LOWER_L, L49))
    case L49 => Some((LOWER_S, L55))
    case L55 => Some((LOWER_E, L61))
    case L24 => Some((LOWER_U, L40))
    case L40 => Some((LOWER_L, L50))
    case L50 => Some((LOWER_L, L56))
    case L25 => Some((LOWER_R, L41))
    case L41 => Some((LOWER_U, L51))
    case L51 => Some((LOWER_E, L58))
    case L30 => Some((0xBB, L42))
    case L42 => Some((0xBF, L52))
    case _ => None
  }

  /** What is still to come after the byte at such a label, and at the label that ends the word. */
  function Left(at: Label): bytes {
    match at
    case L23 => [LOWER_A, LOWER_L, LOWER_S, LOWER_E]
    case L39 => [LOWER_L, LOWER_S, LOWER_E]
    case L49 => [LOWER_S, LOWER_E]
    case L24 => [LOWER_U, LOWER_L, LOWER_L]
    case L40 => [LOWER_L, LOWER_L]
    case L25 => [LOWER_R, LOWER_U, LOWER_E]
    case L41 => [LOWER_U, LOWER_E]
    case L30 => [0xBB, 0xBF]
    case L42 => [0xBF]
    case L50 => [LOWER_L]
    case L51 => [LOWER_E]
    case L55 => [LOWER_E]
    case _ => []
  }

  // ----- groups of labels -----

  predicate OfNumber(at: Label) { at.L12? || at.L13? || at.L15? }
  predicate OfWord(at: Label) { at.L23? || at.L24? || at.L25? || at.L30? }
  predicate StringOver(at: Label) { at.L33? || at.L34? }
  predicate NumberOver(at: Label) { at.L33? || at.L14? || at.L5? }
  predicate Marks(at: Label) { at.L13? || at.L15? || at.L44? }

  // ----- what a label promises -----

  /** The outcome of StringEnd, seen from a label of the string automaton with the cursor at c. */
  ghost predicate StringLabel(s: bytes, at: Label, c: nat, r: Option<nat>) {
    c <= |s| &&
    match at
    case L31 => c < |s| && r == StringEnd(s, c + 1)
    case L33 => r == None
    case L34 => c < |s| && r == Some(c + 1)
    case L36 => c < |s| && s[c] == BACKSLASH && r == StringEnd(s, c)
    case L43 => c < |s| && r == AfterHex(s, c + 1, 4)
    case L54 => c < |s| && r == AfterHex(s, c + 1, 3)
    case L60 => c < |s| && r == AfterHex(s, c + 1, 2)
    case L63 => c < |s| && r == AfterHex(s, c + 1, 1)
    case _ => false
  }

  /** The end of a number, or None for a lone minus, seen from a label of the number automaton. */
  ghost predicate NumberLabel(s: bytes, at: Label, c: nat, marker: nat, r: Option<nat>) {
    c <= |s| &&
    match at
    case L12 => c < |s| && r == (if IsDigit(At(s, c + 1)) then Some(NumberEnd(s, c + 1)) else None)
    case L13 => c < |s| && r == Some(ExponentEnd(s, FractionEnd(s, c + 1)))
    case L15 => c < |s| && r == Some(ExponentEnd(s, FractionEnd(s, DigitsEnd(s, c + 1))))
    case L37 => c < |s| && s[c] == DOT && marker == c && r == Some(ExponentEnd(s, FractionEnd(s, c)))
    case L44 => c < |s| && r == Some(ExponentEnd(s, DigitsEnd(s, c + 1)))
    case L38 => c < |s| && (s[c] == LOWER_E || s[c] == UPPER_E) && marker == c && r == Some(ExponentEnd(s, c))
    case L46 => c < |s| && marker <= |s| && r == Some(if IsDigit(At(s, c + 1)) then DigitsEnd(s, c + 1) else marker)
    case L47 => c < |s| && r == Some(DigitsEnd(s, c + 1))
    case L33 => marker <= |s| && r == Some(marker)
    case L14 => r == Some(c)
    case L5 => r == None
    case _ => false
  }

  lemma StringStep(s: bytes, at: Label, c: nat, r: Option<nat>)
    requires StringLabel(s, at, c, r)
    ensures c <= |s| && (at != L33 ==> c < |s|)
    ensures at == L33 ==> r == None
    ensures at == L34 ==> r == Some(c + 1)
    ensures !StringOver(at) ==> StringLabel(s, StringNext(at, At(s, c + 1)), c + 1, r)
  {}

  lemma NumberStep(s: bytes, at: Label, c: nat, marker: nat, r: Option<nat>)
    requires NumberLabel(s, at, c, marker, r)
    ensures c <= |s| && (!NumberOver(at) ==> c < |s|)
    ensures at == L33 ==> marker <= |s| && r == Some(marker)
    ensures at == L14 ==> r == Some(c)
    ensures at == L5 <==> r == None && at != L12
    ensures !NumberOver(at) ==>
              var m := if Marks(at) then c + 1 else marker;
              NumberLabel(s, NumberNext(at, At(s, c + 1)), c + 1, m, r) && NumberNext(at, At(s, c + 1)) != L12
  {
    hide NumberNext, NumberEnd, DigitsEnd, FractionEnd, ExponentEnd;
    if at.L12? || at.L13? || at.L15? {
      IntegerStep(s, at, c, marker, r);
    } else if at.L37? || at.L44? {
      FractionStep(s, at, c, marker, r);
    } else if at.L38? || at.L46? || at.L47? {
      ExponentStep(s, at, c, marker, r);
    }
  }

  lemma IntegerStep(s: bytes, at: Label, c: nat, marker: nat, r: Option<nat>)
    requires NumberLabel(s, at, c, marker, r) && (at.L12? || at.L13? || at.L15?)
    ensures c < |s|
    ensures var m := if Marks(at) then c + 1 else marker;
            NumberLabel(s, NumberNext(at, At(s, c + 1)), c + 1, m, r) && NumberNext(at, At(s, c + 1)) != L12
  {}

  lemma FractionStep(s: bytes, at: Label, c: nat, marker: nat, r: Option<nat>)
    requires NumberLabel(s, at, c, marker, r) && (at.L37? || at.L44?)
    ensures c < |s|
    ensures var m := if Marks(at) then c + 1 else marker;
            NumberLabel(s, NumberNext(at, At(s, c + 1)), c + 1, m, r) && NumberNext(at, At(s, c + 1)) != L12
  {}

  lemma ExponentStep(s: bytes, at: Label, c: nat, marker: nat, r: Option<nat>)
    requires NumberLabel(s, at, c, marker, r) && (at.L38? || at.L46? || at.L47?)
    ensures c < |s|
    ensures NumberLabel(s, NumberNext(at, At(s, c + 1)), c + 1, marker, r) && NumberNext(at, At(s, c + 1)) != L12
  {}

  /** at is reached from first without a mismatch. */
  predicate OnTheWay(first: Label, at: Label) {
    match first
    case L23 => at.L23? || at.L39? || at.L49? || at.L55? || at.L61?
    case L24 => at.L24? || at.L40? || at.L50? || at.L56?
    case L25 => at.L25? || at.L41? || at.L51? || at.L58?
    case L30 => at.L30? || at.L42? || at.L52?
    case _ => false
  }

  lemma SpellsStep(s: bytes, p: nat, b: byte, word: bytes)
    ensures Spells(s, p, [b] + word) <==> p < |s| && s[p] == b && Spells(s, p + 1, word)
  {
    if p + 1 + |word| <= |s| {
      assert s[p..p + 1 + |word|] == [s[p]] + s[p + 1..p + 1 + |word|];
    }
    assert ([b] + word)[0] == b && ([b] + word)[1..] == word;
  }

  /** The tokens of the labels that return after one byte. */
  function OneByte(at: Label): Token {
    match at
    case L2 => EndOfInput
    case L10 => ValueSeparator
    case L17 => NameSeparator
    case L19 => BeginArray
    case L21 => EndArray
    case L26 => BeginObject
    case L28 => EndObject
    case _ => ParseError
  }

  lemma DispatchMeaning(s: bytes, p: nat)
    requires p <= |s|
    ensures var at := Dispatch(At(s, p));
            && (at == L6 <==> IsSpace(At(s, p)))
            && (at == L9 <==> At(s, p) == QUOTE)
            && (at != L2 ==> p < |s|)
            && (!at.L6? && !at.L30? ==> Scan(s, p) == TokenAt(s, p))
            && (at == L30 && !ByteOrderMark(s, p) ==> Scan(s, p) == TokenAt(s, p))
  {
    hide TokenAt;
  }

  lemma OneByteTokens(s: bytes, p: nat)
    requires p <= |s|
    requires var at := Dispatch(At(s, p)); !at.L6? && !at.L9? && !OfNumber(at) && !OfWord(at)
    ensures TokenAt(s, p) == Lexeme(OneByte(Dispatch(At(s, p))), p, p + 1)
  {
    hide StringEnd, NumberEnd, Scan, Spells;
    SpellsFirst(s, p, TRUE_TEXT);
    SpellsFirst(s, p, FALSE_TEXT);
    SpellsFirst(s, p, NULL_TEXT);
  }

  lemma SkipSpace(s: bytes, p: nat)
    requires p <= |s| && InSpace(At(s, p))
    ensures p < |s| && Scan(s, p) == Scan(s, p + 1)
  {}

  lemma SkipMark(s: bytes, p: nat)
    requires p <= |s| && ByteOrderMark(s, p)
    ensures p + 3 <= |s| && Scan(s, p) == Scan(s, p + 3)
  {}

  lemma StringToken(s: bytes, p: nat)
    requires p < |s| && s[p] == QUOTE
    ensures TokenAt(s, p) == match StringEnd(s, p + 1)
                             case Some(e) => Lexeme(ValueString, p, e)
                             case None => Lexeme(ParseError, p, p + 1)
  {
    hide StringEnd, NumberEnd, Spells;
    SpellsFirst(s, p, TRUE_TEXT);
    SpellsFirst(s, p, FALSE_TEXT);
    SpellsFirst(s, p, NULL_TEXT);
  }

  lemma NothingToSpell(s: bytes, p: nat)
    requires p <= |s|
    ensures Spells(s, p, [])
  {}

  lemma LeftStep(first: Label, at: Label)
    requires Awaits(at).Some? && OnTheWay(first, at)
    ensures Left(at) == [Awaits(at).value.0] + Left(Awaits(at).value.1)
    ensures OnTheWay(first, Awaits(at).value.1) && OfWord(first)
    ensures Awaits(at).value.0 != NUL
  {
    hide Left;
    LeftTail(at);
  }

  /** Where a word ends. */
  lemma WordOver(first: Label, at: Label)
    requires OnTheWay(first, at) && Awaits(at).None?
    ensures Left(at) == []
    ensures at == match first case L23 => L61 case L24 => L56 case L25 => L58 case _ => L52
    ensures first.L23? || first.L24? || first.L25? || first.L30?
  {}

  lemma LeftTail(at: Label)
    requires Awaits(at).Some?
    ensures Left(at) == [Awaits(at).value.0] + Left(Awaits(at).value.1) && Awaits(at).value.0 != NUL
  {
    hide Left;
    if at.L23? || at.L39? || at.L49? || at.L55? {
      FalseTail(at);
    } else if at.L24? || at.L40? || at.L50? {
      NullTail(at);
    } else {
      TrueTail(at);
    }
  }

  lemma FalseTail(at: Label)
    requires at.L23? || at.L39? || at.L49? || at.L55?
    ensures Awaits(at).Some? && Left(at) == [Awaits(at).value.0] + Left(Awaits(at).value.1)
  {}

  lemma NullTail(at: Label)
    requires at.L24? || at.L40? || at.L50?
    ensures Awaits(at).Some? && Left(at) == [Awaits(at).value.0] + Left(Awaits(at).value.1)
  {}

  lemma TrueTail(at: Label)
    requires at.L25? || at.L41? || at.L51? || at.L30? || at.L42?
    ensures Awaits(at).Some? && Left(at) == [Awaits(at).value.0] + Left(Awaits(at).value.1)
  {}

  function Prepend(done: bytes, r: Result<bytes>): Result<bytes> {
    match r
    case Ok(rest) => Ok(done + rest)
    case Err(x) => Err(x)
  }

  lemma PrependNothing(r: Result<bytes>)
    ensures Prepend([], r) == r
  {
    if r.Ok? { assert [] + r.value == r.value; }
  }

  lemma PrependAssoc(a: bytes, b: bytes, r: Result<bytes>)
    ensures Prepend(a, Prepend(b, r)) == Prepend(a + b, r)
  {
    if r.Ok? { assert a + (b + r.value) == (a + b) + r.value; }
  }

  class Lexer {
    const content: bytes
    var start: nat
    var cursor: nat
    var marker: nat

    constructor (content: bytes)
      ensures this.content == content && start == cursor == 0
    {
      this.content := content;
      start, cursor, marker := 0, 0, 0;
    }

    /** *p: nothing beyond the NUL byte at m_limit may be read. */
    function Read(p: nat): byte
      requires p <= |content|
    {
      At(content, p)
    }

    /** Labels 9, 31 to 36, 43, 54, 60 and 63. */
    method ScanString() returns (token: Token)
      requires cursor == start < |content| && Read(cursor) == QUOTE
      modifies this`cursor, this`marker
      ensures var r := StringEnd(content, start + 1);
              if r.Some? then token == ValueString && cursor == r.value
              else token == ParseError && cursor == start + 1
    {
      hide StringLabel, StringEnd, InString, StringNext, At;
      ghost var r := StringEnd(content, start + 1);
      StringStart(start);
      cursor := cursor + 1;
      marker := cursor;
      if Read(cursor) <= 0x0F {
        return ParseError;
      }
      var at := InString(Read(cursor));
      while !StringOver(at)
        invariant marker == start + 1 && cursor <= |content|
        invariant StringLabel(content, at, cursor, r)
        decreases |content| - cursor
      {
        StringStep(content, at, cursor, r);
        cursor := cursor + 1;
        at := StringNext(at, Read(cursor));
      }
      StringStep(content, at, cursor, r);
      if at == L33 {
        cursor := marker;
        return ParseError;
      }
      cursor := cursor + 1;
      return ValueString;
    }

    /** Labels 12 to 15, 37, 38, 44, 46 and 47. */
    method ScanNumber(first: Label) returns (token: Token)
      requires cursor == start < |content|
      requires first == Dispatch(Read(cursor)) && OfNumber(first)
      modifies this`cursor, this`marker
      ensures Lexeme(token, start, cursor) == TokenAt(content, start)
    {
      hide NumberLabel, NumberEnd, NumberNext, Dispatch, TokenAt;
      var at := first;
      ghost var r := NumberStart(start, first);
      while !NumberOver(at)
        invariant NumberLabel(content, at, cursor, marker, r)
        invariant at == L12 ==> cursor == start
        invariant r == None ==> cursor <= start + 1 && (at != L12 ==> cursor == start + 1)
        decreases |content| - cursor
      {
        NumberStep(content, at, cursor, marker, r);
        cursor := cursor + 1;
        if Marks(at) {
          marker := cursor;
        }
        at := NumberNext(at, Read(cursor));
      }
      NumberStep(content, at, cursor, marker, r);
      if at == L33 {
        cursor := marker;
      }
      return if at == L5 then ParseError else ValueNumber;
    }

    /** Labels 23 to 25, 30, 39 to 42, 49 to 52, 55 to 61: None means that the scan starts over. */
    method ScanWord(first: Label) returns (token: Option<Token>)
      requires cursor == start < |content|
      requires first == Dispatch(Read(cursor)) && OfWord(first)
      modifies this`cursor, this`marker
      ensures token == None ==> ByteOrderMark(content, start) && cursor == start + 3 <= |content|
      ensures token.Some? ==> Lexeme(token.value, start, cursor) == TokenAt(content, start)
      ensures token.Some? ==> !ByteOrderMark(content, start)
    {
      hide Dispatch, TokenAt, Spells, Left, ByteOrderMark, OnTheWay;
      cursor := cursor + 1;
      marker := cursor;
      var at := first;
      WordStart(start, first);
      while Awaits(at).Some?
        invariant start < cursor <= |content| && marker == start + 1
        invariant WordLabel(start, first, at, cursor)
        decreases |content| - cursor
      {
        WordStep(start, first, at, cursor);
        var (b, next) := Awaits(at).value;
        if Read(cursor) != b {
          cursor := marker;
          return Some(ParseError);
        }
        cursor := cursor + 1;
        at := next;
      }
      Word(start, first, at, cursor);
      return match at case L61 => Some(LiteralFalse) case L56 => Some(LiteralNull)
                      case L58 => Some(LiteralTrue) case _ => None;
    }

    /** One turn of the loop of get_string: the piece of text at p, and where the next one starts. */
    method ReadPiece(p: nat, ghost e: nat) returns (r: Result<(bytes, nat)>)
      requires InToken(content, p, e) && p != e
      ensures r == Piece(content, p, e)
    {
      hide StringEnd, InToken, ToUnicode, Hex4;
      InsideToken(content, p, e);
      var i, u := p, [];
      if content[i] == BACKSLASH {
        i := i + 1;
        if content[i] == LOWER_T {
          u := [TAB];
        } else if content[i] == LOWER_B {
          u := [BACKSPACE];
        } else if content[i] == LOWER_F {
          u := [FORMFEED];
        } else if content[i] == LOWER_N {
          u := [NEWLINE];
        } else if content[i] == LOWER_R {
          u := [RETURN];
        } else if content[i] == BACKSLASH {
          u := [BACKSLASH];
        } else if content[i] == SLASH {
          u := [SLASH];
        } else if content[i] == QUOTE {
          u := [QUOTE];
        } else if content[i] == LOWER_U {
          var codepoint := Hex4(content, i + 1);
          if IsHighSurrogate(codepoint) {
            if i + 6 >= |content| || content[i + 5] != BACKSLASH || content[i + 6] != LOWER_U {
              return Err(MissingLowSurrogate);
            }
            InsideToken(content, i + 5, e);
            var codepoint2 := Hex4(content, i + 7);
            var text := ToUnicode(codepoint, codepoint2);
            if text.Err? {
              return Err(text.error);
            }
            u := text.value;
            i := i + 10;
          } else {
            var text := ToUnicode(codepoint, 0);
            if text.Err? {
              return Err(text.error);
            }
            u := text.value;
            i := i + 4;
          }
        }
      } else {
        u := [content[i]];
      }
      return Ok((u, i + 1));
    }

    /** get_string, for the string token that was scanned last. */
    method GetString() returns (r: Result<bytes>)
      requires 1 < cursor && InToken(content, start + 1, cursor - 1)
      ensures r == Decode(content, start + 1, cursor - 1)
    {
      hide StringEnd, InToken, Piece;
      ghost var e := cursor - 1;
      var result: bytes := [];
      var i := start + 1;
      InsideToken(content, i, e);
      PrependNothing(Decode(content, i, e));
      while i < cursor - 1
        invariant InToken(content, i, e) && i <= e < |content|
        invariant Decode(content, start + 1, e) == Prepend(result, Decode(content, i, e))
      {
        InsideToken(content, i, e);
        var piece := ReadPiece(i, e);
        if piece.Err? {
          return Err(piece.error);
        }
        InsideToken(content, piece.value.1, e);
        PrependAssoc(result, piece.value.0, Decode(content, piece.value.1, e));
        result := result + piece.value.0;
        i := piece.value.1;
      }
      assert result + [] == result;
      return Ok(result);
    }

    /** Label 6: white space up to the next byte that is none. */
    method SkipSpaces()
      requires cursor < |content| && InSpace(Read(cursor))
      modifies this`cursor
      ensures old(cursor) < cursor <= |content|
      ensures JsonLexer.Scan(content, cursor) == JsonLexer.Scan(content, old(cursor))
    {
      hide JsonLexer.Scan, TokenAt, InSpace;
      SkipSpace(content, cursor);
      cursor := cursor + 1;
      while InSpace(Read(cursor))
        invariant old(cursor) < cursor <= |content|
        invariant JsonLexer.Scan(content, cursor) == JsonLexer.Scan(content, old(cursor))
        decreases |content| - cursor
      {
        SkipSpace(content, cursor);
        cursor := cursor + 1;
      }
    }

    /** scan: the tokens that are one byte long, and the choice between the others. */
    method Scan() returns (token: Token)
      requires cursor <= |content|
      modifies this
      ensures Lexeme(token, start, cursor) == JsonLexer.Scan(content, old(cursor))
    {
      hide Dispatch, TokenAt, JsonLexer.Scan, StringEnd, NumberEnd, ByteOrderMark, OneByte;
      while true
        invariant cursor <= |content| && JsonLexer.Scan(content, cursor) == JsonLexer.Scan(content, old(cursor))
        decreases |content| - cursor
      {
        marker := 0;
        start := cursor;
        var at := Dispatch(Read(cursor));
        DispatchMeaning(content, cursor);
        if at == L6 {
          SkipSpaces();
        } else if at == L9 {
          token := ScanString();
          StringToken(content, start);
          return;
        } else if OfNumber(at) {
          token := ScanNumber(at);
          return;
        } else if OfWord(at) {
          var word := ScanWord(at);
          if word.Some? {
            return word.value;
          }
          SkipMark(content, start);
        } else {
          OneByteTokens(content, cursor);
          cursor := cursor + 1;
          return OneByte(at);
        }
      }
    }

    /** The word that starts at start is matched up to c. */
    ghost predicate WordLabel(start: nat, first: Label, at: Label, c: nat) {
      && start < c <= |content| && first == Dispatch(At(content, start)) && OnTheWay(first, at)
      && |Left(at)| + c == |Left(first)| + 1 + start
      && (Spells(content, start, [At(content, start)] + Left(first)) <==> Spells(content, c, Left(at)))
    }

    lemma WordStart(start: nat, first: Label)
      requires start < |content|
      requires first == Dispatch(Read(start)) && OfWord(first)
      ensures WordLabel(start, first, first, start + 1)
    {
      SpellsStep(content, start, Read(start), Left(first));
    }

    lemma WordStep(start: nat, first: Label, at: Label, c: nat)
      requires WordLabel(start, first, at, c) && Awaits(at).Some? && c <= |content|
      ensures At(content, c) == Awaits(at).value.0 ==>
                c < |content| && WordLabel(start, first, Awaits(at).value.1, c + 1)
      ensures At(content, c) != Awaits(at).value.0 ==>
                && TokenAt(content, start) == Lexeme(ParseError, start, start + 1)
                && !ByteOrderMark(content, start)
    {
      hide TokenAt, Dispatch, Awaits, Left, OnTheWay, Spells;
      var (b, next) := Awaits(at).value;
      LeftStep(first, at);
      SpellsStep(content, c, b, Left(next));
      if At(content, c) != b {
        NoWord(start, first);
      }
    }

    lemma StringStart(start: nat)
      requires start < |content| && Read(start) == QUOTE
      ensures StringLabel(content, InString(Read(start + 1)), start + 1, StringEnd(content, start + 1))
      ensures Read(start + 1) <= 0x0F ==> StringEnd(content, start + 1) == None
    {}

    lemma NumberStart(start: nat, first: Label) returns (r: Option<nat>)
      requires start < |content| && first == Dispatch(Read(start)) && OfNumber(first)
      ensures NumberLabel(content, first, start, marker, r) && (r == None ==> first == L12)
      ensures TokenAt(content, start) ==
              if r == None then Lexeme(ParseError, start, start + 1) else Lexeme(ValueNumber, start, r.value)
    {
      r := if Read(start) != MINUS then Some(NumberEnd(content, start))
           else if IsDigit(At(content, start + 1)) then Some(NumberEnd(content, start + 1)) else None;
    }

    lemma NoWord(start: nat, first: Label)
      requires start < |content| && first == Dispatch(At(content, start)) && OfWord(first)
      requires !Spells(content, start, [At(content, start)] + Left(first))
      ensures TokenAt(content, start) == Lexeme(ParseError, start, start + 1)
      ensures !ByteOrderMark(content, start)
    {
      hide StringEnd, NumberEnd, Spells;
      assert [LOWER_F] + Left(L23) == FALSE_TEXT && [LOWER_N] + Left(L24) == NULL_TEXT;
      assert [LOWER_T] + Left(L25) == TRUE_TEXT && [0xEF] + Left(L30) == [0xEF] + [0xBB, 0xBF];
      SpellsFirst(content, start, TRUE_TEXT);
      SpellsFirst(content, start, FALSE_TEXT);
      SpellsFirst(content, start, NULL_TEXT);
      SpellsStep(content, start, 0xEF, [0xBB, 0xBF]);
      SpellsStep(content, start + 1, 0xBB, [0xBF]);
      assert [0xBB] + [0xBF] == [0xBB, 0xBF] && [0xBF] + [] == [0xBF];
      SpellsStep(content, start + 2, 0xBF, []);
      if start + 3 <= |content| { NothingToSpell(content, start + 3); }
    }

    /** The whole word has been matched, c being just past it. */
    lemma FullWord(start: nat, first: Label, c: nat)
      requires start < |content| && first == Dispatch(At(content, start)) && OfWord(first)
      requires Spells(content, start, [At(content, start)] + Left(first)) && c == start + 1 + |Left(first)|
      ensures first == L23 ==> TokenAt(content, start) == Lexeme(LiteralFalse, start, c)
      ensures first == L24 ==> TokenAt(content, start) == Lexeme(LiteralNull, start, c)
      ensures first == L25 ==> TokenAt(content, start) == Lexeme(LiteralTrue, start, c)
      ensures first == L30 ==> c == start + 3
      ensures first == L30 <==> ByteOrderMark(content, start)
    {
      hide StringEnd, NumberEnd, Spells;
      assert [LOWER_F] + Left(L23) == FALSE_TEXT && [LOWER_N] + Left(L24) == NULL_TEXT;
      assert [LOWER_T] + Left(L25) == TRUE_TEXT && [0xEF] + Left(L30) == [0xEF] + [0xBB, 0xBF];
      SpellsFirst(content, start, TRUE_TEXT);
      SpellsFirst(content, start, FALSE_TEXT);
      SpellsFirst(content, start, NULL_TEXT);
      if first == L30 {
        SpellsStep(content, start, 0xEF, [0xBB, 0xBF]);
        assert [0xBB] + [0xBF] == [0xBB, 0xBF] && [0xBF] + [] == [0xBF];
        SpellsStep(content, start + 1, 0xBB, [0xBF]);
        SpellsStep(content, start + 2, 0xBF, []);
      }
    }

    lemma Word(start: nat, first: Label, at: Label, c: nat)
      requires WordLabel(start, first, at, c) && Awaits(at).None?
      ensures at == L61 ==> TokenAt(content, start) == Lexeme(LiteralFalse, start, c)
      ensures at == L56 ==> TokenAt(content, start) == Lexeme(LiteralNull, start, c)
      ensures at == L58 ==> TokenAt(content, start) == Lexeme(LiteralTrue, start, c)
      ensures at == L52 ==> c == start + 3
      ensures at == L52 <==> ByteOrderMark(content, start)
      ensures at.L61? || at.L56? || at.L58? || at.L52?
    {
      hide TokenAt, Dispatch, ByteOrderMark, Spells, Left, Awaits, OnTheWay;
      WordOver(first, at);
      NothingToSpell(content, c);
      FullWord(start, first, c);
    }
  }
}
