/**
  String tokens: escape_string, which writes them, and get_string, which reads them, each beside the
  function it computes; and the proof that reading undoes writing for every byte string.
*/
module JsonString {
  import opened Machine
  import opened Ascii
  import opened JsonLexer
  import opened Unicode

  // ----- escaping -----

  /** hexify: a number below 16 as a hexadecimal digit. */
  function Hexify(v: nat): (b: byte)
    requires v < 16
    ensures IsHex(b) && HexValue(b) == v
  {
    if v < 10 then DIGIT_0 + v else LOWER_A + v - 10
  }

  /** The letter of a two-byte escape. */
  function Letter(c: byte): Option<byte> {
    if c == QUOTE then Some(QUOTE)
    else if c == BACKSLASH then Some(BACKSLASH)
    else if c == BACKSPACE then Some(LOWER_B)
    else if c == FORMFEED then Some(LOWER_F)
    else if c == NEWLINE then Some(LOWER_N)
    else if c == RETURN then Some(LOWER_R)
    else if c == TAB then Some(LOWER_T)
    else None
  }

  function EscapeByte(c: byte): (r: bytes)
    ensures |r| > 0
  {
    if Letter(c).Some? then [BACKSLASH, Letter(c).value]
    else if c <= 0x1F then [BACKSLASH, LOWER_U, DIGIT_0, DIGIT_0, Hexify(c / 16), Hexify(c % 16)]
    else [c]
  }

  function Escape(s: bytes): bytes {
    if s == [] then [] else EscapeByte(s[0]) + Escape(s[1..])
  }

  lemma {:induction false} EscapeSnoc(s: bytes, c: byte)
    ensures Escape(s + [c]) == Escape(s) + EscapeByte(c)
  {
    if s == [] {
      assert ([] + [c])[1..] == [];
    } else {
      assert (s + [c])[1..] == s[1..] + [c];
      EscapeSnoc(s[1..], c);
    }
  }

  lemma EscapeTake(s: bytes, i: nat)
    requires i < |s|
    ensures Escape(s[..i + 1]) == Escape(s[..i]) + EscapeByte(s[i])
  {
    assert s[..i + 1] == s[..i] + [s[i]];
    EscapeSnoc(s[..i], s[i]);
  }

  /** An unescaped string is its own escaping exactly when escaping does not make it longer. */
  lemma {:induction false} EscapeIsLonger(s: bytes)
    ensures |Escape(s)| >= |s|
    ensures |Escape(s)| == |s| <==> Escape(s) == s
  {
    if s != [] {
      EscapeIsLonger(s[1..]);
      assert s == [s[0]] + s[1..];
      if |Escape(s)| == |s| {
        assert EscapeByte(s[0]) == [s[0]];
      }
    }
  }

  method ExtraSpace(s: bytes) returns (result: nat)
    ensures result == |Escape(s)| - |s|
  {
    result := 0;
    for i := 0 to |s|
      invariant result == |Escape(s[..i])| - i
    {
      EscapeTake(s, i);
      var c := s[i];
      if c in {QUOTE, BACKSLASH, BACKSPACE, FORMFEED, NEWLINE, RETURN, TAB} {
        result := result + 1;
      } else if c <= 0x1F {
        result := result + 5;
      }
    }
    assert s[..|s|] == s;
  }

  /** The \u escape of a control character: five bytes after the backslash that is there already. */
  method PutControl(result: array<byte>, start: nat, c: byte) returns (pos: nat)
    requires c <= 0x1F && start + 6 <= result.Length
    requires forall k | start <= k < result.Length :: result[k] == BACKSLASH
    modifies result
    ensures pos == start + 6 && result[..start] == old(result[..start])
    ensures result[start..pos] == [BACKSLASH, LOWER_U, DIGIT_0, DIGIT_0, Hexify(c / 16), Hexify(c % 16)]
    ensures forall k | pos <= k < result.Length :: result[k] == BACKSLASH
  {
    pos := start;
    var ms := [LOWER_U, DIGIT_0, DIGIT_0, Hexify(c / 16), Hexify(c % 16)];
    for m := 0 to 5
      invariant pos == start + m
      invariant result[..start] == old(result[..start]) && result[start] == BACKSLASH
      invariant forall k | 0 <= k < m :: result[start + 1 + k] == ms[k]
      invariant forall k | start + 1 + m <= k < result.Length :: result[k] == BACKSLASH
    {
      pos := pos + 1;
      result[pos] := ms[m];
    }
    pos := pos + 1;
    assert result[start..pos] == [BACKSLASH] + ms;
  }

  /** One turn of the loop of escape_string: backslashes are there already, only the rest is written. */
  method PutByte(result: array<byte>, start: nat, c: byte) returns (pos: nat)
    requires start + |EscapeByte(c)| <= result.Length
    requires forall k | start <= k < result.Length :: result[k] == BACKSLASH
    modifies result
    ensures pos == start + |EscapeByte(c)|
    ensures result[..start] == old(result[..start]) && result[start..pos] == EscapeByte(c)
    ensures forall k | pos <= k < result.Length :: result[k] == BACKSLASH
  {
    pos := start;
    if c == QUOTE {
      result[pos + 1] := QUOTE;
      pos := pos + 2;
    } else if c == BACKSLASH {
      pos := pos + 2;
    } else if c == BACKSPACE {
      result[pos + 1] := LOWER_B;
      pos := pos + 2;
    } else if c == FORMFEED {
      result[pos + 1] := LOWER_F;
      pos := pos + 2;
    } else if c == NEWLINE {
      result[pos + 1] := LOWER_N;
      pos := pos + 2;
    } else if c == RETURN {
      result[pos + 1] := LOWER_R;
      pos := pos + 2;
    } else if c == TAB {
      result[pos + 1] := LOWER_T;
      pos := pos + 2;
    } else if c <= 0x1F {
      pos := PutControl(result, start, c);
    } else {
      result[pos] := c;
      pos := pos + 1;
    }
  }

  /** escape_string: the result is filled with backslashes before the rest is written. */
  method EscapeString(s: bytes) returns (r: bytes)
    ensures r == Escape(s)
  {
    hide EscapeByte;
    var space := ExtraSpace(s);
    if space == 0 {
      EscapeIsLonger(s);
      return s;
    }
    var result := new byte[|s| + space](_ => BACKSLASH);
    var pos := 0;
    for i := 0 to |s|
      invariant pos == |Escape(s[..i])| <= result.Length == |Escape(s)|
      invariant result[..pos] == Escape(s[..i])
      invariant forall k | pos <= k < result.Length :: result[k] == BACKSLASH
    {
      EscapeTake(s, i);
      EscapeFits(s, i);
      var next := PutByte(result, pos, s[i]);
      assert result[..next] == result[..pos] + result[pos..next];
      pos := next;
    }
    assert s[..|s|] == s;
    assert result[..pos] == result[..];
    return result[..];
  }

  lemma EscapeFits(s: bytes, i: nat)
    requires i < |s|
    ensures |Escape(s[..i])| + |EscapeByte(s[i])| <= |Escape(s)|
  {
    EscapeTake(s, i);
    EscapePrefix(s, i + 1);
  }

  lemma {:induction false} EscapePrefix(s: bytes, i: nat)
    requires i <= |s|
    ensures |Escape(s[..i])| <= |Escape(s)|
    decreases |s| - i
  {
    if i == |s| {
      assert s[..i] == s;
    } else {
      EscapeTake(s, i);
      EscapePrefix(s, i + 1);
    }
  }

  // ----- reading a string token -----

  /** The value of four hexadecimal digits, as strtoul reads them. */
  function Hex4(s: bytes, p: nat): (v: nat)
    requires p + 4 <= |s| && HexRun(s, p, 4)
    ensures v <= 0xFFFF
  {
    ((HexValue(s[p]) * 16 + HexValue(s[p + 1])) * 16 + HexValue(s[p + 2])) * 16 + HexValue(s[p + 3])
  }

  /** p to e is the rest of the body of a string token whose closing quote is at e. */
  predicate InToken(s: bytes, p: nat, e: nat) {
    p <= |s| && StringEnd(s, p) == Some(e + 1)
  }

  /** What a simple escape stands for; get_string ignores any other letter. */
  function Unescape(letter: byte): bytes {
    if letter == LOWER_T then [TAB]
    else if letter == LOWER_B then [BACKSPACE]
    else if letter == LOWER_F then [FORMFEED]
    else if letter == LOWER_N then [NEWLINE]
    else if letter == LOWER_R then [RETURN]
    else if letter == BACKSLASH || letter == SLASH || letter == QUOTE then [letter]
    else []
  }

  /**
    The piece of text at p of a token: its value and the position after it. The second escape of a
    surrogate pair is looked for only if all of its six bytes are inside the token, because the
    token was scanned.
  */
  function Piece(s: bytes, p: nat, e: nat): (r: Result<(bytes, nat)>)
    requires InToken(s, p, e) && p != e
    ensures r.Ok? ==> p < r.value.1 <= e && InToken(s, r.value.1, e)
  {
    InsideToken(s, p, e);
    if s[p] != BACKSLASH then Ok(([s[p]], p + 1))
    else if s[p + 1] != LOWER_U then Ok((Unescape(s[p + 1]), p + 2))
    else
      var codepoint := Hex4(s, p + 2);
      if IsHighSurrogate(codepoint) then
        if p + 7 >= |s| || s[p + 6] != BACKSLASH || s[p + 7] != LOWER_U then Err(MissingLowSurrogate)
        else
          InsideToken(s, p + 6, e);
          match ToUnicode(codepoint, Hex4(s, p + 8))
          case Ok(u) => Ok((u, p + 12))
          case Err(x) => Err(x)
      else
        match ToUnicode(codepoint, 0)
        case Ok(u) => Ok((u, p + 6))
        case Err(x) => Err(x)
  }

  /** Where the body of a scanned token may be read: nothing leads past its closing quote. */
  lemma InsideToken(s: bytes, p: nat, e: nat)
    requires InToken(s, p, e)
    ensures p <= e < |s| && s[e] == QUOTE && (p == e <==> s[p] == QUOTE)
    ensures p != e && s[p] != BACKSLASH ==> InToken(s, p + 1, e)
    ensures p != e && s[p] == BACKSLASH ==> p + 2 <= e
    ensures p != e && s[p] == BACKSLASH && s[p + 1] != LOWER_U ==> InToken(s, p + 2, e)
    ensures p != e && s[p] == BACKSLASH && s[p + 1] == LOWER_U ==>
              p + 6 <= e && HexRun(s, p + 2, 4) && InToken(s, p + 6, e)
  {}

  /** The escape of a low surrogate at p, inside the token. */
  predicate LowSurrogateAt(s: bytes, p: nat, e: nat)
    requires InToken(s, p, e)
  {
    InsideToken(s, p, e);
    p != e && s[p] == BACKSLASH && s[p + 1] == LOWER_U && IsLowSurrogate(Hex4(s, p + 2))
  }

  /** get_string throws at a piece exactly if it is the escape of a high surrogate without a low one behind it. */
  lemma PieceFails(s: bytes, p: nat, e: nat)
    requires InToken(s, p, e) && p != e
    ensures p + 2 <= |s|
    ensures Piece(s, p, e).Err? <==>
              && s[p] == BACKSLASH && s[p + 1] == LOWER_U
              && p + 6 <= |s| && HexRun(s, p + 2, 4) && IsHighSurrogate(Hex4(s, p + 2))
              && InToken(s, p + 6, e) && !LowSurrogateAt(s, p + 6, e)
  {
    hide StringEnd, ToUnicode, Hex4;
    InsideToken(s, p, e);
    if s[p] == BACKSLASH && s[p + 1] == LOWER_U {
      InsideToken(s, p + 6, e);
      WhenToUnicodeThrows(Hex4(s, p + 2), 0);
      if LowSurrogateAt(s, p + 6, e) { WhenToUnicodeThrows(Hex4(s, p + 2), Hex4(s, p + 8)); }
      if p + 12 <= |s| && HexRun(s, p + 8, 4) { WhenToUnicodeThrows(Hex4(s, p + 2), Hex4(s, p + 8)); }
    }
  }

  /** get_string */
  function Decode(s: bytes, p: nat, e: nat): Result<bytes>
    requires InToken(s, p, e)
    decreases e - p
  {
    InsideToken(s, p, e);
    if p == e then Ok([])
    else
      match Piece(s, p, e)
      case Err(x) => Err(x)
      case Ok((u, q)) =>
        match Decode(s, q, e)
        case Err(x) => Err(x)
        case Ok(rest) => Ok(u + rest)
  }

  /** In the token's text every escape of a high surrogate has that of a low one behind it. */
  predicate PairedEscapes(s: bytes, p: nat, e: nat)
    requires InToken(s, p, e)
    decreases e - p
  {
    InsideToken(s, p, e);
    p == e ||
    if s[p] != BACKSLASH then PairedEscapes(s, p + 1, e)
    else if s[p + 1] != LOWER_U then PairedEscapes(s, p + 2, e)
    else if !IsHighSurrogate(Hex4(s, p + 2)) then PairedEscapes(s, p + 6, e)
    else LowSurrogateAt(s, p + 6, e) && (InsideToken(s, p + 6, e); PairedEscapes(s, p + 12, e))
  }

  /** Where the next piece starts, by the text. */
  lemma PieceEnds(s: bytes, p: nat, e: nat)
    requires InToken(s, p, e) && p != e
    ensures Piece(s, p, e).Err? ==> !PairedEscapes(s, p, e)
    ensures Piece(s, p, e).Ok? ==> (PairedEscapes(s, p, e) <==> PairedEscapes(s, Piece(s, p, e).value.1, e))
  {
    hide StringEnd, ToUnicode, Hex4, LowSurrogateAt;
    PieceFails(s, p, e);
    InsideToken(s, p, e);
  }

  /** get_string succeeds exactly on the tokens whose surrogate escapes are paired. */
  lemma {:induction false} DecodesExactly(s: bytes, p: nat, e: nat)
    requires InToken(s, p, e)
    ensures Decode(s, p, e).Ok? <==> PairedEscapes(s, p, e)
    decreases e - p
  {
    hide StringEnd, Piece;
    InsideToken(s, p, e);
    if p != e {
      PieceEnds(s, p, e);
      if Piece(s, p, e).Ok? { DecodesExactly(s, Piece(s, p, e).value.1, e); }
    }
  }

  // ----- reading undoes writing -----

  lemma PlainByte(s: bytes, p: nat, c: byte)
    requires p < |s| && s[p] == c && Letter(c).None? && c > 0x1F
    ensures StringEnd(s, p) == StringEnd(s, p + 1)
    ensures forall e | InToken(s, p, e) && p != e :: Piece(s, p, e) == Ok(([c], p + 1))
  {}

  lemma LetterByte(s: bytes, p: nat, c: byte)
    requires p + 1 < |s| && s[p] == BACKSLASH && Letter(c) == Some(s[p + 1])
    ensures StringEnd(s, p) == StringEnd(s, p + 2)
    ensures forall e | InToken(s, p, e) && p != e :: Piece(s, p, e) == Ok(([c], p + 2))
  {}

  lemma ControlByte(s: bytes, p: nat, c: byte)
    requires p + 5 < |s| && c <= 0x1F && s[p] == BACKSLASH && s[p + 1] == LOWER_U
    requires s[p + 2] == s[p + 3] == DIGIT_0 && s[p + 4] == Hexify(c / 16) && s[p + 5] == Hexify(c % 16)
    ensures StringEnd(s, p) == StringEnd(s, p + 6)
    ensures forall e | InToken(s, p, e) && p != e :: Piece(s, p, e) == Ok(([c], p + 6))
  {
    assert HexRun(s, p + 6, 0);
    assert HexRun(s, p + 4, 2);
    assert Hex4(s, p + 2) == c;
    assert ToUnicode(c, 0) == Ok([c]);
  }

  /** One escaped byte is scanned over and read back, whatever follows it. */
  lemma EscapedByte(s: bytes, p: nat, c: byte)
    requires Spells(s, p, EscapeByte(c))
    ensures p + |EscapeByte(c)| <= |s| && StringEnd(s, p) == StringEnd(s, p + |EscapeByte(c)|)
    ensures forall e | InToken(s, p, e) && p != e :: Piece(s, p, e) == Ok(([c], p + |EscapeByte(c)|))
  {
    hide StringEnd, Piece, InToken;
    var t := EscapeByte(c);
    if Letter(c).Some? {
      assert s[p] == t[0] && s[p + 1] == t[1];
      LetterByte(s, p, c);
    } else if c <= 0x1F {
      assert s[p] == t[0] && s[p + 1] == t[1] && s[p + 2] == t[2];
      assert s[p + 3] == t[3] && s[p + 4] == t[4] && s[p + 5] == t[5];
      ControlByte(s, p, c);
    } else {
      assert s[p] == t[0];
      PlainByte(s, p, c);
    }
  }

  /** What is decoded before the rest of the token is. */
  lemma DecodeStep(s: bytes, p: nat, q: nat, e: nat, u: bytes)
    requires InToken(s, p, e) && p != e && Piece(s, p, e) == Ok((u, q)) && InToken(s, q, e)
    requires Decode(s, q, e).Ok?
    ensures Decode(s, p, e) == Ok(u + Decode(s, q, e).value)
  {}

  lemma ClosingQuote(s: bytes, e: nat)
    requires e < |s| && s[e] == QUOTE
    ensures InToken(s, e, e) && Decode(s, e, e) == Ok([])
  {}

  /** The body of an escaped string, up to its closing quote. */
  lemma {:induction false} EscapedBody(s: bytes, p: nat, t: bytes)
    requires Spells(s, p, Escape(t) + [QUOTE])
    ensures var e := p + |Escape(t)|; InToken(s, p, e) && Decode(s, p, e) == Ok(t)
    decreases |t|
  {
    hide StringEnd, Piece, Decode, EscapeByte;
    var e := p + |Escape(t)|;
    SpellsSplit(s, p, Escape(t), [QUOTE]);
    SpellsOne(s, e, QUOTE);
    if t == [] {
      ClosingQuote(s, e);
    } else {
      var first, rest := EscapeByte(t[0]), Escape(t[1..]);
      assert Escape(t) + [QUOTE] == first + (rest + [QUOTE]);
      SpellsSplit(s, p, first, rest + [QUOTE]);
      EscapedByte(s, p, t[0]);
      EscapedBody(s, p + |first|, t[1..]);
      DecodeStep(s, p, p + |first|, e, [t[0]]);
      assert [t[0]] + t[1..] == t;
    }
  }

  /**
    String tokens round trip: wherever a text holds a quote, an escaped string and a quote, the
    scanner finds a string token that ends at the second quote, and get_string returns the string.
  */
  lemma StringRoundTrip(s: bytes, p: nat, t: bytes)
    requires Spells(s, p, [QUOTE] + Escape(t) + [QUOTE])
    ensures var e := p + 1 + |Escape(t)|;
            && e < |s| && Scan(s, p) == Lexeme(ValueString, p, e + 1)
            && InToken(s, p + 1, e) && Decode(s, p + 1, e) == Ok(t)
  {
    hide StringEnd, Decode, Escape;
    assert [QUOTE] + Escape(t) + [QUOTE] == [QUOTE] + (Escape(t) + [QUOTE]);
    SpellsSplit(s, p, [QUOTE], Escape(t) + [QUOTE]);
    SpellsOne(s, p, QUOTE);
    EscapedBody(s, p + 1, t);
    SpellsSplit(s, p + 1, Escape(t), [QUOTE]);
  }
}
