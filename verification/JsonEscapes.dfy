/**
  What get_string reads, piece by piece of the token's text: the bytes of an escape are given by
  their values, and what they stand for by section 7 of RFC 7159 and section 3 of RFC 3629.
*/
module JsonEscapes {
  import opened Machine
  import Ascii
  import opened JsonLexer
  import opened JsonString
  import opened Unicode

  /** The hexadecimal digit of a number, in either case. */
  predicate HexDigit(b: byte, d: nat) {
    (d < 10 && b == 48 + d) || (10 <= d < 16 && (b == 65 + d - 10 || b == 97 + d - 10))
  }

  /** The escape of c: a backslash, a u and the four digits of c, the most significant one first. */
  ghost predicate EscapeAt(s: bytes, p: nat, c: nat) {
    && p + 6 <= |s| && s[p] == 92 && s[p + 1] == 117
    && HexDigit(s[p + 2], c / 4096) && HexDigit(s[p + 3], c / 256 % 16)
    && HexDigit(s[p + 4], c / 16 % 16) && HexDigit(s[p + 5], c % 16)
  }

  /** From p on get_string reads u, and then what it reads from q on. */
  ghost predicate Reads(s: bytes, p: nat, e: nat, u: bytes, q: nat)
    requires InToken(s, p, e)
  {
    && InToken(s, q, e)
    && match Decode(s, q, e)
       case Ok(rest) => Decode(s, p, e) == Ok(u + rest)
       case Err(x) => Decode(s, p, e) == Err(x)
  }

  lemma PieceReads(s: bytes, p: nat, e: nat)
    requires InToken(s, p, e) && p != e && Piece(s, p, e).Ok?
    ensures var (u, q) := Piece(s, p, e).value; Reads(s, p, e, u, q)
  {
    hide StringEnd, Piece, InToken;
  }

  lemma HexDigitValue(b: byte, d: nat)
    requires HexDigit(b, d)
    ensures Ascii.IsHex(b) && Ascii.HexValue(b) == d
  {}

  /** Four digits are the digits of one number, the one strtoul gives. */
  lemma FourDigits(c: nat)
    ensures ((c / 4096 * 16 + c / 256 % 16) * 16 + c / 16 % 16) * 16 + c % 16 == c
  {
    assert c / 16 / 16 == c / 256 && c / 256 / 16 == c / 4096;
    assert c == c / 16 * 16 + c % 16;
    assert c / 16 == c / 16 / 16 * 16 + c / 16 % 16;
    assert c / 256 == c / 256 / 16 * 16 + c / 256 % 16;
  }

  lemma EscapeNumber(s: bytes, p: nat, e: nat, c: nat)
    requires InToken(s, p, e) && EscapeAt(s, p, c)
    ensures p != e && HexRun(s, p + 2, 4) && Hex4(s, p + 2) == c && InToken(s, p + 6, e) && p + 6 <= e
  {
    hide StringEnd, InToken, HexRun, HexDigit;
    InsideToken(s, p, e);
    HexDigitValue(s[p + 2], c / 4096);
    HexDigitValue(s[p + 3], c / 256 % 16);
    HexDigitValue(s[p + 4], c / 16 % 16);
    HexDigitValue(s[p + 5], c % 16);
    FourDigits(c);
  }

  /** Every escape with a u is the escape of some number. */
  lemma EscapeHasNumber(s: bytes, p: nat, e: nat) returns (c: nat)
    requires InToken(s, p, e) && p != e && s[p] == 92 && s[p + 1] == 117
    ensures c <= 0xFFFF && EscapeAt(s, p, c)
  {
    hide StringEnd, InToken, HexDigit, Ascii.IsHex, Ascii.HexValue;
    InsideToken(s, p, e);
    HexRunDigits(s, p + 2);
    c := Hex4(s, p + 2);
    DigitsOf(Ascii.HexValue(s[p + 2]), Ascii.HexValue(s[p + 3]), Ascii.HexValue(s[p + 4]), Ascii.HexValue(s[p + 5]));
  }

  lemma HexRunDigits(s: bytes, p: nat)
    requires HexRun(s, p, 4) && p + 4 <= |s|
    ensures forall k | p <= k < p + 4 :: Ascii.IsHex(s[k]) && HexDigit(s[k], Ascii.HexValue(s[k]))
  {
    assert HexRun(s, p + 1, 3) && HexRun(s, p + 2, 2) && HexRun(s, p + 3, 1);
  }

  lemma DigitsOf(a: nat, b: nat, c: nat, d: nat)
    requires a < 16 && b < 16 && c < 16 && d < 16
    ensures var n := ((a * 16 + b) * 16 + c) * 16 + d;
            n / 4096 == a && n / 256 % 16 == b && n / 16 % 16 == c && n % 16 == d
  {
    var x := a * 16 + b;
    var y := x * 16 + c;
    assert (y * 16 + d) / 16 == y && y / 16 == x && x / 16 == a;
    assert (y * 16 + d) / 256 == (y * 16 + d) / 16 / 16 && (y * 16 + d) / 4096 == (y * 16 + d) / 256 / 16;
  }

  /** The escape of a character is read as the character's UTF-8 form. */
  lemma CharacterRead(s: bytes, p: nat, e: nat, c: nat) returns (u: bytes)
    requires InToken(s, p, e) && EscapeAt(s, p, c) && c <= 0xFFFF && !(0xD800 <= c <= 0xDFFF)
    ensures Utf8Value(u) == Some(c) && Reads(s, p, e, u, p + 6)
  {
    hide StringEnd, InToken, HexRun, Hex4, EscapeAt, Utf8Value, ToUnicode, Reads;
    EscapeNumber(s, p, e, c);
    u := DirectRead(s, p, e, c);
    DirectCodePoint(c);
  }

  lemma DirectRead(s: bytes, p: nat, e: nat, c: nat) returns (u: bytes)
    requires InToken(s, p, e) && EscapeAt(s, p, c) && c <= 0xFFFF && !IsHighSurrogate(c)
    ensures ToUnicode(c, 0) == Ok(u) && Reads(s, p, e, u, p + 6)
  {
    hide StringEnd, InToken, HexRun, Hex4, Utf8Value, ToUnicode, Reads;
    EscapeNumber(s, p, e, c);
    DirectCodePoint(c);
    u := ToUnicode(c, 0).value;
    PieceReads(s, p, e);
  }

  /** The escapes of a high and a low surrogate are read as the UTF-8 form of the character they stand for. */
  lemma PairRead(s: bytes, p: nat, e: nat, high: nat, low: nat) returns (u: bytes)
    requires InToken(s, p, e) && EscapeAt(s, p, high) && EscapeAt(s, p + 6, low)
    requires 0xD800 <= high <= 0xDBFF && 0xDC00 <= low <= 0xDFFF
    ensures Utf8Value(u) == Some(0x10000 + (high - 0xD800) * 0x400 + (low - 0xDC00))
    ensures Reads(s, p, e, u, p + 12)
  {
    hide StringEnd, InToken, HexRun, Hex4, Utf8Value, ToUnicode, Reads;
    EscapeNumber(s, p, e, high);
    EscapeNumber(s, p + 6, e, low);
    SurrogatePair(high, low);
    u := ToUnicode(high, low).value;
    PieceReads(s, p, e);
  }

  /** The escape of a low surrogate on its own is read as three bytes that are no UTF-8. */
  lemma LowRead(s: bytes, p: nat, e: nat, c: nat) returns (u: bytes)
    requires InToken(s, p, e) && EscapeAt(s, p, c) && 0xDC00 <= c <= 0xDFFF
    ensures u == [0xED, 0x80 + c / 64 % 64, 0x80 + c % 64] && Utf8Value(u) == None && Reads(s, p, e, u, p + 6)
  {
    hide StringEnd, InToken, HexRun, Hex4, EscapeAt, Utf8Value, Reads;
    u := DirectRead(s, p, e, c);
    DirectCodePoint(c);
  }

  ghost predicate LowEscapeAt(s: bytes, p: nat) {
    exists low | 0xDC00 <= low <= 0xDFFF :: EscapeAt(s, p, low)
  }

  /** The escape of a high surrogate without one of a low surrogate behind it is not read. */
  lemma HighAloneFails(s: bytes, p: nat, e: nat, high: nat)
    requires InToken(s, p, e) && EscapeAt(s, p, high) && 0xD800 <= high <= 0xDBFF
    ensures !LowEscapeAt(s, p + 6) ==> Decode(s, p, e).Err?
  {
    hide StringEnd, InToken, HexRun, Hex4, HexDigit, ToUnicode;
    EscapeNumber(s, p, e, high);
    InsideToken(s, p, e);
    InsideToken(s, p + 6, e);
    PieceFails(s, p, e);
    if LowSurrogateAt(s, p + 6, e) { LowIsThere(s, p + 6, e); }
  }

  lemma LowIsThere(s: bytes, p: nat, e: nat)
    requires InToken(s, p, e) && LowSurrogateAt(s, p, e)
    ensures LowEscapeAt(s, p)
  {
    hide StringEnd, InToken, HexRun, Hex4, EscapeAt;
    InsideToken(s, p, e);
    var low := EscapeHasNumber(s, p, e);
    EscapeNumber(s, p, e, low);
  }

  /** The eight simple escapes. */
  lemma SimpleRead(s: bytes, p: nat, e: nat)
    requires InToken(s, p, e) && p != e && p + 2 <= |s| && s[p] == 92 && s[p + 1] != 117
    ensures var b := s[p + 1];
            && b in [34, 47, 92, 98, 102, 110, 114, 116]
            && Reads(s, p, e, if b == 98 then [8] else if b == 102 then [12] else if b == 110 then [10]
                              else if b == 114 then [13] else if b == 116 then [9] else [b], p + 2)
  {
    hide StringEnd, Reads;
    SimpleLetter(s, p, e);
    PieceReads(s, p, e);
  }

  lemma SimpleLetter(s: bytes, p: nat, e: nat)
    requires InToken(s, p, e) && p != e && p + 2 <= |s| && s[p] == 92 && s[p + 1] != 117
    ensures s[p + 1] in [34, 47, 92, 98, 102, 110, 114, 116]
  {}

  /** Any other byte stands for itself, and the closing quote for nothing. */
  lemma RawRead(s: bytes, p: nat, e: nat)
    requires InToken(s, p, e)
    ensures p <= e < |s| && Decode(s, e, e) == Ok([])
    ensures p != e && s[p] != 92 ==> Reads(s, p, e, [s[p]], p + 1)
  {
    hide StringEnd, Reads;
    InsideToken(s, p, e);
    ClosingQuote(s, e);
    if p != e && s[p] != 92 { PieceReads(s, p, e); }
  }
}
