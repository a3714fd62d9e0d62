/** Which string tokens get_string turns into UTF-8, as sections 3 and 4 of RFC 3629 have it. */
module JsonUtf8 {
  import opened Machine
  import opened Ascii
  import opened JsonLexer
  import opened JsonString
  import opened Unicode

  /** How many bytes a character has, by its first one. */
  function CharLength(b: byte): nat {
    if b < 0x80 then 1
    else if 0xC2 <= b <= 0xDF then 2
    else if 0xE0 <= b <= 0xEF then 3
    else if 0xF0 <= b <= 0xF4 then 4
    else 0
  }

  predicate ValidUtf8(b: bytes) {
    b == [] ||
    var k := CharLength(b[0]);
    0 < k <= |b| && Utf8Value(b[..k]).Some? && ValidUtf8(b[k..])
  }

  /** In the token's text every escape of a low surrogate has that of a high one right before it. */
  predicate NoLoneLow(s: bytes, p: nat, e: nat)
    requires InToken(s, p, e)
    decreases e - p
  {
    InsideToken(s, p, e);
    p == e ||
    if s[p] != BACKSLASH then NoLoneLow(s, p + 1, e)
    else if s[p + 1] != LOWER_U then NoLoneLow(s, p + 2, e)
    else if IsHighSurrogate(Hex4(s, p + 2)) && LowSurrogateAt(s, p + 6, e) then
      (InsideToken(s, p + 6, e); NoLoneLow(s, p + 12, e))
    else !LowSurrogateAt(s, p, e) && NoLoneLow(s, p + 6, e)
  }

  // ----- characters in front of others -----

  lemma CharFirst(u: bytes, rest: bytes)
    requires Utf8Value(u).Some?
    ensures u != [] && !IsTail(u[0]) && (ValidUtf8(u + rest) <==> ValidUtf8(rest))
  {
    assert (u + rest)[..|u|] == u && (u + rest)[|u|..] == rest;
    assert |u| == CharLength(u[0]);
  }

  lemma {:induction false} AsciiFirst(a: bytes, rest: bytes)
    requires forall i | 0 <= i < |a| :: a[i] < 0x80
    ensures ValidUtf8(a + rest) <==> ValidUtf8(rest)
  {
    if a == [] {
      assert a + rest == rest;
    } else {
      assert a + rest == [a[0]] + (a[1..] + rest);
      assert Utf8Value([a[0]]) == Some(a[0]);
      CharFirst([a[0]], a[1..] + rest);
      AsciiFirst(a[1..], rest);
    }
  }

  /** A character that lacks one of its later bytes. */
  lemma BrokenChar(b: bytes, i: nat)
    requires b != [] && 1 <= i < CharLength(b[0]) && (i >= |b| || !IsTail(b[i]))
    ensures !ValidUtf8(b)
  {
    var k := CharLength(b[0]);
    if k <= |b| { assert b[..k][i] == b[i] && b[..k][0] == b[0]; }
  }

  lemma NoChar(b: bytes)
    requires b != [] && CharLength(b[0]) == 0
    ensures !ValidUtf8(b)
  {}

  // ----- pieces of a token -----

  /** The text of an escape is ASCII, and it stands for one character unless it is that of a lone low surrogate. */
  lemma EscapedChar(s: bytes, p: nat, e: nat)
    requires InToken(s, p, e) && p != e && s[p] == BACKSLASH && Piece(s, p, e).Ok?
    ensures var (u, q) := Piece(s, p, e).value;
            && q <= e < |s| && (forall i | p <= i < q :: s[i] < 0x80)
            && u != [] && !IsTail(u[0])
            && if LowSurrogateAt(s, p, e) then CharLength(u[0]) == 3 == |u| && Utf8Value(u).None?
               else Utf8Value(u).Some?
  {
    hide StringEnd, InToken, Hex4, ToUnicode, Utf8Value;
    InsideToken(s, p, e);
    if s[p + 1] == LOWER_U {
      HexAscii(s, p + 2);
      InsideToken(s, p + 6, e);
      var c := Hex4(s, p + 2);
      if IsHighSurrogate(c) {
        HighEscape(s, p, e);
      } else {
        DirectCodePoint(c);
        DirectFirst(c);
      }
    } else {
      SimpleEscape(s, p, e);
    }
  }

  lemma HexAscii(s: bytes, p: nat)
    requires p <= |s| && HexRun(s, p, 4)
    ensures p + 4 <= |s| && forall i | p <= i < p + 4 :: s[i] < 0x80
  {
    assert HexRun(s, p + 1, 3) && HexRun(s, p + 2, 2) && HexRun(s, p + 3, 1);
  }

  lemma HighEscape(s: bytes, p: nat, e: nat)
    requires InToken(s, p, e) && p != e && s[p] == BACKSLASH && Piece(s, p, e).Ok?
    requires s[p + 1] == LOWER_U && p + 6 <= |s| && HexRun(s, p + 2, 4) && IsHighSurrogate(Hex4(s, p + 2))
    ensures var (u, q) := Piece(s, p, e).value;
            && q == p + 12 <= e < |s| && (forall i | p <= i < q :: s[i] < 0x80)
            && Utf8Value(u).Some? && u != [] && !IsTail(u[0])
  {
    hide StringEnd, InToken, Hex4, ToUnicode, Utf8Value;
    InsideToken(s, p, e);
    InsideToken(s, p + 6, e);
    HexAscii(s, p + 2);
    HexAscii(s, p + 8);
    var high, low := Hex4(s, p + 2), Hex4(s, p + 8);
    WhenToUnicodeThrows(high, low);
    SurrogatePair(high, low);
    CharFirst(ToUnicode(high, low).value, []);
  }

  lemma SimpleEscape(s: bytes, p: nat, e: nat)
    requires InToken(s, p, e) && p != e && s[p] == BACKSLASH && p + 2 <= |s| && s[p + 1] != LOWER_U
    ensures var u := Unescape(s[p + 1]);
            s[p + 1] < 0x80 && |u| == 1 && u[0] < 0x80 && Utf8Value(u).Some?
  {}

  lemma DirectFirst(c: nat)
    requires c <= 0xFFFF && !IsHighSurrogate(c)
    ensures var u := ToUnicode(c, 0).value;
            u != [] && !IsTail(u[0]) && (IsLowSurrogate(c) ==> CharLength(u[0]) == 3 == |u|)
  {}

  /** Bytes beyond ASCII stand for themselves. */
  lemma {:induction false} RawBytes(s: bytes, p: nat, e: nat, n: nat)
    requires InToken(s, p, e) && p + n <= e && forall i | p <= i < p + n :: s[i] >= 0x80
    ensures e < |s| && InToken(s, p + n, e)
    ensures Decode(s, p, e).Ok? <==> Decode(s, p + n, e).Ok?
    ensures Decode(s, p, e).Ok? ==> Decode(s, p, e).value == s[p..p + n] + Decode(s, p + n, e).value
    ensures NoLoneLow(s, p, e) <==> NoLoneLow(s, p + n, e)
    decreases n
  {
    hide StringEnd, InToken, Piece, Decode, NoLoneLow;
    InsideToken(s, p, e);
    if n > 0 {
      RawBytes(s, p + 1, e, n - 1);
      assert s[p..p + n] == [s[p]] + s[p + 1..p + n];
      RawStep(s, p, e);
    }
  }

  lemma RawStep(s: bytes, p: nat, e: nat)
    requires InToken(s, p, e) && p != e && p < |s| && s[p] != BACKSLASH && InToken(s, p + 1, e)
    ensures Decode(s, p, e) == (match Decode(s, p + 1, e) case Ok(r) => Ok([s[p]] + r) case Err(x) => Err(x))
    ensures NoLoneLow(s, p, e) <==> NoLoneLow(s, p + 1, e)
  {
    hide StringEnd, Hex4, ToUnicode;
    InsideToken(s, p, e);
  }

  lemma EscapeStep(s: bytes, p: nat, e: nat)
    requires InToken(s, p, e) && p != e && Decode(s, p, e).Ok?
    ensures Piece(s, p, e).Ok?
    ensures var (u, q) := Piece(s, p, e).value;
            && Decode(s, q, e).Ok? && Decode(s, p, e).value == u + Decode(s, q, e).value
            && (NoLoneLow(s, p, e) <==> !LowSurrogateAt(s, p, e) && NoLoneLow(s, q, e))
  {
    hide StringEnd, Hex4, ToUnicode, LowSurrogateAt;
    InsideToken(s, p, e);
    LowStep(s, p, e);
  }

  /** Where a low surrogate would stand alone, by the piece that get_string reads. */
  lemma LowStep(s: bytes, p: nat, e: nat)
    requires InToken(s, p, e) && p != e && Piece(s, p, e).Ok?
    ensures var q := Piece(s, p, e).value.1;
            NoLoneLow(s, p, e) <==> !LowSurrogateAt(s, p, e) && NoLoneLow(s, q, e)
  {
    hide StringEnd, ToUnicode, Hex4;
    PieceFails(s, p, e);
    InsideToken(s, p, e);
  }

  /** What is decoded from a place where no character goes on does not go on with one. */
  lemma FirstNotTail(s: bytes, p: nat, e: nat)
    requires InToken(s, p, e) && p < e && p < |s| && !IsTail(s[p]) && Decode(s, p, e).Ok?
    ensures Decode(s, p, e).value != [] && !IsTail(Decode(s, p, e).value[0])
  {
    hide StringEnd, InToken, Hex4, ToUnicode;
    InsideToken(s, p, e);
    EscapeStep(s, p, e);
    if s[p] == BACKSLASH { EscapedChar(s, p, e); }
  }

  // ----- whole tokens -----

  /**
    Of a token that can be decoded, the decoded string is UTF-8 exactly if the text of the token is
    and no low surrogate is escaped on its own.
  */
  lemma {:induction false} DecodedIsUtf8(s: bytes, p: nat, e: nat)
    requires InToken(s, p, e) && Decode(s, p, e).Ok?
    ensures p <= e < |s|
    ensures ValidUtf8(Decode(s, p, e).value) <==> ValidUtf8(s[p..e]) && NoLoneLow(s, p, e)
    decreases e - p
  {
    hide StringEnd, InToken, Piece, ValidUtf8, Utf8Value, LowSurrogateAt;
    InsideToken(s, p, e);
    if p == e {
      NothingIsValid();
    } else if s[p] >= 0x80 {
      RawChar(s, p, e);
    } else {
      EscapeStep(s, p, e);
      var (u, q) := Piece(s, p, e).value;
      AsciiPiece(s, p, e);
      assert s[p..e] == s[p..q] + s[q..e];
      AsciiFirst(s[p..q], s[q..e]);
      DecodedIsUtf8(s, q, e);
      if LowSurrogateAt(s, p, e) {
        LoneLowFirst(u, Decode(s, q, e).value);
      } else {
        CharFirst(u, Decode(s, q, e).value);
      }
    }
  }

  lemma NothingIsValid()
    ensures ValidUtf8([])
  {}

  lemma LoneLowFirst(u: bytes, rest: bytes)
    requires u != [] && CharLength(u[0]) == 3 == |u| && Utf8Value(u).None?
    ensures !ValidUtf8(u + rest)
  {
    assert (u + rest)[..3] == u;
  }

  lemma AsciiPiece(s: bytes, p: nat, e: nat)
    requires InToken(s, p, e) && p < e < |s| && s[p] < 0x80 && Piece(s, p, e).Ok?
    ensures var (u, q) := Piece(s, p, e).value;
            && p < q <= e && InToken(s, q, e) && (forall i | p <= i < q :: s[i] < 0x80)
            && if LowSurrogateAt(s, p, e) then u != [] && CharLength(u[0]) == 3 == |u| && Utf8Value(u).None?
               else Utf8Value(u).Some?
  {
    hide StringEnd, InToken, Hex4, ToUnicode;
    InsideToken(s, p, e);
    if s[p] == BACKSLASH { EscapedChar(s, p, e); }
  }

  /** How far the bytes at p could be one character of k bytes. */
  lemma TailRun(s: bytes, p: nat, e: nat, k: nat) returns (n: nat)
    requires p < e < |s| && s[p] >= 0x80 && 0 < k
    ensures 1 <= n <= k && p + n <= e && forall j | p <= j < p + n :: s[j] >= 0x80
    ensures n == k || p + n == e || !IsTail(s[p + n])
  {
    n := 1;
    while n < k && p + n < e && IsTail(s[p + n])
      invariant 1 <= n <= k && p + n <= e && forall j | p <= j < p + n :: s[j] >= 0x80
    {
      n := n + 1;
    }
  }

  lemma CharAndRest(c: bytes, rest: bytes)
    requires c != [] && |c| == CharLength(c[0])
    ensures ValidUtf8(c + rest) <==> Utf8Value(c).Some? && ValidUtf8(rest)
  {
    assert (c + rest)[..|c|] == c && (c + rest)[|c|..] == rest;
  }

  /** A character beyond ASCII in the text: it is decoded as it is, whole or not. */
  lemma {:induction false} RawChar(s: bytes, p: nat, e: nat)
    requires InToken(s, p, e) && Decode(s, p, e).Ok? && p < e < |s| && s[p] >= 0x80
    ensures ValidUtf8(Decode(s, p, e).value) <==> ValidUtf8(s[p..e]) && NoLoneLow(s, p, e)
    decreases e - p, 0
  {
    hide StringEnd, InToken, Piece, ValidUtf8, Utf8Value, LowSurrogateAt, Decode, NoLoneLow, CharLength;
    var k, text, decoded := CharLength(s[p]), s[p..e], Decode(s, p, e).value;
    RawBytes(s, p, e, 1);
    if k == 0 {
      NoChar(text);
      NoChar(decoded);
    } else {
      var n := TailRun(s, p, e, k);
      RawBytes(s, p, e, n);
      SplitText(s, p, n, e);
      if n == k {
        CharAndRest(s[p..p + n], s[p + n..e]);
        CharAndRest(s[p..p + n], Decode(s, p + n, e).value);
        DecodedIsUtf8(s, p + n, e);
      } else {
        BrokenChar(text, n);
        AfterRun(s, p, e, n);
        BrokenChar(decoded, n);
      }
    }
  }

  lemma SplitText(s: bytes, p: nat, n: nat, e: nat)
    requires p + n <= e <= |s|
    ensures s[p..e] == s[p..p + n] + s[p + n..e]
    ensures forall i | p <= i < e :: s[p..e][i - p] == s[i]
  {}

  lemma AfterRun(s: bytes, p: nat, e: nat, n: nat)
    requires InToken(s, p, e) && Decode(s, p, e).Ok? && 0 < n && p + n <= e < |s|
    requires forall j | p <= j < p + n :: s[j] >= 0x80
    requires p + n == e || !IsTail(s[p + n])
    ensures var d := Decode(s, p, e).value; d != [] && d[0] == s[p] && (n >= |d| || !IsTail(d[n]))
  {
    hide StringEnd, InToken, Piece, Decode, IsTail;
    RawBytes(s, p, e, n);
    if p + n == e {
      InsideToken(s, e, e);
      ClosingQuote(s, e);
    } else {
      FirstNotTail(s, p + n, e);
    }
  }
}
