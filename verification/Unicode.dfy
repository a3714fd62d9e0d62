/**
  lexer::to_unicode of json.hpp, and what RFC 2781 and RFC 3629 say its result has to be: the
  UTF-8 bytes of a code point that is given directly or as a surrogate pair.
*/
module Unicode {
  import opened Machine

  datatype Error =
    | MissingLowSurrogate
    | WrongLowSurrogate
    | CodePointTooLarge
    | Unexpected
    | NotANumber

  datatype Result<+T> = Ok(value: T) | Err(error: Error)

  predicate IsHighSurrogate(c: nat) { 0xD800 <= c <= 0xDBFF }
  predicate IsLowSurrogate(c: nat) { 0xDC00 <= c <= 0xDFFF }

  /** Shifts and masks are divisions and remainders by powers of two. */
  function ToUnicode(codepoint1: nat, codepoint2: nat): Result<bytes> {
    if IsHighSurrogate(codepoint1) && !IsLowSurrogate(codepoint2) then Err(WrongLowSurrogate)
    else
      var codepoint := if IsHighSurrogate(codepoint1) then codepoint1 * 0x400 + codepoint2 - 0x35FDC00
                       else codepoint1;
      if codepoint < 0x80 then
        Ok([codepoint])
      else if codepoint <= 0x7FF then
        Ok([0xC0 + codepoint / 0x40 % 0x20, 0x80 + codepoint % 0x40])
      else if codepoint <= 0xFFFF then
        Ok([0xE0 + codepoint / 0x1000 % 0x10, 0x80 + codepoint / 0x40 % 0x40, 0x80 + codepoint % 0x40])
      else if codepoint <= 0x10FFFF then
        Ok([0xF0 + codepoint / 0x40000 % 0x08, 0x80 + codepoint / 0x1000 % 0x40,
            0x80 + codepoint / 0x40 % 0x40, 0x80 + codepoint % 0x40])
      else Err(CodePointTooLarge)
  }

  /** The scalar value of a surrogate pair, as section 2.2 of RFC 2781 has it. */
  function PairValue(high: nat, low: nat): nat
    requires IsHighSurrogate(high) && IsLowSurrogate(low)
  {
    (high - 0xD800) * 0x400 + (low - 0xDC00) + 0x10000
  }

  function Above(b: byte, base: byte): nat
    requires base <= b
  {
    b - base
  }

  predicate IsTail(b: byte) { 0x80 <= b <= 0xBF }

  /** The one code point a sequence of bytes stands for, as section 3 of RFC 3629 has it. */
  function Utf8Value(b: bytes): Option<nat> {
    if |b| == 1 && b[0] < 0x80 then Some(b[0])
    else if |b| == 2 && 0xC2 <= b[0] <= 0xDF && IsTail(b[1]) then
      Some(Above(b[0], 0xC0) * 0x40 + Above(b[1], 0x80))
    else if |b| == 3 && 0xE0 <= b[0] <= 0xEF && IsTail(b[1]) && IsTail(b[2]) && (b[0] == 0xE0 ==> 0xA0 <= b[1])
         && (b[0] == 0xED ==> b[1] <= 0x9F) then
      Some(Above(b[0], 0xE0) * 0x1000 + Above(b[1], 0x80) * 0x40 + Above(b[2], 0x80))
    else if |b| == 4 && 0xF0 <= b[0] <= 0xF4 && IsTail(b[1]) && IsTail(b[2]) && IsTail(b[3])
         && (b[0] == 0xF0 ==> 0x90 <= b[1]) && (b[0] == 0xF4 ==> b[1] <= 0x8F) then
      Some(Above(b[0], 0xF0) * 0x40000 + Above(b[1], 0x80) * 0x1000 + Above(b[2], 0x80) * 0x40 + Above(b[3], 0x80))
    else None
  }

  /** A number below 2^24 from its digits in base 64. */
  lemma Base64(a: nat, b: nat, d: nat, e: nat)
    requires b < 0x40 && d < 0x40 && e < 0x40
    ensures var c := a * 0x40000 + b * 0x1000 + d * 0x40 + e;
            && c / 0x40000 == a && c / 0x1000 == a * 0x40 + b
            && c / 0x40 == (a * 0x40 + b) * 0x40 + d && c % 0x40 == e
            && c / 0x1000 % 0x40 == b && c / 0x40 % 0x40 == d
  {
    var x := a * 0x40 + b;
    var y := x * 0x40 + d;
    var c := y * 0x40 + e;
    LastDigit(y, e);
    LastDigit(x, d);
    LastDigit(a, b);
    assert c / 0x1000 == c / 0x40 / 0x40 && c / 0x40000 == c / 0x1000 / 0x40;
  }

  lemma LastDigit(q: nat, r: nat)
    requires r < 0x40
    ensures (q * 0x40 + r) / 0x40 == q && (q * 0x40 + r) % 0x40 == r
  {}

  lemma Base64Digits(c: nat) returns (a: nat, b: nat, d: nat, e: nat)
    ensures b < 0x40 && d < 0x40 && e < 0x40 && c == a * 0x40000 + b * 0x1000 + d * 0x40 + e
  {
    var q := c / 0x40;
    e := c % 0x40;
    d := q % 0x40;
    b := q / 0x40 % 0x40;
    a := q / 0x40 / 0x40;
  }

  /**
    A code point below 0x110000 that is no high surrogate is accepted. It becomes its own UTF-8 form
    exactly if it is no low surrogate either; a low surrogate alone becomes bytes that are no UTF-8.
  */
  lemma DirectCodePoint(c: nat)
    requires c <= 0x10FFFF && !IsHighSurrogate(c)
    ensures ToUnicode(c, 0).Ok?
    ensures Utf8Value(ToUnicode(c, 0).value) == Some(c) <==> !IsLowSurrogate(c)
    ensures IsLowSurrogate(c) ==> Utf8Value(ToUnicode(c, 0).value) == None
  {
    var a, b, d, e := Base64Digits(c);
    Base64(a, b, d, e);
    if c <= 0x7FF {
      ShortForm(c, d, e);
    } else if c <= 0xFFFF {
      MiddleForm(c, b, d, e);
    } else {
      LongForm(c, a, b, d, e);
    }
  }

  /** The escape \uDC00 on its own. */
  lemma LoneLowSurrogate()
    ensures ToUnicode(0xDC00, 0) == Ok([0xED, 0xB0, 0x80]) && Utf8Value([0xED, 0xB0, 0x80]) == None
  {
    assert 0xDC00 / 0x40 % 0x40 == 0x30 && 0xDC00 / 0x1000 % 0x10 == 0xD;
  }

  lemma ShortForm(c: nat, d: nat, e: nat)
    requires c == d * 0x40 + e && d < 0x20 && e < 0x40
    ensures Utf8Value(if c < 0x80 then [c] else [0xC0 + d, 0x80 + e]) == Some(c)
    ensures ToUnicode(c, 0) == Ok(if c < 0x80 then [c] else [0xC0 + d, 0x80 + e])
  {
    hide Utf8Value;
    ShortValue(d, e);
    LastDigit(d, e);
  }

  lemma ShortValue(d: nat, e: nat)
    requires d < 0x20 && e < 0x40
    ensures var c := d * 0x40 + e; Utf8Value(if c < 0x80 then [c] else [0xC0 + d, 0x80 + e]) == Some(c)
  {}

  lemma MiddleForm(c: nat, b: nat, d: nat, e: nat)
    requires 0x800 <= c <= 0xFFFF && !IsHighSurrogate(c) && b < 0x10 && d < 0x40 && e < 0x40
    requires c / 0x1000 % 0x40 == b && c / 0x1000 < 0x10 && c / 0x40 % 0x40 == d && c % 0x40 == e
    requires c == b * 0x1000 + d * 0x40 + e
    ensures var u := [0xE0 + b, 0x80 + d, 0x80 + e];
            ToUnicode(c, 0) == Ok(u) && Utf8Value(u) == if IsLowSurrogate(c) then None else Some(c)
  {
    hide Utf8Value;
    MiddleValue(b, d, e);
    assert ToUnicode(c, 0) == Ok([0xE0 + b, 0x80 + d, 0x80 + e]);
  }

  lemma MiddleValue(b: nat, d: nat, e: nat)
    requires b < 0x10 && d < 0x40 && e < 0x40
    ensures var c := b * 0x1000 + d * 0x40 + e;
            0x800 <= c && !IsHighSurrogate(c) ==>
              Utf8Value([0xE0 + b, 0x80 + d, 0x80 + e]) == if IsLowSurrogate(c) then None else Some(c)
  {}

  lemma LongForm(c: nat, a: nat, b: nat, d: nat, e: nat)
    requires 0x10000 <= c <= 0x10FFFF && b < 0x40 && d < 0x40 && e < 0x40
    requires c / 0x40000 == a && c / 0x1000 % 0x40 == b && c / 0x40 % 0x40 == d && c % 0x40 == e
    requires c == a * 0x40000 + b * 0x1000 + d * 0x40 + e
    ensures ToUnicode(c, 0) == Ok([0xF0 + a, 0x80 + b, 0x80 + d, 0x80 + e])
    ensures Utf8Value([0xF0 + a, 0x80 + b, 0x80 + d, 0x80 + e]) == Some(c)
  {
    hide Utf8Value;
    assert a <= 4;
    LongValue(a, b, d, e);
  }

  lemma LongValue(a: nat, b: nat, d: nat, e: nat)
    requires b < 0x40 && d < 0x40 && e < 0x40
    ensures var c := a * 0x40000 + b * 0x1000 + d * 0x40 + e;
            0x10000 <= c <= 0x10FFFF ==> Utf8Value([0xF0 + a, 0x80 + b, 0x80 + d, 0x80 + e]) == Some(c)
  {}

  /** Every surrogate pair is accepted, and becomes the UTF-8 form of the value the pair stands for. */
  lemma SurrogatePair(high: nat, low: nat)
    requires IsHighSurrogate(high) && IsLowSurrogate(low)
    ensures 0x10000 <= PairValue(high, low) <= 0x10FFFF
    ensures ToUnicode(high, low).Ok? && Utf8Value(ToUnicode(high, low).value) == Some(PairValue(high, low))
  {
    var c := PairValue(high, low);
    assert c == high * 0x400 + low - 0x35FDC00;
    assert ToUnicode(high, low) == ToUnicode(c, 0);
    DirectCodePoint(c);
  }

  /** to_unicode throws exactly on a high surrogate without its partner and above 0x10FFFF. */
  lemma WhenToUnicodeThrows(codepoint1: nat, codepoint2: nat)
    ensures ToUnicode(codepoint1, codepoint2).Err? <==>
            || (IsHighSurrogate(codepoint1) && !IsLowSurrogate(codepoint2))
            || codepoint1 > 0x10FFFF
  {
    if IsHighSurrogate(codepoint1) && IsLowSurrogate(codepoint2) {
      SurrogatePair(codepoint1, codepoint2);
    }
  }
}
