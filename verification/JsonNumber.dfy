/**
  Numbers: how an integer is written, and get_number, which reads a number token: with strtoull or
  strtoll if that takes the whole token and the value fits, with strtod otherwise. The value strtod
  computes is not modelled, only how far it reads.
*/
module JsonNumber {
  import opened Machine
  import opened Ascii
  import opened JsonLexer
  import opened JsonString
  import opened JsonValue
  import opened Unicode

  /** A natural number in decimal. */
  function Decimal(n: nat): (d: bytes)
    ensures |d| > 0 && forall k | 0 <= k < |d| :: IsDigit(d[k])
    ensures d[0] == DIGIT_0 <==> n == 0
    ensures n == 0 ==> |d| == 1
  {
    if n < 10 then [DIGIT_0 + n] else Decimal(n / 10) + [DIGIT_0 + n % 10]
  }

  function IntegerText(i: int): bytes {
    if i < 0 then [MINUS] + Decimal(-i) else Decimal(i)
  }

  function DigitValue(b: byte): (v: nat)
    requires IsDigit(b)
    ensures v < 10 && v + DIGIT_0 == b
  {
    b - DIGIT_0
  }

  /** The value of the digits from p to e. */
  function DigitsValue(s: bytes, p: nat, e: nat): nat
    requires p <= e <= |s| && forall k | p <= k < e :: IsDigit(s[k])
    decreases e
  {
    if p == e then 0 else DigitsValue(s, p, e - 1) * 10 + DigitValue(s[e - 1])
  }

  lemma {:induction false} DigitsAreDigits(s: bytes, p: nat)
    requires p <= |s|
    ensures forall k | p <= k < DigitsEnd(s, p) :: IsDigit(s[k])
    ensures !IsDigit(At(s, DigitsEnd(s, p)))
    decreases |s| - p
  {
    if IsDigit(At(s, p)) { DigitsAreDigits(s, p + 1); }
  }

  /** Where strtod stops: it takes a point without digits behind it, unlike the scanner. */
  function StrtodEnd(s: bytes, p: nat): nat
    requires p <= |s|
  {
    var q := DigitsEnd(s, p);
    ExponentEnd(s, if At(s, q) == DOT then DigitsEnd(s, q + 1) else q)
  }

  /** get_number for the token at start that ends at cursor. */
  function NumberValue(s: bytes, start: nat, cursor: nat): (r: Result<Json>)
    requires start < cursor <= |s|
    ensures r.Ok? ==> r.value.Unsigned? || r.value.Integer? || r.value.Float?
  {
    var negative := s[start] == MINUS;
    var p := if negative then start + 1 else start;
    var end := DigitsEnd(s, p);
    DigitsAreDigits(s, p);
    var v: int := DigitsValue(s, p, end);
    if end == cursor && !negative && v < U64 then Ok(Unsigned(v))
    else if end == cursor && negative && v <= 0x8000_0000_0000_0000 then Ok(Integer(-v))
    else if StrtodEnd(s, p) == cursor then Ok(Float(s[start..cursor]))
    else Err(NotANumber)
  }

  /** The integer at start is beyond the type get_number tries first. */
  predicate TooLarge(s: bytes, start: nat)
    requires start < |s|
  {
    var negative := s[start] == MINUS;
    var p := if negative then start + 1 else start;
    DigitsAreDigits(s, p);
    var v: int := DigitsValue(s, p, DigitsEnd(s, p));
    if negative then v > 0x8000_0000_0000_0000 else v >= U64
  }

  /**
    The number tokens get_number does not accept, by their text: a zero with a digit behind it, and
    an integer that is too large and has a point behind it, which strtod takes although the scanner
    did not.
  */
  predicate Rejected(s: bytes, start: nat, e: nat)
    requires start < e <= |s|
  {
    var p := if s[start] == MINUS then start + 1 else start;
    || (At(s, p) == DIGIT_0 && IsDigit(At(s, p + 1)))
    || (e == DigitsEnd(s, p) && TooLarge(s, start) && At(s, e) == DOT)
  }

  lemma NumberRejected(s: bytes, start: nat, e: nat)
    requires start <= |s| && TokenAt(s, start) == Lexeme(ValueNumber, start, e)
    ensures start < e <= |s| && (NumberValue(s, start, e).Err? <==> Rejected(s, start, e))
  {
    hide StringEnd, DigitsValue, TokenAt;
    NumberTokenEnd(s, start, e);
    var p := if s[start] == MINUS then start + 1 else start;
    DigitsAreDigits(s, p);
    RejectedByEnds(s, p, e);
  }

  /** How the end of a number token and those strtoull and strtod find lie. */
  lemma RejectedByEnds(s: bytes, p: nat, e: nat)
    requires p < |s| && IsDigit(s[p]) && e == NumberEnd(s, p)
    ensures var d := DigitsEnd(s, p);
            && (s[p] == DIGIT_0 && IsDigit(At(s, p + 1)) ==> e != d && StrtodEnd(s, p) != e)
            && (!(s[p] == DIGIT_0 && IsDigit(At(s, p + 1))) ==>
                  if e == d && At(s, e) == DOT then StrtodEnd(s, p) != e else StrtodEnd(s, p) == e)
  {}

  lemma NumberTokenEnd(s: bytes, start: nat, e: nat)
    requires start <= |s| && TokenAt(s, start) == Lexeme(ValueNumber, start, e)
    ensures start < |s|
    ensures var p := if s[start] == MINUS then start + 1 else start;
            p < |s| && IsDigit(s[p]) && e == NumberEnd(s, p)
  {
    hide StringEnd, NumberEnd, Spells;
  }

  // ----- reading undoes writing -----

  lemma {:induction false} DigitsEndOf(s: bytes, p: nat, d: bytes)
    requires Spells(s, p, d) && forall k | 0 <= k < |d| :: IsDigit(d[k])
    requires !IsDigit(At(s, p + |d|))
    ensures DigitsEnd(s, p) == p + |d|
    decreases |d|
  {
    if d != [] {
      assert d == [d[0]] + d[1..];
      SpellsSplit(s, p, [d[0]], d[1..]);
      SpellsOne(s, p, d[0]);
      DigitsEndOf(s, p + 1, d[1..]);
    }
  }

  lemma {:induction false} DecimalValue(s: bytes, p: nat, n: nat)
    requires Spells(s, p, Decimal(n))
    ensures forall k | p <= k < p + |Decimal(n)| :: IsDigit(s[k])
    ensures DigitsValue(s, p, p + |Decimal(n)|) == n
    decreases n
  {
    var d := Decimal(n);
    assert forall k | p <= k < p + |d| :: s[k] == d[k - p];
    if n < 10 {
      assert s[p] == d[0];
      assert DigitsValue(s, p, p) == 0;
    } else {
      SpellsSplit(s, p, Decimal(n / 10), [DIGIT_0 + n % 10]);
      DecimalValue(s, p, n / 10);
      assert s[p + |d| - 1] == d[|d| - 1];
    }
  }

  /** What may follow a number without becoming a part of it. */
  predicate EndsNumber(b: byte) {
    !IsDigit(b) && b != DOT && b != LOWER_E && b != UPPER_E
  }

  lemma NumberEndOf(s: bytes, p: nat, n: nat)
    requires Spells(s, p, Decimal(n)) && EndsNumber(At(s, p + |Decimal(n)|))
    ensures p < |s| && IsDigit(s[p]) && NumberEnd(s, p) == p + |Decimal(n)| == DigitsEnd(s, p)
  {
    var d := Decimal(n);
    assert s[p] == d[0];
    DigitsEndOf(s, p, d);
  }

  /** An integer in a text, with nothing behind it that could belong to a number, is read back. */
  lemma IntegerRoundTrip(s: bytes, p: nat, i: int)
    requires -0x8000_0000_0000_0000 <= i < U64
    requires Spells(s, p, IntegerText(i)) && EndsNumber(At(s, p + |IntegerText(i)|))
    ensures var e := p + |IntegerText(i)|;
            && e <= |s| && Scan(s, p) == Lexeme(ValueNumber, p, e)
            && NumberValue(s, p, e) == Ok(if i < 0 then Integer(i) else Unsigned(i))
  {
    hide NumberEnd, DigitsEnd, DigitsValue, Decimal, TokenAt, Scan, NumberValue, Spells;
    if i < 0 {
      SpellsSplit(s, p, [MINUS], Decimal(-i));
      SpellsOne(s, p, MINUS);
      NumberEndOf(s, p + 1, -i);
      DecimalValue(s, p + 1, -i);
      NumberToken(s, p, p + 1);
      IntegerRead(s, p, p + 1, -i);
    } else {
      NumberEndOf(s, p, i);
      DecimalValue(s, p, i);
      DigitIsNoMinus(s, p);
      NumberToken(s, p, p);
      IntegerRead(s, p, p, i);
    }
  }

  lemma DigitIsNoMinus(s: bytes, p: nat)
    requires p < |s| && IsDigit(s[p])
    ensures s[p] != MINUS
  {}

  /** A number token by its first digit. */
  lemma NumberToken(s: bytes, start: nat, p: nat)
    requires p < |s| && IsDigit(s[p]) && (p == start || (p == start + 1 && s[start] == MINUS))
    ensures Scan(s, start) == Lexeme(ValueNumber, start, NumberEnd(s, p))
  {
    hide NumberEnd, StringEnd, Spells;
  }

  /** get_number on digits that are all of the token. */
  lemma IntegerRead(s: bytes, start: nat, p: nat, v: int)
    requires start < |s| && p == (if s[start] == MINUS then start + 1 else start) && p < DigitsEnd(s, p) <= |s|
    requires 0 <= v && if s[start] == MINUS then v <= 0x8000_0000_0000_0000 else v < U64
    requires forall k | p <= k < DigitsEnd(s, p) :: IsDigit(s[k])
    requires DigitsValue(s, p, DigitsEnd(s, p)) == v
    ensures NumberValue(s, start, DigitsEnd(s, p)) == Ok(if s[start] == MINUS then Integer(-v) else Unsigned(v))
  {
    hide DigitsEnd, DigitsValue, StrtodEnd;
  }
}
