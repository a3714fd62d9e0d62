/**
  The tokens of json.hpp as a language, byte by byte: what is skipped before a token, which texts are
  the bodies of strings, which are numbers, and how a token begins.
*/
module JsonTokens {
  import opened Machine
  import opened JsonLexer
  import Ascii
  import JsonNumber
  import opened JsonValue

  // ----- before a token -----

  /** Tab, line feed, carriage return, space. */
  ghost predicate WhiteAt(s: bytes, p: nat) {
    p < |s| && (s[p] == 9 || s[p] == 10 || s[p] == 13 || s[p] == 32)
  }

  ghost predicate MarkAt(s: bytes, p: nat) {
    p + 2 < |s| && s[p] == 0xEF && s[p + 1] == 0xBB && s[p + 2] == 0xBF
  }

  /** From p to q there is white space and byte order marks. */
  ghost predicate Blank(s: bytes, p: nat, q: nat)
    decreases q - p
  {
    || p == q
    || (p < q && WhiteAt(s, p) && Blank(s, p + 1, q))
    || (p + 2 < q && MarkAt(s, p) && Blank(s, p + 3, q))
  }

  /** The next token is the one at q exactly if all before q is blank and at q there is something else. */
  lemma {:induction false} SkippedExactly(s: bytes, p: nat, q: nat)
    requires p <= |s|
    ensures Scan(s, p).start == q <==> q <= |s| && Blank(s, p, q) && !WhiteAt(s, q) && !MarkAt(s, q)
    decreases |s| - p
  {
    hide TokenAt;
    if WhiteAt(s, p) {
      SkippedExactly(s, p + 1, q);
    } else if MarkAt(s, p) {
      SkippedExactly(s, p + 3, q);
    }
  }

  // ----- strings -----

  predicate IsHexDigit(b: byte) {
    48 <= b <= 57 || 65 <= b <= 70 || 97 <= b <= 102
  }

  /** A byte that stands for itself, one of the eight simple escapes, or the escape of four hexadecimal digits. */
  predicate IsUnit(u: bytes) {
    || (|u| == 1 && 0x10 <= u[0] && u[0] != 34 && u[0] != 92)
    || (|u| == 2 && u[0] == 92 && u[1] in [34, 47, 92, 98, 102, 110, 114, 116])
    || (|u| == 6 && u[0] == 92 && u[1] == 117
        && IsHexDigit(u[2]) && IsHexDigit(u[3]) && IsHexDigit(u[4]) && IsHexDigit(u[5]))
  }

  function Joined(us: seq<bytes>): bytes {
    if us == [] then [] else us[0] + Joined(us[1..])
  }

  ghost predicate AllUnits(us: seq<bytes>) {
    forall k | 0 <= k < |us| :: IsUnit(us[k])
  }

  /** The text from p on begins with these units and a quote. */
  ghost predicate Closed(s: bytes, p: nat, us: seq<bytes>) {
    AllUnits(us) && Spells(s, p, Joined(us) + [34])
  }

  /** The body of a string is any sequence of units, up to the first quote that is not in one. */
  lemma StringExactly(s: bytes, p: nat, e: nat)
    requires p <= |s|
    ensures StringEnd(s, p) == Some(e) <==> exists us :: Closed(s, p, us) && e == p + |Joined(us)| + 1
  {
    if StringEnd(s, p) == Some(e) {
      var us := UnitsOf(s, p);
    }
    forall us | Closed(s, p, us) && e == p + |Joined(us)| + 1 ensures StringEnd(s, p) == Some(e) {
      UnitsEnd(s, p, us);
    }
  }

  lemma {:induction false} UnitsOf(s: bytes, p: nat) returns (us: seq<bytes>)
    requires p <= |s| && StringEnd(s, p).Some?
    ensures Closed(s, p, us) && StringEnd(s, p) == Some(p + |Joined(us)| + 1)
    decreases |s| - p
  {
    hide HexRun, Spells, IsUnit;
    if s[p] == 34 {
      us := [];
      assert Joined(us) + [34] == [34];
      SpellsOne(s, p, 34);
    } else {
      var n := UnitAt(s, p);
      var rest := UnitsOf(s, p + n);
      us := [s[p..p + n]] + rest;
      JoinedFirst(s[p..p + n], rest);
      SpellsPart(s, p, n);
      SpellsSplit(s, p, s[p..p + n], Joined(rest) + [34]);
    }
  }

  lemma SpellsPart(s: bytes, p: nat, n: nat)
    requires p + n <= |s|
    ensures Spells(s, p, s[p..p + n])
  {}

  lemma JoinedFirst(u: bytes, rest: seq<bytes>)
    ensures Joined([u] + rest) == u + Joined(rest)
    ensures Joined([u] + rest) + [34] == u + (Joined(rest) + [34])
    ensures IsUnit(u) && AllUnits(rest) ==> AllUnits([u] + rest)
  {
    assert ([u] + rest)[1..] == rest;
  }

  /** How long the unit at p is. */
  lemma UnitAt(s: bytes, p: nat) returns (n: nat)
    requires p < |s| && s[p] != 34 && StringEnd(s, p).Some?
    ensures 0 < n && p + n <= |s| && IsUnit(s[p..p + n]) && StringEnd(s, p) == StringEnd(s, p + n)
  {
    n := if s[p] != 92 then 1 else if s[p + 1] == 117 then 6 else 2;
    if n == 6 {
      HexRunIsFour(s, p + 2);
    }
  }

  lemma HexRunIsFour(s: bytes, p: nat)
    ensures HexRun(s, p, 4) <==>
              && p + 4 <= |s| && IsHexDigit(s[p]) && IsHexDigit(s[p + 1])
              && IsHexDigit(s[p + 2]) && IsHexDigit(s[p + 3])
  {
    assert HexRun(s, p, 4) <==> Ascii.IsHex(At(s, p)) && HexRun(s, p + 1, 3);
    assert HexRun(s, p + 1, 3) <==> Ascii.IsHex(At(s, p + 1)) && HexRun(s, p + 2, 2);
    assert HexRun(s, p + 2, 2) <==> Ascii.IsHex(At(s, p + 2)) && HexRun(s, p + 3, 1);
    assert HexRun(s, p + 3, 1) <==> Ascii.IsHex(At(s, p + 3)) && HexRun(s, p + 4, 0);
  }

  lemma {:induction false} UnitsEnd(s: bytes, p: nat, us: seq<bytes>)
    requires p <= |s| && Closed(s, p, us)
    ensures StringEnd(s, p) == Some(p + |Joined(us)| + 1)
    decreases |us|
  {
    hide HexRun, Spells, IsUnit;
    if us == [] {
      assert Joined(us) + [34] == [34];
      SpellsOne(s, p, 34);
    } else {
      assert us == [us[0]] + us[1..];
      JoinedFirst(us[0], us[1..]);
      SpellsSplit(s, p, us[0], Joined(us[1..]) + [34]);
      UnitPassed(s, p, us[0]);
      UnitsEnd(s, p + |us[0]|, us[1..]);
    }
  }

  lemma UnitPassed(s: bytes, p: nat, u: bytes)
    requires p <= |s| && IsUnit(u) && Spells(s, p, u)
    ensures p + |u| <= |s| && StringEnd(s, p) == StringEnd(s, p + |u|)
  {
    assert forall k | 0 <= k < |u| :: u[k] == s[p + k];
    if |u| == 6 { HexRunIsFour(s, p + 2); }
  }

  // ----- numbers -----

  predicate AllDigits(d: bytes) {
    forall k | 0 <= k < |d| :: 48 <= d[k] <= 57
  }

  /** A zero, or digits that do not begin with one. */
  predicate IsInteger(i: bytes) {
    i == [48] || (i != [] && i[0] != 48 && AllDigits(i))
  }

  /** Nothing, or a point and digits. */
  predicate IsFraction(f: bytes) {
    f == [] || (|f| > 1 && f[0] == 46 && AllDigits(f[1..]))
  }

  /** Nothing, or an e of either case, a sign if there is one, and digits. */
  predicate IsExponent(x: bytes) {
    x == [] || (|x| > 1 && (x[0] == 101 || x[0] == 69) && IsSignedDigits(x[1..]))
  }

  predicate IsSignedDigits(d: bytes) {
    (d != [] && AllDigits(d)) || (|d| > 1 && (d[0] == 43 || d[0] == 45) && AllDigits(d[1..]))
  }

  /** i, f and x are the integer, the fraction and the exponent of the number from p to e. */
  ghost predicate NumberParts(s: bytes, p: nat, e: nat, i: bytes, f: bytes, x: bytes) {
    && IsInteger(i) && IsFraction(f) && IsExponent(x)
    && e == p + |i| + |f| + |x| && Spells(s, p, i) && Spells(s, p + |i|, f) && Spells(s, p + |i| + |f|, x)
  }

  ghost predicate NumberTo(s: bytes, p: nat, e: nat) {
    exists i, f, x :: NumberParts(s, p, e, i, f, x)
  }

  /** How far the digits at p go. */
  lemma DigitsRun(s: bytes, p: nat)
    requires p <= |s|
    ensures var d := DigitsEnd(s, p);
            && p <= d <= |s| && AllDigits(s[p..d]) && (d < |s| ==> !(48 <= s[d] <= 57))
            && (p < d <==> p < |s| && 48 <= s[p] <= 57)
  {
    JsonNumber.DigitsAreDigits(s, p);
    var d := DigitsEnd(s, p);
    assert forall k | 0 <= k < d - p :: s[p..d][k] == s[p + k];
  }

  /** Digits in the text reach no further than its run of digits, and less far only before another digit. */
  lemma DigitsWithin(s: bytes, p: nat, d: bytes)
    requires p <= |s| && Spells(s, p, d) && AllDigits(d)
    ensures p + |d| <= DigitsEnd(s, p)
    ensures p + |d| < DigitsEnd(s, p) ==> p + |d| < |s| && 48 <= s[p + |d|] <= 57
  {
    JsonNumber.DigitsAreDigits(s, p);
    forall k | p <= k < p + |d| ensures 48 <= s[k] <= 57 {
      assert s[k] == d[k - p];
    }
  }

  /** Where the integer at p ends. */
  function IntegerEnd(s: bytes, p: nat): nat
    requires p < |s|
  {
    if s[p] == 48 then p + 1 else DigitsEnd(s, p)
  }

  lemma IntegerPart(s: bytes, p: nat)
    requires p < |s| && 48 <= s[p] <= 57
    ensures var e := IntegerEnd(s, p); p < e <= |s| && IsInteger(s[p..e])
  {
    DigitsRun(s, p);
    assert s[p..IntegerEnd(s, p)][0] == s[p];
  }

  lemma IntegerWithin(s: bytes, p: nat, i: bytes)
    requires p < |s| && 48 <= s[p] <= 57 && IsInteger(i) && Spells(s, p, i)
    ensures var e := IntegerEnd(s, p);
            p + |i| == e || (p + |i| < e <= |s| && 48 <= s[p + |i|] <= 57)
  {
    hide Spells, DigitsEnd;
    SpellsFirst(s, p, i);
    DigitsRun(s, p);
    if s[p] != 48 { DigitsWithin(s, p, i); }
  }

  /** What a fraction or an exponent begins with. */
  lemma PartStarts(s: bytes, p: nat, f: bytes, x: bytes)
    requires IsFraction(f) && IsExponent(x)
    ensures Spells(s, p, f) && f != [] ==> p < |s| && s[p] == 46
    ensures Spells(s, p, x) && x != [] ==> p < |s| && (s[p] == 101 || s[p] == 69)
  {
    if f != [] { SpellsFirst(s, p, f); }
    if x != [] { SpellsFirst(s, p, x); }
  }

  lemma FractionPart(s: bytes, p: nat)
    requires p <= |s|
    ensures var e := FractionEnd(s, p); p <= e <= |s| && IsFraction(s[p..e])
  {
    var e := FractionEnd(s, p);
    if e != p {
      DigitsRun(s, p + 1);
      assert s[p..e][1..] == s[p + 1..e] && s[p..e][0] == s[p];
    }
  }

  lemma FractionWithin(s: bytes, p: nat, f: bytes)
    requires p <= |s| && IsFraction(f) && Spells(s, p, f)
    ensures var e := FractionEnd(s, p);
            p + |f| == e || (p + |f| < e && (48 <= s[p + |f|] <= 57 || s[p + |f|] == 46))
  {
    hide Spells, DigitsEnd;
    if f != [] {
      assert f == [f[0]] + f[1..];
      SpellsSplit(s, p, [f[0]], f[1..]);
      SpellsOne(s, p, f[0]);
      DigitsRun(s, p + 1);
      SpellsFirst(s, p + 1, f[1..]);
      DigitsWithin(s, p + 1, f[1..]);
    }
  }

  lemma ExponentPart(s: bytes, p: nat)
    requires p <= |s|
    ensures var e := ExponentEnd(s, p); p <= e <= |s| && IsExponent(s[p..e])
  {
    var e := ExponentEnd(s, p);
    if e != p {
      var q := if s[p + 1] == 43 || s[p + 1] == 45 then p + 2 else p + 1;
      DigitsRun(s, q);
      assert s[p..e][1..] == s[p + 1..e] && s[p..e][0] == s[p] && s[p + 1..e][0] == s[p + 1];
      assert q == p + 2 ==> s[p + 1..e][1..] == s[q..e];
    }
  }

  lemma ExponentWithin(s: bytes, p: nat, x: bytes)
    requires p <= |s| && IsExponent(x) && Spells(s, p, x)
    ensures p + |x| <= ExponentEnd(s, p)
  {
    hide Spells, DigitsEnd, IsSignedDigits;
    if x != [] {
      assert x == [x[0]] + x[1..];
      SpellsSplit(s, p, [x[0]], x[1..]);
      SpellsOne(s, p, x[0]);
      SignedWithin(s, p + 1, x[1..]);
    }
  }

  lemma SignedWithin(s: bytes, p: nat, d: bytes)
    requires p <= |s| && IsSignedDigits(d) && Spells(s, p, d)
    ensures var q := if s[p] == 43 || s[p] == 45 then p + 1 else p;
            p < |s| && q < |s| && 48 <= s[q] <= 57 && p + |d| <= DigitsEnd(s, q)
  {
    hide Spells, DigitsEnd;
    SpellsFirst(s, p, d);
    if AllDigits(d) {
      DigitsWithin(s, p, d);
    } else {
      assert d == [d[0]] + d[1..];
      SpellsSplit(s, p, [d[0]], d[1..]);
      SpellsFirst(s, p + 1, d[1..]);
      DigitsWithin(s, p + 1, d[1..]);
    }
  }

  /** The scanner takes the longest number that begins at a digit. */
  lemma NumberExactly(s: bytes, p: nat)
    requires p < |s| && 48 <= s[p] <= 57
    ensures NumberTo(s, p, NumberEnd(s, p))
    ensures forall e: nat | NumberTo(s, p, e) :: e <= NumberEnd(s, p)
  {
    hide NumberEnd, NumberParts;
    NumberTaken(s, p);
    forall e: nat | NumberTo(s, p, e) ensures e <= NumberEnd(s, p) {
      var i, f, x :| NumberParts(s, p, e, i, f, x);
      NumberWithin(s, p, e, i, f, x);
    }
  }

  lemma NumberTaken(s: bytes, p: nat)
    requires p < |s| && 48 <= s[p] <= 57
    ensures NumberTo(s, p, NumberEnd(s, p))
  {
    hide DigitsEnd, FractionEnd, ExponentEnd, IsInteger, IsFraction, IsExponent, Spells;
    var a := IntegerEnd(s, p);
    IntegerPart(s, p);
    var b := FractionEnd(s, a);
    FractionPart(s, a);
    var end := ExponentEnd(s, b);
    ExponentPart(s, b);
    SpellsPart(s, p, a - p);
    SpellsPart(s, a, b - a);
    SpellsPart(s, b, end - b);
    assert NumberParts(s, p, end, s[p..a], s[a..b], s[b..end]);
  }

  lemma NumberWithin(s: bytes, p: nat, e: nat, i: bytes, f: bytes, x: bytes)
    requires p < |s| && 48 <= s[p] <= 57 && NumberParts(s, p, e, i, f, x)
    ensures e <= NumberEnd(s, p)
  {
    hide DigitsEnd, FractionEnd, ExponentEnd, IsInteger, IsFraction, IsExponent, Spells;
    IntegerWithin(s, p, i);
    PartStarts(s, p + |i|, f, x);
    PartStarts(s, p + |i| + |f|, f, x);
    IntegerPart(s, p);
    var a := IntegerEnd(s, p);
    if p + |i| == a {
      FractionWithin(s, a, f);
      if a + |f| == FractionEnd(s, a) { ExponentWithin(s, a + |f|, x); }
    }
  }

  // ----- whole tokens -----

  ghost predicate DigitAt(s: bytes, p: nat) {
    p < |s| && 48 <= s[p] <= 57
  }

  /** Which token the text at p begins with, where nothing is to be skipped. */
  lemma TokenExactly(s: bytes, p: nat)
    requires p <= |s|
    ensures var t := TokenAt(s, p);
            && t.start == p
            && (t.token == EndOfInput <==> p == |s| || s[p] == 0)
            && (t.token == ValueString <==> p < |s| && s[p] == 34 && StringEnd(s, p + 1).Some?)
            && (t.token == ValueNumber <==> DigitAt(s, p) || (p < |s| && s[p] == 45 && DigitAt(s, p + 1)))
            && (t.token == LiteralTrue <==> Spells(s, p, [116, 114, 117, 101]))
            && (t.token == LiteralFalse <==> Spells(s, p, [102, 97, 108, 115, 101]))
            && (t.token == LiteralNull <==> Spells(s, p, [110, 117, 108, 108]))
            && (t.token == BeginArray <==> Spells(s, p, [91])) && (t.token == EndArray <==> Spells(s, p, [93]))
            && (t.token == BeginObject <==> Spells(s, p, [123])) && (t.token == EndObject <==> Spells(s, p, [125]))
            && (t.token == NameSeparator <==> Spells(s, p, [58]))
            && (t.token == ValueSeparator <==> Spells(s, p, [44]))
  {
    hide StringEnd, NumberEnd, Spells;
    SpellsFirst(s, p, TRUE_TEXT);
    SpellsFirst(s, p, FALSE_TEXT);
    SpellsFirst(s, p, NULL_TEXT);
    OneByteMarks(s, p);
  }

  lemma OneByteMarks(s: bytes, p: nat)
    ensures forall b: byte :: Spells(s, p, [b]) <==> p < |s| && s[p] == b
  {
    forall b: byte ensures Spells(s, p, [b]) <==> p < |s| && s[p] == b {
      SpellsOne(s, p, b);
    }
  }

  /** Where a token ends. */
  lemma TokenEnds(s: bytes, p: nat)
    requires p <= |s|
    ensures var t := TokenAt(s, p);
            match t.token
            case ValueString => StringEnd(s, p + 1) == Some(t.end)
            case ValueNumber => t.end == NumberEnd(s, if s[p] == 45 then p + 1 else p)
            case LiteralTrue => t.end == p + 4
            case LiteralFalse => t.end == p + 5
            case LiteralNull => t.end == p + 4
            case _ => t.end == p + 1
  {
    hide StringEnd, NumberEnd, Spells;
  }

  /**
    The value of a number token that is accepted: an integer that fits its type is that integer, and
    anything else is left to strtod, with the whole text of the token.
  */
  lemma NumberMeans(s: bytes, start: nat, e: nat)
    requires start <= |s| && TokenAt(s, start) == Lexeme(ValueNumber, start, e)
    requires JsonNumber.NumberValue(s, start, e).Ok?
    ensures var v, text := JsonNumber.NumberValue(s, start, e).value, s[start..e];
            && (forall n: nat | text == JsonNumber.Decimal(n) ::
                  v == if n < 0x1_0000_0000_0000_0000 then Unsigned(n) else Float(text))
            && (forall n: nat | text == [45] + JsonNumber.Decimal(n) ::
                  v == if n <= 0x8000_0000_0000_0000 then Integer(0 - n) else Float(text))
            && (!AllDigits(if text[0] == 45 then text[1..] else text) ==> v == Float(text))
  {
    hide TokenAt, JsonNumber.NumberValue, JsonNumber.Decimal, JsonNumber.DigitsValue, DigitsEnd;
    JsonNumber.NumberTokenEnd(s, start, e);
    var text := s[start..e];
    var p := if s[start] == 45 then start + 1 else start;
    forall n: nat | text == JsonNumber.Decimal(n)
      ensures JsonNumber.NumberValue(s, start, e).value
              == if n < 0x1_0000_0000_0000_0000 then Unsigned(n) else Float(text)
    {
      assert text[0] == s[start];
      IntegerMeans(s, start, start, e, n);
    }
    forall n: nat | text == [45] + JsonNumber.Decimal(n)
      ensures JsonNumber.NumberValue(s, start, e).value
              == if n <= 0x8000_0000_0000_0000 then Integer(0 - n) else Float(text)
    {
      assert text[0] == s[start];
      assert s[start + 1..e] == text[1..] == JsonNumber.Decimal(n);
      IntegerMeans(s, start, start + 1, e, n);
    }
    if !AllDigits(if text[0] == 45 then text[1..] else text) {
      assert s[p..e] == if text[0] == 45 then text[1..] else text;
      DigitsRun(s, p);
      NoInteger(s, start, p, e);
    }
  }

  /** get_number on a token that is not all digits. */
  lemma NoInteger(s: bytes, start: nat, p: nat, e: nat)
    requires start < e <= |s| && p == (if s[start] == 45 then start + 1 else start) && DigitsEnd(s, p) != e
    requires JsonNumber.NumberValue(s, start, e).Ok?
    ensures JsonNumber.NumberValue(s, start, e).value == Float(s[start..e])
  {
    hide DigitsEnd, JsonNumber.DigitsValue, JsonNumber.StrtodEnd;
  }

  lemma IntegerMeans(s: bytes, start: nat, p: nat, e: nat, n: nat)
    requires start < e <= |s| && p == (if s[start] == 45 then start + 1 else start) && p < e
    requires s[p..e] == JsonNumber.Decimal(n) && 48 <= s[p] <= 57 && e == NumberEnd(s, p)
    requires JsonNumber.NumberValue(s, start, e).Ok?
    ensures JsonNumber.NumberValue(s, start, e).value ==
            if s[start] != 45 && n < 0x1_0000_0000_0000_0000 then Unsigned(n)
            else if s[start] == 45 && n <= 0x8000_0000_0000_0000 then Integer(0 - n)
            else Float(s[start..e])
  {
    hide JsonNumber.Decimal, JsonNumber.DigitsValue, JsonNumber.StrtodEnd, NumberEnd, DigitsEnd;
    JsonNumber.DecimalValue(s, p, n);
    DigitsToken(s, p, e);
    JsonNumber.DigitsAreDigits(s, p);
    JsonNumber.RejectedByEnds(s, p, e);
  }

  lemma DigitsToken(s: bytes, p: nat, e: nat)
    requires p < e <= |s| && AllDigits(s[p..e]) && 48 <= s[p] <= 57 && e == NumberEnd(s, p)
    ensures e == DigitsEnd(s, p) || (s[p] == 48 && e == p + 1 && DigitAt(s, e))
  {
    hide DigitsEnd;
    SpellsPart(s, p, e - p);
    DigitsWithin(s, p, s[p..e]);
    DigitsRun(s, p);
    IntegerBeforeEnd(s, p);
    if p + 1 < DigitsEnd(s, p) { assert s[p..DigitsEnd(s, p)][1] == s[p + 1]; }
  }

  lemma IntegerBeforeEnd(s: bytes, p: nat)
    requires p < |s| && 48 <= s[p] <= 57
    ensures IntegerEnd(s, p) <= NumberEnd(s, p)
  {
    hide DigitsEnd;
    IntegerPart(s, p);
    FractionPart(s, IntegerEnd(s, p));
    ExponentPart(s, FractionEnd(s, IntegerEnd(s, p)));
  }
}
