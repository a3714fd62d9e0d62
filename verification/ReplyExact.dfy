/**
  What the client can read from a reply whose value is not plain: make_json puts the stored text
  between quotes as it is, so that it may end the string early and bring members of its own.
*/
module ReplyExact {
  import opened Machine
  import opened Ascii
  import opened JsonLexer
  import opened JsonNumber
  import opened JsonString
  import opened JsonValue
  import opened JsonParser
  import opened JsonRoundTrip
  import opened Unicode
  import opened Wire

  // ----- the length of a string -----

  /** The text of an escape is longer than what it stands for. */
  lemma PieceLength(s: bytes, p: nat, e: nat)
    requires InToken(s, p, e) && p != e && Piece(s, p, e).Ok?
    ensures p < |s|
    ensures var (u, q) := Piece(s, p, e).value;
            if s[p] == BACKSLASH then |u| < q - p
            else u == [s[p]] && q == p + 1 && s[p] != QUOTE && s[p] >= 0x10
  {
    hide Hex4, IsHighSurrogate, IsLowSurrogate;
    InsideToken(s, p, e);
  }

  /** A decoded string is no longer than its text, and as long only if it is its text. */
  lemma {:induction false} DecodedLength(s: bytes, p: nat, e: nat)
    requires InToken(s, p, e) && Decode(s, p, e).Ok?
    ensures p <= e < |s|
    ensures var v := Decode(s, p, e).value;
            |v| <= e - p && (|v| == e - p ==> v == s[p..e] && Plain(v))
    decreases e - p
  {
    hide StringEnd, Piece, InToken;
    InsideToken(s, p, e);
    if p != e {
      var (u, q) := Piece(s, p, e).value;
      PieceLength(s, p, e);
      DecodedLength(s, q, e);
      if s[p] != BACKSLASH { assert s[p..e] == [s[p]] + s[q..e]; }
    }
  }

  // ----- where a string comes from -----

  /** v is what get_string makes of a string token at lo or later. */
  ghost predicate ReadFrom(s: bytes, lo: nat, v: bytes) {
    exists cur: Lexeme ::
      Scanned(s, cur) && lo <= cur.start && cur.token == ValueString && StringOf(s, cur) == Ok(v)
  }

  lemma StringFrom(s: bytes, cur: Lexeme)
    requires Scanned(s, cur) && ParseValue(s, cur).Ok?
    ensures var j := ParseValue(s, cur).value.0; j.Str? ==> ReadFrom(s, cur.start, j.s)
  {
    hide TokenAt, Scan, StringOf, NumberValue;
  }

  /** What an object has under a key when its loop ends: what it had, or what was read since. */
  lemma {:induction false} MembersFrom(s: bytes, cur: Lexeme, ms: seq<Member>, key: bytes)
    requires Scanned(s, cur) && Sorted(ms) && ParseMembers(s, cur, ms).Ok?
    ensures var j := ParseMembers(s, cur, ms).value.0;
            && j.Object?
            && var found := JsonValue.Find(j.members, key);
               || found == JsonValue.Find(ms, key)
               || (found.Some? && (found.value.Str? ==> ReadFrom(s, cur.start, found.value.s)))
    decreases |s| + 1 - cur.end
  {
    hide TokenAt, Scan, ParseValue, ParseKey, SkipComma, Put, Sorted, JsonValue.Find, StringOf;
    var start := SkipComma(s, cur);
    var (name, first) := ParseKey(s, start).value;
    var (v, next) := ParseValue(s, first).value;
    var ms' := Put(ms, name, v);
    StringFrom(s, first);
    PutIsUpdate(ms, name, v, key);
    PutKeepsSorted(ms, name, v);
    KeyGoesOn(s, start);
    CommaGoesOn(s, cur);
    if next.token == ValueSeparator { MembersFrom(s, next, ms', key); }
  }

  lemma KeyGoesOn(s: bytes, cur: Lexeme)
    requires Scanned(s, cur) && ParseKey(s, cur).Ok?
    ensures cur.start <= ParseKey(s, cur).value.1.start
  {
    hide TokenAt, Scan, StringOf;
  }

  lemma CommaGoesOn(s: bytes, cur: Lexeme)
    requires Scanned(s, cur)
    ensures cur.start <= SkipComma(s, cur).start
  {
    hide TokenAt, Scan;
  }

  // ----- the reply -----

  /** The reply from the name of its value on: the value's opening quote is at q. */
  lemma ValueName(s: bytes, key: bytes, t: bytes) returns (c: nat, q: nat)
    requires s == MakeJson(key + [NUL], t) && Plain(key)
    ensures c == 2 + |Field(KEY, key)| && c < q && q + 1 + |t| < |s| && Scan(s, c + 1) == Scan(s, c + 2)
    ensures ParseKey(s, Scan(s, c + 2)) == Ok((VALUE, Scan(s, q))) && Scan(s, q).start == q
    ensures s[q + 1..q + 1 + |t|] == t && forall i | q + 1 + |t| < i < |s| :: s[i] != QUOTE
  {
    hide Scan, TokenAt, Spells, ParseKey, MakeJson;
    c := 2 + |Field(KEY, key)|;
    q := c + 2 + |VALUE| + 4;
    ReplyPieces(s, key, t);
    Pieces(s, c + 2, Quoted(VALUE), [COLON, SPACE], Quoted(t), [SPACE]);
    NameBack(s, c + 2, VALUE);
    MarkAndSpace(s, c, COMMA);
    assert Quoted(t) == [QUOTE] + t + [QUOTE];
    SpellsSplit(s, q, [QUOTE] + t, [QUOTE]);
    SpellsSplit(s, q, [QUOTE], t);
    EndOfReply(s, q, t);
  }

  lemma EndOfReply(s: bytes, q: nat, t: bytes)
    requires Spells(s, q, [QUOTE]) && Spells(s, q + 1, t) && |s| == q + |t| + 5
    requires Spells(s, q + |t| + 2, [SPACE]) && Spells(s, q + |t| + 3, [CLOSE_BRACE, SPACE])
    ensures s[q + 1..q + 1 + |t|] == t && forall i | q + 1 + |t| < i < |s| :: s[i] != QUOTE
    ensures Scan(s, q).start == q
  {
    SpellsOne(s, q, QUOTE);
    SpellsOne(s, q + |t| + 2, SPACE);
    assert [CLOSE_BRACE, SPACE] == [CLOSE_BRACE] + [SPACE];
    SpellsSplit(s, q + |t| + 3, [CLOSE_BRACE], [SPACE]);
    SpellsOne(s, q + |t| + 3, CLOSE_BRACE);
    SpellsOne(s, q + |t| + 4, SPACE);
  }

  /** A string read from the value's quote on is no longer than what was put between the quotes. */
  lemma ReadFromReply(s: bytes, q: nat, t: bytes, v: bytes)
    requires q + 1 + |t| < |s| && s[q + 1..q + 1 + |t|] == t
    requires forall i | q + 1 + |t| < i < |s| :: s[i] != QUOTE
    requires ReadFrom(s, q, v)
    ensures |v| <= |t| && (|v| == |t| ==> v == t && Plain(t))
  {
    hide TokenAt, Plain, Decode, StringEnd;
    var cur: Lexeme :|
      Scanned(s, cur) && q <= cur.start && cur.token == ValueString && StringOf(s, cur) == Ok(v);
    StringFits(s, cur);
    InsideToken(s, cur.start + 1, cur.end - 1);
    DecodedLength(s, cur.start + 1, cur.end - 1);
  }

  /** What the client reads as the value, if it reads one, is no longer than what was stored. */
  lemma ReplyBounds(key: bytes, t: bytes)
    requires Plain(key)
    ensures var r := UnpackJson(MakeJson(key + [NUL], t));
            r.Some? ==> |r.value.1| <= |t| && (|r.value.1| == |t| ==> r.value.1 == t && Plain(t))
  {
    hide TokenAt, Scan, Field, ParseValue, ParseMembers, ParseKey, Put, MakeJson, JsonValue.Find, Plain, ReadFrom,
      Sorted;
    var s := MakeJson(key + [NUL], t);
    if UnpackJson(s).Some? {
      FirstField(s, key, t);
      var c, q := ValueName(s, key, t);
      var ms := Put([], KEY, Str(key));
      KeyFirst(key);
      ValueFrom(s, c, q, ms);
      ReadFromReply(s, q, t, UnpackJson(s).value.1);
    }
  }

  lemma KeyFirst(key: bytes)
    ensures Sorted(Put([], KEY, Str(key)))
  {}

  lemma ValueFrom(s: bytes, c: nat, q: nat, ms: seq<Member>)
    requires c + 2 <= |s| && q <= |s| && Scan(s, c) == Lexeme(ValueSeparator, c, c + 1) && Sorted(ms)
    requires Scan(s, c + 1) == Scan(s, c + 2)
    requires ParseKey(s, Scan(s, c + 2)) == Ok((VALUE, Scan(s, q))) && Scan(s, q).start == q
    requires ParseMembers(s, Scan(s, c), ms).Ok?
    ensures var j := ParseMembers(s, Scan(s, c), ms).value.0;
            && j.Object?
            && var found := JsonValue.Find(j.members, VALUE);
               found.Some? && (found.value.Str? ==> ReadFrom(s, q, found.value.s))
  {
    hide TokenAt, Scan, ParseValue, ParseKey, Put, Sorted, JsonValue.Find, StringOf;
    var first := Scan(s, q);
    var (v, next) := ParseValue(s, first).value;
    PutIsUpdate(ms, VALUE, v, VALUE);
    PutKeepsSorted(ms, VALUE, v);
    StringFrom(s, first);
    if next.token == ValueSeparator { MembersFrom(s, next, Put(ms, VALUE, v), VALUE); }
  }

  // ----- any key -----

  /** What it takes in a text to bring the string that an object has under a key, if it was not there before. */
  function Cost(after: seq<Member>, before: seq<Member>, key: bytes): nat {
    match JsonValue.Find(after, key)
    case Some(Str(v)) => if JsonValue.Find(before, key) == Some(Str(v)) then 0 else |key| + |v| + 5
    case _ => 0
  }

  /** How long a member is. */
  lemma MemberLength(s: bytes, cur: Lexeme)
    requires Scanned(s, cur) && ParseKey(s, cur).Ok? && ParseValue(s, ParseKey(s, cur).value.1).Ok?
    ensures var (name, first) := ParseKey(s, cur).value;
            var (v, next) := ParseValue(s, first).value;
            cur.start + (if v.Str? then |name| + |v.s| + 5 else 0) <= next.start <= |s|
  {
    hide TokenAt, Scan, Decode, ParseElements, ParseMembers, NumberValue, StringEnd, InToken, SkipComma;
    StringFits(s, cur);
    DecodedLength(s, cur.start + 1, cur.end - 1);
    var first := ParseKey(s, cur).value.1;
    if first.token == ValueString {
      StringFits(s, first);
      DecodedLength(s, first.start + 1, first.end - 1);
    }
  }

  lemma CostStep(after: seq<Member>, before: seq<Member>, name: bytes, v: Json)
    requires Sorted(before)
    ensures var more := Put(before, name, v);
            Cost(after, before, KEY) + Cost(after, before, VALUE)
            <= Cost(after, more, KEY) + Cost(after, more, VALUE) + if v.Str? then |name| + |v.s| + 5 else 0
  {
    hide JsonValue.Find, Put, Sorted;
    PutIsUpdate(before, name, v, KEY);
    PutIsUpdate(before, name, v, VALUE);
    assert KEY[0] != VALUE[0];
  }

  /** The members an object gains from a text take at least their room in it. */
  lemma {:induction false} MembersCost(s: bytes, cur: Lexeme, ms: seq<Member>)
    requires Scanned(s, cur) && Sorted(ms) && ParseMembers(s, cur, ms).Ok?
    ensures var after := ParseMembers(s, cur, ms).value.0.members;
            cur.start + Cost(after, ms, KEY) + Cost(after, ms, VALUE) <= |s|
    decreases |s| + 1 - cur.end
  {
    hide TokenAt, Scan, ParseValue, ParseKey, SkipComma, Put, Sorted, Cost;
    var start, after := SkipComma(s, cur), ParseMembers(s, cur, ms).value.0.members;
    var (name, first) := ParseKey(s, start).value;
    var (v, next) := ParseValue(s, first).value;
    CommaGoesOn(s, cur);
    MemberLength(s, start);
    CostStep(after, ms, name, v);
    PutKeepsSorted(ms, name, v);
    if next.token == ValueSeparator {
      MembersCost(s, next, Put(ms, name, v));
    } else {
      NothingGained(after);
    }
  }

  lemma NothingGained(ms: seq<Member>)
    ensures Cost(ms, ms, KEY) == Cost(ms, ms, VALUE) == 0
  {}

  /** The first member of a reply: its value is a string, and it is not the last member. */
  lemma FirstMember(s: bytes, key: bytes, t: bytes, v: bytes) returns (x: nat, next: Lexeme)
    requires s == MakeJson(key + [NUL], t) && UnpackJson(s) == Some((key, v))
    ensures 10 <= x < |s| && InToken(s, 10, x) && Decode(s, 10, x).Ok?
    ensures next == Scan(s, x + 1) && next.token == ValueSeparator
    ensures var ms := [Member(KEY, Str(Decode(s, 10, x).value))];
            && ParseMembers(s, next, ms).Ok?
            && var after := ParseMembers(s, next, ms).value.0.members;
               JsonValue.Find(after, KEY) == Some(Str(key)) && JsonValue.Find(after, VALUE) == Some(Str(v))
  {
    hide Scan, TokenAt, Spells, ParseKey, ParseValue, ParseMembers, MakeJson, Decode, StringEnd;
    ReplyPieces(s, key, t);
    Pieces(s, 2, Quoted(KEY), [COLON, SPACE], Quoted(key), [SPACE]);
    MarkAndSpace(s, 0, OPEN_BRACE);
    NameBack(s, 2, KEY);
    AfterOpening(s, Scan(s, 0));
    assert Quoted(key) == [QUOTE] + (key + [QUOTE]);
    SpellsSplit(s, 9, [QUOTE], key + [QUOTE]);
    var first := Scan(s, 9);
    QuoteStarts(s, 9);
    x, next := FirstTurn(s, first);
  }

  lemma FirstTurn(s: bytes, first: Lexeme) returns (x: nat, next: Lexeme)
    requires Scanned(s, first) && first.start == 9 && (first.token == ValueString || first.token == ParseError)
    requires 2 <= |s| && Scan(s, 2).token != ValueSeparator && ParseKey(s, Scan(s, 2)) == Ok((KEY, first))
    requires ParseMembers(s, Scan(s, 2), []).Ok?
    requires JsonValue.Find(ParseMembers(s, Scan(s, 2), []).value.0.members, VALUE).Some?
    ensures 10 <= x < |s| && InToken(s, 10, x) && Decode(s, 10, x).Ok?
    ensures next == Scan(s, x + 1) && next.token == ValueSeparator
    ensures ParseMembers(s, Scan(s, 2), []) == ParseMembers(s, next, [Member(KEY, Str(Decode(s, 10, x).value))])
  {
    hide Scan, TokenAt, ParseKey, ParseMembers, Decode, StringEnd;
    assert ParseValue(s, first).Ok? by { MembersNeed(s, Scan(s, 2), first); }
    StringFits(s, first);
    InsideToken(s, 10, first.end - 1);
    x, next := first.end - 1, Next(s, first);
    var v := Str(Decode(s, 10, x).value);
    MembersTurn(s, Scan(s, 2), [], KEY, first, v, next);
    assert Put([], KEY, v) == [Member(KEY, v)];
    MembersNeed(s, Scan(s, 2), first);
    assert KEY[0] != VALUE[0];
  }

  lemma MembersNeed(s: bytes, cur: Lexeme, first: Lexeme)
    requires Scanned(s, cur) && cur.token != ValueSeparator && ParseKey(s, cur) == Ok((KEY, first))
    requires ParseMembers(s, cur, []).Ok?
    ensures ParseValue(s, first).Ok?
    ensures var next := ParseValue(s, first).value.1; next.token == ValueSeparator || next.token == EndObject
  {
    hide Scan, TokenAt, ParseKey, ParseValue;
  }

  lemma QuoteStarts(s: bytes, p: nat)
    requires Spells(s, p, [QUOTE])
    ensures p < |s| && Scan(s, p).start == p && (Scan(s, p).token == ValueString || Scan(s, p).token == ParseError)
  {
    hide StringEnd, NumberEnd, Spells;
    SpellsOne(s, p, QUOTE);
    SpellsFirst(s, p, TRUE_TEXT);
    SpellsFirst(s, p, FALSE_TEXT);
    SpellsFirst(s, p, NULL_TEXT);
  }

  /** Where the quotes of a reply are, up to the name of its value. */
  lemma QuotesOfReply(s: bytes, key: bytes, t: bytes)
    requires s == MakeJson(key + [NUL], t)
    ensures var k := 10 + |key|;
            && |s| == k + |t| + 18 && s[10..k] == key
            && (forall i | k < i < k + 4 :: s[i] != QUOTE) && (forall i | k + 4 < i < k + 10 :: s[i] != QUOTE)
            && s[k + 5] == VALUE[0]
  {
    hide Spells;
    ReplyPieces(s, key, t);
    Pieces(s, 2, Quoted(KEY), [COLON, SPACE], Quoted(key), [SPACE]);
    Pieces(s, 14 + |key|, Quoted(VALUE), [COLON, SPACE], Quoted(t), [SPACE]);
    assert Quoted(key) == [QUOTE] + key + [QUOTE] && Quoted(VALUE) == [QUOTE] + VALUE + [QUOTE];
    SpellsSplit(s, 9, [QUOTE] + key, [QUOTE]);
    SpellsSplit(s, 9, [QUOTE], key);
    SpellsSplit(s, 14 + |key|, [QUOTE] + VALUE, [QUOTE]);
    SpellsSplit(s, 14 + |key|, [QUOTE], VALUE);
    QuotePlaces(s, 10 + |key|, key);
  }

  lemma QuotePlaces(s: bytes, k: nat, key: bytes)
    requires k == 10 + |key| && Spells(s, 10, key) && Spells(s, k + 1, [SPACE]) && Spells(s, k + 2, [COMMA, SPACE])
    requires Spells(s, k + 5, VALUE)
    ensures k + 10 <= |s| && s[10..k] == key
    ensures (forall i | k < i < k + 4 :: s[i] != QUOTE) && (forall i | k + 4 < i < k + 10 :: s[i] != QUOTE)
    ensures s[k + 5] == VALUE[0]
  {
    assert forall i | 0 <= i < 5 :: s[k + 5..k + 10][i] == VALUE[i];
    SpellsOne(s, k + 1, SPACE);
    assert [COMMA, SPACE] == [COMMA] + [SPACE];
    SpellsSplit(s, k + 2, [COMMA], [SPACE]);
    SpellsOne(s, k + 2, COMMA);
    SpellsOne(s, k + 3, SPACE);
  }

  lemma NoLetter(s: bytes, p: nat)
    requires p < |s| && s[p] == VALUE[0]
    ensures Scan(s, p).token == ParseError
  {
    SpellsFirst(s, p, TRUE_TEXT);
    SpellsFirst(s, p, FALSE_TEXT);
    SpellsFirst(s, p, NULL_TEXT);
  }

  /** A key that comes back with a value as long as the text is plain: any other would need more text than there is. */
  lemma KeyCarried(key: bytes, t: bytes, v: bytes)
    requires UnpackJson(MakeJson(key + [NUL], t)) == Some((key, v)) && |t| <= |v|
    ensures Plain(key)
  {
    hide Scan, TokenAt, ParseMembers, Decode, StringEnd, MakeJson, UnpackJson, JsonValue.Find, Plain;
    var s := MakeJson(key + [NUL], t);
    var x, next := FirstMember(s, key, t, v);
    var w := Decode(s, 10, x).value;
    DecodedLength(s, 10, x);
    InsideToken(s, 10, x);
    QuotesOfReply(s, key, t);
    MembersCost(s, next, [Member(KEY, Str(w))]);
    FirstCost(w);
    if x == 14 + |key| { NoLetter(s, x + 1); }
  }

  lemma FirstCost(w: bytes)
    ensures JsonValue.Find([Member(KEY, Str(w))], KEY) == Some(Str(w))
    ensures JsonValue.Find([Member(KEY, Str(w))], VALUE) == None
  {
    assert KEY[0] != VALUE[0];
  }

  /**
    The client reads the key and a value no shorter than the stored text from the reply exactly if
    the value is the text and both are plain.
  */
  lemma ReplyCarries(key: bytes, t: bytes, v: bytes)
    requires |t| <= |v|
    ensures UnpackJson(MakeJson(key + [NUL], t)) == Some((key, v)) <==> v == t && Plain(key) && Plain(t)
  {
    hide UnpackJson, MakeJson, Plain;
    if UnpackJson(MakeJson(key + [NUL], t)) == Some((key, v)) {
      KeyCarried(key, t, v);
      ReplyBounds(key, t);
    }
    if Plain(key) && Plain(t) { ReplyUnpacked(key, t); }
  }
}
