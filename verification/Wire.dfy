/**
  The strings that client and server exchange: what the client sends, how the server takes it
  apart, what it answers and how the client reads the answer. Sockets are left out: a message is
  delivered whole, a datagram into a buffer that may hold bytes of an earlier one.
*/
module Wire {
  import opened Machine
  import opened Ascii
  import opened JsonLexer
  import opened JsonString
  import opened JsonValue
  import opened JsonParser
  import opened JsonRoundTrip
  import opened Unicode

  /** bufsize: the size of the datagram buffers on both sides. */
  const BUFSIZE: nat := 65504
  /** std::string::npos */
  const NPOS: u64 := U64 - 1

  const GET: bytes := [71, 69, 84]
  const PUT: bytes := [80, 85, 84]
  const DELETE: bytes := [68, 69, 76, 69, 84, 69]
  const HEAD: bytes := [72, 69, 65, 68]
  const ERROR_TEXT: bytes := [69, 82, 82, 79, 82]
  const KEY: bytes := [107, 101, 121]
  const VALUE: bytes := [118, 97, 108, 117, 101]

  // ----- strip -----

  predicate IsWhiteSpace(c: byte) {
    c == NUL || c == SPACE || c == NEWLINE || c == RETURN || c == TAB
  }

  /** Without the white space at the end; a string of nothing else is left as it is. */
  function Strip(s: bytes): (r: bytes)
    ensures r <= s
    ensures (exists i | 0 <= i < |s| :: !IsWhiteSpace(s[i])) ==> r != [] && !IsWhiteSpace(r[|r| - 1])
    ensures forall i | |r| <= i < |s| :: IsWhiteSpace(s[i])
  {
    if forall i | 0 <= i < |s| :: IsWhiteSpace(s[i]) then s
    else if IsWhiteSpace(s[|s| - 1]) then Strip(s[..|s| - 1])
    else s
  }

  lemma {:induction false} StripSpaces(s: bytes, k: nat)
    requires 0 < k <= |s| && !IsWhiteSpace(s[k - 1])
    requires forall i | k <= i < |s| :: IsWhiteSpace(s[i])
    ensures Strip(s) == s[..k]
    decreases |s|
  {
    if k < |s| {
      StripSpaces(s[..|s| - 1], k);
      assert s[..|s| - 1][..k] == s[..k];
    } else {
      assert s[..k] == s;
    }
  }

  method StripString(s: bytes) returns (str: bytes)
    ensures str == Strip(s)
  {
    str := s;
    var i := |s| - 1;
    while i >= 0
      invariant -1 <= i < |s| && str == s
      invariant forall k | i < k < |s| :: IsWhiteSpace(s[k])
    {
      if !IsWhiteSpace(str[i]) {
        StripSpaces(s, i + 1);
        str := str[..i + 1];
        break;
      }
      i := i - 1;
    }
  }

  // ----- find -----

  /** std::string::find of a character. */
  function Find(s: bytes, c: byte, from: nat): (r: u64)
    requires |s| < NPOS
    ensures r == NPOS || (from <= r < |s| && s[r] == c)
    ensures forall i | from <= i < |s| && i < r :: s[i] != c
    decreases |s| - from
  {
    if from >= |s| then NPOS
    else if s[from] == c then from
    else Find(s, c, from + 1)
  }

  method FindInBuf(buf: array<byte>, c: byte) returns (pos: u64)
    requires buf.Length == BUFSIZE
    ensures pos == Find(buf[..], c, 0)
  {
    pos := 0;
    while pos < buf.Length
      invariant pos <= buf.Length
      invariant Find(buf[..], c, 0) == Find(buf[..], c, pos)
    {
      if buf[pos] == c {
        return;
      }
      pos := pos + 1;
    }
    return NPOS;
  }

  // ----- messages -----

  /** What the client writes; the NUL byte is appended when it is sent. */
  function Message(head: bytes, word1: bytes, word2: bytes): bytes {
    head + [SPACE, SLASH] + word1 + if |word2| == 0 then [] else [SLASH] + word2
  }

  /** A datagram of a text and its NUL byte, in a buffer: what does not fit is lost. */
  function Received(buf: bytes, text: bytes): (r: bytes)
    requires |buf| == BUFSIZE
    ensures |r| == BUFSIZE
  {
    var datagram := text + [NUL];
    if |datagram| >= BUFSIZE then datagram[..BUFSIZE] else datagram + buf[|datagram|..]
  }

  /** The text in a buffer: up to the first NUL byte, if there is one. */
  function BufferText(buf: bytes): (r: Option<bytes>)
    requires |buf| < NPOS
    ensures r.Some? ==> NUL !in r.value
  {
    var loc := Find(buf, NUL, 0);
    if loc == NPOS then None else Some(buf[..loc])
  }

  /** A text without NUL bytes arrives exactly when it fits, whatever was in the buffer before. */
  lemma DatagramArrives(buf: bytes, text: bytes)
    requires |buf| == BUFSIZE && NUL !in text
    ensures BufferText(Received(buf, text)) == if |text| < BUFSIZE then Some(text) else None
  {
    var r := Received(buf, text);
    var loc := Find(r, NUL, 0);
    if |text| < BUFSIZE {
      assert r[|text|] == NUL && forall i | 0 <= i < |text| :: r[i] == text[i];
      assert r[..|text|] == text;
    } else {
      assert forall i | 0 <= i < BUFSIZE :: r[i] == text[i];
    }
  }

  datatype Request = Request(word: bytes, info1: bytes, info2: bytes)

  /** A range of a message that is followed by a NUL byte; None where the source has no valid range. */
  function Range(s: bytes, from: nat, to: nat): Option<bytes> {
    if from <= to <= |s| + 1 then Some((s + [NUL])[from..to]) else None
  }

  /** act_on_message, up to the choice of the handler. */
  function Dissect(message: bytes): Option<Request>
    requires |message| + 1 < NPOS
  {
    var endOfLine := Min(Min(Find(message, NEWLINE, 0), Find(message, RETURN, 0)), |message| + 1);
    var firstSpace := Find(message, SPACE, 0);
    var firstSlash := Find(message, SLASH, Add64(firstSpace, 1));
    var secondSlash := Find(message, SLASH, Add64(firstSlash, 1));
    match (Range(message, 0, firstSpace),
           Range(message, Add64(firstSlash, 1), Min(secondSlash, endOfLine)),
           if secondSlash == NPOS then Some([]) else Range(message, secondSlash + 1, endOfLine))
    case (Some(word), Some(info1), Some(info2)) => Some(Request(word, info1, info2))
    case _ => None
  }

  /** The C string in a block of bytes; None if the block holds no NUL byte, so that reading leaves it. */
  function CString(b: bytes): (r: Option<bytes>)
    requires |b| < NPOS
    ensures r.Some? ==> NUL !in r.value
  {
    BufferText(b)
  }

  /** The reply to a successful GET. The last byte of the key is dropped, whatever it is. */
  function MakeJson(key: bytes, value: bytes): bytes
    requires key != []
  {
    [OPEN_BRACE, SPACE] + Field(KEY, key[..|key| - 1]) + [COMMA, SPACE] + Field(VALUE, value) + [CLOSE_BRACE, SPACE]
  }

  function Quoted(t: bytes): bytes { [QUOTE] + t + [QUOTE] }

  function Field(name: bytes, t: bytes): bytes {
    Quoted(name) + [COLON, SPACE] + Quoted(t) + [SPACE]
  }

  /** unpack_json: None if it throws. */
  function UnpackJson(text: bytes): Option<(bytes, bytes)> {
    match Parse(text)
    case Ok(Object(ms)) =>
      (match (JsonValue.Find(ms, KEY), JsonValue.Find(ms, VALUE))
       case (Some(Str(k)), Some(Str(v))) => Some((k, v))
       case _ => None)
    case _ => None
  }

  // ----- plain strings -----

  /** Bytes that a JSON string holds as they are. */
  predicate Plain(b: bytes) {
    forall i | 0 <= i < |b| :: 0x10 <= b[i] && b[i] != QUOTE && b[i] != BACKSLASH
  }

  /** A text that ends neither a message nor its line, and that strip leaves alone. */
  predicate Whole(b: bytes) {
    NUL !in b && NEWLINE !in b && RETURN !in b && (b == [] || !IsWhiteSpace(b[|b| - 1]))
  }

  predicate WholeKey(k: bytes) {
    Whole(k) && SLASH !in k
  }

  predicate PlainKey(k: bytes) {
    Plain(k) && WholeKey(k)
  }

  predicate PlainValue(v: bytes) {
    Plain(v) && Whole(v) && v != []
  }

  /** The words a message of the client begins with. */
  predicate Verb(head: bytes) {
    head == GET || head == PUT || head == DELETE
  }

  lemma WholeMessage(head: bytes, key: bytes, value: bytes)
    requires Verb(head) && WholeKey(key) && Whole(value)
    ensures var text := Message(head, key, value);
            && NUL !in text && NEWLINE !in text && RETURN !in text
            && text != [] && !IsWhiteSpace(text[|text| - 1])
  {
    hide IsWhiteSpace;
    MessageEnd(head, key, value);
  }

  lemma MessageEnd(head: bytes, key: bytes, value: bytes)
    requires WholeKey(key) && Whole(value)
    ensures var text := Message(head, key, value); text != [] && !IsWhiteSpace(text[|text| - 1])
  {
    var text := Message(head, key, value);
    if value != [] {
      assert text[|text| - 1] == value[|value| - 1];
    } else if key != [] {
      assert text[|text| - 1] == key[|key| - 1];
    } else {
      assert text[|text| - 1] == SLASH;
    }
  }

  /** strip takes off what was put behind the message, and no more. */
  lemma StripMessage(head: bytes, key: bytes, value: bytes)
    requires Verb(head) && WholeKey(key) && Whole(value)
    ensures var text := Message(head, key, value); Strip(text) == text && Strip(text + [NUL]) == text
  {
    hide Message, Strip;
    WholeMessage(head, key, value);
    var text := Message(head, key, value);
    StripSpaces(text, |text|);
    StripSpaces(text + [NUL], |text|);
    assert text[..|text|] == text && (text + [NUL])[..|text|] == text;
  }

  lemma FindFirst(s: bytes, c: byte, from: nat, pos: nat)
    requires |s| < NPOS && from <= pos < |s| && s[pos] == c
    requires forall i | from <= i < pos :: s[i] != c
    ensures Find(s, c, from) == pos
  {}

  lemma FindNone(s: bytes, c: byte, from: nat)
    requires |s| < NPOS && forall i | from <= i < |s| :: s[i] != c
    ensures Find(s, c, from) == NPOS
  {}

  /** Where the words of a message are, behind it being a NUL byte. */
  lemma MessageLayout(head: bytes, key: bytes, value: bytes)
    ensures var text := Message(head, key, value); var all := text + [NUL]; var h, k := |head|, |key|;
            && |text| == h + 2 + k + (if value == [] then 0 else 1 + |value|)
            && all[..h] == head && text[h] == SPACE && text[h + 1] == SLASH && all[h + 2..h + 2 + k] == key
            && (value == [] ==> all[h + 2..] == key + [NUL])
            && (value != [] ==> text[h + 2 + k] == SLASH && all[h + 3 + k..] == value + [NUL])
  {}

  lemma MessageBytes(head: bytes, key: bytes, value: bytes)
    ensures var text := Message(head, key, value); var h, k := |head|, |key|;
            && h + 2 + k <= |text|
            && (forall i | 0 <= i < h :: text[i] == head[i])
            && (forall i | h + 2 <= i < h + 2 + k :: text[i] == key[i - h - 2])
  {}

  /** What find finds in a message. */
  lemma MessagePositions(head: bytes, key: bytes, value: bytes)
    requires Verb(head) && WholeKey(key) && Whole(value)
    requires |Message(head, key, value)| + 1 < NPOS
    ensures var text := Message(head, key, value); var h, k := |head|, |key|;
            && Find(text, NEWLINE, 0) == NPOS && Find(text, RETURN, 0) == NPOS
            && Find(text, SPACE, 0) == h && Find(text, SLASH, h + 1) == h + 1
            && Find(text, SLASH, h + 2) == if value == [] then NPOS else h + 2 + k
  {
    hide Find, Message;
    var text := Message(head, key, value);
    var h, k := |head|, |key|;
    WholeMessage(head, key, value);
    MessageLayout(head, key, value);
    FindNone(text, NEWLINE, 0);
    FindNone(text, RETURN, 0);
    MessageBytes(head, key, value);
    FindFirst(text, SPACE, 0, h);
    FindFirst(text, SLASH, h + 1, h + 1);
    if value == [] {
      FindNone(text, SLASH, h + 2);
    } else {
      FindFirst(text, SLASH, h + 2, h + 2 + k);
    }
  }

  /**
    The server takes a message of the client apart into its words. The last of them carries the NUL
    byte behind the message along.
  */
  lemma MessageDissected(head: bytes, key: bytes, value: bytes)
    requires Verb(head) && WholeKey(key) && Whole(value)
    requires |Message(head, key, value)| + 1 < NPOS
    ensures Dissect(Message(head, key, value))
            == Some(if value == [] then Request(head, key + [NUL], []) else Request(head, key, value + [NUL]))
  {
    hide Find, Message, Verb, WholeKey, Whole;
    MessageLayout(head, key, value);
    MessagePositions(head, key, value);
    var all := Message(head, key, value) + [NUL];
    assert all[0..|head|] == all[..|head|];
    assert forall i | 0 <= i < |all| :: all[i..|all|] == all[i..];
  }

  lemma TerminatedString(t: bytes)
    requires NUL !in t && |t| + 1 < NPOS
    ensures CString(t + [NUL]) == Some(t)
  {
    FindFirst(t + [NUL], NUL, 0, |t|);
    assert (t + [NUL])[..|t|] == t;
  }

  // ----- the reply -----

  lemma {:induction false} PlainBody(s: bytes, p: nat, t: bytes)
    requires Spells(s, p, t + [QUOTE]) && Plain(t)
    ensures var e := p + |t|; InToken(s, p, e) && Decode(s, p, e) == Ok(t)
    decreases |t|
  {
    hide StringEnd, Piece, Decode, Spells;
    SpellsSplit(s, p, t, [QUOTE]);
    SpellsOne(s, p + |t|, QUOTE);
    if t == [] {
      ClosingQuote(s, p);
    } else {
      assert t + [QUOTE] == [t[0]] + (t[1..] + [QUOTE]);
      SpellsSplit(s, p, [t[0]], t[1..] + [QUOTE]);
      SpellsOne(s, p, t[0]);
      PlainBody(s, p + 1, t[1..]);
      RawByte(s, p, t[0], p + |t|);
      DecodeStep(s, p, p + 1, p + |t|, [t[0]]);
      assert [t[0]] + t[1..] == t;
    }
  }

  /** A byte that stands for itself in a string token. */
  lemma RawByte(s: bytes, p: nat, c: byte, e: nat)
    requires p < |s| && s[p] == c && 0x10 <= c && c != QUOTE && c != BACKSLASH
    requires InToken(s, p + 1, e)
    ensures InToken(s, p, e) && p != e && Piece(s, p, e) == Ok(([c], p + 1))
  {}

  lemma PlainToken(s: bytes, p: nat, t: bytes)
    requires Spells(s, p, Quoted(t)) && Plain(t)
    ensures var e := p + 1 + |t|;
            && e < |s| && Scan(s, p) == Lexeme(ValueString, p, e + 1)
            && InToken(s, p + 1, e) && Decode(s, p + 1, e) == Ok(t)
  {
    hide StringEnd, Decode;
    assert Quoted(t) == [QUOTE] + (t + [QUOTE]);
    SpellsSplit(s, p, [QUOTE], t + [QUOTE]);
    SpellsOne(s, p, QUOTE);
    PlainBody(s, p + 1, t);
    SpellsSplit(s, p + 1, t, [QUOTE]);
  }

  lemma MarkAndSpace(s: bytes, p: nat, b: byte)
    requires Spells(s, p, [b, SPACE]) && Punctuation(b).Some?
    ensures p + 2 <= |s| && Scan(s, p) == Lexeme(Punctuation(b).value, p, p + 1) && Scan(s, p + 1) == Scan(s, p + 2)
  {
    hide Scan, TokenAt;
    assert [b, SPACE] == [b] + [SPACE];
    SpellsSplit(s, p, [b], [SPACE]);
    Mark(s, p, b);
    assert [SPACE] == JsonDump.Spaces(1);
    SpacesAreSkipped(s, p + 1, 1);
  }

  /** The name of a member of the reply is read back, up to the first token of its value. */
  lemma NameBack(s: bytes, p: nat, name: bytes)
    requires Spells(s, p, Quoted(name)) && Spells(s, p + |name| + 2, [COLON, SPACE]) && Plain(name)
    ensures p + |name| + 4 <= |s| && Scan(s, p).token == ValueString
    ensures ParseKey(s, Scan(s, p)) == Ok((name, Scan(s, p + |name| + 4)))
  {
    hide Scan, TokenAt, Decode, StringEnd, Spells;
    PlainToken(s, p, name);
    MarkAndSpace(s, p + |name| + 2, COLON);
  }

  /** One member of the reply is read back, up to the token behind it. */
  lemma FieldBack(s: bytes, p: nat, name: bytes, t: bytes)
    requires Spells(s, p, Field(name, t)) && Plain(name) && Plain(t)
    ensures p + |Field(name, t)| <= |s| && ParseKey(s, Scan(s, p)).Ok?
    ensures var (key, first) := ParseKey(s, Scan(s, p)).value;
            key == name && ParseValue(s, first) == Ok((Str(t), Scan(s, p + |Field(name, t)|)))
    ensures Scan(s, p).token == ValueString
  {
    hide Scan, TokenAt, Decode, StringEnd, Spells, ParseKey;
    var q := p + |name| + 2;
    Pieces(s, p, Quoted(name), [COLON, SPACE], Quoted(t), [SPACE]);
    NameBack(s, p, name);
    PlainToken(s, q + 2, t);
    assert [SPACE] == JsonDump.Spaces(1);
    SpacesAreSkipped(s, q + |t| + 4, 1);
  }

  lemma FieldsFound(key: bytes, value: bytes)
    ensures var ms := Put(Put([], KEY, Str(key)), VALUE, Str(value));
            JsonValue.Find(ms, KEY) == Some(Str(key)) && JsonValue.Find(ms, VALUE) == Some(Str(value))
  {
    var ms := Put([], KEY, Str(key));
    PutIsUpdate(ms, VALUE, Str(value), KEY);
    PutIsUpdate(ms, VALUE, Str(value), VALUE);
    PutIsUpdate([], KEY, Str(key), KEY);
    assert KEY[0] != VALUE[0];
  }

  /** The pieces of a reply. */
  lemma ReplyPieces(s: bytes, key: bytes, value: bytes)
    requires s == MakeJson(key + [NUL], value)
    ensures var k, v := Field(KEY, key), Field(VALUE, value);
            && Spells(s, 0, [OPEN_BRACE, SPACE]) && Spells(s, 2, k) && Spells(s, 2 + |k|, [COMMA, SPACE])
            && Spells(s, 4 + |k|, v) && Spells(s, 4 + |k| + |v|, [CLOSE_BRACE, SPACE])
            && |s| == 6 + |k| + |v|
  {
    hide Spells, Field;
    var k, v := Field(KEY, key), Field(VALUE, value);
    assert (key + [NUL])[..|key|] == key;
    assert Spells(s, 0, s) by { SpellsItself(s); }
    SpellsSplit(s, 0, [OPEN_BRACE, SPACE] + k + [COMMA, SPACE] + v, [CLOSE_BRACE, SPACE]);
    Pieces(s, 0, [OPEN_BRACE, SPACE], k, [COMMA, SPACE], v);
  }

  lemma SpellsItself(s: bytes)
    ensures Spells(s, 0, s)
  {
    assert s[0..|s|] == s;
  }

  /** The parser on the first member of a reply. */
  lemma FirstField(s: bytes, key: bytes, value: bytes)
    requires s == MakeJson(key + [NUL], value) && Plain(key)
    ensures var c := 2 + |Field(KEY, key)|;
            && c + 2 <= |s| && Scan(s, c) == Lexeme(ValueSeparator, c, c + 1)
            && ParseValue(s, Scan(s, 0)) == ParseMembers(s, Scan(s, c), Put([], KEY, Str(key)))
  {
    hide Scan, TokenAt, Decode, StringEnd, Spells, Field, ParseValue, ParseMembers, ParseKey, Put, MakeJson;
    ReplyPieces(s, key, value);
    var c := 2 + |Field(KEY, key)|;
    MarkAndSpace(s, 0, OPEN_BRACE);
    MarkAndSpace(s, c, COMMA);
    FieldBack(s, 2, KEY, key);
    AfterOpening(s, Scan(s, 0));
    MembersTurn(s, Scan(s, 2), [], KEY, ParseKey(s, Scan(s, 2)).value.1, Str(key), Scan(s, c));
  }

  /** The parser on the second member of a reply. */
  lemma SecondField(s: bytes, key: bytes, value: bytes, ms: seq<Member>)
    requires s == MakeJson(key + [NUL], value) && Plain(key) && Plain(value)
    ensures var c := 2 + |Field(KEY, key)|;
            && c + 2 <= |s|
            && ParseMembers(s, Scan(s, c), ms) == Ok((Object(Put(ms, VALUE, Str(value))), Scan(s, |s|)))
  {
    hide Scan, TokenAt, Decode, StringEnd, Spells, Field, ParseValue, ParseMembers, ParseKey, Put, MakeJson;
    ReplyPieces(s, key, value);
    var c := 2 + |Field(KEY, key)|;
    var e := c + 2 + |Field(VALUE, value)|;
    MarkAndSpace(s, c, COMMA);
    MarkAndSpace(s, e, CLOSE_BRACE);
    FieldBack(s, c + 2, VALUE, value);
    MembersTurn(s, Scan(s, c), ms, VALUE, ParseKey(s, Scan(s, c + 2)).value.1, Str(value), Scan(s, e));
  }

  /** The client reads from the reply what the server put into it. */
  lemma ReplyUnpacked(key: bytes, value: bytes)
    requires Plain(key) && Plain(value)
    ensures UnpackJson(MakeJson(key + [NUL], value)) == Some((key, value))
  {
    hide TokenAt, Field, ParseValue, ParseMembers, Put, MakeJson, JsonValue.Find, Plain;
    var s := MakeJson(key + [NUL], value);
    FirstField(s, key, value);
    SecondField(s, key, value, Put([], KEY, Str(key)));
    AtTheEnd(s);
    FieldsFound(key, value);
  }

  lemma AtTheEnd(s: bytes)
    ensures Scan(s, |s|).token == EndOfInput
  {}
}
