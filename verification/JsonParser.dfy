/**
  The recursive-descent parser of json.hpp on a string, without a callback. ParseValue and its
  companions say what it computes from the token at hand; Parser is the object that calls the scanner.
*/
module JsonParser {
  import opened Machine
  import opened JsonLexer
  import opened JsonString
  import opened JsonNumber
  import opened JsonValue
  import opened Unicode
  import Automaton = JsonAutomaton

  /** A lexeme that scanning s can yield. */
  predicate Scanned(s: bytes, cur: Lexeme) {
    cur.start <= |s| && cur == TokenAt(s, cur.start)
  }

  /** No token may be requested after the end of the input or an unreadable token. */
  predicate Final(token: Token) {
    token.EndOfInput? || token.ParseError?
  }

  function Next(s: bytes, cur: Lexeme): (next: Lexeme)
    requires Scanned(s, cur) && !Final(cur.token)
    ensures Scanned(s, next) && cur.end <= next.start
  {
    Scan(s, cur.end)
  }

  lemma StringFits(s: bytes, cur: Lexeme)
    requires Scanned(s, cur) && cur.token == ValueString
    ensures 1 < cur.end && InToken(s, cur.start + 1, cur.end - 1)
  {
    hide StringEnd, NumberEnd, Spells;
  }

  function StringOf(s: bytes, cur: Lexeme): Result<bytes>
    requires Scanned(s, cur) && cur.token == ValueString
  {
    Decode(s, cur.start + 1, cur.end - 1)
  }

  /** The value that starts with the token at hand, and the token behind it. */
  function ParseValue(s: bytes, cur: Lexeme): (r: Result<(Json, Lexeme)>)
    requires Scanned(s, cur)
    ensures r.Ok? ==> Scanned(s, r.value.1) && cur.end <= r.value.1.start
    decreases |s| + 1 - cur.end, 0
  {
    if Final(cur.token) then Err(Unexpected)
    else
      var next := Next(s, cur);
      match cur.token
      case BeginObject =>
        if next.token == EndObject then Ok((Object([]), Next(s, next)))
        else if next.token == ValueSeparator then Err(Unexpected)
        else ParseMembers(s, next, [])
      case BeginArray =>
        if next.token == EndArray then Ok((Array([]), Next(s, next)))
        else if next.token == ValueSeparator then Err(Unexpected)
        else ParseElements(s, next, [])
      case LiteralNull => Ok((Null, next))
      case LiteralTrue => Ok((Boolean(true), next))
      case LiteralFalse => Ok((Boolean(false), next))
      case ValueString =>
        (match StringOf(s, cur)
         case Ok(t) => Ok((Str(t), next))
         case Err(x) => Err(x))
      case ValueNumber =>
        (match NumberValue(s, cur.start, cur.end)
         case Ok(n) => Ok((n, next))
         case Err(x) => Err(x))
      case _ => Err(Unexpected)
  }

  /** Past the comma that a turn of either loop may begin with. */
  function SkipComma(s: bytes, cur: Lexeme): (first: Lexeme)
    requires Scanned(s, cur)
    ensures Scanned(s, first) && cur.end <= first.end
    ensures cur.token != ValueSeparator ==> first == cur
  {
    if cur.token == ValueSeparator then Next(s, cur) else cur
  }

  /** The rest of an array, es being the elements before it. */
  function ParseElements(s: bytes, cur: Lexeme, es: seq<Json>): (r: Result<(Json, Lexeme)>)
    requires Scanned(s, cur)
    ensures r.Ok? ==> Scanned(s, r.value.1) && cur.end <= r.value.1.start
    ensures r.Ok? ==> r.value.0.Array?
    decreases |s| + 1 - cur.end, 1
  {
    match ParseValue(s, SkipComma(s, cur))
    case Err(x) => Err(x)
    case Ok((v, next)) =>
      if next.token == ValueSeparator then ParseElements(s, next, es + [v])
      else if next.token == EndArray then Ok((Array(es + [v]), Next(s, next)))
      else Err(Unexpected)
  }

  /** A key, the colon behind it, and the first token of its value. */
  function ParseKey(s: bytes, cur: Lexeme): (r: Result<(bytes, Lexeme)>)
    requires Scanned(s, cur)
    ensures r.Ok? ==> Scanned(s, r.value.1) && cur.end < r.value.1.end
  {
    if cur.token != ValueString then Err(Unexpected)
    else
      match StringOf(s, cur)
      case Err(x) => Err(x)
      case Ok(key) =>
        var colon := Next(s, cur);
        if colon.token == NameSeparator then Ok((key, Next(s, colon))) else Err(Unexpected)
  }

  /** The rest of an object, ms being the members before it. */
  function ParseMembers(s: bytes, cur: Lexeme, ms: seq<Member>): (r: Result<(Json, Lexeme)>)
    requires Scanned(s, cur)
    ensures r.Ok? ==> Scanned(s, r.value.1) && cur.end <= r.value.1.start
    ensures r.Ok? ==> r.value.0.Object?
    decreases |s| + 1 - cur.end, 1
  {
    match ParseKey(s, SkipComma(s, cur))
    case Err(x) => Err(x)
    case Ok((key, first)) =>
      match ParseValue(s, first)
      case Err(x) => Err(x)
      case Ok((v, next)) =>
        if next.token == ValueSeparator then ParseMembers(s, next, Put(ms, key, v))
        else if next.token == EndObject then Ok((Object(Put(ms, key, v)), Next(s, next)))
        else Err(Unexpected)
  }

  /** parse: one value, and nothing behind it. */
  function Parse(s: bytes): Result<Json> {
    match ParseValue(s, Scan(s, 0))
    case Err(x) => Err(x)
    case Ok((j, next)) => if next.token == EndOfInput then Ok(j) else Err(Unexpected)
  }

  // ----- single turns -----

  /** What the parser does after an opening bracket or brace. */
  lemma AfterOpening(s: bytes, cur: Lexeme)
    requires Scanned(s, cur) && (cur.token == BeginArray || cur.token == BeginObject)
    ensures var next := Next(s, cur); var r := ParseValue(s, cur);
            if cur.token == BeginArray then
              && (next.token == EndArray ==> r == Ok((Array([]), Next(s, next))))
              && (next.token != EndArray && next.token != ValueSeparator ==> r == ParseElements(s, next, []))
            else
              && (next.token == EndObject ==> r == Ok((Object([]), Next(s, next))))
              && (next.token != EndObject && next.token != ValueSeparator ==> r == ParseMembers(s, next, []))
  {
    hide Scan, TokenAt, ParseElements, ParseMembers;
  }

  /** One turn of the loop over the elements. */
  lemma ElementsTurn(s: bytes, cur: Lexeme, es: seq<Json>, v: Json, next: Lexeme)
    requires Scanned(s, cur) && ParseValue(s, SkipComma(s, cur)) == Ok((v, next))
    ensures Scanned(s, next)
    ensures next.token == ValueSeparator ==> ParseElements(s, cur, es) == ParseElements(s, next, es + [v])
    ensures next.token == EndArray ==> ParseElements(s, cur, es) == Ok((Array(es + [v]), Next(s, next)))
  {
    hide ParseValue, SkipComma, TokenAt, Scan;
  }

  /** One turn of the loop over the members. */
  lemma MembersTurn(s: bytes, cur: Lexeme, ms: seq<Member>, key: bytes, first: Lexeme, v: Json, next: Lexeme)
    requires Scanned(s, cur) && ParseKey(s, SkipComma(s, cur)) == Ok((key, first))
    requires Scanned(s, first) && ParseValue(s, first) == Ok((v, next))
    ensures Scanned(s, next)
    ensures next.token == ValueSeparator ==> ParseMembers(s, cur, ms) == ParseMembers(s, next, Put(ms, key, v))
    ensures next.token == EndObject ==> ParseMembers(s, cur, ms) == Ok((Object(Put(ms, key, v)), Next(s, next)))
  {
    hide ParseValue, ParseKey, SkipComma, TokenAt, Scan, Put;
  }

  // ----- what a parsed value looks like -----

  /** Objects are maps all through the tree. */
  ghost predicate WellFormed(j: Json)
    decreases j
  {
    match j
    case Array(es) => forall i | 0 <= i < |es| :: WellFormed(es[i])
    case Object(ms) => Sorted(ms) && forall i | 0 <= i < |ms| :: WellFormed(ms[i].val)
    case _ => true
  }

  lemma {:induction false} ParsedIsWellFormed(s: bytes, cur: Lexeme)
    requires Scanned(s, cur)
    ensures ParseValue(s, cur).Ok? ==> WellFormed(ParseValue(s, cur).value.0)
    decreases |s| + 1 - cur.end, 0
  {
    hide TokenAt, Scan, StringOf, ParseElements, ParseMembers, StrtodEnd;
    if !Final(cur.token) {
      if cur.token == BeginArray {
        ElementsAreWellFormed(s, Next(s, cur), []);
      } else if cur.token == BeginObject {
        MembersAreWellFormed(s, Next(s, cur), []);
      }
    }
  }

  lemma {:induction false} ElementsAreWellFormed(s: bytes, cur: Lexeme, es: seq<Json>)
    requires Scanned(s, cur) && forall i | 0 <= i < |es| :: WellFormed(es[i])
    ensures ParseElements(s, cur, es).Ok? ==> WellFormed(ParseElements(s, cur, es).value.0)
    decreases |s| + 1 - cur.end, 1
  {
    hide Next, TokenAt;
    var first := SkipComma(s, cur);
    ParsedIsWellFormed(s, first);
    if ParseValue(s, first).Ok? {
      var (v, next) := ParseValue(s, first).value;
      if next.token == ValueSeparator { ElementsAreWellFormed(s, next, es + [v]); }
    }
  }

  lemma {:induction false} MembersAreWellFormed(s: bytes, cur: Lexeme, ms: seq<Member>)
    requires Scanned(s, cur) && WellFormed(Object(ms))
    ensures ParseMembers(s, cur, ms).Ok? ==> WellFormed(ParseMembers(s, cur, ms).value.0)
    decreases |s| + 1 - cur.end, 1
  {
    hide Next, Sorted, TokenAt, ParseKey;
    var key := ParseKey(s, SkipComma(s, cur));
    if key.Ok? {
      ParsedIsWellFormed(s, key.value.1);
      if ParseValue(s, key.value.1).Ok? {
        var (v, next) := ParseValue(s, key.value.1).value;
        PutKeepsSorted(ms, key.value.0, v);
        if next.token == ValueSeparator { MembersAreWellFormed(s, next, Put(ms, key.value.0, v)); }
      }
    }
  }

  // ----- the parser -----

  class Parser {
    const lexer: Automaton.Lexer
    /** last_token; None is the token type uninitialized. */
    var lastToken: Option<Token>

    ghost predicate Valid()
      reads this, lexer
    {
      lastToken.Some? && Scanned(lexer.content, Current())
    }

    ghost function Current(): Lexeme
      requires lastToken.Some?
      reads this, lexer
    {
      Lexeme(lastToken.value, lexer.start, lexer.cursor)
    }

    constructor (s: bytes)
      ensures Valid() && fresh(lexer) && lexer.content == s && Current() == Scan(s, 0)
    {
      lexer := new Automaton.Lexer(s);
      lastToken := None;
      new;
      var token := lexer.Scan();
      lastToken := Some(token);
    }

    /** get_token */
    method GetToken()
      requires Valid() && !Final(lastToken.value)
      modifies this, lexer
      ensures Valid() && Current() == Next(lexer.content, old(Current()))
    {
      var token := lexer.Scan();
      lastToken := Some(token);
    }

    /** What a method has done that returns r where the specification says f. */
    ghost predicate Follows(r: Result<Json>, f: Result<(Json, Lexeme)>)
      reads this, lexer
    {
      match f
      case Err(x) => r == Err(x)
      case Ok((j, next)) => r == Ok(j) && Valid() && Current() == next
    }

    /** parse_internal */
    method ParseInternal() returns (r: Result<Json>)
      requires Valid()
      modifies this, lexer
      ensures Follows(r, old(ParseValue(lexer.content, Current())))
      decreases |lexer.content| + 1 - lexer.cursor, 0
    {
      hide Scan, TokenAt, Next, ParseElements, ParseMembers, Decode, NumberValue;
      match lastToken.value
      case BeginObject =>
        GetToken();
        if lastToken.value == EndObject {
          GetToken();
          return Ok(Object([]));
        }
        if lastToken.value == ValueSeparator {
          return Err(Unexpected);
        }
        r := ParseObject();
      case BeginArray =>
        GetToken();
        if lastToken.value == EndArray {
          GetToken();
          return Ok(Array([]));
        }
        if lastToken.value == ValueSeparator {
          return Err(Unexpected);
        }
        r := ParseArray();
      case LiteralNull =>
        GetToken();
        r := Ok(Null);
      case ValueString =>
        StringFits(lexer.content, Current());
        var t := lexer.GetString();
        if t.Err? {
          return Err(t.error);
        }
        GetToken();
        r := Ok(Str(t.value));
      case LiteralTrue =>
        GetToken();
        r := Ok(Boolean(true));
      case LiteralFalse =>
        GetToken();
        r := Ok(Boolean(false));
      case ValueNumber =>
        r := NumberValue(lexer.content, lexer.start, lexer.cursor);
        if r.Ok? {
          GetToken();
        }
      case _ => r := Err(Unexpected);
    }

    /** The loop over the elements of an array. */
    method ParseArray() returns (r: Result<Json>)
      requires Valid()
      modifies this, lexer
      ensures Follows(r, old(ParseElements(lexer.content, Current(), [])))
      decreases |lexer.content| + 1 - lexer.cursor, 1
    {
      hide Next, Scan, TokenAt, ParseValue;
      var es := [];
      ghost var s, all := lexer.content, ParseElements(lexer.content, Current(), []);
      while true
        invariant Valid() && all == ParseElements(s, Current(), es)
        invariant old(lexer.cursor) <= lexer.cursor
        decreases |lexer.content| + 1 - lexer.cursor
      {
        if lastToken.value == ValueSeparator {
          GetToken();
        }
        var v := ParseInternal();
        if v.Err? {
          return v;
        }
        es := es + [v.value];
        if lastToken.value != ValueSeparator {
          break;
        }
      }
      if lastToken.value != EndArray {
        return Err(Unexpected);
      }
      GetToken();
      return Ok(Array(es));
    }

    /** The loop over the members of an object. */
    method ParseObject() returns (r: Result<Json>)
      requires Valid()
      modifies this, lexer
      ensures Follows(r, old(ParseMembers(lexer.content, Current(), [])))
      decreases |lexer.content| + 1 - lexer.cursor, 1
    {
      hide Next, Scan, TokenAt, ParseValue;
      var ms := [];
      ghost var s, all := lexer.content, ParseMembers(lexer.content, Current(), []);
      while true
        invariant Valid() && all == ParseMembers(s, Current(), ms)
        invariant old(lexer.cursor) <= lexer.cursor
        decreases |lexer.content| + 1 - lexer.cursor
      {
        if lastToken.value == ValueSeparator {
          GetToken();
        }
        var key := ReadKey();
        if key.Err? {
          return Err(key.error);
        }
        var v := ParseInternal();
        if v.Err? {
          return v;
        }
        ms := Put(ms, key.value, v.value);
        if lastToken.value != ValueSeparator {
          break;
        }
      }
      if lastToken.value != EndObject {
        return Err(Unexpected);
      }
      GetToken();
      return Ok(Object(ms));
    }

    /** The key of a member and the colon, up to the first token of the value. */
    method ReadKey() returns (r: Result<bytes>)
      requires Valid()
      modifies this, lexer
      ensures match old(ParseKey(lexer.content, Current()))
              case Err(x) => r == Err(x)
              case Ok((key, first)) => r == Ok(key) && Valid() && Current() == first
    {
      hide Scan, TokenAt, Next, Decode;
      if lastToken.value != ValueString {
        return Err(Unexpected);
      }
      StringFits(lexer.content, Current());
      r := lexer.GetString();
      if r.Err? {
        return;
      }
      GetToken();
      if lastToken.value != NameSeparator {
        return Err(Unexpected);
      }
      GetToken();
    }

    /** parse */
    method ParseAll() returns (r: Result<Json>)
      requires Valid() && Current() == Scan(lexer.content, 0)
      modifies this, lexer
      ensures r == Parse(lexer.content)
    {
      r := ParseInternal();
      if r.Ok? && lastToken.value != EndOfInput {
        r := Err(Unexpected);
      }
    }
  }
}
