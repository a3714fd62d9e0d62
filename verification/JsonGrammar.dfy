/**
  What the parser accepts and what it makes of it, against a grammar that does not know about it: the
  trees of values, arrays and objects of section 2 of RFC 7159, the symbols they stand for, and what
  they mean.
*/
module JsonGrammar {
  import opened Machine
  import opened JsonLexer
  import opened JsonNumber
  import opened JsonString
  import opened JsonValue
  import opened Unicode
  import opened P = JsonParser

  /** A token as the grammar sees it: one with a value of its own, or a mark. */
  datatype Symbol =
    | Leaf(value: Json)
    | Mark(token: Token)

  datatype Tree =
    | Scalar(value: Json)
    | Items(elements: seq<Item>)
    | Fields(fields: seq<Item>)

  /** An element of an array or, with a key, a field of an object. */
  datatype Item = Item(key: Option<bytes>, value: Tree)

  predicate Proper(tree: Tree)
    decreases tree, 1
  {
    match tree
    case Scalar(v) => !v.Array? && !v.Object?
    case Items(ts) => AllProper(ts, false)
    case Fields(ts) => AllProper(ts, true)
  }

  predicate AllProper(ts: seq<Item>, keyed: bool)
    decreases ts, 0
  {
    forall i | 0 <= i < |ts| :: (assert ts decreases to ts[i]; ts[i].key.Some? == keyed && Proper(ts[i].value))
  }

  /** The symbols of a value. */
  function Yield(tree: Tree): seq<Symbol>
    decreases tree, 0
  {
    match tree
    case Scalar(v) => [Leaf(v)]
    case Items(ts) => [Mark(BeginArray)] + List(ts) + [Mark(EndArray)]
    case Fields(ts) => [Mark(BeginObject)] + List(ts) + [Mark(EndObject)]
  }

  /** What stands before an item's value. */
  function Lead(key: Option<bytes>): seq<Symbol> {
    if key.None? then [] else [Leaf(Str(key.value))] + [Mark(NameSeparator)]
  }

  /** Items separated by commas. */
  function List(ts: seq<Item>): seq<Symbol>
    decreases ts, 0
  {
    if ts == [] then []
    else
      assert ts decreases to ts[0];
      Lead(ts[0].key) + Yield(ts[0].value) + More(ts[1..])
  }

  /** The same behind a first item. */
  function More(ts: seq<Item>): seq<Symbol>
    decreases ts, 1
  {
    if ts == [] then [] else [Mark(ValueSeparator)] + List(ts)
  }

  // ----- what a tree means -----

  function Meaning(tree: Tree): Json
    requires Proper(tree)
    decreases tree, 0
  {
    match tree
    case Scalar(v) => v
    case Items(ts) => Array(Values(ts))
    case Fields(ts) => Object(Assigned([], ts))
  }

  /** The values of the elements, in order. */
  function Values(ts: seq<Item>): seq<Json>
    requires AllProper(ts, false)
    decreases ts, 0
  {
    if ts == [] then []
    else
      assert ts decreases to ts[0];
      [Meaning(ts[0].value)] + Values(ts[1..])
  }

  lemma ValuesStep(vs: seq<Json>, ts: seq<Item>)
    requires ts != [] && AllProper(ts, false)
    ensures AllProper(ts[1..], false) && vs + Values(ts) == vs + [Meaning(ts[0].value)] + Values(ts[1..])
    ensures |ts| == 1 ==> Values(ts[1..]) == []
  {
    hide Meaning, Proper;
    assert Values(ts) == [Meaning(ts[0].value)] + Values(ts[1..]);
    Associate(vs, [Meaning(ts[0].value)], Values(ts[1..]));
  }

  lemma Associate(a: seq<Json>, b: seq<Json>, c: seq<Json>)
    ensures a + (b + c) == a + b + c
  {}

  /** The members, after the fields have been assigned from the first to the last. */
  function Assigned(ms: seq<Member>, ts: seq<Item>): seq<Member>
    requires AllProper(ts, true)
    decreases ts, 0
  {
    if ts == [] then ms
    else
      assert ts decreases to ts[0];
      Assigned(Put(ms, ts[0].key.value, Meaning(ts[0].value)), ts[1..])
  }

  /** Field i is the last one with its key. */
  ghost predicate LastOfItsKey(ts: seq<Item>, i: nat) {
    i < |ts| && forall j | i < j < |ts| :: ts[j].key != ts[i].key
  }

  ghost predicate NoField(ts: seq<Item>, key: bytes) {
    forall i | 0 <= i < |ts| :: ts[i].key != Some(key)
  }

  /** Of the fields with one key the last one counts, and the members stand in the order of their keys. */
  lemma {:induction false} LastFieldCounts(ms: seq<Member>, ts: seq<Item>, key: bytes)
    requires Sorted(ms) && AllProper(ts, true)
    ensures Sorted(Assigned(ms, ts))
    ensures NoField(ts, key) ==> Find(Assigned(ms, ts), key) == Find(ms, key)
    ensures forall i: nat | LastOfItsKey(ts, i) && ts[i].key == Some(key) ::
              Find(Assigned(ms, ts), key) == Some(Meaning(ts[i].value))
    decreases |ts|
  {
    hide Sorted, Put, Find, Meaning, Proper;
    if ts != [] {
      var k, v := ts[0].key.value, Meaning(ts[0].value);
      PutKeepsSorted(ms, k, v);
      PutIsUpdate(ms, k, v, key);
      LastFieldCounts(Put(ms, k, v), ts[1..], key);
      FirstOrLater(ts, key);
    }
  }

  lemma FirstOrLater(ts: seq<Item>, key: bytes)
    requires ts != []
    ensures NoField(ts, key) <==> ts[0].key != Some(key) && NoField(ts[1..], key)
    ensures forall i: nat | LastOfItsKey(ts, i) && ts[i].key == Some(key) ::
              if i == 0 then NoField(ts[1..], key) else LastOfItsKey(ts[1..], i - 1) && ts[1..][i - 1] == ts[i]
  {
    assert ts == [ts[0]] + ts[1..];
  }

  // ----- the symbols of a text -----

  /** What a token's text must be beyond the grammar: surrogates in pairs, and no number that get_number rejects. */
  predicate Readable(s: bytes, cur: Lexeme)
    requires Scanned(s, cur)
  {
    && (cur.token.ValueString? ==> (StringFits(s, cur); PairedEscapes(s, cur.start + 1, cur.end - 1)))
    && (cur.token.ValueNumber? ==> !Rejected(s, cur.start, cur.end))
  }

  /** That is what get_string and get_number accept. */
  lemma ReadableMeans(s: bytes, cur: Lexeme)
    requires Scanned(s, cur)
    ensures cur.token.ValueString? ==> (StringOf(s, cur).Ok? <==> Readable(s, cur))
    ensures cur.token.ValueNumber? ==> (NumberValue(s, cur.start, cur.end).Ok? <==> Readable(s, cur))
    ensures !cur.token.ValueString? && !cur.token.ValueNumber? ==> Readable(s, cur)
  {
    hide TokenAt, PairedEscapes, Rejected, Decode, NumberValue;
    if cur.token.ValueString? {
      StringFits(s, cur);
      DecodesExactly(s, cur.start + 1, cur.end - 1);
    } else if cur.token.ValueNumber? {
      NumberRejected(s, cur.start, cur.end);
    }
  }

  function SymbolOf(s: bytes, cur: Lexeme): Symbol
    requires Scanned(s, cur) && Readable(s, cur)
  {
    ReadableMeans(s, cur);
    match cur.token
    case LiteralNull => Leaf(Null)
    case LiteralTrue => Leaf(Boolean(true))
    case LiteralFalse => Leaf(Boolean(false))
    case ValueString => Leaf(Str(StringOf(s, cur).value))
    case ValueNumber => Leaf(NumberValue(s, cur.start, cur.end).value)
    case _ => Mark(cur.token)
  }

  predicate AllReadable(s: bytes, cur: Lexeme)
    requires Scanned(s, cur)
    decreases |s| + 1 - cur.end
  {
    Readable(s, cur) && (!Final(cur.token) ==> AllReadable(s, Next(s, cur)))
  }

  /** The symbols from a token on, up to the first that is final. */
  function Symbols(s: bytes, cur: Lexeme): (r: seq<Symbol>)
    requires Scanned(s, cur) && AllReadable(s, cur)
    ensures r != [] && r[0] == SymbolOf(s, cur)
    decreases |s| + 1 - cur.end
  {
    [SymbolOf(s, cur)] + if Final(cur.token) then [] else Symbols(s, Next(s, cur))
  }

  /** From cur on, the symbols are ts and then those from next on, if those can be read. */
  ghost predicate Takes(s: bytes, cur: Lexeme, ts: seq<Symbol>, next: Lexeme) {
    && Scanned(s, cur) && Scanned(s, next)
    && (AllReadable(s, next) ==> AllReadable(s, cur) && Symbols(s, cur) == ts + Symbols(s, next))
  }

  lemma TakesOne(s: bytes, cur: Lexeme)
    requires Scanned(s, cur) && !Final(cur.token) && Readable(s, cur)
    ensures Takes(s, cur, [SymbolOf(s, cur)], Next(s, cur))
  {
    hide Next, Readable, TokenAt, SymbolOf;
  }

  lemma TakesMark(s: bytes, cur: Lexeme)
    requires Scanned(s, cur) && Punctuated(cur.token)
    ensures Takes(s, cur, [Mark(cur.token)], Next(s, cur))
  {
    hide Next, TokenAt;
    TakesOne(s, cur);
  }

  predicate Punctuated(t: Token) {
    || t.BeginArray? || t.EndArray? || t.BeginObject? || t.EndObject? || t.NameSeparator? || t.ValueSeparator?
  }

  lemma TakesThen(s: bytes, a: Lexeme, ts: seq<Symbol>, b: Lexeme, us: seq<Symbol>, c: Lexeme)
    requires Takes(s, a, ts, b) && Takes(s, b, us, c)
    ensures Takes(s, a, ts + us, c)
  {
    hide Symbols, AllReadable, TokenAt;
    if AllReadable(s, c) { assert ts + (us + Symbols(s, c)) == ts + us + Symbols(s, c); }
  }

  // ----- what is accepted is derived -----

  /** The tokens a parsed value takes are those of a tree that means it. */
  lemma {:induction false} ValueDerives(s: bytes, cur: Lexeme) returns (tree: Tree)
    requires Scanned(s, cur) && ParseValue(s, cur).Ok?
    ensures Proper(tree) && Meaning(tree) == ParseValue(s, cur).value.0
    ensures Takes(s, cur, Yield(tree), ParseValue(s, cur).value.1)
    decreases |s| + 1 - cur.end, 2
  {
    hide Takes, TokenAt, Scan, Symbols, AllReadable, NumberValue, StringOf, ParseElements, ParseMembers;
    if cur.token == BeginArray {
      tree := ArrayDerives(s, cur);
    } else if cur.token == BeginObject {
      tree := ObjectDerives(s, cur);
    } else {
      tree := Scalar(ParseValue(s, cur).value.0);
      ReadableMeans(s, cur);
        TakesOne(s, cur);
    }
  }

  lemma {:induction false} ArrayDerives(s: bytes, cur: Lexeme) returns (tree: Tree)
    requires Scanned(s, cur) && cur.token == BeginArray && ParseValue(s, cur).Ok?
    ensures Proper(tree) && Meaning(tree) == ParseValue(s, cur).value.0
    ensures Takes(s, cur, Yield(tree), ParseValue(s, cur).value.1)
    decreases |s| + 1 - cur.end, 1
  {
    hide Takes, TokenAt, Scan, Symbols, AllReadable, ParseValue, ParseElements;
    AfterOpening(s, cur);
    TakesMark(s, cur);
    var after := Next(s, cur);
    if after.token == EndArray {
      tree := Items([]);
      TakesMark(s, after);
      TakesThen(s, cur, [Mark(BeginArray)], after, [Mark(EndArray)], Next(s, after));
      assert Yield(tree) == [Mark(BeginArray)] + [Mark(EndArray)];
    } else {
      NoCommaAfterOpening(s, cur);
      var ts := ElementsDerive(s, after, []);
      tree := Items(ts);
      TakesThen(s, cur, [Mark(BeginArray)], after, List(ts) + [Mark(EndArray)], ParseValue(s, cur).value.1);
      assert Yield(tree) == [Mark(BeginArray)] + (List(ts) + [Mark(EndArray)]);
    }
  }

  lemma {:induction false} ObjectDerives(s: bytes, cur: Lexeme) returns (tree: Tree)
    requires Scanned(s, cur) && cur.token == BeginObject && ParseValue(s, cur).Ok?
    ensures Proper(tree) && Meaning(tree) == ParseValue(s, cur).value.0
    ensures Takes(s, cur, Yield(tree), ParseValue(s, cur).value.1)
    decreases |s| + 1 - cur.end, 1
  {
    hide Takes, TokenAt, Scan, Symbols, AllReadable, ParseValue, ParseMembers;
    AfterOpening(s, cur);
    TakesMark(s, cur);
    var after := Next(s, cur);
    if after.token == EndObject {
      tree := Fields([]);
      TakesMark(s, after);
      TakesThen(s, cur, [Mark(BeginObject)], after, [Mark(EndObject)], Next(s, after));
      assert Yield(tree) == [Mark(BeginObject)] + [Mark(EndObject)];
    } else {
      NoCommaAfterOpening(s, cur);
      var ts := MembersDerive(s, after, []);
      tree := Fields(ts);
      TakesThen(s, cur, [Mark(BeginObject)], after, List(ts) + [Mark(EndObject)], ParseValue(s, cur).value.1);
      assert Yield(tree) == [Mark(BeginObject)] + (List(ts) + [Mark(EndObject)]);
    }
  }

  lemma NoCommaAfterOpening(s: bytes, cur: Lexeme)
    requires Scanned(s, cur) && (cur.token == BeginArray || cur.token == BeginObject) && ParseValue(s, cur).Ok?
    ensures Next(s, cur).token != ValueSeparator && SkipComma(s, Next(s, cur)) == Next(s, cur)
  {
    hide TokenAt, Scan, ParseElements, ParseMembers;
  }

  lemma {:induction false} ElementsDerive(s: bytes, cur: Lexeme, vs: seq<Json>) returns (ts: seq<Item>)
    requires Scanned(s, cur) && ParseElements(s, cur, vs).Ok?
    ensures ts != [] && AllProper(ts, false) && ParseElements(s, cur, vs).value.0 == Array(vs + Values(ts))
    ensures Takes(s, SkipComma(s, cur), List(ts) + [Mark(EndArray)], ParseElements(s, cur, vs).value.1)
    decreases |s| + 1 - cur.end, 3
  {
    hide Takes, TokenAt, Scan, Symbols, AllReadable, ParseValue, Proper, Yield, Meaning, Values;
    var first := SkipComma(s, cur);
    var (v, next) := ParseValue(s, first).value;
    var tree := ValueDerives(s, first);
    TakesMark(s, next);
    var rest := [];
    if next.token == ValueSeparator {
      rest := ElementsDerive(s, next, vs + [v]);
      TakesThen(s, next, [Mark(ValueSeparator)], Next(s, next), List(rest) + [Mark(EndArray)],
                ParseElements(s, cur, vs).value.1);
    }
    ts := [Item(None, tree)] + rest;
    ListStep(Item(None, tree), rest, Mark(EndArray));
    assert [] + Yield(tree) == Yield(tree);
    assert ts[1..] == rest;
    ValuesStep(vs, ts);
    TakesThen(s, first, Yield(tree), next, More(rest) + [Mark(EndArray)], ParseElements(s, cur, vs).value.1);
  }

  lemma {:induction false} MembersDerive(s: bytes, cur: Lexeme, ms: seq<Member>) returns (ts: seq<Item>)
    requires Scanned(s, cur) && ParseMembers(s, cur, ms).Ok?
    ensures ts != [] && AllProper(ts, true) && ParseMembers(s, cur, ms).value.0 == Object(Assigned(ms, ts))
    ensures Takes(s, SkipComma(s, cur), List(ts) + [Mark(EndObject)], ParseMembers(s, cur, ms).value.1)
    decreases |s| + 1 - cur.end, 3
  {
    hide Takes, TokenAt, Scan, Symbols, AllReadable, ParseValue, Proper, Yield, ParseKey, Put, Meaning, Lead;
    var start := SkipComma(s, cur);
    var (key, first) := ParseKey(s, start).value;
    var (v, next) := ParseValue(s, first).value;
    KeyDerives(s, start);
    var tree := ValueDerives(s, first);
    TakesThen(s, start, Lead(Some(key)), first, Yield(tree), next);
    TakesMark(s, next);
    var rest := [];
    if next.token == ValueSeparator {
      rest := MembersDerive(s, next, Put(ms, key, v));
      TakesThen(s, next, [Mark(ValueSeparator)], Next(s, next), List(rest) + [Mark(EndObject)],
                ParseMembers(s, cur, ms).value.1);
    }
    ts := [Item(Some(key), tree)] + rest;
    ListStep(Item(Some(key), tree), rest, Mark(EndObject));
    assert ts[1..] == rest;
    TakesThen(s, start, Lead(Some(key)) + Yield(tree), next, More(rest) + [Mark(EndObject)],
              ParseMembers(s, cur, ms).value.1);
  }

  /** A list and its closing token, first item first. */
  lemma ListStep(item: Item, rest: seq<Item>, close: Symbol)
    ensures List([item] + rest) + [close] == Lead(item.key) + Yield(item.value) + (More(rest) + [close])
    ensures More(rest) + [close] == if rest == [] then [close] else [Mark(ValueSeparator)] + (List(rest) + [close])
  {
    hide Yield, Lead;
    assert ([item] + rest)[1..] == rest;
  }

  /** The same with what follows the list. */
  lemma ListSplit(ts: seq<Item>, close: Symbol, rest: seq<Symbol>)
    requires ts != []
    ensures var more := More(ts[1..]) + [close] + rest;
            && List(ts) + [close] + rest == Lead(ts[0].key) + (Yield(ts[0].value) + more)
            && more == if |ts| == 1 then [close] + rest
                       else [Mark(ValueSeparator)] + (List(ts[1..]) + [close] + rest)
  {
    hide Yield, List, More, Lead;
    ListUnfolds(ts);
    Regroup(Lead(ts[0].key), Yield(ts[0].value), More(ts[1..]), [close], rest);
    Regroup([], [Mark(ValueSeparator)], List(ts[1..]), [close], rest);
    NothingFirst([close], rest, [Mark(ValueSeparator)], List(ts[1..]) + [close] + rest);
  }

  lemma ListUnfolds(ts: seq<Item>)
    requires ts != []
    ensures List(ts) == Lead(ts[0].key) + Yield(ts[0].value) + More(ts[1..])
    ensures More(ts[1..]) == if |ts| == 1 then [] else [] + [Mark(ValueSeparator)] + List(ts[1..])
  {
    hide Yield, Lead;
  }

  lemma Regroup(a: seq<Symbol>, b: seq<Symbol>, c: seq<Symbol>, d: seq<Symbol>, e: seq<Symbol>)
    ensures a + b + c + d + e == a + (b + (c + d + e))
  {}

  lemma NothingFirst(a: seq<Symbol>, b: seq<Symbol>, c: seq<Symbol>, d: seq<Symbol>)
    ensures [] + a + b == a + b && [] + (c + d) == c + d
  {}

  lemma KeyDerives(s: bytes, cur: Lexeme)
    requires Scanned(s, cur) && ParseKey(s, cur).Ok?
    ensures Takes(s, cur, Lead(Some(ParseKey(s, cur).value.0)), ParseKey(s, cur).value.1)
  {
    hide TokenAt, Scan, StringOf, Takes, Symbols, AllReadable, Readable;
    var key, colon := ParseKey(s, cur).value.0, Next(s, cur);
    ReadableMeans(s, cur);
    TakesOne(s, cur);
    TakesMark(s, colon);
    TakesThen(s, cur, [Leaf(Str(key))], colon, [Mark(NameSeparator)], Next(s, colon));
  }

  // ----- what is derived is accepted -----

  /** The symbols from cur on are all, and none of them stops the parser. */
  ghost predicate Stands(s: bytes, cur: Lexeme, all: seq<Symbol>) {
    Scanned(s, cur) && AllReadable(s, cur) && Symbols(s, cur) == all
  }

  /** One symbol is taken. */
  lemma StandsStep(s: bytes, cur: Lexeme, t: Symbol, rest: seq<Symbol>)
    requires Stands(s, cur, [t] + rest) && (t.Mark? ==> !Final(t.token))
    ensures Scanned(s, cur) && Readable(s, cur) && SymbolOf(s, cur) == t && !Final(cur.token)
    ensures t.Mark? ==> cur.token == t.token
    ensures Stands(s, Next(s, cur), rest)
  {
    hide Next, Readable, TokenAt, NumberValue, StringOf;
    assert Symbols(s, cur)[0] == t;
    assert Symbols(s, cur)[1..] == Symbols(s, Next(s, cur));
  }

  lemma CommaStands(s: bytes, cur: Lexeme, rest: seq<Symbol>)
    requires Stands(s, cur, [Mark(ValueSeparator)] + rest)
    ensures Scanned(s, cur) && cur.token == ValueSeparator && Stands(s, SkipComma(s, cur), rest)
  {
    hide Next, TokenAt, Stands;
    StandsStep(s, cur, Mark(ValueSeparator), rest);
  }

  lemma StandsAt(s: bytes, cur: Lexeme, all: seq<Symbol>)
    requires Stands(s, cur, all)
    ensures Scanned(s, cur) && Readable(s, cur) && all != [] && SymbolOf(s, cur) == all[0]
    ensures all[0].Leaf? ==> cur.token != EndArray && cur.token != ValueSeparator && cur.token != EndObject
    ensures all[0].Mark? ==> cur.token == all[0].token
  {
    hide TokenAt, NumberValue, StringOf, Readable;
  }

  lemma YieldStarts(tree: Tree)
    requires Proper(tree)
    ensures Yield(tree) != []
    ensures Yield(tree)[0].Mark? ==> Yield(tree)[0].token == BeginArray || Yield(tree)[0].token == BeginObject
  {}

  /** A text whose symbols begin with those of a tree is parsed, as the tree means it, up to what follows them. */
  lemma {:induction false} ValueParses(s: bytes, cur: Lexeme, tree: Tree, rest: seq<Symbol>)
    requires Proper(tree) && Stands(s, cur, Yield(tree) + rest)
    ensures Scanned(s, cur) && ParseValue(s, cur).Ok? && ParseValue(s, cur).value.0 == Meaning(tree)
    ensures Stands(s, ParseValue(s, cur).value.1, rest)
    decreases tree, 0
  {
    hide Next, TokenAt, Scan, ParseElements, ParseMembers, NumberValue, StringOf, List, Stands, SkipComma, Readable;
    match tree {
      case Scalar(v) =>
        StandsStep(s, cur, Leaf(v), rest);
        ReadableMeans(s, cur);
      case Items(ts) =>
        assert Yield(tree) + rest == [Mark(BeginArray)] + (List(ts) + [Mark(EndArray)] + rest);
        StandsStep(s, cur, Mark(BeginArray), List(ts) + [Mark(EndArray)] + rest);
        ArrayParses(s, cur, ts, rest);
      case Fields(ts) =>
        assert Yield(tree) + rest == [Mark(BeginObject)] + (List(ts) + [Mark(EndObject)] + rest);
        StandsStep(s, cur, Mark(BeginObject), List(ts) + [Mark(EndObject)] + rest);
        ObjectParses(s, cur, ts, rest);
    }
  }

  lemma {:induction false} ArrayParses(s: bytes, cur: Lexeme, ts: seq<Item>, rest: seq<Symbol>)
    requires AllProper(ts, false)
    requires Scanned(s, cur) && cur.token == BeginArray
    requires Stands(s, Next(s, cur), List(ts) + [Mark(EndArray)] + rest)
    ensures ParseValue(s, cur).Ok? && ParseValue(s, cur).value.0 == Array(Values(ts))
    ensures Stands(s, ParseValue(s, cur).value.1, rest)
    decreases ts, 2
  {
    hide Next, TokenAt, Scan, ParseElements, ParseValue, Stands, Yield, Proper, Meaning, SymbolOf;
    var after := Next(s, cur);
    AfterOpening(s, cur);
    StandsAt(s, after, List(ts) + [Mark(EndArray)] + rest);
    if ts == [] {
      assert List(ts) + [Mark(EndArray)] + rest == [Mark(EndArray)] + rest;
      StandsStep(s, after, Mark(EndArray), rest);
    } else {
      YieldStarts(ts[0].value);
      assert (List(ts) + [Mark(EndArray)] + rest)[0] == Yield(ts[0].value)[0];
      ElementsParse(s, after, ts, rest, []);
      assert [] + Values(ts) == Values(ts);
    }
  }

  lemma {:induction false} ObjectParses(s: bytes, cur: Lexeme, ts: seq<Item>, rest: seq<Symbol>)
    requires AllProper(ts, true)
    requires Scanned(s, cur) && cur.token == BeginObject
    requires Stands(s, Next(s, cur), List(ts) + [Mark(EndObject)] + rest)
    ensures ParseValue(s, cur).Ok? && ParseValue(s, cur).value.0 == Object(Assigned([], ts))
    ensures Stands(s, ParseValue(s, cur).value.1, rest)
    decreases ts, 2
  {
    hide Next, TokenAt, Scan, ParseMembers, ParseValue, Stands, Yield, Proper, Meaning, SymbolOf;
    var after := Next(s, cur);
    AfterOpening(s, cur);
    StandsAt(s, after, List(ts) + [Mark(EndObject)] + rest);
    if ts == [] {
      assert List(ts) + [Mark(EndObject)] + rest == [Mark(EndObject)] + rest;
      StandsStep(s, after, Mark(EndObject), rest);
    } else {
      assert (List(ts) + [Mark(EndObject)] + rest)[0] == Leaf(Str(ts[0].key.value));
      MembersParse(s, after, ts, rest, []);
    }
  }

  lemma {:induction false} ElementsParse(s: bytes, cur: Lexeme, ts: seq<Item>, rest: seq<Symbol>, vs: seq<Json>)
    requires ts != [] && AllProper(ts, false)
    requires Scanned(s, cur) && Stands(s, SkipComma(s, cur), List(ts) + [Mark(EndArray)] + rest)
    ensures ParseElements(s, cur, vs).Ok? && ParseElements(s, cur, vs).value.0 == Array(vs + Values(ts))
    ensures Stands(s, ParseElements(s, cur, vs).value.1, rest)
    decreases ts, 1
  {
    hide TokenAt, Scan, Next, ParseElements, ParseValue, Stands, Yield, Proper, Meaning, List, More, SkipComma,
      Values;
    var first := SkipComma(s, cur);
    var more := More(ts[1..]) + [Mark(EndArray)] + rest;
    ListSplit(ts, Mark(EndArray), rest);
    assert Lead(None) + (Yield(ts[0].value) + more) == Yield(ts[0].value) + more;
    assert ts decreases to ts[0];
    ValueParses(s, first, ts[0].value, more);
    var (v, next) := ParseValue(s, first).value;
    ElementsTurn(s, cur, vs, v, next);
    ValuesStep(vs, ts);
    if |ts| == 1 {
      StandsStep(s, next, Mark(EndArray), rest);
    } else {
      CommaStands(s, next, List(ts[1..]) + [Mark(EndArray)] + rest);
      ElementsParse(s, next, ts[1..], rest, vs + [v]);
    }
  }

  lemma {:induction false} MembersParse(s: bytes, cur: Lexeme, ts: seq<Item>, rest: seq<Symbol>, ms: seq<Member>)
    requires ts != [] && AllProper(ts, true)
    requires Scanned(s, cur) && Stands(s, SkipComma(s, cur), List(ts) + [Mark(EndObject)] + rest)
    ensures ParseMembers(s, cur, ms).Ok? && ParseMembers(s, cur, ms).value.0 == Object(Assigned(ms, ts))
    ensures Stands(s, ParseMembers(s, cur, ms).value.1, rest)
    decreases ts, 1
  {
    hide TokenAt, Scan, Next, ParseMembers, ParseValue, ParseKey, Stands, Yield, Proper, Meaning, List, More, Put,
      SkipComma;
    var start := SkipComma(s, cur);
    var more := More(ts[1..]) + [Mark(EndObject)] + rest;
    ListSplit(ts, Mark(EndObject), rest);
    assert ts decreases to ts[0];
    KeyParses(s, start, ts[0].key.value, Yield(ts[0].value) + more);
    var (key, first) := ParseKey(s, start).value;
    ValueParses(s, first, ts[0].value, more);
    var (v, next) := ParseValue(s, first).value;
    MembersTurn(s, cur, ms, key, first, v, next);
    if |ts| == 1 {
      StandsStep(s, next, Mark(EndObject), rest);
    } else {
      CommaStands(s, next, List(ts[1..]) + [Mark(EndObject)] + rest);
      MembersParse(s, next, ts[1..], rest, Put(ms, key, v));
    }
  }

  lemma KeyParses(s: bytes, cur: Lexeme, key: bytes, rest: seq<Symbol>)
    requires Stands(s, cur, Lead(Some(key)) + rest)
    ensures Scanned(s, cur) && ParseKey(s, cur).Ok? && ParseKey(s, cur).value.0 == key
    ensures Stands(s, ParseKey(s, cur).value.1, rest)
  {
    hide TokenAt, Scan, Next, StringOf, NumberValue, Stands, Readable;
    assert Lead(Some(key)) + rest == [Leaf(Str(key))] + ([Mark(NameSeparator)] + rest);
    StandsStep(s, cur, Leaf(Str(key)), [Mark(NameSeparator)] + rest);
    ReadableMeans(s, cur);
    StandsStep(s, Next(s, cur), Mark(NameSeparator), rest);
  }

  // ----- the language -----

  /**
    The parser reads a text as a value exactly when all surrogate escapes are paired, no number is of
    the rejected kind, and the symbols up to the end of the input are those of a tree that means it.
  */
  lemma ParsedExactly(s: bytes, j: Json)
    ensures P.Parse(s) == Ok(j) <==>
            && AllReadable(s, Scan(s, 0))
            && exists tree | Proper(tree) ::
                 Symbols(s, Scan(s, 0)) == Yield(tree) + [Mark(EndOfInput)] && Meaning(tree) == j
  {
    hide TokenAt, Scan, ParseValue, Yield, Proper, Meaning;
    var cur := Scan(s, 0);
    if P.Parse(s) == Ok(j) {
      var tree := ValueDerives(s, cur);
      assert Symbols(s, ParseValue(s, cur).value.1) == [Mark(EndOfInput)];
    }
    if AllReadable(s, cur) &&
       exists tree | Proper(tree) :: Symbols(s, cur) == Yield(tree) + [Mark(EndOfInput)] && Meaning(tree) == j
    {
      var tree :| Proper(tree) && Symbols(s, cur) == Yield(tree) + [Mark(EndOfInput)] && Meaning(tree) == j;
      ValueParses(s, cur, tree, [Mark(EndOfInput)]);
      StandsAt(s, ParseValue(s, cur).value.1, [Mark(EndOfInput)]);
    }
  }

  /** So it accepts a text exactly when its symbols are those of a tree, and no two such trees differ in meaning. */
  lemma AcceptedExactly(s: bytes)
    ensures P.Parse(s).Ok? <==>
            && AllReadable(s, Scan(s, 0))
            && exists tree | Proper(tree) :: Symbols(s, Scan(s, 0)) == Yield(tree) + [Mark(EndOfInput)]
    ensures forall a, b | Proper(a) && Proper(b) && AllReadable(s, Scan(s, 0)) ::
              Symbols(s, Scan(s, 0)) == Yield(a) + [Mark(EndOfInput)] == Yield(b) + [Mark(EndOfInput)] ==>
                Meaning(a) == Meaning(b)
  {
    hide TokenAt, Scan, ParseValue, Yield, Proper, Meaning, P.Parse, Symbols, AllReadable;
    if P.Parse(s).Ok? { ParsedExactly(s, P.Parse(s).value); }
    forall tree | Proper(tree) && AllReadable(s, Scan(s, 0)) &&
                  Symbols(s, Scan(s, 0)) == Yield(tree) + [Mark(EndOfInput)]
      ensures P.Parse(s) == Ok(Meaning(tree))
    {
      ParsedExactly(s, Meaning(tree));
    }
  }
}
