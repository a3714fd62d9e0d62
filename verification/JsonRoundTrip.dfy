/** Printing a value, with any indentation, and parsing the text gives an equal value. */
module JsonRoundTrip {
  import opened Machine
  import opened Ascii
  import opened JsonLexer
  import opened JsonString
  import opened JsonNumber
  import opened JsonValue
  import opened JsonDump
  import opened Unicode
  import opened P = JsonParser

  // ----- single tokens -----

  lemma {:induction false} SpacesAreSkipped(s: bytes, p: nat, n: nat)
    requires Spells(s, p, Spaces(n))
    ensures Scan(s, p) == Scan(s, p + n)
    decreases n
  {
    hide TokenAt, Spells;
    if n > 0 {
      assert Spaces(n) == [SPACE] + Spaces(n - 1);
      SpellsSplit(s, p, [SPACE], Spaces(n - 1));
      SpellsOne(s, p, SPACE);
      SpacesAreSkipped(s, p + 1, n - 1);
    }
  }

  lemma BreakIsSkipped(s: bytes, p: nat, style: Style)
    requires Spells(s, p, style.Break())
    ensures Scan(s, p) == Scan(s, p + |style.Break()|)
  {
    if style.pretty { SpellsOne(s, p, NEWLINE); }
  }

  lemma Mark(s: bytes, p: nat, b: byte)
    requires Spells(s, p, [b]) && Punctuation(b).Some?
    ensures Scan(s, p) == Lexeme(Punctuation(b).value, p, p + 1)
  {
    hide StringEnd, NumberEnd, Spells;
    SpellsOne(s, p, b);
    SpellsFirst(s, p, TRUE_TEXT);
    SpellsFirst(s, p, FALSE_TEXT);
    SpellsFirst(s, p, NULL_TEXT);
  }

  lemma Word(s: bytes, p: nat, word: bytes)
    requires Spells(s, p, word) && (word == NULL_TEXT || word == TRUE_TEXT || word == FALSE_TEXT)
    ensures Scan(s, p) == Lexeme(if word == NULL_TEXT then LiteralNull
                                 else if word == TRUE_TEXT then LiteralTrue else LiteralFalse, p, p + |word|)
  {
    hide StringEnd, NumberEnd, Spells;
    SpellsFirst(s, p, TRUE_TEXT);
    SpellsFirst(s, p, FALSE_TEXT);
    SpellsFirst(s, p, NULL_TEXT);
  }

  /** A comma and what follows it before the next element or member. */
  lemma CommaIsSkipped(s: bytes, p: nat, style: Style)
    requires Spells(s, p, style.Comma())
    ensures Scan(s, p) == Lexeme(ValueSeparator, p, p + 1)
    ensures EndsNumber(At(s, p)) && SkipComma(s, Scan(s, p)) == Scan(s, p + |style.Comma()|)
  {
    var rest := if style.pretty then [NEWLINE] else [];
    assert style.Comma() == [COMMA] + rest;
    SpellsSplit(s, p, [COMMA], rest);
    SpellsOne(s, p, COMMA);
    Mark(s, p, COMMA);
    BreakIsSkipped(s, p + 1, style);
  }

  lemma FirstSpace(s: bytes, p: nat, n: nat)
    requires Spells(s, p, Spaces(n))
    ensures n > 0 ==> p < |s| && s[p] == SPACE
  {
    if n > 0 { assert s[p] == Spaces(n)[0]; }
  }

  /** A line break, the indentation and a closing bracket. */
  lemma Closing(s: bytes, p: nat, style: Style, bracket: byte)
    requires Spells(s, p, style.Break() + Spaces(style.indent) + [bracket])
    requires bracket == CLOSE_BRACKET || bracket == CLOSE_BRACE
    ensures var e := p + |style.Break()| + style.indent;
            && Scan(s, p) == Lexeme(if bracket == CLOSE_BRACKET then EndArray else EndObject, e, e + 1)
            && EndsNumber(At(s, p)) && e < |s|
  {
    hide Scan, TokenAt, Spells, Spaces;
    SpellsSplit(s, p, style.Break() + Spaces(style.indent), [bracket]);
    SpellsSplit(s, p, style.Break(), Spaces(style.indent));
    BreakIsSkipped(s, p, style);
    var q := p + |style.Break()|;
    SpacesAreSkipped(s, q, style.indent);
    Mark(s, q + style.indent, bracket);
    SpellsOne(s, q + style.indent, bracket);
    if style.pretty {
      SpellsOne(s, p, NEWLINE);
    } else {
      FirstSpace(s, p, style.indent);
    }
  }

  /** A key and the colon behind it. */
  lemma KeyBack(s: bytes, p: nat, key: bytes, style: Style)
    requires Spells(s, p, [QUOTE] + Escape(key) + style.Colon())
    ensures var q := p + 1 + |Escape(key)| + |style.Colon()|;
            q <= |s| && ParseKey(s, Scan(s, p)) == Ok((key, Scan(s, q)))
  {
    hide Scan, TokenAt, Escape, Decode, StringEnd, Spells;
    var e := p + 1 + |Escape(key)|;
    var gap := if style.pretty then [SPACE] else [];
    assert [QUOTE] + Escape(key) + style.Colon() == ([QUOTE] + Escape(key) + [QUOTE]) + ([COLON] + gap);
    SpellsSplit(s, p, [QUOTE] + Escape(key) + [QUOTE], [COLON] + gap);
    SpellsSplit(s, e + 1, [COLON], gap);
    StringRoundTrip(s, p, key);
    Mark(s, e + 1, COLON);
    assert gap == Spaces(|gap|);
    SpacesAreSkipped(s, e + 2, |gap|);
  }

  // ----- values -----

  lemma ScalarBack(s: bytes, p: nat, j: Json, style: Style)
    requires Exact(j) && !j.Array? && !j.Object?
    requires Spells(s, p, Text(j, style)) && EndsNumber(At(s, p + |Text(j, style)|))
    ensures ParseValue(s, Scan(s, p)) == Ok((Reparsed(j), Scan(s, p + |Text(j, style)|)))
  {
    hide Scan, TokenAt, IntegerText, Escape, Decode, NumberValue;
    match j
    case Null => Word(s, p, NULL_TEXT);
    case Boolean(b) => Word(s, p, if b then TRUE_TEXT else FALSE_TEXT);
    case Str(t) => StringRoundTrip(s, p, t);
    case Integer(i) => IntegerRoundTrip(s, p, i);
    case Unsigned(u) => IntegerRoundTrip(s, p, u);
  }

  /** A value in a text, with nothing behind it that could belong to a number, is parsed back. */
  lemma {:induction false} ValueBack(s: bytes, p: nat, j: Json, style: Style)
    requires Exact(j) && Spells(s, p, Text(j, style)) && EndsNumber(At(s, p + |Text(j, style)|))
    ensures ParseValue(s, Scan(s, p)) == Ok((Reparsed(j), Scan(s, p + |Text(j, style)|)))
    decreases j, 0
  {
    hide Scan, TokenAt, Text, ParseValue, Reparsed, Spells, EndsNumber, Sorted;
    match j
    case Array(es) => ArrayBack(s, p, es, style);
    case Object(ms) => ObjectBack(s, p, ms, style);
    case _ => ScalarBack(s, p, j, style);
  }

  lemma {:induction false} ArrayBack(s: bytes, p: nat, es: seq<Json>, style: Style)
    requires Exact(Array(es)) && Spells(s, p, Text(Array(es), style))
    ensures ParseValue(s, Scan(s, p)) == Ok((Reparsed(Array(es)), Scan(s, p + |Text(Array(es), style)|)))
    decreases es, |es| + 2
  {
    hide Scan, TokenAt, Elements, ParseElements, ParseValue, Spells, Spaces, EndsNumber;
    if es == [] {
      EmptyBrackets(s, p, OPEN_BRACKET, CLOSE_BRACKET);
      AfterOpening(s, Scan(s, p));
      assert Reparsed(Array(es)).elems == [];
    } else {
      ArrayInside(s, p, es, style, Elements(es, 0, style.Deeper()), Reparsed(Array(es)).elems);
    }
  }

  lemma {:induction false} ArrayInside(s: bytes, p: nat, es: seq<Json>, style: Style, inner: bytes, all: seq<Json>)
    requires es != [] && forall k | 0 <= k < |es| :: Exact(es[k])
    requires |all| == |es| && forall k | 0 <= k < |es| :: all[k] == Reparsed(es[k])
    requires inner == Elements(es, 0, style.Deeper()) && Spells(s, p, Wrap(OPEN_BRACKET, inner, CLOSE_BRACKET, style))
    ensures var e := p + |Wrap(OPEN_BRACKET, inner, CLOSE_BRACKET, style)|;
            e <= |s| && ParseValue(s, Scan(s, p)) == Ok((Array(all), Scan(s, e)))
    decreases es, |es| + 1
  {
    hide *;
    ArrayBrackets(s, p, style, inner);
    var q := p + 1 + |style.Break()|;
    ElementsBack(s, q, es, 0, style.Deeper(), Scan(s, q), all, q + |inner|);
    assert all[..0] == [];
    ArrayParsed(s, p, q, q + |inner|, p + |Wrap(OPEN_BRACKET, inner, CLOSE_BRACKET, style)|, Array(all));
  }

  /** The tokens around the inside of an array. */
  lemma ArrayBrackets(s: bytes, p: nat, style: Style, inner: bytes)
    requires Spells(s, p, Wrap(OPEN_BRACKET, inner, CLOSE_BRACKET, style))
    ensures var q := p + 1 + |style.Break()|; var end := q + |inner|;
            var e := p + |Wrap(OPEN_BRACKET, inner, CLOSE_BRACKET, style)|;
            && q <= end < e <= |s| && Spells(s, q, inner) && EndsNumber(At(s, end))
            && Scan(s, p) == Lexeme(BeginArray, p, p + 1) && Scan(s, p + 1) == Scan(s, q)
            && Scan(s, end) == Lexeme(EndArray, e - 1, e) && Scanned(s, Scan(s, q)) && Scanned(s, Scan(s, end))
  {
    hide Scan, TokenAt, Wrap, Spells, EndsNumber;
    Bracketed(s, p, style, inner, OPEN_BRACKET, CLOSE_BRACKET);
  }

  /** What is parsed inside brackets is what is parsed with them. */
  lemma ArrayParsed(s: bytes, p: nat, q: nat, end: nat, e: nat, j: Json)
    requires p < q <= end < e <= |s| && Scan(s, p + 1) == Scan(s, q)
    requires Scan(s, p) == Lexeme(BeginArray, p, p + 1) && Scan(s, end) == Lexeme(EndArray, e - 1, e)
    requires Scan(s, q).token != EndArray && Scan(s, q).token != EndObject && Scan(s, q).token != ValueSeparator
    requires ParseElements(s, Scan(s, q), []) == Ok((j, Next(s, Scan(s, end))))
    ensures ParseValue(s, Scan(s, p)) == Ok((j, Scan(s, e)))
  {
    hide Scan, TokenAt, ParseValue, ParseElements, ParseMembers;
    AfterOpening(s, Scan(s, p));
  }

  /** The tokens around the inside of an object. */
  lemma ObjectBrackets(s: bytes, p: nat, style: Style, inner: bytes)
    requires Spells(s, p, Wrap(OPEN_BRACE, inner, CLOSE_BRACE, style))
    ensures var q := p + 1 + |style.Break()|; var end := q + |inner|;
            var e := p + |Wrap(OPEN_BRACE, inner, CLOSE_BRACE, style)|;
            && q <= end < e <= |s| && Spells(s, q, inner) && EndsNumber(At(s, end))
            && Scan(s, p) == Lexeme(BeginObject, p, p + 1) && Scan(s, p + 1) == Scan(s, q)
            && Scan(s, end) == Lexeme(EndObject, e - 1, e) && Scanned(s, Scan(s, q)) && Scanned(s, Scan(s, end))
  {
    hide Scan, TokenAt, Wrap, Spells, EndsNumber;
    Bracketed(s, p, style, inner, OPEN_BRACE, CLOSE_BRACE);
  }

  /** What is parsed inside brackets is what is parsed with them. */
  lemma ObjectParsed(s: bytes, p: nat, q: nat, end: nat, e: nat, j: Json)
    requires p < q <= end < e <= |s| && Scan(s, p + 1) == Scan(s, q)
    requires Scan(s, p) == Lexeme(BeginObject, p, p + 1) && Scan(s, end) == Lexeme(EndObject, e - 1, e)
    requires Scan(s, q).token != EndArray && Scan(s, q).token != EndObject && Scan(s, q).token != ValueSeparator
    requires ParseMembers(s, Scan(s, q), []) == Ok((j, Next(s, Scan(s, end))))
    ensures ParseValue(s, Scan(s, p)) == Ok((j, Scan(s, e)))
  {
    hide Scan, TokenAt, ParseValue, ParseElements, ParseMembers;
    AfterOpening(s, Scan(s, p));
  }

  lemma EmptyBrackets(s: bytes, p: nat, left: byte, right: byte)
    requires Spells(s, p, [left, right]) && Punctuation(left).Some? && Punctuation(right).Some?
    ensures Scan(s, p) == Lexeme(Punctuation(left).value, p, p + 1)
    ensures p + 2 <= |s| && Scan(s, p + 1) == Lexeme(Punctuation(right).value, p + 1, p + 2)
  {
    assert [left, right] == [left] + [right];
    SpellsSplit(s, p, [left], [right]);
    Mark(s, p, left);
    Mark(s, p + 1, right);
  }

  /** The tokens around the inside of an array or object. */
  lemma Bracketed(s: bytes, p: nat, style: Style, inner: bytes, left: byte, right: byte)
    requires Spells(s, p, Wrap(left, inner, right, style))
    requires (left == OPEN_BRACKET && right == CLOSE_BRACKET) || (left == OPEN_BRACE && right == CLOSE_BRACE)
    ensures var q := p + 1 + |style.Break()|;
            && Spells(s, q, inner) && q + |inner| <= |s| && EndsNumber(At(s, q + |inner|))
            && Scan(s, p) == Lexeme(Punctuation(left).value, p, p + 1) && Scan(s, p + 1) == Scan(s, q)
            && var e := p + |Wrap(left, inner, right, style)|;
               q < e <= |s| && Scan(s, q + |inner|) == Lexeme(Punctuation(right).value, e - 1, e)
  {
    hide Scan, TokenAt, Spaces;
    Pieces(s, p, [left], style.Break(), inner, style.Break() + Spaces(style.indent) + [right]);
    Mark(s, p, left);
    BreakIsSkipped(s, p + 1, style);
    Closing(s, p + 1 + |style.Break()| + |inner|, style, right);
  }

  lemma Pieces(s: bytes, p: nat, a: bytes, b: bytes, c: bytes, d: bytes)
    requires Spells(s, p, a + b + c + d)
    ensures Spells(s, p, a) && Spells(s, p + |a|, b) && Spells(s, p + |a| + |b|, c)
    ensures Spells(s, p + |a| + |b| + |c|, d)
  {
    SpellsSplit(s, p, a + b + c, d);
    SpellsSplit(s, p, a + b, c);
    SpellsSplit(s, p, a, b);
  }

  /** A value where a loop expects one does not begin with a comma. */
  lemma NoCommaFirst(s: bytes, cur: Lexeme)
    requires Scanned(s, cur) && ParseValue(s, cur).Ok?
    ensures SkipComma(s, cur) == cur && cur.token != ValueSeparator
    ensures cur.token != EndArray && cur.token != EndObject
  {
    hide TokenAt, Scan, ParseElements, ParseMembers, NumberValue;
  }

  lemma NoCommaBeforeKey(s: bytes, cur: Lexeme)
    requires Scanned(s, cur) && ParseKey(s, cur).Ok?
    ensures SkipComma(s, cur) == cur && cur.token == ValueString
  {
    hide TokenAt, Scan;
  }

  /** Element i in the text of the elements from i on, and what is behind it. */
  lemma ElementsLayout(s: bytes, p: nat, es: seq<Json>, i: nat, style: Style)
    requires (forall k | 0 <= k < |es| :: Exact(es[k])) && i < |es| && Spells(s, p, Elements(es, i, style))
    requires EndsNumber(At(s, p + |Elements(es, i, style)|))
    ensures var text := Text(es[i], style); var r := p + style.indent + |text|;
            && Scan(s, p) == Scan(s, p + style.indent) && Spells(s, p + style.indent, text)
            && EndsNumber(At(s, r))
            && (i + 1 == |es| ==> r == p + |Elements(es, i, style)|)
            && (i + 1 < |es| ==>
                  && Spells(s, r + |style.Comma()|, Elements(es, i + 1, style))
                  && p + |Elements(es, i, style)| == r + |style.Comma()| + |Elements(es, i + 1, style)|
                  && Scan(s, r).token == ValueSeparator
                  && SkipComma(s, Scan(s, r)) == Scan(s, r + |style.Comma()|))
  {
    hide Scan, TokenAt, Text, Exact, Spaces, SkipComma, EndsNumber, Spells;
    var gap, text := Spaces(style.indent), Text(es[i], style);
    var rest := if i + 1 < |es| then style.Comma() + Elements(es, i + 1, style) else [];
    SpellsSplit(s, p, gap + text, rest);
    SpellsSplit(s, p, gap, text);
    SpacesAreSkipped(s, p, style.indent);
    if i + 1 < |es| {
      var r := p + |gap| + |text|;
      SpellsSplit(s, r, style.Comma(), Elements(es, i + 1, style));
      CommaIsSkipped(s, r, style);
    }
  }

  /** The elements from i on: cur is the token at p, or the comma before p. */
  lemma {:induction false} ElementsBack(s: bytes, p: nat, es: seq<Json>, i: nat, style: Style, cur: Lexeme,
                                        all: seq<Json>, end: nat)
    requires (forall k | 0 <= k < |es| :: Exact(es[k])) && i < |es| && Spells(s, p, Elements(es, i, style))
    requires end <= |s| && end == p + |Elements(es, i, style)|
    requires EndsNumber(At(s, end)) && Scan(s, end).token == EndArray
    requires |all| == |es| && forall k | 0 <= k < |es| :: all[k] == Reparsed(es[k])
    requires Scanned(s, cur)
    requires if i == 0 then cur == Scan(s, p) else SkipComma(s, cur) == Scan(s, p)
    ensures ParseElements(s, cur, all[..i]) == Ok((Array(all), Next(s, Scan(s, end))))
    ensures Scan(s, p).token != ValueSeparator && Scan(s, p).token != EndArray && Scan(s, p).token != EndObject
    decreases es, |es| - i
  {
    hide *;
    ElementsLayout(s, p, es, i, style);
    ValueBack(s, p + style.indent, es[i], style);
    NoCommaFirst(s, Scan(s, p));
    var r := p + style.indent + |Text(es[i], style)|;
    ElementsTurn(s, cur, all[..i], all[i], Scan(s, r));
    assert all[..i] + [all[i]] == all[..i + 1];
    if i + 1 < |es| {
      ElementsBack(s, r + |style.Comma()|, es, i + 1, style, Scan(s, r), all, end);
    } else {
      assert all[..|es|] == all;
    }
  }

  lemma {:induction false} ObjectBack(s: bytes, p: nat, ms: seq<Member>, style: Style)
    requires Exact(Object(ms)) && Spells(s, p, Text(Object(ms), style))
    ensures ParseValue(s, Scan(s, p)) == Ok((Reparsed(Object(ms)), Scan(s, p + |Text(Object(ms), style)|)))
    decreases ms, |ms| + 2
  {
    hide Scan, TokenAt, Members, ParseMembers, ParseValue, Spells, Sorted, Spaces, EndsNumber;
    if ms == [] {
      EmptyBrackets(s, p, OPEN_BRACE, CLOSE_BRACE);
      AfterOpening(s, Scan(s, p));
      assert Reparsed(Object(ms)).members == [];
    } else {
      ObjectInside(s, p, ms, style, Members(ms, 0, style.Deeper()), Reparsed(Object(ms)).members);
    }
  }

  lemma {:induction false} ObjectInside(s: bytes, p: nat, ms: seq<Member>, style: Style, inner: bytes,
                                        all: seq<Member>)
    requires ms != [] && Sorted(ms) && forall k | 0 <= k < |ms| :: Exact(ms[k].val)
    requires |all| == |ms| && forall k | 0 <= k < |ms| :: all[k] == Member(ms[k].key, Reparsed(ms[k].val))
    requires inner == Members(ms, 0, style.Deeper()) && Spells(s, p, Wrap(OPEN_BRACE, inner, CLOSE_BRACE, style))
    ensures var e := p + |Wrap(OPEN_BRACE, inner, CLOSE_BRACE, style)|;
            e <= |s| && ParseValue(s, Scan(s, p)) == Ok((Object(all), Scan(s, e)))
    decreases ms, |ms| + 1
  {
    hide *;
    ObjectBrackets(s, p, style, inner);
    var q := p + 1 + |style.Break()|;
    MembersBack(s, q, ms, 0, style.Deeper(), Scan(s, q), all, q + |inner|);
    assert all[..0] == [];
    ObjectParsed(s, p, q, q + |inner|, p + |Wrap(OPEN_BRACE, inner, CLOSE_BRACE, style)|, Object(all));
  }

  /** Member i in the text of the members from i on. */
  lemma MembersFirst(s: bytes, p: nat, ms: seq<Member>, i: nat, style: Style)
    requires (forall k | 0 <= k < |ms| :: Exact(ms[k].val)) && i < |ms| && Spells(s, p, Members(ms, i, style))
    ensures var name := [QUOTE] + Escape(ms[i].key) + style.Colon(); var text := Text(ms[i].val, style);
            var q := p + style.indent + |name|; var r := q + |text|;
            && Spells(s, p, Spaces(style.indent)) && Spells(s, p + style.indent, name) && Spells(s, q, text)
            && (i + 1 == |ms| ==> r == p + |Members(ms, i, style)|)
            && (i + 1 < |ms| ==>
                  && Spells(s, r, style.Comma()) && Spells(s, r + |style.Comma()|, Members(ms, i + 1, style))
                  && p + |Members(ms, i, style)| == r + |style.Comma()| + |Members(ms, i + 1, style)|)
  {
    hide Text, Exact, Spaces, Escape, Spells;
    var gap, text := Spaces(style.indent), Text(ms[i].val, style);
    var name := [QUOTE] + Escape(ms[i].key) + style.Colon();
    var rest := if i + 1 < |ms| then style.Comma() + Members(ms, i + 1, style) else [];
    Pieces(s, p, gap, name, text, rest);
    if i + 1 < |ms| {
      SpellsSplit(s, p + |gap| + |name| + |text|, style.Comma(), Members(ms, i + 1, style));
    }
  }

  /** The same, and what the scanner sees around it. */
  lemma MembersLayout(s: bytes, p: nat, ms: seq<Member>, i: nat, style: Style)
    requires (forall k | 0 <= k < |ms| :: Exact(ms[k].val)) && i < |ms| && Spells(s, p, Members(ms, i, style))
    requires EndsNumber(At(s, p + |Members(ms, i, style)|))
    ensures var name := [QUOTE] + Escape(ms[i].key) + style.Colon(); var text := Text(ms[i].val, style);
            var q := p + style.indent + |name|; var r := q + |text|;
            && Scan(s, p) == Scan(s, p + style.indent) && Spells(s, p + style.indent, name)
            && Spells(s, q, text) && EndsNumber(At(s, r))
            && (i + 1 == |ms| ==> r == p + |Members(ms, i, style)|)
            && (i + 1 < |ms| ==>
                  && Spells(s, r + |style.Comma()|, Members(ms, i + 1, style))
                  && p + |Members(ms, i, style)| == r + |style.Comma()| + |Members(ms, i + 1, style)|
                  && Scan(s, r).token == ValueSeparator
                  && SkipComma(s, Scan(s, r)) == Scan(s, r + |style.Comma()|))
  {
    hide Scan, TokenAt, Text, Exact, Spaces, SkipComma, EndsNumber, Escape, Spells, Members;
    MembersFirst(s, p, ms, i, style);
    SpacesAreSkipped(s, p, style.indent);
    var r := p + style.indent + |[QUOTE] + Escape(ms[i].key) + style.Colon()| + |Text(ms[i].val, style)|;
    if i + 1 < |ms| { CommaIsSkipped(s, r, style); }
  }

  lemma PutNext(all: seq<Member>, ms: seq<Member>, i: nat)
    requires Sorted(ms) && i < |ms| == |all| && forall k | 0 <= k < |ms| :: all[k].key == ms[k].key
    ensures Put(all[..i], ms[i].key, all[i].val) == all[..i + 1]
  {
    PutLast(all[..i], ms[i].key, all[i].val);
    assert all[..i] + [all[i]] == all[..i + 1];
  }

  /** The members from i on: cur is the token at p, or the comma before p. */
  lemma {:induction false} MembersBack(s: bytes, p: nat, ms: seq<Member>, i: nat, style: Style, cur: Lexeme,
                                       all: seq<Member>, end: nat)
    requires (forall k | 0 <= k < |ms| :: Exact(ms[k].val)) && Sorted(ms)
    requires i < |ms| && Spells(s, p, Members(ms, i, style))
    requires end <= |s| && end == p + |Members(ms, i, style)|
    requires EndsNumber(At(s, end)) && Scan(s, end).token == EndObject
    requires |all| == |ms| && forall k | 0 <= k < |ms| :: all[k] == Member(ms[k].key, Reparsed(ms[k].val))
    requires Scanned(s, cur)
    requires if i == 0 then cur == Scan(s, p) else SkipComma(s, cur) == Scan(s, p)
    ensures ParseMembers(s, cur, all[..i]) == Ok((Object(all), Next(s, Scan(s, end))))
    ensures Scan(s, p).token == ValueString
    decreases ms, |ms| - i
  {
    hide *;
    MembersLayout(s, p, ms, i, style);
    KeyBack(s, p + style.indent, ms[i].key, style);
    var q := p + style.indent + |[QUOTE] + Escape(ms[i].key) + style.Colon()|;
    ValueBack(s, q, ms[i].val, style);
    var r := q + |Text(ms[i].val, style)|;
    NoCommaBeforeKey(s, Scan(s, p));
    MembersTurn(s, cur, all[..i], ms[i].key, Scan(s, q), all[i].val, Scan(s, r));
    PutNext(all, ms, i);
    if i + 1 < |ms| {
      MembersBack(s, r + |style.Comma()|, ms, i + 1, style, Scan(s, r), all, end);
    } else {
      assert all[..|ms|] == all;
    }
  }

  // ----- whole texts -----

  /**
    parse undoes dump: whatever the indentation, the text of a value without floating-point numbers
    is parsed to a value that operator== calls equal to it.
  */
  lemma DumpThenParse(j: Json, indent: int)
    requires Exact(j) && indent < 0x8000_0000
    ensures var r := P.Parse(Text(j, StyleFor(indent)));
            && r == Ok(Reparsed(j)) && Exact(r.value) && Equal(r.value, j)
  {
    hide Text, ParseValue, TokenAt;
    var s := Text(j, StyleFor(indent));
    assert s[0..|s|] == s;
    ValueBack(s, 0, j, StyleFor(indent));
    ReparsedIsEqual(j);
  }

  /** No floating-point number anywhere in the tree. */
  ghost predicate FloatFree(j: Json)
    decreases j
  {
    match j
    case Float(_) => false
    case Array(es) => forall i | 0 <= i < |es| :: FloatFree(es[i])
    case Object(ms) => forall i | 0 <= i < |ms| :: FloatFree(ms[i].val)
    case _ => true
  }

  lemma {:induction false} FloatFreeIsExact(j: Json)
    requires WellFormed(j) && FloatFree(j)
    ensures Exact(j)
    decreases j
  {
    match j {
      case Array(es) => forall i | 0 <= i < |es| ensures Exact(es[i]) { FloatFreeIsExact(es[i]); }
      case Object(ms) => forall i | 0 <= i < |ms| ensures Exact(ms[i].val) { FloatFreeIsExact(ms[i].val); }
      case _ =>
    }
  }

  /** Every text that is accepted without floating-point numbers can be printed and read again. */
  lemma ParseDumpParse(s: bytes, indent: int)
    requires P.Parse(s).Ok? && FloatFree(P.Parse(s).value) && indent < 0x8000_0000
    ensures var j := P.Parse(s).value;
            && Exact(j) && P.Parse(Text(j, StyleFor(indent))) == Ok(Reparsed(j))
            && Exact(Reparsed(j)) && Equal(Reparsed(j), j)
  {
    var j := P.Parse(s).value;
    ParsedIsWellFormed(s, Scan(s, 0));
    FloatFreeIsExact(j);
    DumpThenParse(j, indent);
  }
}
