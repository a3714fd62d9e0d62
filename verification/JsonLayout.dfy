/**
  What dump prints, said of the text as a whole: the tokens of a value in order, and what may stand
  between two of them. Compact text has nothing between its tokens.
*/
module JsonLayout {
  import opened Machine
  import opened JsonLexer
  import opened JsonString
  import opened JsonNumber
  import opened JsonValue
  import opened JsonDump

  datatype Tok = Open(b: byte) | Close(b: byte) | Comma | Colon | Atom(text: bytes)

  function BytesOf(t: Tok): bytes {
    match t
    case Open(b) => [b]
    case Close(b) => [b]
    case Comma => [44]
    case Colon => [58]
    case Atom(text) => text
  }

  // ----- the tokens of a value -----

  function StringTok(s: bytes): Tok { Atom([34] + Escape(s) + [34]) }

  function Toks(j: Json): seq<Tok>
    requires Exact(j)
    decreases j, 0
  {
    match j
    case Null => [Atom([110, 117, 108, 108])]
    case Boolean(b) => [Atom(if b then [116, 114, 117, 101] else [102, 97, 108, 115, 101])]
    case Str(s) => [StringTok(s)]
    case Integer(i) => [Atom(IntegerText(i))]
    case Unsigned(u) => [Atom(IntegerText(u))]
    case Array(es) => [Open(91)] + ElementToks(es, 0) + [Close(93)]
    case Object(ms) => [Open(123)] + MemberToks(ms, 0) + [Close(125)]
    case Float(_) => []
  }

  /** The elements from i on, with a comma before each but the first. */
  function ElementToks(es: seq<Json>, i: nat): seq<Tok>
    requires i <= |es| && forall k | 0 <= k < |es| :: Exact(es[k])
    decreases es, |es| - i
  {
    if i == |es| then []
    else (if i > 0 then [Comma] else []) + Toks(es[i]) + ElementToks(es, i + 1)
  }

  function MemberToks(ms: seq<Member>, i: nat): seq<Tok>
    requires i <= |ms| && forall k | 0 <= k < |ms| :: Exact(ms[k].val)
    decreases ms, |ms| - i
  {
    if i == |ms| then []
    else (if i > 0 then [Comma] else []) + [StringTok(ms[i].key)] + [Colon] + Toks(ms[i].val) + MemberToks(ms, i + 1)
  }

  // ----- what stands between tokens -----

  /** Compact or pretty, and by how much to indent each level. */
  datatype Form = Form(pretty: bool, step: u32)

  /** A line break and the indentation of a depth: the step times the depth, as an unsigned int. */
  function NewLine(f: Form, depth: int): bytes { [10] + Spaces(f.step * depth % U32) }

  /**
    Between two tokens, depth being the number of brackets still open after the first of them:
    a line break after an opening bracket or a comma and before a closing bracket, but none in empty
    brackets; a space after a colon; and nothing anywhere else.
  */
  function Gap(f: Form, depth: int, before: Option<Tok>, t: Tok): bytes {
    if !f.pretty || before.None? || (before.value.Open? && t.Close?) then []
    else if before.value.Open? || before.value.Comma? then NewLine(f, depth)
    else if t.Close? then NewLine(f, depth - 1)
    else if before.value.Colon? then [32]
    else []
  }

  function DepthAfter(depth: int, t: Tok): int {
    if t.Open? then depth + 1 else if t.Close? then depth - 1 else depth
  }

  /** The tokens, laid out. */
  function Layout(f: Form, depth: int, before: Option<Tok>, ts: seq<Tok>): bytes
    decreases |ts|
  {
    if ts == [] then []
    else Gap(f, depth, before, ts[0]) + BytesOf(ts[0]) + Layout(f, DepthAfter(depth, ts[0]), Some(ts[0]), ts[1..])
  }

  lemma LayoutFirst(f: Form, depth: int, before: Option<Tok>, t: Tok, rest: seq<Tok>)
    ensures Layout(f, depth, before, [t] + rest)
            == Gap(f, depth, before, t) + BytesOf(t) + Layout(f, DepthAfter(depth, t), Some(t), rest)
  {
    assert ([t] + rest)[1..] == rest;
  }

  /** After a value all that matters is that it is over. */
  const OVER: Option<Tok> := Some(Atom([]))

  lemma AfterValue(f: Form, depth: int, t: Tok, rest: seq<Tok>)
    requires t.Atom? || t.Close?
    ensures Layout(f, depth, Some(t), rest) == Layout(f, depth, OVER, rest)
  {}

  /** What stands before a value. */
  function Lead(f: Form, depth: int, before: Option<Tok>): bytes {
    Gap(f, depth, before, Atom([]))
  }

  // ----- dump lays its tokens out -----

  /** The style at a depth. */
  function StyleAt(f: Form, depth: int): Style {
    Style(f.pretty, f.step, if f.pretty then f.step * depth % U32 else 0)
  }

  lemma DeeperIsNext(f: Form, depth: int)
    ensures StyleAt(f, depth).Deeper() == StyleAt(f, depth + 1)
  {
    assert f.step * (depth + 1) == f.step * depth + f.step;
    ModAdd(f.step * depth, f.step);
  }

  lemma ModAdd(a: int, b: int)
    ensures (a % U32 + b) % U32 == (a + b) % U32
  {
    assert a == a / U32 * U32 + a % U32;
  }

  /** The line break in front of a list and its items, and the indentation, of a depth. */
  lemma LeadOfItem(f: Form, depth: int, before: Option<Tok>)
    requires before.Some? && (before.value.Open? || before.value.Comma?)
    ensures Lead(f, depth, before) == StyleAt(f, depth).Break() + Spaces(StyleAt(f, depth).indent)
    ensures forall t: Tok | !t.Close? :: Gap(f, depth, before, t) == Lead(f, depth, before)
  {}

  /** A value is laid out as dump prints it. */
  lemma {:induction false} ValueLaid(j: Json, f: Form, depth: int, before: Option<Tok>, rest: seq<Tok>)
    requires Exact(j)
    ensures Layout(f, depth, before, Toks(j) + rest)
            == Lead(f, depth, before) + Text(j, StyleAt(f, depth)) + Layout(f, depth, OVER, rest)
    decreases j, 0
  {
    hide Layout, Gap, StyleAt;
    if j.Array? {
      ArrayLaid(j.elems, f, depth, before, rest);
    } else if j.Object? {
      ObjectLaid(j.members, f, depth, before, rest);
    } else {
      ScalarLaid(j, f, depth, before, rest);
    }
  }

  lemma ScalarLaid(j: Json, f: Form, depth: int, before: Option<Tok>, rest: seq<Tok>)
    requires Exact(j) && !j.Array? && !j.Object?
    ensures Layout(f, depth, before, Toks(j) + rest)
            == Lead(f, depth, before) + Text(j, StyleAt(f, depth)) + Layout(f, depth, OVER, rest)
  {
    hide Layout, Gap, StyleAt, IntegerText, Escape;
    var t := Toks(j)[0];
    assert Toks(j) == [t] && BytesOf(t) == Text(j, StyleAt(f, depth));
    LayoutFirst(f, depth, before, t, rest);
    AfterValue(f, depth, t, rest);
    assert Gap(f, depth, before, t) == Lead(f, depth, before) by { AnyValue(f, depth, before, t); }
  }

  lemma AnyValue(f: Form, depth: int, before: Option<Tok>, t: Tok)
    requires !t.Close?
    ensures Gap(f, depth, before, t) == Lead(f, depth, before)
  {}

  /** The opening bracket, and what follows it. */
  lemma OpenLaid(f: Form, depth: int, before: Option<Tok>, b: byte, rest: seq<Tok>)
    ensures Layout(f, depth, before, [Open(b)] + rest)
            == Lead(f, depth, before) + [b] + Layout(f, depth + 1, Some(Open(b)), rest)
  {
    hide Layout, Gap;
    LayoutFirst(f, depth, before, Open(b), rest);
    AnyValue(f, depth, before, Open(b));
  }

  /** The closing bracket behind items or behind the opening one. */
  lemma CloseLaid(f: Form, depth: int, before: Tok, b: byte, rest: seq<Tok>)
    requires before.Open? || before.Atom?
    ensures Layout(f, depth + 1, Some(before), [Close(b)] + rest)
            == (if before.Open? then [] else StyleAt(f, depth).Break() + Spaces(StyleAt(f, depth).indent))
               + [b] + Layout(f, depth, OVER, rest)
  {
    hide Layout;
    LayoutFirst(f, depth + 1, Some(before), Close(b), rest);
    AfterValue(f, depth, Close(b), rest);
    assert Spaces(0) == [];
  }

  lemma ArrayParts(es: seq<Json>, s: Style, rest: seq<Tok>)
    requires Exact(Array(es))
    ensures Toks(Array(es)) + rest ==
            [Open(91)] + if es == [] then [Close(93)] + rest else ElementToks(es, 0) + ([Close(93)] + rest)
    ensures Text(Array(es), s) ==
            if es == [] then [91, 93] else Wrap(91, Elements(es, 0, s.Deeper()), 93, s)
  {
    hide Wrap, Spaces, Elements, Sorted, Text;
    ArrayText(es, s);
    var tail := [Close(93)] + rest;
    if es == [] {
      assert ElementToks(es, 0) == [];
      assert [Open(91)] + [] + [Close(93)] + rest == [Open(91)] + tail;
    } else {
      assert [Open(91)] + ElementToks(es, 0) + [Close(93)] + rest == [Open(91)] + (ElementToks(es, 0) + tail);
    }
  }

  lemma ArrayText(es: seq<Json>, s: Style)
    requires Exact(Array(es))
    ensures Text(Array(es), s) ==
            if es == [] then [91, 93] else Wrap(91, Elements(es, 0, s.Deeper()), 93, s)
  {
    hide Wrap, Spaces, Elements, Sorted;
  }

  lemma {:induction false} ArrayLaid(es: seq<Json>, f: Form, depth: int, before: Option<Tok>, rest: seq<Tok>)
    requires Exact(Array(es))
    ensures Layout(f, depth, before, Toks(Array(es)) + rest)
            == Lead(f, depth, before) + Text(Array(es), StyleAt(f, depth)) + Layout(f, depth, OVER, rest)
    decreases es, |es| + 1
  {
    hide Layout, Gap, StyleAt, Elements, ElementToks, Spaces, Toks, Text, Wrap, Style.Break;
    var tail := [Close(93)] + rest;
    ArrayParts(es, StyleAt(f, depth), rest);
    OpenLaid(f, depth, before, 91, if es == [] then tail else ElementToks(es, 0) + tail);
    if es == [] {
      CloseLaid(f, depth, Open(91), 93, rest);
      EmptyLaid(Lead(f, depth, before), 91, 93, Layout(f, depth, OVER, rest));
    } else {
      ElementsLaid(es, 0, f, depth + 1, tail);
      CloseLaid(f, depth, OVER.value, 93, rest);
      DeeperIsNext(f, depth);
      WrapLaid(f, depth, Lead(f, depth, before), 91, Elements(es, 0, StyleAt(f, depth + 1)), 93,
               Layout(f, depth, OVER, rest));
    }
  }

  lemma EmptyLaid(lead: bytes, left: byte, right: byte, rest: bytes)
    ensures lead + [left] + ([] + [right] + rest) == lead + [left, right] + rest
  {}

  lemma WrapLaid(f: Form, depth: int, lead: bytes, left: byte, inner: bytes, right: byte, rest: bytes)
    ensures var s := StyleAt(f, depth);
            lead + [left] + (StyleAt(f, depth + 1).Break() + inner + (s.Break() + Spaces(s.indent) + [right] + rest))
            == lead + Wrap(left, inner, right, s) + rest
  {
    hide Spaces;
  }

  /** The comma behind a value. */
  lemma CommaLaid(f: Form, depth: int, rest: seq<Tok>)
    ensures Layout(f, depth, OVER, [Comma] + rest) == [44] + Layout(f, depth, Some(Comma), rest)
  {
    hide Layout;
    LayoutFirst(f, depth, OVER, Comma, rest);
  }

  /** A list's item, or the first part of it, behind the opening bracket or a comma. */
  lemma {:induction false} ItemLaid(j: Json, f: Form, depth: int, before: Tok, more: seq<Tok>)
    requires Exact(j) && (before.Open? || before.Comma?)
    ensures var s := StyleAt(f, depth);
            Layout(f, depth, Some(before), Toks(j) + more)
            == s.Break() + Spaces(s.indent) + Text(j, s) + Layout(f, depth, OVER, more)
    decreases j, 1
  {
    hide Layout, Gap, StyleAt, Toks, Text, Spaces;
    ValueLaid(j, f, depth, Some(before), more);
    LeadOfItem(f, depth, Some(before));
  }

  lemma ElementStep(es: seq<Json>, i: nat, style: Style, tail: seq<Tok>)
    requires i < |es| && forall k | 0 <= k < |es| :: Exact(es[k])
    ensures var toks := Toks(es[i]) + (ElementToks(es, i + 1) + tail);
            ElementToks(es, i) + tail == if i == 0 then toks else [Comma] + toks
    ensures i + 1 == |es| ==> ElementToks(es, i + 1) == []
    ensures Elements(es, i, style) ==
            Spaces(style.indent) + Text(es[i], style)
            + if i + 1 < |es| then style.Comma() + Elements(es, i + 1, style) else []
  {
    hide Toks, Text, Spaces;
    assert ElementToks(es, i) == (if i > 0 then [Comma] else []) + Toks(es[i]) + ElementToks(es, i + 1);
  }

  /** An item, its comma and the items behind it, as dump prints them. */
  lemma ItemsRegroup(s: Style, item: bytes, more: bytes, rest: bytes)
    ensures s.Break() + Spaces(s.indent) + item + ([44] + (s.Break() + more + rest))
            == s.Break() + (Spaces(s.indent) + item + (s.Comma() + more)) + rest
  {
    hide Spaces, Style.Break;
    CommaThenBreak(s);
    Regrouped(s.Break(), Spaces(s.indent), item, more, rest);
  }

  lemma CommaThenBreak(s: Style)
    ensures s.Comma() == [44] + s.Break()
  {}

  lemma Regrouped(line: bytes, gap: bytes, item: bytes, more: bytes, rest: bytes)
    ensures line + gap + item + ([44] + (line + more + rest)) == line + (gap + item + (([44] + line) + more)) + rest
  {
    Grouped(line, gap, item, [44] + (line + more + rest));
    assert [44] + (line + more + rest) == (([44] + line) + more) + rest;
    Grouped(gap, item, ([44] + line) + more, rest);
    Grouped([], line, gap + item + (([44] + line) + more), rest);
  }

  lemma Grouped(a: bytes, b: bytes, c: bytes, d: bytes)
    ensures a + b + c + d == a + (b + (c + d)) && a + b + (c + d) == a + (b + c + d)
  {}

  lemma LastItemRegroup(s: Style, item: bytes, rest: bytes)
    ensures s.Break() + Spaces(s.indent) + item + rest == s.Break() + (Spaces(s.indent) + item + []) + rest
  {
    hide Spaces, Style.Break;
  }

  /** The elements from i on, behind the opening bracket or the element before. */
  lemma {:induction false} ElementsLaid(es: seq<Json>, i: nat, f: Form, depth: int, tail: seq<Tok>)
    requires i < |es| && forall k | 0 <= k < |es| :: Exact(es[k])
    ensures Layout(f, depth, if i == 0 then Some(Open(91)) else OVER, ElementToks(es, i) + tail)
            == (if i == 0 then [] else [44])
               + (StyleAt(f, depth).Break() + Elements(es, i, StyleAt(f, depth)) + Layout(f, depth, OVER, tail))
    decreases es, |es| - i
  {
    hide Layout, Gap, StyleAt, Elements, ElementToks, Spaces, Toks, Text, Style.Break, Style.Comma;
    var s, more := StyleAt(f, depth), ElementToks(es, i + 1) + tail;
    ElementStep(es, i, s, tail);
    ItemLaid(es[i], f, depth, if i == 0 then Open(91) else Comma, more);
    if i > 0 { CommaLaid(f, depth, Toks(es[i]) + more); }
    if i + 1 < |es| {
      ElementsLaid(es, i + 1, f, depth, tail);
      ItemsRegroup(s, Text(es[i], s), Elements(es, i + 1, s), Layout(f, depth, OVER, tail));
    } else {
      assert more == tail;
      LastItemRegroup(s, Text(es[i], s), Layout(f, depth, OVER, tail));
    }
  }

  lemma ObjectParts(ms: seq<Member>, s: Style, rest: seq<Tok>)
    requires Exact(Object(ms))
    ensures Toks(Object(ms)) + rest ==
            [Open(123)] + if ms == [] then [Close(125)] + rest else MemberToks(ms, 0) + ([Close(125)] + rest)
    ensures Text(Object(ms), s) ==
            if ms == [] then [123, 125] else Wrap(123, Members(ms, 0, s.Deeper()), 125, s)
  {
    hide Wrap, Spaces, Members, Sorted, Text;
    ObjectText(ms, s);
    var tail := [Close(125)] + rest;
    if ms == [] {
      assert MemberToks(ms, 0) == [];
      assert [Open(123)] + [] + [Close(125)] + rest == [Open(123)] + tail;
    } else {
      assert [Open(123)] + MemberToks(ms, 0) + [Close(125)] + rest == [Open(123)] + (MemberToks(ms, 0) + tail);
    }
  }

  lemma ObjectText(ms: seq<Member>, s: Style)
    requires Exact(Object(ms))
    ensures Text(Object(ms), s) ==
            if ms == [] then [123, 125] else Wrap(123, Members(ms, 0, s.Deeper()), 125, s)
  {
    hide Wrap, Spaces, Members, Sorted;
  }

  lemma {:induction false} ObjectLaid(ms: seq<Member>, f: Form, depth: int, before: Option<Tok>, rest: seq<Tok>)
    requires Exact(Object(ms))
    ensures Layout(f, depth, before, Toks(Object(ms)) + rest)
            == Lead(f, depth, before) + Text(Object(ms), StyleAt(f, depth)) + Layout(f, depth, OVER, rest)
    decreases ms, |ms| + 1
  {
    hide Layout, Gap, StyleAt, Members, MemberToks, Spaces, Sorted, Toks, Text, Wrap, Style.Break;
    var tail := [Close(125)] + rest;
    ObjectParts(ms, StyleAt(f, depth), rest);
    OpenLaid(f, depth, before, 123, if ms == [] then tail else MemberToks(ms, 0) + tail);
    if ms == [] {
      CloseLaid(f, depth, Open(123), 125, rest);
      EmptyLaid(Lead(f, depth, before), 123, 125, Layout(f, depth, OVER, rest));
    } else {
      MembersLaid(ms, 0, f, depth + 1, tail);
      CloseLaid(f, depth, OVER.value, 125, rest);
      DeeperIsNext(f, depth);
      WrapLaid(f, depth, Lead(f, depth, before), 123, Members(ms, 0, StyleAt(f, depth + 1)), 125,
               Layout(f, depth, OVER, rest));
    }
  }

  /** A key and its colon, behind the opening brace or a comma. */
  lemma KeyLaid(key: bytes, f: Form, depth: int, before: Tok, more: seq<Tok>)
    requires before.Open? || before.Comma?
    ensures var s := StyleAt(f, depth);
            Layout(f, depth, Some(before), [StringTok(key)] + ([Colon] + more))
            == s.Break() + Spaces(s.indent) + ([34] + Escape(key) + [34, 58])
               + Layout(f, depth, Some(Colon), more)
  {
    hide Layout, Spaces, Escape;
    LeadOfItem(f, depth, Some(before));
    LayoutFirst(f, depth, Some(before), StringTok(key), [Colon] + more);
    LayoutFirst(f, depth, Some(StringTok(key)), Colon, more);
  }

  lemma {:induction false} MemberLaid(m: Member, f: Form, depth: int, before: Tok, more: seq<Tok>)
    requires Exact(m.val) && (before.Open? || before.Comma?)
    ensures var s := StyleAt(f, depth);
            Layout(f, depth, Some(before), [StringTok(m.key)] + ([Colon] + (Toks(m.val) + more)))
            == s.Break() + Spaces(s.indent) + (([34] + Escape(m.key) + s.Colon()) + Text(m.val, s))
               + Layout(f, depth, OVER, more)
    decreases m.val, 1
  {
    hide Layout, Toks, Text, Spaces, Escape, Style.Break;
    KeyLaid(m.key, f, depth, before, Toks(m.val) + more);
    ValueLaid(m.val, f, depth, Some(Colon), more);
    assert [34, 58] + Lead(f, depth, Some(Colon)) == StyleAt(f, depth).Colon();
  }

  lemma MemberStep(ms: seq<Member>, i: nat, style: Style, tail: seq<Tok>)
    requires i < |ms| && forall k | 0 <= k < |ms| :: Exact(ms[k].val)
    ensures var toks := [StringTok(ms[i].key)] + ([Colon] + (Toks(ms[i].val) + (MemberToks(ms, i + 1) + tail)));
            MemberToks(ms, i) + tail == if i == 0 then toks else [Comma] + toks
    ensures i + 1 == |ms| ==> MemberToks(ms, i + 1) == []
    ensures Members(ms, i, style) ==
            Spaces(style.indent) + (([34] + Escape(ms[i].key) + style.Colon()) + Text(ms[i].val, style))
            + if i + 1 < |ms| then style.Comma() + Members(ms, i + 1, style) else []
  {
    hide Toks, Text, Spaces, Escape, StringTok, Style.Comma, Style.Colon;
    MemberUnfolds(ms, i, style);
    MemberRegroup(if i > 0 then [Comma] else [], [StringTok(ms[i].key)], [Colon], Toks(ms[i].val),
                  MemberToks(ms, i + 1), tail);
  }

  lemma MemberUnfolds(ms: seq<Member>, i: nat, style: Style)
    requires i < |ms| && forall k | 0 <= k < |ms| :: Exact(ms[k].val)
    ensures MemberToks(ms, i) ==
            (if i > 0 then [Comma] else []) + [StringTok(ms[i].key)] + [Colon] + Toks(ms[i].val) + MemberToks(ms, i + 1)
    ensures i + 1 == |ms| ==> MemberToks(ms, i + 1) == []
    ensures Members(ms, i, style) ==
            Spaces(style.indent) + (([34] + Escape(ms[i].key) + style.Colon()) + Text(ms[i].val, style))
            + if i + 1 < |ms| then style.Comma() + Members(ms, i + 1, style) else []
  {
    hide Toks, Text, Spaces, Escape, StringTok, Style.Comma, Style.Colon;
  }

  lemma MemberRegroup(a: seq<Tok>, b: seq<Tok>, c: seq<Tok>, d: seq<Tok>, e: seq<Tok>, tail: seq<Tok>)
    ensures a + b + c + d + e + tail == a + (b + (c + (d + (e + tail))))
    ensures [] + (b + (c + (d + (e + tail)))) == b + (c + (d + (e + tail)))
  {
    Associate(a + b + c + d, e, tail);
    Associate(a + b + c, d, e + tail);
    Associate(a + b, c, d + (e + tail));
    Associate(a, b, c + (d + (e + tail)));
  }

  lemma Associate(a: seq<Tok>, b: seq<Tok>, c: seq<Tok>)
    ensures a + b + c == a + (b + c)
  {}

  lemma {:induction false} MembersLaid(ms: seq<Member>, i: nat, f: Form, depth: int, tail: seq<Tok>)
    requires i < |ms| && forall k | 0 <= k < |ms| :: Exact(ms[k].val)
    ensures Layout(f, depth, if i == 0 then Some(Open(123)) else OVER, MemberToks(ms, i) + tail)
            == (if i == 0 then [] else [44])
               + (StyleAt(f, depth).Break() + Members(ms, i, StyleAt(f, depth)) + Layout(f, depth, OVER, tail))
    decreases ms, |ms| - i
  {
    hide Layout, Gap, StyleAt, Members, MemberToks, Spaces, Toks, Text, Escape, StringTok, Style.Break, Style.Comma,
      Style.Colon;
    var s, more := StyleAt(f, depth), MemberToks(ms, i + 1) + tail;
    var m := ms[i];
    var item := ([34] + Escape(m.key) + s.Colon()) + Text(m.val, s);
    MemberStep(ms, i, s, tail);
    MemberLaid(m, f, depth, if i == 0 then Open(123) else Comma, more);
    if i > 0 { CommaLaid(f, depth, [StringTok(m.key)] + ([Colon] + (Toks(m.val) + more))); }
    if i + 1 < |ms| {
      MembersLaid(ms, i + 1, f, depth, tail);
      ItemsRegroup(s, item, Members(ms, i + 1, s), Layout(f, depth, OVER, tail));
    } else {
      assert more == tail;
      LastItemRegroup(s, item, Layout(f, depth, OVER, tail));
    }
  }

  /** dump(indent) prints the tokens of the value, laid out; compactly if the indent is negative. */
  lemma DumpIsLayout(j: Json, indent: int)
    requires Exact(j) && indent < 0x8000_0000
    ensures Text(j, StyleFor(indent)) ==
            Layout(if indent >= 0 then Form(true, indent) else Form(false, 0), 0, None, Toks(j))
  {
    hide Layout, Toks, Text;
    var f := if indent >= 0 then Form(true, indent) else Form(false, 0);
    assert StyleAt(f, 0) == StyleFor(indent);
    ValueLaid(j, f, 0, None, []);
    assert Toks(j) + [] == Toks(j) && Layout(f, 0, OVER, []) == [] by { NothingLaid(f); }
  }

  lemma NothingLaid(f: Form)
    ensures Layout(f, 0, OVER, []) == []
  {}

  // ----- what the tokens hold -----

  predicate IsWhite(b: byte) { b == 9 || b == 10 || b == 13 || b == 32 }

  /** A string, or a token without white space. */
  ghost predicate Solid(t: Tok) {
    (exists s :: t == StringTok(s)) || forall i | 0 <= i < |BytesOf(t)| :: !IsWhite(BytesOf(t)[i])
  }

  ghost predicate AllSolid(ts: seq<Tok>) {
    forall k | 0 <= k < |ts| :: Solid(ts[k])
  }

  /** So white space stands in strings or between tokens. */
  lemma {:induction false} TokensAreSolid(j: Json)
    requires Exact(j)
    ensures AllSolid(Toks(j))
    decreases j, 0
  {
    hide Solid, IntegerText;
    assert forall b: byte | b in [91, 93, 123, 125] :: Solid(Open(b)) && Solid(Close(b)) by { MarksAreSolid(); }
    match j {
      case Array(es) => ElementsAreSolid(es, 0);
      case Object(ms) => MembersAreSolid(ms, 0);
      case Str(s) => StringIsSolid(s);
      case Integer(i) => NumberIsSolid(i);
      case Unsigned(u) => NumberIsSolid(u);
      case Null => WordIsSolid([110, 117, 108, 108]);
      case Boolean(b) => WordIsSolid(if b then [116, 114, 117, 101] else [102, 97, 108, 115, 101]);
    }
  }

  function AllBytes(ts: seq<Tok>): bytes {
    if ts == [] then [] else BytesOf(ts[0]) + AllBytes(ts[1..])
  }

  /** Compact text is its tokens, with nothing between them. */
  lemma {:induction false} CompactIsTokens(depth: int, before: Option<Tok>, ts: seq<Tok>)
    ensures Layout(Form(false, 0), depth, before, ts) == AllBytes(ts)
    decreases |ts|
  {
    if ts != [] { CompactIsTokens(DepthAfter(depth, ts[0]), Some(ts[0]), ts[1..]); }
  }

  lemma MarksAreSolid()
    ensures forall b: byte | b in [91, 93, 123, 125] :: Solid(Open(b)) && Solid(Close(b))
    ensures Solid(Comma) && Solid(Colon)
  {}

  lemma WordIsSolid(w: bytes)
    requires w == [110, 117, 108, 108] || w == [116, 114, 117, 101] || w == [102, 97, 108, 115, 101]
    ensures Solid(Atom(w))
  {
    assert forall i | 0 <= i < |w| :: w[i] > 32;
  }

  lemma StringIsSolid(s: bytes)
    ensures Solid(StringTok(s))
  {
    hide StringTok;
  }

  lemma NumberIsSolid(i: int)
    ensures Solid(Atom(IntegerText(i)))
  {
    hide Decimal;
    var text := IntegerText(i);
    forall k | 0 <= k < |text| ensures !IsWhite(text[k]) {
      assert text[k] == 45 || 48 <= text[k] <= 57;
    }
  }

  lemma {:induction false} ElementsAreSolid(es: seq<Json>, i: nat)
    requires i <= |es| && forall k | 0 <= k < |es| :: Exact(es[k])
    ensures AllSolid(ElementToks(es, i))
    decreases es, |es| - i
  {
    hide Solid, Toks;
    MarksAreSolid();
    if i < |es| {
      TokensAreSolid(es[i]);
      ElementsAreSolid(es, i + 1);
    }
  }

  lemma {:induction false} MembersAreSolid(ms: seq<Member>, i: nat)
    requires i <= |ms| && forall k | 0 <= k < |ms| :: Exact(ms[k].val)
    ensures AllSolid(MemberToks(ms, i))
    decreases ms, |ms| - i
  {
    hide Solid, Toks, StringTok;
    MarksAreSolid();
    if i < |ms| {
      StringIsSolid(ms[i].key);
      TokensAreSolid(ms[i].val);
      MembersAreSolid(ms, i + 1);
    }
  }

  /** How a byte of a string is printed. */
  lemma EscapedAs(c: byte)
    ensures EscapeByte(c) ==
            if c == 34 then [92, 34]
            else if c == 92 then [92, 92]
            else if c == 8 then [92, 98]
            else if c == 9 then [92, 116]
            else if c == 10 then [92, 110]
            else if c == 12 then [92, 102]
            else if c == 13 then [92, 114]
            else if c < 32 then [92, 117, 48, 48, 48 + c / 16, if c % 16 < 10 then 48 + c % 16 else 87 + c % 16]
            else [c]
  {}

  /** And a string byte by byte. */
  lemma {:induction false} EscapeAppend(a: bytes, b: bytes)
    ensures Escape(a + b) == Escape(a) + Escape(b)
  {
    hide EscapeByte;
    if a == [] {
      assert a + b == b;
    } else {
      assert (a + b)[1..] == a[1..] + b;
      EscapeAppend(a[1..], b);
    }
  }

  /** A number divided by ten, k times. */
  function Shifted(n: nat, k: nat): nat {
    if k == 0 then n else Shifted(n / 10, k - 1)
  }

  /** The digits of a number, the last one first, and no more of them than the number has. */
  lemma {:induction false} DigitsOfDecimal(n: nat, k: nat)
    requires k < |Decimal(n)|
    ensures Decimal(n)[|Decimal(n)| - 1 - k] == 48 + Shifted(n, k) % 10
    ensures Shifted(n, |Decimal(n)|) == 0
  {
    if n < 10 {
      assert Shifted(n, 1) == Shifted(n / 10, 0);
    } else {
      DigitsOfDecimal(n / 10, if k == 0 then 0 else k - 1);
    }
  }
}
