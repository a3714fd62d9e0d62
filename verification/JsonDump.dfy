/** dump of json.hpp: the text of a value, compact or indented, and the method that streams it out. */
module JsonDump {
  import opened Machine
  import opened Ascii
  import opened JsonLexer
  import opened JsonString
  import opened JsonNumber
  import opened JsonValue

  /** How to print: pretty, by how much to indent each level, and the depth so far in spaces. */
  datatype Style = Style(pretty: bool, step: u32, indent: u32) {
    /** The style inside an array or object: an unsigned int that wraps. */
    function Deeper(): Style {
      if pretty then this.(indent := (indent + step) % U32) else this
    }

    function Break(): bytes { if pretty then [NEWLINE] else [] }
    function Comma(): bytes { if pretty then [COMMA, NEWLINE] else [COMMA] }
    function Colon(): bytes { if pretty then [QUOTE, COLON, SPACE] else [QUOTE, COLON] }
  }

  function Spaces(n: nat): (s: bytes)
    ensures |s| == n && forall k | 0 <= k < n :: s[k] == SPACE
  {
    seq(n, _ => SPACE)
  }

  /** dump(indent), with compact output for a negative indent. */
  function StyleFor(indent: int): Style
    requires indent < 0x8000_0000
  {
    if indent >= 0 then Style(true, indent, 0) else Style(false, 0, 0)
  }

  /** Brackets around the inside of an array or object. */
  function Wrap(left: byte, inner: bytes, right: byte, style: Style): bytes {
    [left] + style.Break() + inner + (style.Break() + Spaces(style.indent) + [right])
  }

  function Text(j: Json, style: Style): bytes
    requires Exact(j)
    decreases j, 0
  {
    match j
    case Null => NULL_TEXT
    case Boolean(b) => if b then TRUE_TEXT else FALSE_TEXT
    case Str(s) => [QUOTE] + Escape(s) + [QUOTE]
    case Integer(i) => IntegerText(i)
    case Unsigned(u) => IntegerText(u)
    case Array(es) =>
      if es == [] then [OPEN_BRACKET, CLOSE_BRACKET]
      else Wrap(OPEN_BRACKET, Elements(es, 0, style.Deeper()), CLOSE_BRACKET, style)
    case Object(ms) =>
      if ms == [] then [OPEN_BRACE, CLOSE_BRACE]
      else Wrap(OPEN_BRACE, Members(ms, 0, style.Deeper()), CLOSE_BRACE, style)
    case Float(_) => []
  }

  /** The elements from i on, with what separates them. */
  function Elements(es: seq<Json>, i: nat, style: Style): bytes
    requires i < |es| && forall k | 0 <= k < |es| :: Exact(es[k])
    decreases es, |es| - i
  {
    Spaces(style.indent) + Text(es[i], style)
    + (if i + 1 < |es| then style.Comma() + Elements(es, i + 1, style) else [])
  }

  function Members(ms: seq<Member>, i: nat, style: Style): bytes
    requires i < |ms| && forall k | 0 <= k < |ms| :: Exact(ms[k].val)
    decreases ms, |ms| - i
  {
    Spaces(style.indent) + ([QUOTE] + Escape(ms[i].key) + style.Colon()) + Text(ms[i].val, style)
    + (if i + 1 < |ms| then style.Comma() + Members(ms, i + 1, style) else [])
  }

  /** What is still to print when the loop over the elements stands before element i. */
  function ElementsLeft(es: seq<Json>, i: nat, style: Style): bytes
    requires i <= |es| && forall k | 0 <= k < |es| :: Exact(es[k])
  {
    if i == |es| then [] else (if i > 0 then style.Comma() else []) + Elements(es, i, style)
  }

  function MembersLeft(ms: seq<Member>, i: nat, style: Style): bytes
    requires i <= |ms| && forall k | 0 <= k < |ms| :: Exact(ms[k].val)
  {
    if i == |ms| then [] else (if i > 0 then style.Comma() else []) + Members(ms, i, style)
  }

  /** std::ostream, as far as dump uses it. */
  class Stream {
    var text: bytes

    constructor ()
      ensures text == []
    {
      text := [];
    }

    method Put(b: bytes)
      modifies this
      ensures text == old(text) + b
    {
      text := text + b;
    }
  }

  method Dump(j: Json, o: Stream, style: Style)
    requires Exact(j)
    modifies o
    ensures o.text == old(o.text) + Text(j, style)
    decreases j, 0
  {
    match j
    case Object(ms) => DumpObject(ms, o, style);
    case Array(es) => DumpArray(es, o, style);
    case Str(s) =>
      var escaped := EscapeString(s);
      o.Put([QUOTE] + escaped + [QUOTE]);
    case Boolean(b) => o.Put(if b then TRUE_TEXT else FALSE_TEXT);
    case Integer(i) => o.Put(IntegerText(i));
    case Unsigned(u) => o.Put(IntegerText(u));
    case Null => o.Put(NULL_TEXT);
  }

  lemma ElementsStep(es: seq<Json>, i: nat, style: Style, done: bytes)
    requires i < |es| && forall k | 0 <= k < |es| :: Exact(es[k])
    ensures done + ElementsLeft(es, i, style)
            == done + (if i > 0 then style.Comma() else []) + Spaces(style.indent) + Text(es[i], style)
               + ElementsLeft(es, i + 1, style)
  {
    hide Text, Spaces;
    RegroupFour(done, if i > 0 then style.Comma() else [], Spaces(style.indent), Text(es[i], style),
                ElementsLeft(es, i + 1, style));
    assert Elements(es, i, style) == Spaces(style.indent) + Text(es[i], style) + ElementsLeft(es, i + 1, style);
  }

  lemma MembersStep(ms: seq<Member>, i: nat, style: Style, done: bytes)
    requires i < |ms| && forall k | 0 <= k < |ms| :: Exact(ms[k].val)
    ensures done + MembersLeft(ms, i, style)
            == done + (if i > 0 then style.Comma() else []) + Spaces(style.indent)
               + ([QUOTE] + Escape(ms[i].key) + style.Colon()) + Text(ms[i].val, style)
               + MembersLeft(ms, i + 1, style)
  {
    hide Text, Escape, Spaces;
    Regroup(done, if i > 0 then style.Comma() else [], Spaces(style.indent),
            [QUOTE] + Escape(ms[i].key) + style.Colon(), Text(ms[i].val, style), MembersLeft(ms, i + 1, style));
    assert Members(ms, i, style)
        == Spaces(style.indent) + ([QUOTE] + Escape(ms[i].key) + style.Colon()) + Text(ms[i].val, style)
           + MembersLeft(ms, i + 1, style);
  }

  lemma RegroupFour(done: bytes, a: bytes, b: bytes, c: bytes, rest: bytes)
    ensures done + (a + (b + c + rest)) == done + a + b + c + rest
  {}

  lemma Regroup(done: bytes, a: bytes, b: bytes, c: bytes, d: bytes, rest: bytes)
    ensures done + (a + (b + c + d + rest)) == done + a + b + c + d + rest
  {}

  /** new_indent -= indent_step undoes new_indent += indent_step, also when the sum has wrapped. */
  lemma IndentComesBack(style: Style)
    ensures (if style.pretty then (style.Deeper().indent - style.step) % U32 else style.Deeper().indent)
            == style.indent
  {
    if style.pretty && style.indent + style.step >= U32 {
      assert style.Deeper().indent == style.indent + style.step - U32;
    }
  }

  /** The separator before all but the first element. */
  method Separate(o: Stream, style: Style, first: bool)
    modifies o
    ensures o.text == old(o.text) + if first then [] else style.Comma()
  {
    if !first {
      o.Put(if style.pretty then [COMMA, NEWLINE] else [COMMA]);
    }
  }

  method Open(o: Stream, style: Style, bracket: byte)
    modifies o
    ensures o.text == old(o.text) + ([bracket] + style.Break())
  {
    o.Put([bracket]);
    if style.pretty {
      o.Put([NEWLINE]);
    }
  }

  method Close(o: Stream, style: Style, indent: u32, bracket: byte)
    modifies o
    ensures o.text == old(o.text) + (style.Break() + Spaces(indent) + [bracket])
  {
    if style.pretty {
      o.Put([NEWLINE]);
    }
    o.Put(Spaces(indent) + [bracket]);
  }

  lemma WrapRegroup(done: bytes, left: byte, inner: bytes, right: byte, style: Style)
    ensures done + ([left] + style.Break()) + inner + (style.Break() + Spaces(style.indent) + [right])
            == done + Wrap(left, inner, right, style)
  {
    hide Spaces;
  }

  method DumpArray(es: seq<Json>, o: Stream, style: Style)
    requires Exact(Array(es))
    modifies o
    ensures o.text == old(o.text) + Text(Array(es), style)
    decreases es, |es| + 1
  {
    hide Elements, Wrap, Spaces;
    if es == [] {
      o.Put([OPEN_BRACKET, CLOSE_BRACKET]);
      return;
    }
    var inner := style.Deeper();
    Open(o, style, OPEN_BRACKET);
    DumpElements(es, o, inner);
    WrapRegroup(old(o.text), OPEN_BRACKET, Elements(es, 0, inner), CLOSE_BRACKET, style);
    IndentComesBack(style);
    Close(o, style, if style.pretty then (inner.indent - style.step) % U32 else inner.indent, CLOSE_BRACKET);
  }

  method DumpElements(es: seq<Json>, o: Stream, style: Style)
    requires es != [] && forall k | 0 <= k < |es| :: Exact(es[k])
    modifies o
    ensures o.text == old(o.text) + Elements(es, 0, style)
    decreases es, |es|
  {
    hide Elements, Text;
    assert ElementsLeft(es, 0, style) == Elements(es, 0, style);
    for i := 0 to |es|
      invariant o.text + ElementsLeft(es, i, style) == old(o.text) + Elements(es, 0, style)
    {
      ElementsStep(es, i, style, o.text);
      Separate(o, style, i == 0);
      o.Put(Spaces(style.indent));
      Dump(es[i], o, style);
    }
  }

  method DumpObject(ms: seq<Member>, o: Stream, style: Style)
    requires Exact(Object(ms))
    modifies o
    ensures o.text == old(o.text) + Text(Object(ms), style)
    decreases ms, |ms| + 1
  {
    hide Members, Wrap, Spaces, Sorted;
    if ms == [] {
      o.Put([OPEN_BRACE, CLOSE_BRACE]);
      return;
    }
    var inner := style.Deeper();
    Open(o, style, OPEN_BRACE);
    DumpMembers(ms, o, inner);
    WrapRegroup(old(o.text), OPEN_BRACE, Members(ms, 0, inner), CLOSE_BRACE, style);
    IndentComesBack(style);
    Close(o, style, if style.pretty then (inner.indent - style.step) % U32 else inner.indent, CLOSE_BRACE);
  }

  method DumpMembers(ms: seq<Member>, o: Stream, style: Style)
    requires ms != [] && forall k | 0 <= k < |ms| :: Exact(ms[k].val)
    modifies o
    ensures o.text == old(o.text) + Members(ms, 0, style)
    decreases ms, |ms|
  {
    hide Members, Text, Escape;
    assert MembersLeft(ms, 0, style) == Members(ms, 0, style);
    for i := 0 to |ms|
      invariant o.text + MembersLeft(ms, i, style) == old(o.text) + Members(ms, 0, style)
    {
      MembersStep(ms, i, style, o.text);
      Separate(o, style, i == 0);
      var key := EscapeString(ms[i].key);
      o.Put(Spaces(style.indent));
      o.Put([QUOTE] + key + style.Colon());
      Dump(ms[i].val, o, style);
    }
  }
}
