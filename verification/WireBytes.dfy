/**
  The bytes on the wire, and how act_on_message takes any message apart: its words end at the first
  line break, and without one they carry the NUL byte behind the message along.
*/
module WireBytes {
  import opened Machine
  import opened Blocks
  import opened LruList
  import opened Wire
  import opened RemoteCache
  import Ascii

  /** A line feed or a carriage return. */
  predicate IsBreak(b: byte) { b == 10 || b == 13 }

  predicate OneLine(t: bytes) { forall i | 0 <= i < |t| :: !IsBreak(t[i]) }

  /** A text up to its first line break, or with a NUL byte behind it if it has none. */
  function LineOf(t: bytes): (line: bytes)
    ensures |line| <= |t| + 1 && line <= t + [0]
  {
    if t == [] then [0] else if IsBreak(t[0]) then [] else [t[0]] + LineOf(t[1..])
  }

  lemma {:induction false} LineBehind(head: bytes, tail: bytes)
    requires OneLine(head)
    ensures LineOf(head + tail) == head + LineOf(tail)
  {
    if head == [] {
      assert head + tail == tail;
    } else {
      assert (head + tail)[1..] == head[1..] + tail;
      LineBehind(head[1..], tail);
    }
  }

  /** What precedes a line break, and what has none. */
  lemma LineEnds(line: bytes, c: byte, rest: bytes)
    requires OneLine(line) && IsBreak(c)
    ensures LineOf(line + [c] + rest) == line && LineOf(line) == line + [0]
  {
    assert line + [c] + rest == line + ([c] + rest);
    LineBehind(line, [c] + rest);
    LineBehind(line, []);
    assert line + [] == line;
  }

  /** Where the source finds the end of the line. */
  lemma {:induction false} EndFound(m: bytes, k: nat)
    requires |m| + 1 < NPOS && k <= |m|
    ensures Min(Min(Find(m, 10, k), Find(m, 13, k)), |m| + 1) == k + |LineOf(m[k..])|
    decreases |m| - k
  {
    if k < |m| && !IsBreak(m[k]) {
      EndFound(m, k + 1);
      assert m[k..][1..] == m[k + 1..];
    }
  }

  /** The end of the line, and the ranges that end there. */
  lemma LineRange(m: bytes, from: nat)
    requires |m| + 1 < NPOS
    ensures Min(Min(Find(m, 10, 0), Find(m, 13, 0)), |m| + 1) == |LineOf(m)|
    ensures Range(m, from, |LineOf(m)|) == if from <= |LineOf(m)| then Some(LineOf(m)[from..]) else None
  {
    EndFound(m, 0);
    assert m[0..] == m;
    var line := LineOf(m);
    assert (m + [0])[..|line|] == line;
    if from <= |line| { assert (m + [0])[from..|line|] == line[from..]; }
  }

  /** A part of a message and the NUL byte behind it, by what precedes and follows it. */
  lemma RangeIs(m: bytes, before: bytes, part: bytes, behind: bytes)
    requires m + [0] == before + part + behind
    ensures Range(m, |before|, |before| + |part|) == Some(part)
  {
    assert (m + [0])[|before|..|before| + |part|] == part;
  }

  /** The request, by the places of the space and the slashes. */
  lemma DissectedAt(m: bytes, space: u64, first: u64, second: u64)
    requires |m| + 1 < NPOS && Find(m, 32, 0) == space
    requires Find(m, 47, Add64(space, 1)) == first && Find(m, 47, Add64(first, 1)) == second
    ensures Dissect(m) ==
            match (Range(m, 0, space), Range(m, Add64(first, 1), Min(second, |LineOf(m)|)),
                   if second == NPOS then Some([]) else Range(m, second + 1, |LineOf(m)|))
            case (Some(word), Some(info1), Some(info2)) => Some(Request(word, info1, info2))
            case _ => None
  {
    hide Find, LineOf, Range;
    LineRange(m, 0);
  }

  // ----- messages with a slash behind the space -----

  /** The words before the key. */
  function Front(word: bytes, a: bytes): bytes { word + [32] + a + [47] }

  ghost predicate IsFront(word: bytes, a: bytes) { 32 !in word && 47 !in a }

  lemma FrontFound(word: bytes, a: bytes, tail: bytes)
    requires IsFront(word, a) && |Front(word, a) + tail| < NPOS
    ensures var m := Front(word, a) + tail; var k := |word| + |a| + 2;
            && Find(m, 32, 0) == |word| && Find(m, 47, |word| + 1) == k - 1 && |Front(word, a)| == k
            && (m + [0])[..|word|] == word && Range(m, 0, |word|) == Some(word)
  {
    var m, k := Front(word, a) + tail, |word| + |a| + 2;
    assert forall i | 0 <= i < |word| :: m[i] == word[i];
    assert forall i | |word| < i < k - 1 :: m[i] == a[i - |word| - 1];
    FindFirst(m, 32, 0, |word|);
    FindFirst(m, 47, |word| + 1, k - 1);
    assert (m + [0])[0..|word|] == word;
  }

  /** Two words behind the space: the second is the rest of the line. */
  lemma TwoWords(word: bytes, a: bytes, key: bytes, tail: bytes)
    requires IsFront(word, a) && 47 !in key && OneLine(word) && OneLine(a) && OneLine(key)
    requires |Front(word, a) + key + [47] + tail| + 1 < NPOS
    ensures Dissect(Front(word, a) + key + [47] + tail) == Some(Request(word, key, LineOf(tail)))
  {
    hide Find, LineOf, Dissect, Range, Front, OneLine;
    var front, k := Front(word, a), |word| + |a| + 2;
    var head, q := front + key + [47], k + |key|;
    var m := head + tail;
    TwoWordsParts(front, key, tail);
    FrontFound(word, a, key + [47] + tail);
    SlashFound(m, front, key, tail);
    DissectedAt(m, |word|, k - 1, q);
    OneLineFront(word, a, key);
    LineBehind(head, tail);
    LineRange(m, q + 1);
    assert (head + LineOf(tail))[q + 1..] == LineOf(tail);
    RangeIs(m, front, key, [47] + tail + [0]);
  }

  lemma TwoWordsParts(front: bytes, key: bytes, tail: bytes)
    ensures var m := front + key + [47] + tail;
            m == front + (key + [47] + tail) && m + [0] == front + key + ([47] + tail + [0])
  {}

  lemma SlashFound(m: bytes, head: bytes, part: bytes, tail: bytes)
    requires m == head + part + [47] + tail && 47 !in part && |m| < NPOS
    ensures Find(m, 47, |head|) == |head| + |part|
  {
    hide Find;
    assert forall i | |head| <= i < |head| + |part| :: m[i] == part[i - |head|];
    FindFirst(m, 47, |head|, |head| + |part|);
  }

  lemma OneLineFront(word: bytes, a: bytes, key: bytes)
    requires OneLine(word) && OneLine(a) && OneLine(key)
    ensures OneLine(Front(word, a)) && OneLine(Front(word, a) + key) && OneLine(Front(word, a) + key + [47])
  {}

  /** One word behind the space: it is the rest of the line, if no slash follows at all. */
  lemma OneWord(word: bytes, a: bytes, tail: bytes)
    requires IsFront(word, a) && 47 !in tail && OneLine(word) && OneLine(a)
    requires |Front(word, a) + tail| + 1 < NPOS
    ensures Dissect(Front(word, a) + tail) == Some(Request(word, LineOf(tail), []))
  {
    hide Find, LineOf, Dissect, Range, OneLine;
    var front, k := Front(word, a), |word| + |a| + 2;
    var m := front + tail;
    FrontFound(word, a, tail);
    FindNone(m, 47, k);
    DissectedAt(m, |word|, k - 1, NPOS);
    assert OneLine([]) by { NoBytes(); }
    OneLineFront(word, a, []);
    LineBehind(front, tail);
    LineRange(m, k);
    assert (front + LineOf(tail))[k..] == LineOf(tail);
  }

  lemma NoBytes()
    ensures OneLine([])
  {}

  /** A slash on a later line, with none on the first but the one before the key, is not answered. */
  lemma SlashOnLaterLine(word: bytes, a: bytes, key: bytes, c: byte, x: bytes, y: bytes)
    requires IsFront(word, a) && 47 !in key && 47 !in x && IsBreak(c)
    requires OneLine(word) && OneLine(a) && OneLine(key)
    requires |Front(word, a) + key + [c] + x + [47] + y| + 1 < NPOS
    ensures Dissect(Front(word, a) + key + [c] + x + [47] + y) == None
  {
    hide Find, LineOf, Dissect, OneLine, Front, Range;
    var front, k := Front(word, a), |word| + |a| + 2;
    var m, q := front + key + [c] + x + [47] + y, k + |key| + 1 + |x|;
    LaterLineParts(front, key, c, x, y);
    FrontFound(word, a, key + [c] + x + [47] + y);
    SlashFound(m, front, key + [c] + x, y);
    DissectedAt(m, |word|, k - 1, q);
    OneLineFront(word, a, key);
    LineEnds(front + key, c, x + [47] + y);
    NoRange(m, q + 1, |LineOf(m)|);
  }

  lemma LaterLineParts(front: bytes, key: bytes, c: byte, x: bytes, y: bytes)
    ensures var m := front + key + [c] + x + [47] + y;
            && m == front + (key + [c] + x + [47] + y) && m == front + (key + [c] + x) + [47] + y
            && m == (front + key) + [c] + (x + [47] + y)
            && (47 !in key && 47 !in x && c != 47 ==> 47 !in key + [c] + x)
  {}

  /** A line break before the slash that leads the key: there is no key on the first line. */
  lemma BreakBeforeKey(word: bytes, a: bytes, tail: bytes)
    requires IsFront(word, a) && !OneLine(word + [32] + a)
    requires |Front(word, a) + tail| + 1 < NPOS
    ensures Dissect(Front(word, a) + tail) == None
  {
    hide Find;
    var m, k := Front(word, a) + tail, |word| + |a| + 2;
    FrontFound(word, a, tail);
    var i :| 0 <= i < |word + [32] + a| && IsBreak((word + [32] + a)[i]);
    LineStops(m, i);
    LineRange(m, k);
    var second := Find(m, 47, k);
    assert Min(second, |LineOf(m)|) < k;
  }

  lemma {:induction false} LineStops(t: bytes, i: nat)
    requires i < |t| && IsBreak(t[i])
    ensures |LineOf(t)| <= i
  {
    if !IsBreak(t[0]) { LineStops(t[1..], i - 1); }
  }

  // ----- other messages -----

  lemma NoSpace(m: bytes)
    requires 32 !in m && |m| + 1 < NPOS
    ensures Dissect(m) == None
  {
    FindNone(m, 32, 0);
  }

  /** Without any slash the position behind it wraps to 0: the whole line is taken as the key. */
  lemma NoSlash(word: bytes, tail: bytes)
    requires 32 !in word && 47 !in word && 47 !in tail && |word + [32] + tail| + 1 < NPOS
    ensures var m := word + [32] + tail; Dissect(m) == Some(Request(word, LineOf(m), []))
  {
    hide Find, LineOf;
    var m := word + [32] + tail;
    assert forall i | 0 <= i < |word| :: m[i] == word[i];
    FindFirst(m, 32, 0, |word|);
    FindNone(m, 47, |word| + 1);
    FindNone(m, 47, 0);
    LineRange(m, 0);
    assert (m + [0])[0..|word|] == word;
  }

  /** With slashes in front of the space only, the first of them ends the key that starts the message. */
  lemma SlashInWord(x: bytes, y: bytes, tail: bytes)
    requires 32 !in x && 32 !in y && 47 !in x && 47 !in tail && |x + [47] + y + [32] + tail| + 1 < NPOS
    ensures Dissect(x + [47] + y + [32] + tail) ==
            if OneLine(x) then Some(Request(x + [47] + y, x, LineOf(y + [32] + tail))) else None
  {
    hide Find, LineOf, Dissect, Range, OneLine;
    var word, rest := x + [47] + y, y + [32] + tail;
    var m := word + [32] + tail;
    SlashInWordParts(x, y, tail);
    SpaceFound(m, word, tail);
    SlashFound(m, [], x, rest);
    FindNone(m, 47, |word| + 1);
    DissectedAt(m, |word|, NPOS, |x|);
    RangeIs(m, [], word, [32] + tail + [0]);
    RangeIs(m, [], x, [47] + rest + [0]);
    RestOfLine(m, x, rest);
  }

  /** What is left of the line behind the first slash. */
  lemma RestOfLine(m: bytes, x: bytes, rest: bytes)
    requires m == x + ([47] + rest) && |m| + 1 < NPOS
    ensures if OneLine(x) then |x| < |LineOf(m)| && Range(m, |x| + 1, |LineOf(m)|) == Some(LineOf(rest))
            else Range(m, |x| + 1, |LineOf(m)|) == None
  {
    hide Find, LineOf, Range, OneLine;
    LineRange(m, |x| + 1);
    if OneLine(x) {
      SlashKeepsLine(x);
      assert m == (x + [47]) + rest;
      LineBehind(x + [47], rest);
      assert ((x + [47]) + LineOf(rest))[|x| + 1..] == LineOf(rest);
    } else {
      LineStopsIn(x, [47] + rest);
    }
  }

  lemma SlashInWordParts(x: bytes, y: bytes, tail: bytes)
    ensures var m, rest := x + [47] + y + [32] + tail, y + [32] + tail;
            && m == (x + [47]) + rest == x + ([47] + rest) && m == [] + x + [47] + rest
            && m + [0] == [] + (x + [47] + y) + ([32] + tail + [0]) && m + [0] == [] + x + ([47] + rest + [0])
            && (47 !in tail ==> forall i | |x + [47] + y| < i < |m| :: m[i] != 47)
  {}

  lemma SlashKeepsLine(x: bytes)
    requires OneLine(x)
    ensures OneLine(x + [47])
  {}

  lemma LineStopsIn(x: bytes, tail: bytes)
    requires !OneLine(x)
    ensures |LineOf(x + tail)| < |x|
  {
    var i :| 0 <= i < |x| && IsBreak(x[i]);
    assert (x + tail)[i] == x[i];
    LineStops(x + tail, i);
  }

  lemma SpaceFound(m: bytes, word: bytes, tail: bytes)
    requires m == word + [32] + tail && 32 !in word && |m| < NPOS
    ensures Find(m, 32, 0) == |word|
  {
    hide Find;
    assert forall i | 0 <= i < |word| :: m[i] == word[i];
    FindFirst(m, 32, 0, |word|);
  }

  lemma NoRange(m: bytes, from: nat, to: nat)
    requires to < from
    ensures Range(m, from, to) == None
  {}

  // ----- what the server does -----

  /** The key the cache is asked for is what precedes the first NUL byte. */
  lemma KeyOfIsText(info: bytes)
    requires |info| + 1 < NPOS
    ensures KeyOf(info) == UpToNul(info)
  {
    hide Find, UpToNul;
    var s, k := info + [0], UpToNul(info);
    TextIsPrefix(info);
    assert s[..|k|] == k;
    FindFirst(s, 0, 0, |k|);
  }

  lemma TextIsPrefix(info: bytes)
    ensures var s, k := info + [0], UpToNul(info);
            |k| < |s| && s[..|k|] == k && s[|k|] == 0 && forall i | 0 <= i < |k| :: s[i] != 0
  {
    var s, k := info + [0], UpToNul(info);
    WholeOrCut(info);
    assert forall i | 0 <= i < |k| :: s[i] == k[i];
  }

  lemma {:induction false} WholeOrCut(b: bytes)
    ensures |UpToNul(b)| == |b| || 0 in b
  {
    if b != [] && b[0] != 0 { WholeOrCut(b[1..]); }
  }

  lemma {:induction false} TextBefore(b: bytes, n: nat)
    requires n <= |b| && 0 !in b[..n] && (n < |b| ==> b[n] == 0)
    ensures UpToNul(b) == b[..n]
  {
    if n > 0 {
      assert b[..n][0] == b[0] && b[1..][..n - 1] == b[..n][1..];
      TextBefore(b[1..], n - 1);
    }
  }

  /** GET touches the entry of the key and replies, unless the reply cannot be made. */
  lemma GetHandled(maxmem: u64, es: Entries, m: bytes, info1: bytes, info2: bytes)
    requires |m| + 1 < NPOS && |info1| + 1 < NPOS && Dissect(m) == Some(Request([71, 69, 84], info1, info2))
    ensures var key := UpToNul(info1);
            match GetReply(info1, Lookup(es, key))
            case None => Handle(maxmem, es, m) == Failed
            case Some(reply) => Handle(maxmem, es, m) == Handled(Step(maxmem, es, GetOp(key)), Some(reply))
  {
    hide Dissect, Set, Delete, Touch, Lookup, GetReply, KeyOf, UpToNul, MakeJson;
    KeyOfIsText(info1);
  }

  lemma StoredWhole(info2: bytes)
    requires |info2| < U32
    ensures Stored(info2) == info2
  {
    assert info2[..|info2|] == info2;
  }

  /** PUT sets the key. */
  lemma PutRequestHandled(maxmem: u64, es: Entries, m: bytes, info1: bytes, info2: bytes)
    requires |m| + 1 < NPOS && |info1| + 1 < NPOS && Dissect(m) == Some(Request([80, 85, 84], info1, info2))
    ensures |info2| < U32 ==>
              Handle(maxmem, es, m) == Handled(Step(maxmem, es, SetOp(UpToNul(info1), info2)), None)
  {
    hide Dissect, Stored, Set, Delete, Touch, Lookup, GetReply, KeyOf, UpToNul, MakeJson;
    KeyOfIsText(info1);
    if |info2| < U32 { StoredWhole(info2); }
    assert PUT[0] != GET[0];
  }

  /** DELETE deletes the key. */
  lemma DeleteHandled(maxmem: u64, es: Entries, m: bytes, info1: bytes, info2: bytes)
    requires |m| + 1 < NPOS && |info1| + 1 < NPOS && Dissect(m) == Some(Request([68, 69, 76, 69, 84, 69], info1, info2))
    ensures Handle(maxmem, es, m) == Handled(Step(maxmem, es, DeleteOp(UpToNul(info1))), None)
  {
    hide Dissect, Set, Delete, Touch, Lookup, GetReply, KeyOf, UpToNul, MakeJson;
    KeyOfIsText(info1);
    assert DELETE[0] != GET[0] && DELETE[0] != PUT[0];
  }

  /** HEAD does nothing, and no other word is answered. */
  lemma OtherHandled(maxmem: u64, es: Entries, m: bytes, word: bytes, info1: bytes, info2: bytes)
    requires |m| + 1 < NPOS && |info1| + 1 < NPOS && Dissect(m) == Some(Request(word, info1, info2))
    ensures word == [72, 69, 65, 68] ==> Handle(maxmem, es, m) == Handled(es, None)
    ensures word != [71, 69, 84] && word != [80, 85, 84] && word != [68, 69, 76, 69, 84, 69] ==>
              word == [72, 69, 65, 68] || Handle(maxmem, es, m) == Failed
  {
    hide Dissect, Set, Delete, Touch, Lookup, GetReply, KeyOf;
    assert HEAD[0] != GET[0] && HEAD[0] != PUT[0] && HEAD[0] != DELETE[0];
  }

  /** So a DELETE with a line break behind the key deletes this key, whatever follows without a slash. */
  lemma DeleteLine(maxmem: u64, es: Entries, key: Key, c: byte, rest: bytes)
    requires 47 !in key && OneLine(key) && IsBreak(c) && 47 !in rest
    requires |[68, 69, 76, 69, 84, 69, 32, 47] + key + [c] + rest| + 1 < NPOS
    ensures Handle(maxmem, es, [68, 69, 76, 69, 84, 69, 32, 47] + key + [c] + rest)
            == Handled(Step(maxmem, es, DeleteOp(key)), None)
  {
    hide Dissect, Handle, Step, LineOf, UpToNul;
    var word: bytes := [68, 69, 76, 69, 84, 69];
    var m := [68, 69, 76, 69, 84, 69, 32, 47] + key + [c] + rest;
    assert m == Front(word, []) + (key + [c] + rest);
    OneWord(word, [], key + [c] + rest);
    LineEnds(key, c, rest);
    DeleteHandled(maxmem, es, m, key, []);
    WholeText(key);
  }

  /** And a PUT stores what precedes the line break, whatever follows. */
  lemma PutLine(maxmem: u64, es: Entries, key: Key, val: Value, c: byte, rest: bytes)
    requires 47 !in key && OneLine(key) && OneLine(val) && IsBreak(c)
    requires |[80, 85, 84, 32, 47] + key + [47] + val + [c] + rest| + 1 < NPOS
    ensures Handle(maxmem, es, [80, 85, 84, 32, 47] + key + [47] + val + [c] + rest)
            == Handled(Step(maxmem, es, SetOp(key, val)), None)
  {
    hide Dissect, Handle, Step, LineOf, UpToNul;
    var word: bytes := [80, 85, 84];
    var m := [80, 85, 84, 32, 47] + key + [47] + val + [c] + rest;
    assert m == Front(word, []) + key + [47] + (val + [c] + rest);
    TwoWords(word, [], key, val + [c] + rest);
    LineEnds(val, c, rest);
    PutRequestHandled(maxmem, es, m, key, val);
    WholeText(key);
  }

  lemma WholeText(key: Key)
    ensures UpToNul(key) == key
  {
    TextBefore(key, |key|);
    assert key[..|key|] == key;
  }

  // ----- what is sent -----

  /** The requests of the client, without the NUL byte that is sent behind each. */
  lemma RequestBytes(key: bytes, val: bytes)
    ensures Message(GET, key, []) == [71, 69, 84, 32, 47] + key
    ensures Message(DELETE, key, []) == [68, 69, 76, 69, 84, 69, 32, 47] + key
    ensures Message(PUT, key, val) == [80, 85, 84, 32, 47] + key + if val == [] then [] else [47] + val
  {}

  /** What the server replies to a get: the stored bytes up to their NUL byte, or ERROR. */
  lemma ReplyBytes(key: bytes, c: byte, found: bytes)
    requires |found| < NPOS
    ensures GetReply(key + [c], None) == Some([69, 82, 82, 79, 82])
    ensures 0 !in found ==> GetReply(key + [c], Some(found)) == None
    ensures 0 in found ==>
              GetReply(key + [c], Some(found)) ==
              Some([123, 32, 34, 107, 101, 121, 34, 58, 32, 34] + key
                   + [34, 32, 44, 32, 34, 118, 97, 108, 117, 101, 34, 58, 32, 34] + UpToNul(found)
                   + [34, 32, 125, 32])
    ensures GetReply([], Some(found)) == None
  {
    hide UpToNul, MakeJson, Find;
    StoredBytes(found);
    JsonBytes(key, c, UpToNul(found));
  }

  lemma StoredBytes(found: bytes)
    requires |found| < NPOS
    ensures CString(found) == if 0 in found then Some(UpToNul(found)) else None
  {
    hide UpToNul;
    var loc := Find(found, 0, 0);
    if 0 in found {
      assert 0 !in found[..loc];
      TextBefore(found, loc);
    }
  }

  lemma JsonBytes(key: bytes, c: byte, value: bytes)
    ensures MakeJson(key + [c], value) ==
            [123, 32, 34, 107, 101, 121, 34, 58, 32, 34] + key
            + [34, 32, 44, 32, 34, 118, 97, 108, 117, 101, 34, 58, 32, 34] + value + [34, 32, 125, 32]
  {
    assert (key + [c])[..|key|] == key;
  }

  predicate Blank(c: byte) { c == 0 || c == 9 || c == 10 || c == 13 || c == 32 }

  /** strip takes NUL bytes, tabs, line breaks and spaces off the end, unless there is nothing else. */
  lemma StripExactly(text: bytes, tail: bytes)
    requires forall i | 0 <= i < |tail| :: Blank(tail[i])
    requires text == [] || !Blank(text[|text| - 1])
    ensures Strip(text + tail) == if text == [] then tail else text
  {
    hide Strip;
    var s := text + tail;
    if text != [] {
      assert s[|text| - 1] == text[|text| - 1];
      assert forall i | |text| <= i < |s| :: s[i] == tail[i - |text|];
      StripSpaces(s, |text|);
      assert s[..|text|] == text;
    } else {
      assert s == tail;
      BlankStays(tail);
    }
  }

  lemma BlankStays(tail: bytes)
    requires forall i | 0 <= i < |tail| :: Blank(tail[i])
    ensures Strip(tail) == tail
  {}

  /** A value that is larger than a datagram buffer is not sent. */
  lemma LongValueNotSent(maxmem: u64, es: Entries, key: Key, val: Value, recbuf: bytes, buf: bytes)
    requires |recbuf| == |buf| == BUFSIZE && |val| > 65536 - 32
    ensures Remote(maxmem, es, SetOp(key, val), recbuf, buf) == Some((es, None))
  {}
}
