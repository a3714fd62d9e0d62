/**
  A put and then a get, for values the messages may not carry: when the value comes back.
*/
module RemoteExact {
  import opened Machine
  import opened Ascii
  import opened LruList
  import opened Wire
  import opened ReplyExact
  import opened WireBytes
  import opened RemoteCache

  // ----- what a put stores -----

  /** rest is val without the white space at its end. */
  ghost predicate IsStripped(val: bytes, rest: bytes) {
    && rest <= val && (forall i | |rest| <= i < |val| :: IsWhiteSpace(val[i]))
    && (rest != [] ==> !IsWhiteSpace(rest[|rest| - 1]))
  }

  /** The message of a put as it arrives: strip may have taken the end of the value off. */
  lemma PutText(key: bytes, val: bytes) returns (rest: bytes)
    requires WholeKey(key) && val != []
    ensures OverTcp(PUT, key, val) == PUT + [SPACE, SLASH] + key + [SLASH] + rest
    ensures IsStripped(val, rest)
  {
    var head := PUT + [SPACE, SLASH] + key + [SLASH];
    assert Message(PUT, key, val) + [NUL] == head + val + [NUL];
    rest := CutOff(head, val);
  }

  lemma CutOff(head: bytes, val: bytes) returns (rest: bytes)
    requires head != [] && val != [] && head[|head| - 1] == SLASH
    ensures Strip(head + val + [NUL]) == head + rest
    ensures IsStripped(val, rest)
  {
    var h, text := |head|, head + val + [NUL];
    var m := Strip(text);
    assert text[h - 1] == SLASH && text[|text| - 1] == NUL;
    assert m == text[..|m|] && h <= |m| < |text|;
    rest := val[..|m| - h];
    assert m == head + rest;
    forall i | |rest| <= i < |val| ensures IsWhiteSpace(val[i]) {
      assert text[h + i] == val[i];
    }
  }

  /** The server takes the key as it is, and of the value what is before a line break, or all and the NUL byte. */
  lemma PutDissected(key: bytes, val: bytes) returns (info2: bytes, rest: bytes)
    requires WholeKey(key) && val != [] && |key| + |val| + 8 < NPOS
    ensures |OverTcp(PUT, key, val)| + 1 < NPOS
    ensures Dissect(OverTcp(PUT, key, val)) == Some(Request(PUT, key, info2)) && info2 == LineOf(rest)
    ensures IsStripped(val, rest)
  {
    hide Dissect, IsWhiteSpace, OverTcp, LineOf;
    rest := PutText(key, val);
    info2 := LineOf(rest);
    assert PUT + [SPACE, SLASH] + key + [SLASH] + rest == Front(PUT, []) + key + [47] + rest;
    TwoWords(PUT, [], key, rest);
  }

  /** As a C string, what is stored begins the value, and is all of it only if nothing was cut off. */
  lemma StoredText(val: bytes, rest: bytes, info2: bytes)
    requires val != [] && |val| + 1 < NPOS && rest <= val && info2 <= rest + [NUL]
    ensures |info2| <= |val| + 1
    ensures match CString(info2)
            case None => true
            case Some(t) => t <= val && (t == val ==> rest == val && info2 == val + [NUL])
  {
    var loc := Find(info2, NUL, 0);
    if loc != NPOS {
      assert loc <= |rest|;
      assert info2[..loc] == (rest + [NUL])[..loc] == rest[..loc];
    }
  }

  lemma PutHandled(maxmem: u64, es: Entries, key: Key, val: bytes) returns (info2: Value)
    requires WholeKey(key) && 0 < |val| <= BUFSIZE && |key| <= BUFSIZE
    ensures Handle(maxmem, es, OverTcp(PUT, key, val)) == Handled(Set(maxmem, es, key, info2), None)
    ensures match CString(info2)
            case None => true
            case Some(t) => t <= val && (t == val ==> info2 == val + [NUL] && !IsWhiteSpace(val[|val| - 1]))
  {
    hide Dissect, OverTcp, KeyOf, Set, Delete, Touch, Lookup, WholeKey, IsWhiteSpace, CString;
    var rest;
    info2, rest := PutDissected(key, val);
    StoredText(val, rest, info2);
    assert Stored(info2) == info2;
    KeyOfWhole(key);
    assert PUT[0] != GET[0];
  }

  // ----- what a get reads -----

  /** A get whose message does not fit into the server's buffer answers nothing. */
  lemma LongKey(key: bytes, buf: bytes)
    requires |buf| == BUFSIZE && WholeKey(key) && |key| + 6 > BUFSIZE
    ensures OverUdp(buf, key) == None
  {
    hide Received, BufferText, WholeKey, Message;
    WholeMessage(GET, key, []);
    MessageLayout(GET, key, []);
    DatagramArrives(buf, Message(GET, key, []));
  }

  lemma NoError(buf: bytes, key: bytes)
    requires |buf| == BUFSIZE
    ensures ReadReply(buf, key, ERROR_TEXT) == Some(None)
  {
    DatagramArrives(buf, ERROR_TEXT);
  }

  /** What the client can get from the reply to a get. */
  lemma ReplyRead(key: bytes, t: bytes, buf: bytes, val: bytes)
    requires |buf| == BUFSIZE && WholeKey(key) && NUL !in t
    requires ReadReply(buf, key, MakeJson(key + [NUL], t)) == Some(Some(val))
    ensures |key| + |t| + 29 <= BUFSIZE && (|t| <= |val| ==> val == t && Plain(key) && Plain(t))
  {
    hide Received, BufferText, UnpackJson, Plain;
    var reply := MakeJson(key + [NUL], t);
    ReplyLength(key, t);
    DatagramArrives(buf, reply);
    if |t| <= |val| { ReplyCarries(key, t, val); }
  }

  /** If a get of a whole key returns val, the reply fits, and the server holds a text that is val or longer. */
  lemma GetReturns(maxmem: u64, es: Entries, key: Key, val: bytes, recbuf: bytes, buf: bytes)
    requires |recbuf| == |buf| == BUFSIZE && WholeKey(key)
    requires var got := Remote(maxmem, es, GetOp(key), recbuf, buf); got.Some? && got.value.1 == Some(val)
    ensures var found := Lookup(es, key);
            && found.Some? && |found.value| < NPOS && CString(found.value).Some?
            && var t := CString(found.value).value;
               |key| + |t| + 29 <= BUFSIZE && (|t| <= |val| ==> val == t && Plain(key) && Plain(t))
  {
    hide Handle, ReadReply, OverUdp, Lookup, Touch, WholeKey, MakeJson, CString;
    NoError(buf, key);
    if |key| + 6 > BUFSIZE {
      LongKey(key, recbuf);
    } else {
      GetReaches(maxmem, es, key, recbuf);
      var t := CString(Lookup(es, key).value).value;
      ReplyRead(key, t, buf, val);
    }
  }

  // ----- both -----

  /** The get returns what the put was given. */
  ghost predicate ComesBack(maxmem: u64, es: Entries, key: Key, val: Value, recbuf: bytes, buf: bytes)
    requires |recbuf| == |buf| == BUFSIZE
  {
    var put := Remote(maxmem, es, SetOp(key, val), recbuf, buf);
    && put.Some?
    && var got := Remote(maxmem, put.value.0, GetOp(key), recbuf, buf);
       got.Some? && got.value.1 == Some(val)
  }

  lemma BackOnlyIf(maxmem: u64, es: Entries, key: Key, val: Value, recbuf: bytes, buf: bytes)
    requires |recbuf| == |buf| == BUFSIZE && Inv(maxmem, es) && WholeKey(key) && val != []
    requires ComesBack(maxmem, es, key, val, recbuf, buf)
    ensures Plain(key) && PlainValue(val) && |key| + |val| + 29 <= BUFSIZE && |val| + 1 <= maxmem
  {
    hide Handle, OverTcp, OverUdp, ReadReply, Set, Lookup, Touch, Inv, WholeKey, CString;
    var es' := Remote(maxmem, es, SetOp(key, val), recbuf, buf).value.0;
    GetReturns(maxmem, es', key, val, recbuf, buf);
    if |val| <= BUFSIZE {
      var info2 := PutHandled(maxmem, es, key, val);
      FoundAfterSet(maxmem, es, key, info2);
    }
  }

  lemma BackIf(maxmem: u64, es: Entries, key: Key, val: Value, recbuf: bytes, buf: bytes)
    requires |recbuf| == |buf| == BUFSIZE && Inv(maxmem, es) && PlainKey(key)
    requires PlainValue(val) && |key| + |val| + 29 <= BUFSIZE && |val| + 1 <= maxmem
    ensures ComesBack(maxmem, es, key, val, recbuf, buf)
  {
    hide Handle, OverTcp, OverUdp, ReadReply, Set, Lookup, Touch, Inv, WholeKey, MakeJson, CString, Plain;
    SetArrives(maxmem, es, key, val);
    FoundAfterSet(maxmem, es, key, val + [NUL]);
    GetReaches(maxmem, Set(maxmem, es, key, val + [NUL]), key, recbuf);
    HitRead(key, val, buf);
  }

  /**
    On any cache, and for a key that the messages carry whole: a value that is not empty comes back
    exactly if key and value are plain, the reply to the get fits into the buffer, and the value
    fits into the cache with its NUL byte.
  */
  lemma GetAfterPutExactly(maxmem: u64, es: Entries, key: Key, val: Value, recbuf: bytes, buf: bytes)
    requires |recbuf| == |buf| == BUFSIZE && Inv(maxmem, es) && WholeKey(key) && val != []
    ensures ComesBack(maxmem, es, key, val, recbuf, buf) <==>
              && Plain(key) && PlainValue(val)
              && |key| + |val| + 29 <= BUFSIZE && |val| + 1 <= maxmem
  {
    hide ComesBack, Inv, WholeKey, PlainValue, Plain;
    if ComesBack(maxmem, es, key, val, recbuf, buf) { BackOnlyIf(maxmem, es, key, val, recbuf, buf); }
    if Plain(key) && PlainValue(val) && |key| + |val| + 29 <= BUFSIZE && |val| + 1 <= maxmem {
      BackIf(maxmem, es, key, val, recbuf, buf);
    }
  }

  /** White space behind a value, a NUL byte above all, makes no difference to a put. */
  lemma TailIsLost(maxmem: u64, es: Entries, key: Key, val: Value, tail: bytes, recbuf: bytes, buf: bytes)
    requires |recbuf| == |buf| == BUFSIZE && WholeKey(key) && Whole(val) && val != [] && |val + tail| <= BUFSIZE
    requires forall i | 0 <= i < |tail| :: IsWhiteSpace(tail[i])
    ensures Remote(maxmem, es, SetOp(key, val + tail), recbuf, buf) == Remote(maxmem, es, SetOp(key, val), recbuf, buf)
  {
    hide Handle, Strip, IsWhiteSpace, Message, WholeKey, Whole;
    var text := Message(PUT, key, val);
    MessageTail(key, val, tail);
    StripMessage(PUT, key, val);
    WholeMessage(PUT, key, val);
    StripSpaces(text + tail + [NUL], |text|);
    assert (text + tail + [NUL])[..|text|] == text;
  }

  lemma MessageTail(key: bytes, val: bytes, tail: bytes)
    requires val != []
    ensures Message(PUT, key, val + tail) == Message(PUT, key, val) + tail
    ensures IsWhiteSpace(NUL)
  {}
}
