/**
  The cache behind the wire: client calls become messages, the server's handlers work on the cache
  of HashCache, and the answers come back as JSON. For keys and values the messages can carry, the
  whole is proved to answer like a local cache.
*/
module RemoteCache {
  import opened Machine
  import opened Ascii
  import opened Blocks
  import opened LruList
  import Bookkeeping
  import opened HashCache
  import opened HashTable
  import opened Wire

  /** What the server does with a message: Failed where it throws or is not defined. */
  datatype Outcome = Handled(es: Entries, reply: Option<bytes>) | Failed

  /** key.c_str() */
  function KeyOf(info1: bytes): Key
    requires |info1| + 1 < NPOS
  {
    match CString(info1 + [NUL])
    case Some(k) => k
    case None => []
  }

  /** What put stores: as many bytes as value.size() has when it is passed as a uint32_t. */
  function Stored(info2: bytes): Value {
    info2[..|info2| % U32]
  }

  /** The reply of get for the answer of the cache. */
  function GetReply(info1: bytes, found: Option<bytes>): Option<bytes> {
    match found
    case None => Some(ERROR_TEXT)
    case Some(v) =>
      if info1 == [] || |v| >= NPOS then None
      else
        match CString(v)
        case None => None
        case Some(text) => Some(MakeJson(info1, text))
  }

  /** act_on_message with the handlers get, put, delete_ and head; post is not modelled. */
  function Handle(maxmem: u64, es: Entries, message: bytes): Outcome {
    if |message| + 1 >= NPOS || Dissect(message).None? then Failed
    else
      var Request(word, info1, info2) := Dissect(message).value;
      if |info1| + 1 >= NPOS then Failed
      else
        var key := KeyOf(info1);
        if word == GET then
          if GetReply(info1, Lookup(es, key)).None? then Failed
          else Handled(Touch(es, key), GetReply(info1, Lookup(es, key)))
        else if word == PUT then Handled(Set(maxmem, es, key, Stored(info2)), None)
        else if word == DELETE then Handled(Delete(es, key), None)
        else if word == HEAD then Handled(es, None)
        else Failed
  }

  method ActOnMessage(cache: Cache, message: bytes) returns (ok: bool, reply: Option<bytes>)
    requires cache.Valid()
    modifies cache.Owned(), cache.heap
    ensures cache.Valid()
    ensures match Handle(cache.maxmem, old(cache.Contents()), message)
            case Failed => !ok
            case Handled(es, r) => ok && cache.Contents() == es && reply == r
    ensures cache.Foreign() == old(cache.Foreign())
    ensures forall o | o in cache.Owned() && o !in old(cache.Owned()) :: fresh(o)
  {
    hide Cache.Consistent, Bookkeeping.Sane, Set, Touch, Delete, Lookup, Dissect, KeyOf;
    if |message| + 1 >= NPOS {
      return false, None;
    }
    var request := Dissect(message);
    if request.None? || |request.value.info1| + 1 >= NPOS {
      return false, None;
    }
    var Request(word, info1, info2) := request.value;
    var key := KeyOf(info1);
    ok, reply := true, None;
    if word == GET {
      var found := Call(cache, GetOp(key));
      reply := GetReply(info1, found);
      ok := reply.Some?;
    } else if word == PUT {
      var none := Call(cache, SetOp(key, Stored(info2)));
    } else if word == DELETE {
      var none := Call(cache, DeleteOp(key));
    } else {
      ok := word == HEAD;
    }
  }

  // ----- a client call, from end to end -----

  /** What arrives over TCP: the text up to its NUL byte, which strip takes off. */
  function OverTcp(head: bytes, key: bytes, value: bytes): bytes {
    Strip(Message(head, key, value) + [NUL])
  }

  /** What arrives over UDP, if it fits into the buffer. */
  function OverUdp(buf: bytes, key: bytes): Option<bytes>
    requires |buf| == BUFSIZE
  {
    match BufferText(Received(buf, Message(GET, key, [])))
    case None => None
    case Some(text) => Some(Strip(text))
  }

  /** cache_get of the client, from the reply on: None if it throws. */
  function ReadReply(buf: bytes, key: bytes, reply: bytes): Option<Option<bytes>>
    requires |buf| == BUFSIZE
  {
    match BufferText(Received(buf, reply))
    case None => Some(None)
    case Some(text) =>
      if text == ERROR_TEXT then Some(None)
      else
        match UnpackJson(text)
        case None => None
        case Some((k, v)) => Some(if k == key then Some(v) else None)
  }

  /** Keys and values that the messages can carry. */
  predicate Carried(op: Op) {
    && PlainKey(op.key) && |op.key| + 6 <= BUFSIZE
    && (op.SetOp? ==> (op.val == [] || PlainValue(op.val)) && |op.key| + |op.val| + 29 <= BUFSIZE)
  }

  /** What put stores for a value: the NUL byte behind the message goes with it, unless there is no value at all. */
  function StoredValue(val: bytes): bytes {
    if val == [] then [] else val + [NUL]
  }

  /** What the server is asked to do. */
  function AsStored(op: Op): Op
    requires Carried(op)
  {
    match op
    case SetOp(key, val) => SetOp(key, StoredValue(val))
    case _ => op
  }

  function AllStored(ops: seq<Op>): (r: seq<Op>)
    requires forall k | 0 <= k < |ops| :: Carried(ops[k])
    ensures |r| == |ops|
  {
    seq(|ops|, k requires 0 <= k < |ops| => AsStored(ops[k]))
  }

  /** A stored value without its NUL byte. */
  function Unstored(answer: Option<bytes>): Option<bytes> {
    match answer
    case Some(v) => if v == [] then None else Some(v[..|v| - 1])
    case None => None
  }

  /** Every entry is one that a carried set has stored. */
  ghost predicate FromClients(es: Entries) {
    forall e | e in es :: FromClient(e)
  }

  ghost predicate FromClient(e: Entry) {
    || e.val == []
    || (e.val[|e.val| - 1] == NUL && e.val != [NUL] && Carried(SetOp(e.key, e.val[..|e.val| - 1])))
  }

  /** A get that finds an empty value: the server reads past the end of its block. */
  predicate EmptyHit(es: Entries, op: Op) {
    op.GetOp? && Lookup(es, op.key) == Some([])
  }

  lemma StepBrings(maxmem: u64, es: Entries, op: Op)
    ensures forall e | e in Step(maxmem, es, op) :: e in es || (op.SetOp? && e == Entry(op.key, op.val))
  {
    hide IndexOf, Evicted, Lookup;
    assert forall e | e in Delete(es, op.key) :: e in es;
    match op
    case SetOp(key, val) => assert forall e | e in Set(maxmem, es, key, val) :: e in es || e == Entry(key, val);
    case GetOp(key) => assert forall e | e in Touch(es, key) :: e in es;
    case DeleteOp(key) =>
  }

  lemma FromClientsKept(maxmem: u64, es: Entries, op: Op)
    requires Carried(op) && FromClients(es)
    ensures FromClients(Step(maxmem, es, AsStored(op)))
  {
    hide FromClient, Step, WholeKey, Whole, Plain;
    StepBrings(maxmem, es, AsStored(op));
    if op.SetOp? { StoredIsFromClient(op); }
  }

  lemma StoredIsFromClient(op: Op)
    requires Carried(op) && op.SetOp?
    ensures FromClient(Entry(op.key, StoredValue(op.val)))
  {
    assert (op.val + [NUL])[..|op.val|] == op.val;
  }

  lemma KeyOfWhole(key: bytes)
    requires WholeKey(key) && |key| <= BUFSIZE
    ensures KeyOf(key) == key && KeyOf(key + [NUL]) == key
  {
    TerminatedString(key);
    var s := key + [NUL] + [NUL];
    FindFirst(s, NUL, 0, |key|);
    assert s[..|key|] == key;
  }

  /** A set arrives at the cache, a value with the NUL byte behind it. */
  lemma SetArrives(maxmem: u64, es: Entries, key: Key, val: bytes)
    requires WholeKey(key) && Whole(val) && |key| + |val| + 29 <= BUFSIZE
    ensures Handle(maxmem, es, OverTcp(PUT, key, val)) == Handled(Set(maxmem, es, key, StoredValue(val)), None)
  {
    hide Message, Dissect, KeyOf, Set, Delete, Touch, Lookup, WholeKey, Whole, Strip;
    MessageLayout(PUT, key, val);
    StripMessage(PUT, key, val);
    MessageDissected(PUT, key, val);
    KeyOfWhole(key);
    StoredInfo(val);
    assert PUT[0] != GET[0];
  }

  lemma StoredInfo(val: bytes)
    requires |val| + 1 < U32
    ensures Stored(val + [NUL]) == val + [NUL] && Stored([]) == []
  {}

  lemma DeleteArrives(maxmem: u64, es: Entries, key: Key)
    requires WholeKey(key) && |key| + 6 <= BUFSIZE
    ensures var m := OverTcp(DELETE, key, []);
            Handle(maxmem, es, m) == Handled(Delete(es, key), None)
  {
    hide Message, Dissect, KeyOf, Set, Delete, Touch, Lookup, WholeKey, Strip;
    MessageLayout(DELETE, key, []);
    StripMessage(DELETE, key, []);
    MessageDissected(DELETE, key, []);
    KeyOfWhole(key);
    assert DELETE[0] != GET[0] && DELETE[0] != PUT[0];
  }

  /** A get of a whole key that fits arrives, and the server answers for this key. */
  lemma GetReaches(maxmem: u64, es: Entries, key: Key, buf: bytes)
    requires |buf| == BUFSIZE && WholeKey(key) && |key| + 6 <= BUFSIZE
    ensures OverUdp(buf, key).Some?
    ensures Handle(maxmem, es, OverUdp(buf, key).value) ==
            match GetReply(key + [NUL], Lookup(es, key))
            case None => Failed
            case Some(reply) => Handled(Touch(es, key), Some(reply))
  {
    hide Message, Dissect, KeyOf, Touch, Lookup, WholeKey, Received, BufferText, GetReply;
    var text := Message(GET, key, []);
    MessageLayout(GET, key, []);
    WholeMessage(GET, key, []);
    DatagramArrives(buf, text);
    StripMessage(GET, key, []);
    MessageDissected(GET, key, []);
    KeyOfWhole(key);
  }

  /** A get arrives; the server fails on an empty value and answers otherwise, whatever the buffers held before. */
  lemma GetAnswered(maxmem: u64, es: Entries, key: Key, buf1: bytes, buf2: bytes)
    requires |buf1| == |buf2| == BUFSIZE
    requires Carried(GetOp(key)) && FromClients(es)
    ensures OverUdp(buf1, key).Some?
    ensures var o := Handle(maxmem, es, OverUdp(buf1, key).value);
            if Lookup(es, key) == Some([]) then o.Failed?
            else
              && o.Handled? && o.es == Touch(es, key) && o.reply.Some?
              && ReadReply(buf2, key, o.reply.value) == Some(Unstored(Lookup(es, key)))
  {
    hide Handle, OverUdp, Touch, Lookup, WholeKey, Plain, GetReply, ReadReply;
    GetReaches(maxmem, es, key, buf1);
    AnswerRead(es, key, buf2);
  }

  /** The reply to a get, and what the client makes of it. */
  lemma AnswerRead(es: Entries, key: Key, buf: bytes)
    requires |buf| == BUFSIZE && Carried(GetOp(key)) && FromClients(es)
    ensures var reply := GetReply(key + [NUL], Lookup(es, key));
            if Lookup(es, key) == Some([]) then reply.None?
            else reply.Some? && ReadReply(buf, key, reply.value) == Some(Unstored(Lookup(es, key)))
  {
    hide Received, MakeJson, UnpackJson, WholeKey, Whole, Plain;
    var found := Lookup(es, key);
    if found.None? {
      DatagramArrives(buf, ERROR_TEXT);
    } else if found.value != [] {
      var v := found.value;
      var e := es[IndexOf(es, key)];
      assert e in es && FromClient(e) && e.val == v && e.key == key;
      var val := v[..|v| - 1];
      assert v == val + [NUL];
      HitRead(key, val, buf);
    }
  }

  lemma HitRead(key: bytes, val: bytes, buf: bytes)
    requires |buf| == BUFSIZE && PlainKey(key) && PlainValue(val) && |key| + |val| + 29 <= BUFSIZE
    ensures CString(val + [NUL]) == Some(val)
    ensures ReadReply(buf, key, MakeJson(key + [NUL], val)) == Some(Some(val))
  {
    hide Received, BufferText, UnpackJson;
    TerminatedString(val);
    var reply := MakeJson(key + [NUL], val);
    ReplyLength(key, val);
    DatagramArrives(buf, reply);
    ReplyUnpacked(key, val);
  }

  lemma ReplyLength(key: bytes, val: bytes)
    requires WholeKey(key) && NUL !in val
    ensures var reply := MakeJson(key + [NUL], val);
            NUL !in reply && |reply| == |key| + |val| + 28 && reply != ERROR_TEXT
  {
    assert (key + [NUL])[..|key|] == key;
    assert MakeJson(key + [NUL], val)[0] != ERROR_TEXT[0];
  }

  // ----- clients -----

  /**
    A call of the client, through the server, on a cache that holds es: the new list and the answer,
    or None if either side throws. recbuf and buf are the datagram buffers of server and client.
  */
  function Remote(maxmem: u64, es: Entries, op: Op, recbuf: bytes, buf: bytes): Option<(Entries, Option<bytes>)>
    requires |recbuf| == |buf| == BUFSIZE
  {
    match op
    case SetOp(key, val) =>
      if |val| > BUFSIZE then Some((es, None)) else Updated(Handle(maxmem, es, OverTcp(PUT, key, val)))
    case DeleteOp(key) => Updated(Handle(maxmem, es, OverTcp(DELETE, key, [])))
    case GetOp(key) =>
      match OverUdp(recbuf, key)
      case None => Replied(es, ReadReply(buf, key, ERROR_TEXT))
      case Some(message) =>
        match Handle(maxmem, es, message)
        case Handled(es', Some(reply)) => Replied(es', ReadReply(buf, key, reply))
        case _ => None
  }

  function Updated(o: Outcome): Option<(Entries, Option<bytes>)> {
    match o
    case Handled(es, _) => Some((es, None))
    case Failed => None
  }

  function Replied(es: Entries, answer: Option<Option<bytes>>): Option<(Entries, Option<bytes>)> {
    match answer
    case Some(a) => Some((es, a))
    case None => None
  }

  /**
    For what the messages can carry, a remote call fails exactly if it is a get of an empty value;
    otherwise it does what the local call does.
  */
  lemma RemoteIsLocal(maxmem: u64, es: Entries, op: Op, recbuf: bytes, buf: bytes)
    requires |recbuf| == |buf| == BUFSIZE && Carried(op) && FromClients(es)
    ensures Remote(maxmem, es, op, recbuf, buf).None? <==> EmptyHit(es, op)
    ensures var stored := AsStored(op);
            && (!EmptyHit(es, op) ==>
                  Remote(maxmem, es, op, recbuf, buf)
                  == Some((Step(maxmem, es, stored), Unstored(Answer(es, stored)))))
            && FromClients(Step(maxmem, es, stored))
  {
    hide OverTcp, OverUdp, Handle, ReadReply, Set, Delete, Touch, Lookup, FromClients, Unstored, StoredValue;
    FromClientsKept(maxmem, es, op);
    match op {
      case SetOp(key, val) => SetArrives(maxmem, es, key, val);
      case DeleteOp(key) => DeleteArrives(maxmem, es, key);
      case GetOp(key) => GetAnswered(maxmem, es, key, recbuf, buf);
    }
    assert Unstored(None) == None by { NothingUnstored(); }
  }

  lemma NobodyYet(maxmem: u64, ops: seq<Op>)
    requires forall k | 0 <= k < |ops| :: Carried(ops[k])
    ensures FromClients([]) && Answered(maxmem, ops, [])
  {}

  lemma NothingUnstored()
    ensures Unstored(None) == None
  {}

  /**
    A put and then a get of the same key: the get fails exactly if the value is empty, and otherwise
    it returns the value exactly if that fits into the cache with its NUL byte.
  */
  lemma GetAfterPut(maxmem: u64, es: Entries, key: Key, val: Value, recbuf: bytes, buf: bytes)
    requires |recbuf| == |buf| == BUFSIZE && FromClients(es) && Inv(maxmem, es) && Carried(SetOp(key, val))
    ensures var put := Remote(maxmem, es, SetOp(key, val), recbuf, buf);
            && put.Some?
            && var got := Remote(maxmem, put.value.0, GetOp(key), recbuf, buf);
               && (got.None? <==> val == [])
               && (val != [] ==> got.value.1 == if |val| + 1 <= maxmem then Some(val) else None)
  {
    hide Remote, FromClients, Inv, WholeKey, Whole, Plain, IndexOf, Evicted, Touch;
    var stored := StoredValue(val);
    RemoteIsLocal(maxmem, es, SetOp(key, val), recbuf, buf);
    RemoteIsLocal(maxmem, Set(maxmem, es, key, stored), GetOp(key), recbuf, buf);
    FoundAfterSet(maxmem, es, key, stored);
    assert (val + [NUL])[..|val|] == val;
  }

  lemma FoundAfterSet(maxmem: u64, es: Entries, key: Key, val: Value)
    requires Inv(maxmem, es)
    ensures Lookup(Set(maxmem, es, key, val), key) == if |val| <= maxmem then Some(val) else None
  {
    DeleteKeeps(maxmem, es, key);
    StepKeeps(maxmem, es, SetOp(key, val));
    var after := Set(maxmem, es, key, val);
    if |val| <= maxmem {
      IndexOfUnique(after, key, |after| - 1);
    }
  }

  /** One call of the client and what the server does for it, on the cache itself. */
  method RemoteCall(cache: Cache, op: Op, recbuf: bytes, buf: bytes) returns (ok: bool, answer: Option<bytes>)
    requires cache.Valid() && |recbuf| == |buf| == BUFSIZE
    modifies cache.Owned(), cache.heap
    ensures cache.Valid()
    ensures match Remote(cache.maxmem, old(cache.Contents()), op, recbuf, buf)
            case None => !ok
            case Some((es, a)) => ok && cache.Contents() == es && answer == a
    ensures cache.Foreign() == old(cache.Foreign())
    ensures forall o | o in cache.Owned() && o !in old(cache.Owned()) :: fresh(o)
  {
    hide Cache.Consistent, Bookkeeping.Sane, Bookkeeping.EntriesOf, Handle, ReadReply, Strip, Message, BufferText,
         Received;
    ok, answer := true, None;
    match op
    case SetOp(key, val) =>
      if |val| > BUFSIZE {
        return;
      }
      var text := StripString(Message(PUT, key, val) + [NUL]);
      var reply;
      ok, reply := ActOnMessage(cache, text);
    case DeleteOp(key) =>
      var text := StripString(Message(DELETE, key, []) + [NUL]);
      var reply;
      ok, reply := ActOnMessage(cache, text);
    case GetOp(key) =>
      var request := BufferText(Received(recbuf, Message(GET, key, [])));
      var reply := Some(ERROR_TEXT);
      if request.Some? {
        var text := StripString(request.value);
        ok, reply := ActOnMessage(cache, text);
      }
      if ok && reply.Some? {
        var read := ReadReply(buf, key, reply.value);
        ok := read.Some?;
        if ok {
          answer := read.value;
        }
      } else {
        ok := false;
      }
  }

  /** The same for a call the messages can carry: it fails or is the local call. */
  method CarriedCall(cache: Cache, op: Op, recbuf: bytes, buf: bytes) returns (ok: bool, answer: Option<bytes>)
    requires cache.Valid() && |recbuf| == |buf| == BUFSIZE && Carried(op) && FromClients(cache.Contents())
    modifies cache.Owned(), cache.heap
    ensures ok == !EmptyHit(old(cache.Contents()), op)
    ensures cache.Valid() && (ok ==> cache.Contents() == Step(cache.maxmem, old(cache.Contents()), AsStored(op)))
    ensures ok ==> FromClients(cache.Contents())
    ensures ok ==> answer == Unstored(Answer(old(cache.Contents()), AsStored(op)))
    ensures cache.Foreign() == old(cache.Foreign())
    ensures forall o | o in cache.Owned() && o !in old(cache.Owned()) :: fresh(o)
  {
    hide Cache.Consistent, Bookkeeping.Sane, Bookkeeping.EntriesOf, Step, Answer, Remote, Unstored, FromClients,
         EmptyHit;
    RemoteIsLocal(cache.maxmem, cache.Contents(), op, recbuf, buf);
    ok, answer := RemoteCall(cache, op, recbuf, buf);
  }

  /** The first answers of a run are those of a local cache, and none of these calls is a get of an empty value. */
  ghost predicate Answered(maxmem: u64, ops: seq<Op>, answers: seq<Option<bytes>>)
    requires forall k | 0 <= k < |ops| :: Carried(ops[k])
  {
    && |answers| <= |ops|
    && forall k | 0 <= k < |answers| ::
         && answers[k] == Unstored(Answers(maxmem, AllStored(ops))[k])
         && !EmptyHit(Run(maxmem, AllStored(ops)[..k]), ops[k])
  }

  lemma AnsweredStep(maxmem: u64, ops: seq<Op>, answers: seq<Option<bytes>>, answer: Option<bytes>)
    requires forall k | 0 <= k < |ops| :: Carried(ops[k])
    requires Answered(maxmem, ops, answers) && |answers| < |ops|
    requires var es := Run(maxmem, AllStored(ops)[..|answers|]);
             !EmptyHit(es, ops[|answers|]) && answer == Unstored(Answer(es, AsStored(ops[|answers|])))
    ensures Answered(maxmem, ops, answers + [answer])
  {
    hide EmptyHit, Unstored, Answer, Carried;
    AnswerAt(maxmem, AllStored(ops), |answers|);
  }

  lemma {:induction false} AnswerAt(maxmem: u64, ops: seq<Op>, k: nat)
    requires k < |ops|
    ensures Answers(maxmem, ops)[k] == Answer(Run(maxmem, ops[..k]), ops[k])
  {
    if k < |ops| - 1 {
      var before := ops[..|ops| - 1];
      AnswerAt(maxmem, before, k);
      assert before[..k] == ops[..k];
    }
  }

  /**
    A client that makes any calls the messages can carry, through the wire, on a cache the server
    has created. Until a get finds an empty value, it is answered as by a local cache that holds
    the other values with their NUL bytes; there the run ends.
  */
  method RunRemoteClient(heap: Heap, maxmem: u64, hash: HashFunc, ops: seq<Op>, bufs: seq<bytes>)
    returns (answers: seq<Option<bytes>>)
    requires |bufs| == |ops| + 1 && forall k | 0 <= k < |bufs| :: |bufs[k]| == BUFSIZE
    requires forall k | 0 <= k < |ops| :: Carried(ops[k])
    modifies heap
    ensures Answered(maxmem, ops, answers)
    ensures |answers| < |ops| ==> EmptyHit(Run(maxmem, AllStored(ops)[..|answers|]), ops[|answers|])
    ensures |answers| == |ops| ==> heap.live == old(heap.live)
  {
    hide Cache.Consistent, Bookkeeping.Sane, Bookkeeping.EntriesOf, Step, Answer, Carried, Unstored, FromClients,
         Received, Message, EmptyHit, Answered;
    NobodyYet(maxmem, ops);
    answers := [];
    var cache := Cache.Create(heap, maxmem, hash);
    var recbuf := bufs[|ops|];
    ghost var stored := AllStored(ops);
    for k := 0 to |ops|
      invariant |answers| == k && |recbuf| == BUFSIZE && Answered(maxmem, ops, answers)
      invariant cache.Valid() && (forall o | o in cache.Owned() :: fresh(o))
      invariant cache.heap == heap && cache.maxmem == maxmem
      invariant cache.Contents() == Run(maxmem, stored[..k]) && FromClients(cache.Contents())
      invariant cache.Foreign() == old(heap.live)
    {
      assert stored[..k + 1][..k] == stored[..k];
      var ok, answer := CarriedCall(cache, ops[k], recbuf, bufs[k]);
      if !ok {
        return;
      }
      AnsweredStep(maxmem, ops, answers, answer);
      if ops[k].GetOp? {
        recbuf := Received(recbuf, Message(GET, ops[k].key, []));
      }
      answers := answers + [answer];
    }
    cache.Destroy();
  }
}
