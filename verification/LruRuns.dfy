/**
  What holds of the cache over every run of set, get and delete calls: it never answers with stale
  data, it forgets only the least recently used keys, it is a plain map while everything fits, and
  a larger cache always holds what a smaller one holds.
*/
module LruRuns {
  import opened Machine
  import opened LruList

  // ----- a history read backwards -----

  /** The value the last set of the key stored, unless the key was deleted since. */
  function LastWrite(ops: seq<Op>, key: Key): Option<bytes> {
    if ops == [] then None
    else
      var op := ops[|ops| - 1];
      if op.key != key || op.GetOp? then LastWrite(ops[..|ops| - 1], key)
      else if op.SetOp? then Some(op.val) else None
  }

  /** The time of the last call that names the key, or -1. */
  function LastUse(ops: seq<Op>, key: Key): int {
    if ops == [] then -1
    else if ops[|ops| - 1].key == key then |ops| - 1
    else LastUse(ops[..|ops| - 1], key)
  }

  lemma {:induction false} LastUseBounded(ops: seq<Op>, key: Key)
    ensures -1 <= LastUse(ops, key) < |ops|
  {
    if ops != [] { LastUseBounded(ops[..|ops| - 1], key); }
  }

  // ----- one step, entry by entry -----

  /**
    After a call that names key, every entry is either an old one for another key, kept in order,
    or the last one, which is the key's own.
  */
  ghost predicate StepShape(es: Entries, op: Op, es': Entries, at: seq<nat>) {
    && |at| <= |es'| <= |at| + 1
    && (forall k | 0 <= k < |at| :: at[k] < |es| && es'[k] == es[at[k]] && es'[k].key != op.key)
    && (forall j, k | 0 <= j < k < |at| :: at[j] < at[k])
    && (|at| < |es'| ==>
          && es'[|at|].key == op.key
          && match op
             case SetOp(key, val) => es'[|at|].val == val
             case GetOp(key) => es'[|at|] in es
             case DeleteOp(key) => false)
  }

  /** Where the entries of Delete(es, key)[n..] come from. */
  ghost function Origins(es: Entries, key: bytes, n: nat): (at: seq<nat>)
    requires n <= |Delete(es, key)|
    ensures |at| == |Delete(es, key)| - n
  {
    var i := IndexOf(es, key);
    seq(|Delete(es, key)| - n, k requires 0 <= k => if k + n < i then k + n else k + n + 1)
  }

  lemma OriginsShape(maxmem: u64, es: Entries, key: bytes, n: nat)
    requires Inv(maxmem, es) && n <= |Delete(es, key)|
    ensures var at := Origins(es, key, n);
            forall k | 0 <= k < |at| ::
              at[k] < |es| && Delete(es, key)[n..][k] == es[at[k]] && es[at[k]].key != key
  {
    var i, at, rest := IndexOf(es, key), Origins(es, key, n), Delete(es, key);
    hide IndexOf, Delete;
    forall k | 0 <= k < |at| ensures at[k] < |es| && rest[n..][k] == es[at[k]] && es[at[k]].key != key {
      assert rest[n..][k] == rest[n + k];
      assert at[k] < |es| && rest[n + k] == es[at[k]] by { OriginAt(es, key, n + k); }
      assert at[k] != i;
    }
  }

  lemma OriginAt(es: Entries, key: bytes, k: nat)
    requires k < |Delete(es, key)|
    ensures var at := if k < IndexOf(es, key) then k else k + 1;
            (IndexOf(es, key) == |es| ==> k < |es|) && at <= |es| && (at < |es| ==> Delete(es, key)[k] == es[at])
  {}

  lemma SetHasShape(maxmem: u64, es: Entries, key: Key, val: Value) returns (at: seq<nat>)
    requires Inv(maxmem, es)
    ensures StepShape(es, SetOp(key, val), Set(maxmem, es, key, val), at)
  {
    hide Delete, Evicted, Inv, IndexOf, Origins, StepShape;
    var rest := Delete(es, key);
    var n := if |val| > maxmem then 0 else Evicted(maxmem, rest, |val|);
    at := Origins(es, key, n);
    OriginsShape(maxmem, es, key, n);
    OriginsAscend(es, key, n);
    assert rest[0..] == rest;
    if |val| > maxmem {
      ShapeOf(es, SetOp(key, val), rest, at);
    } else {
      ShapeWith(es, key, val, rest[n..], at);
    }
  }

  lemma OriginsAscend(es: Entries, key: bytes, n: nat)
    requires n <= |Delete(es, key)|
    ensures forall j, k | 0 <= j < k < |Origins(es, key, n)| :: Origins(es, key, n)[j] < Origins(es, key, n)[k]
  {}

  lemma ShapeOf(es: Entries, op: Op, rest: Entries, at: seq<nat>)
    requires |at| == |rest|
    requires forall k | 0 <= k < |at| :: at[k] < |es| && rest[k] == es[at[k]] && es[at[k]].key != op.key
    requires forall j, k | 0 <= j < k < |at| :: at[j] < at[k]
    ensures StepShape(es, op, rest, at)
  {}

  lemma ShapeWith(es: Entries, key: Key, val: Value, rest: Entries, at: seq<nat>)
    requires |at| == |rest|
    requires forall k | 0 <= k < |at| :: at[k] < |es| && rest[k] == es[at[k]] && es[at[k]].key != key
    requires forall j, k | 0 <= j < k < |at| :: at[j] < at[k]
    ensures StepShape(es, SetOp(key, val), rest + [Entry(key, val)], at)
  {}

  lemma TouchHasShape(maxmem: u64, es: Entries, key: Key) returns (at: seq<nat>)
    requires Inv(maxmem, es)
    ensures StepShape(es, GetOp(key), Touch(es, key), at)
  {
    hide Delete, Touch, IndexOf, Inv, Origins, StepShape;
    var i := IndexOf(es, key);
    TouchParts(es, key);
    if i < |es| {
      at := Origins(es, key, 0);
      OriginsShape(maxmem, es, key, 0);
      OriginsAscend(es, key, 0);
      assert Delete(es, key)[0..] == Delete(es, key);
      ShapeGot(es, key, Delete(es, key), at, i);
    } else {
      at := seq(|es|, k => k);
      ShapeOf(es, GetOp(key), es, at);
    }
  }

  lemma TouchParts(es: Entries, key: bytes)
    ensures var i := IndexOf(es, key);
            if i < |es| then es[i].key == key && Touch(es, key) == Delete(es, key) + [es[i]]
            else Touch(es, key) == es && forall k | 0 <= k < |es| :: es[k].key != key
  {}

  lemma ShapeGot(es: Entries, key: Key, rest: Entries, at: seq<nat>, i: nat)
    requires i < |es| && es[i].key == key && |at| == |rest|
    requires forall k | 0 <= k < |at| :: at[k] < |es| && rest[k] == es[at[k]] && es[at[k]].key != key
    requires forall j, k | 0 <= j < k < |at| :: at[j] < at[k]
    ensures StepShape(es, GetOp(key), rest + [es[i]], at)
  {}

  lemma StepHasShape(maxmem: u64, es: Entries, op: Op) returns (at: seq<nat>)
    requires Inv(maxmem, es)
    ensures StepShape(es, op, Step(maxmem, es, op), at)
  {
    hide StepShape, Set, Touch, Inv;
    match op {
      case SetOp(key, val) => at := SetHasShape(maxmem, es, key, val);
      case GetOp(key) => at := TouchHasShape(maxmem, es, key);
      case DeleteOp(key) => at := DeleteHasShape(maxmem, es, key);
    }
  }

  lemma DeleteHasShape(maxmem: u64, es: Entries, key: Key) returns (at: seq<nat>)
    requires Inv(maxmem, es)
    ensures StepShape(es, DeleteOp(key), Delete(es, key), at)
  {
    hide Delete, IndexOf, Inv, Origins, StepShape;
    at := Origins(es, key, 0);
    OriginsShape(maxmem, es, key, 0);
    OriginsAscend(es, key, 0);
    assert Delete(es, key)[0..] == Delete(es, key);
    ShapeOf(es, DeleteOp(key), Delete(es, key), at);
  }

  // ----- no stale data, least recently used first -----

  ghost predicate Fresh(ops: seq<Op>, es: Entries) {
    forall k | 0 <= k < |es| :: LastWrite(ops, es[k].key) == Some(es[k].val)
  }

  ghost predicate ByRecency(ops: seq<Op>, es: Entries) {
    forall j, k | 0 <= j < k < |es| :: LastUse(ops, es[j].key) < LastUse(ops, es[k].key)
  }

  lemma StepFresh(ops: seq<Op>, op: Op, es: Entries, es': Entries, at: seq<nat>)
    requires Fresh(ops, es) && StepShape(es, op, es', at)
    ensures Fresh(ops + [op], es')
  {
    assert (ops + [op])[..|ops|] == ops;
    forall k | 0 <= k < |es'| ensures LastWrite(ops + [op], es'[k].key) == Some(es'[k].val) {
      if k < |at| {
        assert LastWrite(ops, es[at[k]].key) == Some(es[at[k]].val);
      } else if op.GetOp? {
        var i :| 0 <= i < |es| && es[i] == es'[k];
      }
    }
  }

  lemma StepByRecency(ops: seq<Op>, op: Op, es: Entries, es': Entries, at: seq<nat>)
    requires ByRecency(ops, es) && StepShape(es, op, es', at)
    ensures ByRecency(ops + [op], es')
  {
    assert (ops + [op])[..|ops|] == ops;
    forall j, k | 0 <= j < k < |es'|
      ensures LastUse(ops + [op], es'[j].key) < LastUse(ops + [op], es'[k].key)
    {
      LastUseBounded(ops, es'[j].key);
      if k < |at| {
        assert LastUse(ops, es[at[j]].key) < LastUse(ops, es[at[k]].key);
      }
    }
  }

  lemma StepFreshAndByRecency(maxmem: u64, ops: seq<Op>, op: Op, es: Entries)
    requires Inv(maxmem, es) && Fresh(ops, es) && ByRecency(ops, es)
    ensures Fresh(ops + [op], Step(maxmem, es, op)) && ByRecency(ops + [op], Step(maxmem, es, op))
  {
    var at := StepHasShape(maxmem, es, op);
    StepFresh(ops, op, es, Step(maxmem, es, op), at);
    StepByRecency(ops, op, es, Step(maxmem, es, op), at);
  }

  /** Whatever is in the cache is the last value written under its key, in order of last use. */
  lemma {:induction false} RunIsFreshAndByRecency(maxmem: u64, ops: seq<Op>)
    ensures Fresh(ops, Run(maxmem, ops)) && ByRecency(ops, Run(maxmem, ops))
  {
    if ops != [] {
      var before, op := ops[..|ops| - 1], ops[|ops| - 1];
      RunIsFreshAndByRecency(maxmem, before);
      RunKeeps(maxmem, before);
      assert ops == before + [op];
      StepFreshAndByRecency(maxmem, before, op, Run(maxmem, before));
    }
  }

  /** A get answers with the last value written under the key, or with nothing. */
  lemma NoStaleAnswer(maxmem: u64, ops: seq<Op>, key: Key)
    ensures var a := Answer(Run(maxmem, ops), GetOp(key)); a.Some? ==> a == LastWrite(ops, key)
  {
    RunIsFreshAndByRecency(maxmem, ops);
  }

  /** Every key a set evicts was used before every key it keeps. */
  lemma VictimsAreLeastRecentlyUsed(maxmem: u64, ops: seq<Op>, key: bytes, size: u32, j: nat, k: nat)
    requires var rest := Delete(Run(maxmem, ops), key);
             j < Evicted(maxmem, rest, size) <= k < |rest|
    ensures var rest := Delete(Run(maxmem, ops), key);
            LastUse(ops, rest[j].key) < LastUse(ops, rest[k].key)
  {
    RunIsFreshAndByRecency(maxmem, ops);
    RunKeeps(maxmem, ops);
    var es := Run(maxmem, ops);
    OriginsShape(maxmem, es, key, 0);
    var at := Origins(es, key, 0);
    var rest := Delete(es, key);
    assert rest[0..] == rest;
    assert rest[j] == es[at[j]] && rest[k] == es[at[k]] && at[j] < at[k];
  }

  // ----- while everything fits -----

  /** The list nobody ever evicts from. */
  function Everything(ops: seq<Op>): Entries {
    if ops == [] then []
    else
      var es, op := Everything(ops[..|ops| - 1]), ops[|ops| - 1];
      match op
      case SetOp(key, val) => Delete(es, key) + [Entry(key, val)]
      case GetOp(key) => Touch(es, key)
      case DeleteOp(key) => Delete(es, key)
  }

  ghost predicate AlwaysFits(maxmem: u64, ops: seq<Op>) {
    forall n | 0 <= n <= |ops| :: Sum(Sizes(Everything(ops[..n]))) <= maxmem
  }

  lemma {:induction false} EverythingIsAMap(ops: seq<Op>, key: Key)
    ensures DistinctKeys(Everything(ops))
    ensures Lookup(Everything(ops), key) == LastWrite(ops, key)
  {
    if ops != [] {
      var before, op := ops[..|ops| - 1], ops[|ops| - 1];
      var es := Everything(before);
      EverythingIsAMap(before, key);
      var all := Everything(ops);
      DistinctAfterDelete(es, op.key);
      if op.GetOp? && IndexOf(es, op.key) == |es| {
      } else if key == op.key {
        if !op.DeleteOp? { IndexOfUnique(all, key, |all| - 1); }
      } else {
        LookupAfterDelete(es, op.key, key);
        if !op.DeleteOp? { LookupAppend(Delete(es, op.key), all[|all| - 1], key); }
      }
    }
  }

  lemma LookupAfterDelete(es: Entries, gone: bytes, key: bytes)
    requires DistinctKeys(es) && gone != key
    ensures Lookup(Delete(es, gone), key) == Lookup(es, key)
  {
    var i, k, rest := IndexOf(es, gone), IndexOf(es, key), Delete(es, gone);
    DistinctAfterDelete(es, gone);
    if i < |es| && k < |es| {
      IndexOfUnique(rest, key, if k < i then k else k - 1);
    } else if i < |es| {
      forall j | 0 <= j < |rest| ensures rest[j].key != key {
        assert rest[j] == if j < i then es[j] else es[j + 1];
      }
    }
  }

  lemma LookupAppend(es: Entries, e: Entry, key: bytes)
    requires e.key != key
    ensures Lookup(es + [e], key) == Lookup(es, key)
  {
    var k, k' := IndexOf(es, key), IndexOf(es + [e], key);
    if k < |es| {
      assert (es + [e])[k].key == key;
    }
  }

  lemma SetThatFits(maxmem: u64, es: Entries, key: Key, val: Value)
    requires Sum(Sizes(Delete(es, key) + [Entry(key, val)])) <= maxmem
    ensures Set(maxmem, es, key, val) == Delete(es, key) + [Entry(key, val)]
  {
    var rest := Delete(es, key);
    SizesOps(rest, 0, Entry(key, val));
    SumAppend(Sizes(rest), [|val|]);
    Total64Exact(Sizes(rest));
    assert rest[0..] == rest;
  }

  /** While the live data fits, nothing is evicted: a get finds exactly the last write of its key. */
  lemma {:induction false} PerfectWhileItFits(maxmem: u64, ops: seq<Op>, key: Key)
    requires AlwaysFits(maxmem, ops)
    ensures Run(maxmem, ops) == Everything(ops)
    ensures Answer(Run(maxmem, ops), GetOp(key)) == LastWrite(ops, key)
  {
    hide Set, Touch, Delete, Sum, Sizes, LastWrite, Lookup;
    EverythingIsAMap(ops, key);
    if ops != [] {
      var before, op := ops[..|ops| - 1], ops[|ops| - 1];
      assert forall n | 0 <= n <= |before| :: before[..n] == ops[..n];
      PerfectWhileItFits(maxmem, before, key);
      assert ops[..|ops|] == ops;
      if op.SetOp? {
        SetThatFits(maxmem, Everything(before), op.key, op.val);
      }
    }
  }

  // ----- a larger cache holds what a smaller one holds -----

  /** a is b with some entries left out. */
  ghost predicate Within(a: Entries, b: Entries) {
    if a == [] then true
    else if b == [] then false
    else if a[0] == b[0] then Within(a[1..], b[1..])
    else Within(a, b[1..])
  }

  lemma {:induction false} WithinAppendBoth(a: Entries, b: Entries, e: Entry)
    requires Within(a, b)
    ensures Within(a + [e], b + [e])
  {
    if b == [] {
    } else if a != [] && a[0] == b[0] {
      assert (a + [e])[1..] == a[1..] + [e] && (b + [e])[1..] == b[1..] + [e];
      WithinAppendBoth(a[1..], b[1..], e);
    } else if a == [] && b[0] == e {
      assert (a + [e])[1..] == [];
    } else {
      assert (b + [e])[1..] == b[1..] + [e];
      WithinAppendBoth(a, b[1..], e);
    }
  }

  lemma {:induction false} WithinAppendRight(a: Entries, b: Entries, e: Entry)
    requires Within(a, b)
    ensures Within(a, b + [e])
  {
    if a != [] {
      assert (b + [e])[1..] == b[1..] + [e];
      if a[0] == b[0] { WithinAppendRight(a[1..], b[1..], e); }
      else { WithinAppendRight(a, b[1..], e); }
    }
  }

  lemma {:induction false} WithinDropLeft(a: Entries, b: Entries)
    requires Within(a, b) && a != []
    ensures Within(a[1..], b)
  {
    if a[0] == b[0] {
      if a[1..] != [] {
        if b[0] == a[1] {
          assert b[1..] != [];
          WithinDropLeft(a[1..], b[1..]);
        }
      }
    } else {
      WithinDropLeft(a, b[1..]);
      if a[1..] != [] && a[1] == b[0] { WithinDropLeft(a[1..], b[1..]); }
    }
  }

  lemma {:induction false} WithinIndex(a: Entries, b: Entries, i: nat) returns (k: nat)
    requires Within(a, b) && i < |a|
    ensures k < |b| && b[k] == a[i]
  {
    if a[0] == b[0] {
      if i == 0 { k := 0; } else { k := WithinIndex(a[1..], b[1..], i - 1); k := k + 1; }
    } else {
      k := WithinIndex(a, b[1..], i);
      k := k + 1;
    }
  }

  lemma DeleteHead(es: Entries, key: bytes)
    requires es != []
    ensures Delete(es, key) == if es[0].key == key then es[1..] else [es[0]] + Delete(es[1..], key)
  {
    if es[0].key != key {
      var i := IndexOf(es[1..], key);
      assert IndexOf(es, key) == 1 + i;
      if i < |es| - 1 {
        assert es[..1 + i] == [es[0]] + es[1..][..i] && es[1 + i + 1..] == es[1..][i + 1..];
      }
    }
  }

  lemma {:induction false} WithinDelete(a: Entries, b: Entries, key: bytes)
    requires Within(a, b) && DistinctKeys(b)
    ensures Within(Delete(a, key), Delete(b, key))
  {
    hide Delete, IndexOf;
    if a == [] {
      assert Delete([], key) == [] by { DeleteNothing(key); }
    } else {
      assert b != [];
      DeleteHead(a, key);
      DeleteHead(b, key);
      if a[0] == b[0] {
        WithinDelete(a[1..], b[1..], key);
        if a[0].key != key { WithinCons(b[0], Delete(a[1..], key), Delete(b[1..], key)); }
      } else {
        WithinDelete(a, b[1..], key);
        if b[0].key == key {
          NotWithin(a, b, key);
        } else {
          HeadStaysOut(a, b, key);
          WithinSkip(Delete(a, key), b[0], Delete(b[1..], key));
        }
      }
    }
  }

  lemma DeleteNothing(key: bytes)
    ensures Delete([], key) == []
  {}

  lemma WithinCons(e: Entry, a: Entries, b: Entries)
    requires Within(a, b)
    ensures Within([e] + a, [e] + b)
  {
    assert ([e] + a)[1..] == a && ([e] + b)[1..] == b;
  }

  lemma WithinSkip(a: Entries, e: Entry, b: Entries)
    requires Within(a, b) && (a != [] ==> a[0] != e)
    ensures Within(a, [e] + b)
  {
    assert ([e] + b)[1..] == b;
  }

  /** A key that only b's first entry has is no key of a. */
  lemma NotWithin(a: Entries, b: Entries, key: bytes)
    requires b != [] && Within(a, b[1..]) && DistinctKeys(b) && b[0].key == key
    ensures Delete(a, key) == a
  {
    var i := IndexOf(a, key);
    if i < |a| {
      var k := WithinIndex(a, b[1..], i);
    }
  }

  lemma HeadStaysOut(a: Entries, b: Entries, key: bytes)
    requires b != [] && DistinctKeys(b)
    requires Within(Delete(a, key), Delete(b[1..], key))
    ensures Delete(a, key) != [] ==> Delete(a, key)[0] != b[0]
  {
    if Delete(a, key) != [] {
      var k := WithinIndex(Delete(a, key), Delete(b[1..], key), 0);
      DeleteOnlyRemoves(b[1..], key, k);
    }
  }

  lemma DeleteOnlyRemoves(es: Entries, key: bytes, k: nat)
    requires k < |Delete(es, key)|
    ensures Delete(es, key)[k] in es
  {}

  /** The wrapped total of n values of one size. */
  function Times64(n: nat, size: u32): u64 {
    if n == 0 then 0 else Add64(size, Times64(n - 1, size))
  }

  /** A cache can come to hold n values of one size: no smaller number of them exceeds maxmem. */
  ghost predicate Holds(n: nat, size: u32, maxmem: u64) {
    forall k | 0 <= k <= n :: Times64(k, size) <= maxmem
  }

  lemma {:induction false} UniformTotal(sizes: seq<u32>, size: u32)
    requires forall i | 0 <= i < |sizes| :: sizes[i] == size
    ensures Total64(sizes) == Times64(|sizes|, size)
  {
    if sizes != [] { UniformTotal(sizes[1..], size); }
  }

  /** With values of one size, a cache gives up one entry for a new one if it cannot hold one more, else none. */
  lemma UniformEviction(maxmem: u64, es: Entries, size: u32)
    requires size <= maxmem && Holds(|es|, size, maxmem)
    requires forall i | 0 <= i < |es| :: |es[i].val| == size
    ensures Evicted(maxmem, es, size) == if Holds(|es| + 1, size, maxmem) then 0 else 1
    ensures !Holds(|es| + 1, size, maxmem) ==> es != []
  {
    var sizes := Sizes(es);
    UniformTotal(sizes, size);
    assert Add64(Used(es), size) == Times64(|es| + 1, size);
    assert Times64(1, size) == size && Times64(0, size) == 0;
    assert Times64(|es|, size) <= maxmem;
    UniformCount(sizes, Used(es), size, maxmem);
  }

  lemma UniformCount(sizes: seq<u32>, used: u64, size: u32, maxmem: u64)
    requires (sizes != [] ==> sizes[0] == size) && used <= maxmem
    requires maxmem < Add64(used, size) ==> sizes != []
    ensures EvictCount(sizes, Add64(used, size), maxmem) == if maxmem < Add64(used, size) then 1 else 0
  {
    assert Sub64(Add64(used, size), size) == used;
  }

  ghost predicate OneSize(ops: seq<Op>, size: u32) {
    forall i | 0 <= i < |ops| && ops[i].SetOp? :: |ops[i].val| == size
  }

  ghost predicate Bounded(maxmem: u64, es: Entries, size: u32) {
    && Inv(maxmem, es)
    && (forall i | 0 <= i < |es| :: |es[i].val| == size)
    && Holds(|es|, size, maxmem)
  }

  /** However many more values the cache with la entries can hold, the one with lb entries can, too. */
  ghost predicate Room(m1: u64, m2: u64, la: nat, lb: nat, size: u32) {
    forall p: nat, q: nat | la <= p && q - lb == p - la :: Holds(p, size, m1) ==> Holds(q, size, m2)
  }

  /** The invariant of two runs side by side. */
  ghost predicate Included(m1: u64, m2: u64, a: Entries, b: Entries, size: u32) {
    && Bounded(m1, a, size) && Bounded(m2, b, size)
    && Within(a, b)
    && Room(m1, m2, |a|, |b|, size)
  }

  lemma RoomAfterDelete(m1: u64, m2: u64, la: nat, lb: nat, la': nat, lb': nat, size: u32)
    requires Room(m1, m2, la, lb, size) && Holds(lb, size, m2)
    requires (la' == la || la' + 1 == la) && (lb' == lb || lb' + 1 == lb) && (la' < la ==> lb' < lb)
    ensures Room(m1, m2, la', lb', size)
  {
    forall p: nat, q: nat | la' <= p && q - lb' == p - la' && Holds(p, size, m1) ensures Holds(q, size, m2) {
      if p >= la { assert Holds(p - la + lb, size, m2); }
    }
  }

  lemma RoomAfterInsert(m1: u64, m2: u64, la: nat, lb: nat, n1: nat, n2: nat, size: u32)
    requires Room(m1, m2, la, lb, size) && n1 <= la && n2 <= lb && Holds(lb, size, m2)
    requires n1 == if Holds(la + 1, size, m1) then 0 else 1
    requires n2 == if Holds(lb + 1, size, m2) then 0 else 1
    ensures n2 <= n1 && Room(m1, m2, la - n1 + 1, lb - n2 + 1, size)
    ensures Holds(lb - n2 + 1, size, m2)
  {
    forall p: nat, q: nat | la - n1 + 1 <= p && q - (lb - n2 + 1) == p - (la - n1 + 1) && Holds(p, size, m1)
      ensures Holds(q, size, m2)
    {
      assert p > la ==> Holds(la + 1, size, m1);
      if n1 == n2 { assert Holds(p - la + lb, size, m2); }
    }
  }

  lemma DeleteLength(es: Entries, key: bytes)
    ensures |Delete(es, key)| == |es| - (if HasKey(es, key) then 1 else 0)
  {}

  lemma DeleteBounded(maxmem: u64, es: Entries, key: bytes, size: u32)
    requires Bounded(maxmem, es, size)
    ensures Bounded(maxmem, Delete(es, key), size) && !HasKey(Delete(es, key), key)
  {
    DeleteKeeps(maxmem, es, key);
  }

  lemma IncludedDelete(m1: u64, m2: u64, a: Entries, b: Entries, key: bytes, size: u32)
    requires Included(m1, m2, a, b, size)
    ensures Included(m1, m2, Delete(a, key), Delete(b, key), size)
  {
    WithinDelete(a, b, key);
    DeleteBounded(m1, a, key, size);
    DeleteBounded(m2, b, key, size);
    DeleteLength(a, key);
    DeleteLength(b, key);
    if HasKey(a, key) {
      var i :| 0 <= i < |a| && a[i].key == key;
      var k := WithinIndex(a, b, i);
    }
    RoomAfterDelete(m1, m2, |a|, |b|, |Delete(a, key)|, |Delete(b, key)|, size);
  }

  lemma IncludedInsert(m1: u64, m2: u64, a: Entries, b: Entries, e: Entry, size: u32)
    requires size <= m1 <= m2 && |e.val| == size
    requires Included(m1, m2, a, b, size) && !HasKey(a, e.key) && !HasKey(b, e.key)
    ensures Included(m1, m2, a[Evicted(m1, a, size)..] + [e], b[Evicted(m2, b, size)..] + [e], size)
  {
    hide Within, Holds, Room, Evicted, DistinctKeys, HasKey;
    var n1, n2 := Evicted(m1, a, size), Evicted(m2, b, size);
    InsertBounded(m1, a, e, size);
    InsertBounded(m2, b, e, size);
    assert a[0..] == a && b[0..] == b;
    RoomAfterInsert(m1, m2, |a|, |b|, n1, n2, size);
    if n1 == 1 { WithinDrop(a, b, n2); }
    WithinAppendBoth(a[n1..], b[n2..], e);
  }

  lemma WithinDrop(a: Entries, b: Entries, n: nat)
    requires Within(a, b) && a != [] && n <= 1 && n <= |b|
    ensures Within(a[1..], b[n..])
  {
    WithinDropLeft(a, b);
    if n == 1 && a[0] != b[0] { WithinDropLeft(a, b[1..]); }
    assert b[0..] == b;
  }

  lemma InsertBounded(maxmem: u64, es: Entries, e: Entry, size: u32)
    requires size <= maxmem && |e.val| == size && Bounded(maxmem, es, size) && !HasKey(es, e.key)
    ensures var n := Evicted(maxmem, es, size);
            && n == (if Holds(|es| + 1, size, maxmem) then 0 else 1) && n <= |es|
            && Bounded(maxmem, es[n..] + [e], size)
  {
    UniformEviction(maxmem, es, size);
    var n := Evicted(maxmem, es, size);
    InsertKeeps(maxmem, es[n..], e);
    if n == 0 { assert es[0..] == es; }
  }

  lemma IncludedSet(m1: u64, m2: u64, a: Entries, b: Entries, e: Entry, size: u32)
    requires m1 <= m2 && |e.val| == size
    requires Included(m1, m2, a, b, size) && !HasKey(a, e.key) && !HasKey(b, e.key)
    ensures Included(m1, m2,
                     if size > m1 then a else a[Evicted(m1, a, size)..] + [e],
                     if size > m2 then b else b[Evicted(m2, b, size)..] + [e], size)
  {
    if size <= m1 {
      IncludedInsert(m1, m2, a, b, e, size);
    } else if size <= m2 {
      assert Times64(1, size) == size;
      UniformEviction(m2, b, size);
    }
  }

  lemma IncludedTouch(m1: u64, m2: u64, a: Entries, b: Entries, key: Key, size: u32)
    requires Included(m1, m2, a, b, size)
    requires Included(m1, m2, Delete(a, key), Delete(b, key), size)
    ensures Included(m1, m2, Touch(a, key), Touch(b, key), size)
  {
    TouchBounded(m1, a, key, size);
    TouchBounded(m2, b, key, size);
    TouchWithin(m2, a, b, key);
  }

  lemma TouchBounded(maxmem: u64, es: Entries, key: Key, size: u32)
    requires Bounded(maxmem, es, size)
    ensures Bounded(maxmem, Touch(es, key), size) && |Touch(es, key)| == |es|
  {
    StepKeeps(maxmem, es, GetOp(key));
  }

  lemma TouchWithin(maxmem: u64, a: Entries, b: Entries, key: bytes)
    requires Within(a, b) && Inv(maxmem, b)
    requires Within(Delete(a, key), Delete(b, key))
    ensures Within(Touch(a, key), Touch(b, key))
  {
    var i, k := IndexOf(a, key), IndexOf(b, key);
    if i < |a| {
      var k' := WithinIndex(a, b, i);
      IndexOfUnique(b, key, k');
      WithinAppendBoth(Delete(a, key), Delete(b, key), a[i]);
    } else if k < |b| {
      WithinAppendRight(Delete(a, key), Delete(b, key), b[k]);
    }
  }

  lemma IncludedStep(m1: u64, m2: u64, a: Entries, b: Entries, op: Op, size: u32)
    requires m1 <= m2
    requires op.SetOp? ==> |op.val| == size
    requires Included(m1, m2, a, b, size)
    ensures Included(m1, m2, Step(m1, a, op), Step(m2, b, op), size)
  {
    IncludedDelete(m1, m2, a, b, op.key, size);
    var a', b' := Delete(a, op.key), Delete(b, op.key);
    DeleteBounded(m1, a, op.key, size);
    DeleteBounded(m2, b, op.key, size);
    match op {
      case SetOp(key, val) => IncludedSet(m1, m2, a', b', Entry(key, val), size);
      case GetOp(key) => IncludedTouch(m1, m2, a, b, key, size);
      case DeleteOp(key) =>
    }
  }

  lemma EmptyIncluded(m1: u64, m2: u64, size: u32)
    requires m1 <= m2
    ensures Included(m1, m2, [], [], size)
  {
    assert Times64(0, size) == 0;
  }

  lemma {:induction false} RunsIncluded(m1: u64, m2: u64, ops: seq<Op>, size: u32)
    requires m1 <= m2 && OneSize(ops, size)
    ensures Included(m1, m2, Run(m1, ops), Run(m2, ops), size)
  {
    hide Included, Step;
    if ops == [] {
      EmptyIncluded(m1, m2, size);
    } else {
      var before, op := ops[..|ops| - 1], ops[|ops| - 1];
      RunsIncluded(m1, m2, before, size);
      IncludedStep(m1, m2, Run(m1, before), Run(m2, before), op, size);
    }
  }

  /**
    Two caches fed the same calls, all values of one size: the smaller one's list is the larger
    one's with some entries left out, so every hit of the smaller is a hit of the larger with the
    same answer.
  */
  lemma LargerCacheHitsMore(m1: u64, m2: u64, ops: seq<Op>, size: u32, key: Key)
    requires m1 <= m2 && OneSize(ops, size)
    ensures Within(Run(m1, ops), Run(m2, ops))
    ensures var small := Answer(Run(m1, ops), GetOp(key));
            small.Some? ==> small == Answer(Run(m2, ops), GetOp(key))
  {
    RunsIncluded(m1, m2, ops, size);
    var a, b := Run(m1, ops), Run(m2, ops);
    var i := IndexOf(a, key);
    if i < |a| {
      var k := WithinIndex(a, b, i);
      IndexOfUnique(b, key, k);
    }
  }

  lemma RunSnoc(maxmem: u64, ops: seq<Op>, op: Op)
    ensures Run(maxmem, ops + [op]) == Step(maxmem, Run(maxmem, ops), op)
  {
    assert (ops + [op])[..|ops|] == ops;
  }

  /** Three sets, of a value of one size and two of another. */
  function TwoSizes(s: u32, t: u32): seq<Op> {
    [SetOp([1], Zeros(s))] + [SetOp([2], Zeros(t))] + [SetOp([3], Zeros(t))]
  }

  lemma TwoSizesRun(maxmem: u64, s: u32, t: u32)
    requires s <= maxmem
    ensures var x := Entry([1], Zeros(s));
            Run(maxmem, TwoSizes(s, t)) == Set(maxmem, Set(maxmem, [x], [2], Zeros(t)), [3], Zeros(t))
    ensures Run(maxmem, [SetOp([1], Zeros(s))] + [SetOp([2], Zeros(t))])
            == Set(maxmem, [Entry([1], Zeros(s))], [2], Zeros(t))
  {
    hide Set, Run;
    EmptyRun(maxmem);
    var first, second := [SetOp([1], Zeros(s))], [SetOp([2], Zeros(t))];
    var x := Entry([1], Zeros(s));
    assert [] + first == first && [] + [x] == [x];
    RunSnoc(maxmem, [], first[0]);
    RunSnoc(maxmem, first, second[0]);
    RunSnoc(maxmem, first + second, SetOp([3], Zeros(t)));
    SetNew(maxmem, [], [1], Zeros(s));
  }

  lemma EmptyRun(maxmem: u64)
    ensures Run(maxmem, []) == []
  {}

  /** A cache that holds no more than the smaller size keeps its entry through both larger sets. */
  lemma TwoSizesInSmaller(s: u32, t: u32)
    requires s < t
    ensures Run(s, TwoSizes(s, t)) == [Entry([1], Zeros(s))]
  {
    hide Run;
    TwoSizesRun(s, s, t);
    assert Delete([Entry([1], Zeros(s))], [2]) == [Entry([1], Zeros(s))];
    assert Delete([Entry([1], Zeros(s))], [3]) == [Entry([1], Zeros(s))];
  }

  /** A value that takes all of a full cache evicts everything. */
  lemma SetWhole(maxmem: u64, es: Entries, key: Key, val: Value)
    requires |val| == maxmem && es != [] && !HasKey(es, key)
    requires |es[|es| - 1].val| == maxmem > 0 && Sum(Sizes(es)) <= maxmem
    ensures Set(maxmem, es, key, val) == [Entry(key, val)]
  {
    hide EvictCount, Total64, Sum;
    assert Delete(es, key) == es;
    EvictionExact(maxmem, es, |val|);
    SumOfLast(Sizes(es));
    assert |es| - 1 < Evicted(maxmem, es, |val|);
  }

  lemma SumOfLast(sizes: seq<u32>)
    requires sizes != []
    ensures Sum(sizes[|sizes| - 1..]) == sizes[|sizes| - 1]
  {
    assert Sum(sizes[|sizes| - 1..]) == sizes[|sizes| - 1] + Sum([]);
  }

  /** A cache that just holds the larger size has lost it after them. */
  lemma TwoSizesInLarger(s: u32, t: u32)
    requires s < t
    ensures Run(t, TwoSizes(s, t)) == [Entry([3], Zeros(t))]
  {
    hide Run, Evicted, Sum;
    var x, y := Entry([1], Zeros(s)), Entry([2], Zeros(t));
    TwoSizesRun(t, s, t);
    RunBounded(t, [SetOp([1], Zeros(s))] + [SetOp([2], Zeros(t))]);
    assert Delete([x], [2]) == [x];
    var es := Set(t, [x], [2], Zeros(t));
    var n := Evicted(t, [x], |y.val|);
    assert es == [x][n..] + [y] && ([x][0..] == [x]) && ([x][1..] == []);
    SetWhole(t, es, [3], Zeros(t));
  }

  /** With two sizes the smaller cache can hit where the larger one misses. */
  lemma SmallerHitsMore(s: u32, t: u32)
    requires s < t
    ensures Answer(Run(s, TwoSizes(s, t)), GetOp([1])) == Some(Zeros(s))
    ensures Answer(Run(t, TwoSizes(s, t)), GetOp([1])) == None
    ensures !Within(Run(s, TwoSizes(s, t)), Run(t, TwoSizes(s, t)))
  {
    hide Run;
    TwoSizesInSmaller(s, t);
    TwoSizesInLarger(s, t);
  }

  ghost predicate SizesFrom(ops: seq<Op>, sizes: iset<u32>) {
    forall i | 0 <= i < |ops| && ops[i].SetOp? :: |ops[i].val| in sizes
  }

  /** Any larger cache, fed any calls with values of these sizes, holds what the smaller one holds. */
  ghost predicate AlwaysIncluded(sizes: iset<u32>) {
    forall m1: u64, m2: u64, ops: seq<Op> | m1 <= m2 && SizesFrom(ops, sizes) :: Within(Run(m1, ops), Run(m2, ops))
  }

  /** A larger cache always holds what a smaller one holds exactly when all values have one size. */
  lemma IncludedExactlyForOneSize(sizes: iset<u32>)
    ensures AlwaysIncluded(sizes) <==> forall s, t | s in sizes && t in sizes :: s == t
  {
    hide Run, Within;
    if s, t :| s in sizes && t in sizes && s < t {
      SmallerHitsMore(s, t);
      assert SizesFrom(TwoSizes(s, t), sizes);
    } else {
      forall m1: u64, m2: u64, ops: seq<Op> | m1 <= m2 && SizesFrom(ops, sizes)
        ensures Within(Run(m1, ops), Run(m2, ops))
      {
        var size: u32 := if s :| s in sizes then s else 0;
        RunsIncluded(m1, m2, ops, size);
      }
    }
  }
}
