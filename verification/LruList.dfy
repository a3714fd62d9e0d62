/**
  The cache as its clients see it: one short list of (key, value) pairs, least recently used
  first. The linked structures of HashCache and Replacement are proved to behave like these
  functions; what a cache promises is proved here, about the functions.

  Byte counts are uint64_t and wrap, as in the C code, so nothing here assumes a bound on maxmem.
*/
module LruList {
  import opened Machine

  /** A value: its length is passed around as a uint32_t. */
  type Value = v: bytes | |v| < U32

  datatype Entry = Entry(key: Key, val: Value)
  type Entries = seq<Entry>

  datatype Op = SetOp(key: Key, val: Value) | GetOp(key: Key) | DeleteOp(key: Key)

  // ----- lists of entries -----

  function Sum(sizes: seq<u32>): nat {
    if sizes == [] then 0 else sizes[0] + Sum(sizes[1..])
  }

  function Sizes(es: Entries): (s: seq<u32>)
    ensures |s| == |es|
  {
    seq(|es|, i requires 0 <= i < |es| => |es[i].val|)
  }

  /** The total kept in a uint64_t. */
  function Total64(sizes: seq<u32>): u64 {
    if sizes == [] then 0 else Add64(sizes[0], Total64(sizes[1..]))
  }

  function Used(es: Entries): u64 { Total64(Sizes(es)) }

  /** The position of a key, or |es|. */
  function IndexOf(es: Entries, key: bytes): (i: nat)
    ensures i <= |es|
    ensures i < |es| ==> es[i].key == key
    ensures forall j | 0 <= j < i :: es[j].key != key
  {
    if es == [] then 0
    else if es[0].key == key then 0
    else 1 + IndexOf(es[1..], key)
  }

  function RemoveAt<T>(s: seq<T>, i: nat): seq<T>
    requires i < |s|
  {
    s[..i] + s[i + 1..]
  }

  ghost predicate HasKey(es: Entries, key: bytes) {
    exists i :: 0 <= i < |es| && es[i].key == key
  }

  ghost predicate DistinctKeys(es: Entries) {
    forall i, j :: 0 <= i < j < |es| ==> es[i].key != es[j].key
  }

  // ----- the operations -----

  /** How many of the least recently used items the policy gives up, tot being the wrapped total. */
  function EvictCount(sizes: seq<u32>, tot: u64, maxmem: u64): (n: nat)
    ensures n <= |sizes|
  {
    if tot <= maxmem || sizes == [] then 0
    else 1 + EvictCount(sizes[1..], Sub64(tot, sizes[0]), maxmem)
  }

  function Delete(es: Entries, key: bytes): Entries {
    var i := IndexOf(es, key);
    if i < |es| then RemoveAt(es, i) else es
  }

  function Lookup(es: Entries, key: bytes): Option<bytes> {
    var i := IndexOf(es, key);
    if i < |es| then Some(es[i].val) else None
  }

  /** What a hit does to the list: the entry becomes the most recent one. */
  function Touch(es: Entries, key: bytes): Entries {
    var i := IndexOf(es, key);
    if i < |es| then RemoveAt(es, i) + [es[i]] else es
  }

  function Evicted(maxmem: u64, es: Entries, size: u32): (n: nat)
    ensures n <= |es|
  {
    EvictCount(Sizes(es), Add64(Used(es), size), maxmem)
  }

  function Set(maxmem: u64, es: Entries, key: Key, val: Value): Entries {
    var rest := Delete(es, key);
    if |val| > maxmem then rest
    else rest[Evicted(maxmem, rest, |val|)..] + [Entry(key, val)]
  }

  function Step(maxmem: u64, es: Entries, op: Op): Entries {
    match op
    case SetOp(key, val) => Set(maxmem, es, key, val)
    case GetOp(key) => Touch(es, key)
    case DeleteOp(key) => Delete(es, key)
  }

  /** The answer of an operation: only a get has one. */
  function Answer(es: Entries, op: Op): Option<bytes> {
    if op.GetOp? then Lookup(es, op.key) else None
  }

  /** The list after a whole run that starts from create_cache. */
  function Run(maxmem: u64, ops: seq<Op>): Entries {
    if ops == [] then [] else Step(maxmem, Run(maxmem, ops[..|ops| - 1]), ops[|ops| - 1])
  }

  /** The answers of all calls of a run, in order. */
  function Answers(maxmem: u64, ops: seq<Op>): (r: seq<Option<bytes>>)
    ensures |r| == |ops|
  {
    if ops == [] then []
    else
      var before := ops[..|ops| - 1];
      Answers(maxmem, before) + [Answer(Run(maxmem, before), ops[|ops| - 1])]
  }

  // ----- what every run keeps -----

  ghost predicate AllFit(maxmem: u64, es: Entries) {
    forall i | 0 <= i < |es| :: |es[i].val| <= maxmem
  }

  ghost predicate Inv(maxmem: u64, es: Entries) {
    DistinctKeys(es) && AllFit(maxmem, es)
  }

  lemma IndexOfUnique(es: Entries, key: bytes, i: nat)
    requires DistinctKeys(es) && i < |es| && es[i].key == key
    ensures IndexOf(es, key) == i
  {}

  lemma DistinctAfterDelete(es: Entries, key: bytes)
    requires DistinctKeys(es)
    ensures DistinctKeys(Delete(es, key)) && !HasKey(Delete(es, key), key)
  {
    var i, rest := IndexOf(es, key), Delete(es, key);
    forall k | 0 <= k < |rest| ensures rest[k].key != key {
      assert rest[k] == if k < i then es[k] else es[k + 1];
    }
  }

  lemma DeleteKeeps(maxmem: u64, es: Entries, key: bytes)
    requires Inv(maxmem, es)
    ensures Inv(maxmem, Delete(es, key)) && !HasKey(Delete(es, key), key)
  {
    DistinctAfterDelete(es, key);
  }

  lemma InsertKeeps(maxmem: u64, es: Entries, e: Entry)
    requires Inv(maxmem, es) && !HasKey(es, e.key) && |e.val| <= maxmem
    ensures Inv(maxmem, es + [e])
  {}

  lemma StepKeeps(maxmem: u64, es: Entries, op: Op)
    requires Inv(maxmem, es)
    ensures Inv(maxmem, Step(maxmem, es, op))
  {
    DeleteKeeps(maxmem, es, op.key);
    match op {
      case SetOp(key, val) =>
      case GetOp(key) =>
        var i := IndexOf(es, key);
        if i < |es| {
          assert Delete(es, key) == RemoveAt(es, i);
        }
      case DeleteOp(key) =>
    }
  }

  lemma {:induction false} RunKeeps(maxmem: u64, ops: seq<Op>)
    ensures Inv(maxmem, Run(maxmem, ops))
  {
    if ops != [] {
      RunKeeps(maxmem, ops[..|ops| - 1]);
      StepKeeps(maxmem, Run(maxmem, ops[..|ops| - 1]), ops[|ops| - 1]);
    }
  }

  // ----- sums -----

  lemma {:induction false} SumAppend(a: seq<u32>, b: seq<u32>)
    ensures Sum(a + b) == Sum(a) + Sum(b)
  {
    if a == [] {
      assert a + b == b;
    } else {
      assert (a + b)[1..] == a[1..] + b;
      SumAppend(a[1..], b);
    }
  }

  lemma SumSplit(s: seq<u32>, i: nat)
    requires i <= |s|
    ensures Sum(s) == Sum(s[..i]) + Sum(s[i..])
  {
    assert s == s[..i] + s[i..];
    SumAppend(s[..i], s[i..]);
  }

  lemma SumRemoveAt(s: seq<u32>, i: nat)
    requires i < |s|
    ensures Sum(RemoveAt(s, i)) == Sum(s) - s[i]
  {
    SumSplit(s, i);
    SumAppend(s[..i], s[i + 1..]);
    assert s[i..][1..] == s[i + 1..];
  }

  lemma SizesOps(es: Entries, i: nat, e: Entry)
    requires i <= |es|
    ensures Sizes(es[i..]) == Sizes(es)[i..]
    ensures Sizes(es + [e]) == Sizes(es) + [|e.val|]
    ensures i < |es| ==> Sizes(RemoveAt(es, i)) == RemoveAt(Sizes(es), i)
  {}

  lemma {:induction false} Total64Append(s: seq<u32>, x: u32)
    ensures Total64(s + [x]) == Add64(Total64(s), x)
  {
    if s != [] {
      assert (s + [x])[1..] == s[1..] + [x];
      Total64Append(s[1..], x);
    }
  }

  lemma {:induction false} Total64RemoveAt(s: seq<u32>, i: nat)
    requires i < |s|
    ensures Total64(RemoveAt(s, i)) == Sub64(Total64(s), s[i])
  {
    if i == 0 {
      assert RemoveAt(s, 0) == s[1..];
    } else {
      assert RemoveAt(s, i)[1..] == RemoveAt(s[1..], i - 1);
      Total64RemoveAt(s[1..], i - 1);
    }
  }

  lemma {:induction false} Total64Exact(s: seq<u32>)
    requires Sum(s) < U64
    ensures Total64(s) == Sum(s)
  {
    if s != [] { Total64Exact(s[1..]); }
  }

  // ----- exact eviction -----

  /** The first n items are those that do not fit below all more recent items and the new one. */
  ghost predicate TakesExactly(n: nat, sizes: seq<u32>, size: u32, maxmem: u64) {
    forall i | 0 <= i < |sizes| :: i < n <==> Sum(sizes[i..]) + size > maxmem
  }

  /** With an exact total, item i goes iff it, all more recent items and the new one do not fit. */
  lemma {:induction false} EvictCountAt(sizes: seq<u32>, tot: u64, size: u32, maxmem: u64, i: nat)
    requires tot == Sum(sizes) + size && i < |sizes|
    ensures i < EvictCount(sizes, tot, maxmem) <==> Sum(sizes[i..]) + size > maxmem
  {
    if tot <= maxmem {
      SumSplit(sizes, i);
    } else if i == 0 {
      assert sizes[0..] == sizes;
    } else {
      assert sizes[i..] == sizes[1..][i - 1..];
      EvictCountAt(sizes[1..], tot - sizes[0], size, maxmem, i - 1);
    }
  }

  lemma {:induction false} EvictCountLeavesRoom(sizes: seq<u32>, tot: u64, size: u32, maxmem: u64)
    requires tot == Sum(sizes) + size && size <= maxmem
    ensures Sum(sizes[EvictCount(sizes, tot, maxmem)..]) + size <= maxmem
  {
    if tot <= maxmem || sizes == [] {
      assert sizes[0..] == sizes;
    } else {
      var n := EvictCount(sizes, tot, maxmem);
      assert sizes[n..] == sizes[1..][n - 1..];
      EvictCountLeavesRoom(sizes[1..], tot - sizes[0], size, maxmem);
    }
  }

  /**
    However often the total has wrapped, what is left after an eviction has room for the new item:
    the assertion of create_info cannot fail.
  */
  lemma {:induction false} EvictionMakesRoom(sizes: seq<u32>, size: u32, maxmem: u64)
    requires size <= maxmem
    ensures var n := EvictCount(sizes, Add64(Total64(sizes), size), maxmem);
            Add64(Total64(sizes[n..]), size) <= maxmem
  {
    if Add64(Total64(sizes), size) <= maxmem || sizes == [] {
      assert sizes[0..] == sizes;
    } else {
      var n := EvictCount(sizes, Add64(Total64(sizes), size), maxmem);
      assert sizes[n..] == sizes[1..][n - 1..];
      assert Sub64(Add64(Total64(sizes), size), sizes[0]) == Add64(Total64(sizes[1..]), size);
      EvictionMakesRoom(sizes[1..], size, maxmem);
    }
  }

  ghost predicate EvictsExactly(maxmem: u64, es: Entries, size: u32) {
    TakesExactly(Evicted(maxmem, es, size), Sizes(es), size, maxmem)
  }

  lemma WrappedEvictsNone(maxmem: u64, es: Entries, size: u32)
    requires Sum(Sizes(es)) <= maxmem && size <= maxmem && U64 <= Sum(Sizes(es)) + size
    ensures Evicted(maxmem, es, size) == 0 && !EvictsExactly(maxmem, es, size)
  {
    var sizes := Sizes(es);
    Total64Exact(sizes);
    assert Add64(Used(es), size) <= size;
    assert sizes[0..] == sizes;
    assert |es| > 0;
  }

  /**
    The policy gives up exactly the entries that have to go, and leaves room, if and only if its
    64-bit total does not wrap. When the total wraps, nothing is given up at all.
  */
  lemma EvictionExact(maxmem: u64, es: Entries, size: u32)
    requires Sum(Sizes(es)) <= maxmem && size <= maxmem
    ensures EvictsExactly(maxmem, es, size) <==> Sum(Sizes(es)) + size < U64
    ensures Sum(Sizes(es)) + size < U64 ==>
              Sum(Sizes(es)[Evicted(maxmem, es, size)..]) + size <= maxmem
    ensures Sum(Sizes(es)) + size >= U64 ==> Evicted(maxmem, es, size) == 0
  {
    var sizes := Sizes(es);
    Total64Exact(sizes);
    if Sum(sizes) + size < U64 {
      EvictCountLeavesRoom(sizes, Sum(sizes) + size, size, maxmem);
      forall i | 0 <= i < |sizes|
        ensures i < Evicted(maxmem, es, size) <==> Sum(sizes[i..]) + size > maxmem
      {
        EvictCountAt(sizes, Sum(sizes) + size, size, maxmem, i);
      }
    } else {
      WrappedEvictsNone(maxmem, es, size);
    }
  }

  // ----- the memory bound over whole runs -----

  lemma DeleteShrinks(es: Entries, key: bytes)
    ensures Sum(Sizes(Delete(es, key))) <= Sum(Sizes(es))
  {
    var i := IndexOf(es, key);
    if i < |es| {
      SizesOps(es, i, es[i]);
      SumRemoveAt(Sizes(es), i);
    }
  }

  lemma TouchKeepsSum(es: Entries, key: bytes)
    ensures Sum(Sizes(Touch(es, key))) == Sum(Sizes(es))
  {
    var i := IndexOf(es, key);
    if i < |es| {
      SizesOps(es, i, es[i]);
      SumRemoveAt(Sizes(es), i);
      SizesOps(RemoveAt(es, i), 0, es[i]);
      SumAppend(Sizes(RemoveAt(es, i)), [|es[i].val|]);
    }
  }

  lemma StepBounded(maxmem: u64, es: Entries, op: Op)
    requires maxmem + U32 <= U64 && Sum(Sizes(es)) <= maxmem
    ensures Sum(Sizes(Step(maxmem, es, op))) <= maxmem
  {
    match op {
      case SetOp(key, val) =>
        var rest := Delete(es, key);
        DeleteShrinks(es, key);
        if |val| <= maxmem {
          EvictionExact(maxmem, rest, |val|);
          var n := Evicted(maxmem, rest, |val|);
          SizesOps(rest, n, Entry(key, val));
          SizesOps(rest[n..], 0, Entry(key, val));
          SumAppend(Sizes(rest[n..]), [|val|]);
        }
      case GetOp(key) => TouchKeepsSum(es, key);
      case DeleteOp(key) => DeleteShrinks(es, key);
    }
  }

  lemma {:induction false} RunBounded(maxmem: u64, ops: seq<Op>)
    requires maxmem + U32 <= U64
    ensures Sum(Sizes(Run(maxmem, ops))) <= maxmem
  {
    if ops != [] {
      RunBounded(maxmem, ops[..|ops| - 1]);
      StepBounded(maxmem, Run(maxmem, ops[..|ops| - 1]), ops[|ops| - 1]);
    }
  }

  function Zeros(n: nat): (s: bytes)
    ensures |s| == n
  {
    seq(n, _ => 0)
  }

  function Ones(n: nat): (k: Key)
    ensures |k| == n
  {
    seq(n, _ => 1)
  }

  /** n sets of the largest value a uint32_t can measure, under n different keys. */
  function Fill(n: nat): (ops: seq<Op>)
    ensures |ops| == n
  {
    if n == 0 then [] else Fill(n - 1) + [SetOp(Ones(n), Zeros(U32 - 1))]
  }

  /** Setting a new key whose value fits in the 64-bit total evicts nothing. */
  lemma SetNew(maxmem: u64, es: Entries, key: Key, val: Value)
    requires !HasKey(es, key) && |val| <= maxmem && Sum(Sizes(es)) < U64
    requires Add64(Sum(Sizes(es)), |val|) <= maxmem
    ensures Set(maxmem, es, key, val) == es + [Entry(key, val)]
    ensures Sum(Sizes(es + [Entry(key, val)])) == Sum(Sizes(es)) + |val|
  {
    assert IndexOf(es, key) == |es|;
    Total64Exact(Sizes(es));
    SizesOps(es, 0, Entry(key, val));
    SumAppend(Sizes(es), [|val|]);
    assert es[0..] == es;
  }

  lemma FillStep(maxmem: u64, es: Entries, n: nat, val: Value)
    requires 0 < n <= U32 && U64 - U32 < maxmem && |val| == U32 - 1
    requires Sum(Sizes(es)) == (n - 1) * (U32 - 1)
    requires forall i | 0 <= i < |es| :: 0 < |es[i].key| < n
    ensures var es' := Set(maxmem, es, Ones(n), val);
            && Sum(Sizes(es')) == n * (U32 - 1)
            && forall i | 0 <= i < |es'| :: 0 < |es'[i].key| <= n
  {
    assert n * (U32 - 1) == (n - 1) * (U32 - 1) + (U32 - 1) <= U32 * (U32 - 1) == U64 - U32;
    SetNew(maxmem, es, Ones(n), val);
  }

  lemma {:induction false} FillRun(maxmem: u64, n: nat)
    requires n <= U32 && U64 - U32 < maxmem
    ensures Sum(Sizes(Run(maxmem, Fill(n)))) == n * (U32 - 1)
    ensures forall i | 0 <= i < |Run(maxmem, Fill(n))| :: 0 < |Run(maxmem, Fill(n))[i].key| <= n
  {
    if n > 0 {
      FillRun(maxmem, n - 1);
      assert Fill(n)[..n - 1] == Fill(n - 1);
      var es := Run(maxmem, Fill(n - 1));
      var val: Value := Zeros(U32 - 1);
      FillStep(maxmem, es, n, val);
    }
  }

  /** A run whose last set wraps the policy's total. */
  function Overflowing(): seq<Op> {
    Fill(U32) + [SetOp([], [0])] + [SetOp(Ones(U32 + 1), Zeros(U32 - 1))]
  }

  lemma OverflowingRun(maxmem: u64)
    requires U64 - U32 < maxmem
    ensures Sum(Sizes(Run(maxmem, Overflowing()))) == U64
  {
    var ops := Overflowing();
    FillRun(maxmem, U32);
    var es := Run(maxmem, Fill(U32));
    assert ops[..|ops| - 1] == Fill(U32) + [SetOp([], [0])];
    assert (Fill(U32) + [SetOp([], [0])])[..U32] == Fill(U32);
    SetNew(maxmem, es, [], [0]);
    SetNew(maxmem, es + [Entry([], [0])], Ones(U32 + 1), Zeros(U32 - 1));
  }

  /** Every run from an empty cache stays within maxmem iff no 64-bit total can wrap below it. */
  lemma MemoryBound(maxmem: u64)
    ensures (forall ops: seq<Op> :: Sum(Sizes(Run(maxmem, ops))) <= maxmem)
            <==> maxmem + U32 <= U64
  {
    if maxmem + U32 <= U64 {
      forall ops: seq<Op> ensures Sum(Sizes(Run(maxmem, ops))) <= maxmem {
        RunBounded(maxmem, ops);
      }
    } else {
      OverflowingRun(maxmem);
    }
  }
}
