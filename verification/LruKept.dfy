/**
  Which entries a call leaves in the list, and in which order, said without the functions that
  compute it: by the keys, the sizes and the places of the entries before the call.
*/
module LruKept {
  import opened Machine
  import opened LruList
  import LruRuns

  /** The entries with other keys, in their order. */
  function Others(es: Entries, key: bytes): Entries {
    if es == [] then []
    else (if es[0].key == key then [] else [es[0]]) + Others(es[1..], key)
  }

  /** What the entries with other keys take. */
  function OthersSize(es: Entries, key: bytes): nat {
    if es == [] then 0
    else (if es[0].key == key then 0 else |es[0].val|) + OthersSize(es[1..], key)
  }

  lemma {:induction false} OthersSizeIsSum(es: Entries, key: bytes)
    ensures OthersSize(es, key) == Sum(Sizes(Others(es, key)))
  {
    if es != [] {
      OthersSizeIsSum(es[1..], key);
      var rest := Others(es[1..], key);
      if es[0].key == key {
        assert Others(es, key) == rest;
      } else {
        assert Sizes([es[0]] + rest)[1..] == Sizes(rest);
      }
    }
  }

  lemma {:induction false} OthersAppend(a: Entries, b: Entries, key: bytes)
    ensures Others(a + b, key) == Others(a, key) + Others(b, key)
  {
    if a == [] {
      assert a + b == b;
    } else {
      assert (a + b)[1..] == a[1..] + b;
      OthersAppend(a[1..], b, key);
    }
  }

  lemma {:induction false} OthersAll(es: Entries, key: bytes)
    requires forall i | 0 <= i < |es| :: es[i].key != key
    ensures Others(es, key) == es
  {
    if es != [] {
      OthersAll(es[1..], key);
      assert [es[0]] + es[1..] == es;
    }
  }

  lemma OthersSplit(es: Entries, i: nat, key: bytes)
    requires i <= |es|
    ensures Others(es, key) == Others(es[..i], key) + Others(es[i..], key)
  {
    assert es == es[..i] + es[i..];
    OthersAppend(es[..i], es[i..], key);
  }

  /** The entries with another key are what delete leaves. */
  lemma OthersAreLeft(es: Entries, key: bytes)
    requires DistinctKeys(es)
    ensures Delete(es, key) == Others(es, key)
  {
    var i := IndexOf(es, key);
    if i < |es| {
      OthersSplit(es, i, key);
      OthersAll(es[..i], key);
      OthersAll(es[i + 1..], key);
      assert es[i..][1..] == es[i + 1..];
      assert Others(es[i..], key) == Others(es[i + 1..], key);
    } else {
      OthersAll(es, key);
    }
  }

  // ----- the total -----

  lemma {:induction false} Total64IsRemainder(sizes: seq<u32>)
    ensures Total64(sizes) == Sum(sizes) % U64
  {
    if sizes != [] { Total64IsRemainder(sizes[1..]); }
  }

  /** The items from n on and the new one, as far as 64 bits can tell, fit. */
  predicate Fits(sizes: seq<u32>, n: nat, size: u32, maxmem: u64)
    requires n <= |sizes|
  {
    (Sum(sizes[n..]) + size) % U64 <= maxmem
  }

  /** The policy gives up the shortest prefix without which the rest and the new item fit. */
  lemma {:induction false} EvictCountIsLeast(sizes: seq<u32>, tot: u64, size: u32, maxmem: u64)
    requires tot == (Sum(sizes) + size) % U64 && size <= maxmem
    ensures var n := EvictCount(sizes, tot, maxmem);
            Fits(sizes, n, size, maxmem) && forall m | 0 <= m < n :: !Fits(sizes, m, size, maxmem)
  {
    hide Fits, Sub64;
    FitsWhole(sizes, size, maxmem);
    if tot > maxmem && sizes != [] {
      var n := EvictCount(sizes, tot, maxmem);
      WithoutFirst(Sum(sizes[1..]) + size, sizes[0]);
      EvictCountIsLeast(sizes[1..], Sub64(tot, sizes[0]), size, maxmem);
      FitsLater(sizes, n, size, maxmem);
      forall m | 0 < m < n ensures !Fits(sizes, m, size, maxmem) {
        assert !Fits(sizes[1..], m - 1, size, maxmem);
        FitsLater(sizes, m, size, maxmem);
      }
    }
  }

  lemma WithoutFirst(rest: nat, first: u32)
    ensures Sub64((first + rest) % U64, first) == rest % U64
  {}

  lemma FitsWhole(sizes: seq<u32>, size: u32, maxmem: u64)
    ensures Fits(sizes, 0, size, maxmem) <==> (Sum(sizes) + size) % U64 <= maxmem
  {
    assert sizes[0..] == sizes;
  }

  lemma FitsLater(sizes: seq<u32>, m: nat, size: u32, maxmem: u64)
    requires 0 < m <= |sizes|
    ensures Fits(sizes, m, size, maxmem) <==> Fits(sizes[1..], m - 1, size, maxmem)
  {
    assert sizes[m..] == sizes[1..][m - 1..];
  }

  // ----- what a call leaves -----

  /** The longest end of a list that has room for an item of a given size, as far as 64 bits can tell. */
  ghost predicate LongestEnd(es: Entries, n: nat, size: u32, maxmem: u64)
    requires n <= |es|
  {
    Fits(Sizes(es), n, size, maxmem) && forall m | 0 <= m < n :: !Fits(Sizes(es), m, size, maxmem)
  }

  /**
    A set drops the old entry of its key. A value that is larger than maxmem changes nothing else;
    any other is put behind the longest end of the other entries that leaves room for it.
  */
  lemma SetLeaves(maxmem: u64, es: Entries, key: Key, val: Value)
    requires DistinctKeys(es)
    ensures var after, rest := Step(maxmem, es, SetOp(key, val)), Others(es, key);
            if |val| > maxmem then after == rest
            else exists n | 0 <= n <= |rest| && LongestEnd(rest, n, |val|, maxmem) ::
              after == rest[n..] + [Entry(key, val)]
  {
    hide Evicted, LongestEnd, Others;
    OthersAreLeft(es, key);
    if |val| <= maxmem { EvictionLeaves(maxmem, Others(es, key), |val|); }
  }

  lemma EvictionLeaves(maxmem: u64, es: Entries, size: u32)
    requires size <= maxmem
    ensures LongestEnd(es, Evicted(maxmem, es, size), size, maxmem)
  {
    hide Fits, Total64, Sum;
    Total64IsRemainder(Sizes(es));
    assert Add64(Used(es), size) == (Sum(Sizes(es)) + size) % U64;
    EvictCountIsLeast(Sizes(es), Add64(Used(es), size), size, maxmem);
  }

  /** A get puts the entry of its key behind the others, a delete drops it. */
  lemma GetAndDeleteLeave(maxmem: u64, es: Entries, key: Key)
    requires DistinctKeys(es)
    ensures Step(maxmem, es, DeleteOp(key)) == Others(es, key)
    ensures forall i | 0 <= i < |es| && es[i].key == key :: Step(maxmem, es, GetOp(key)) == Others(es, key) + [es[i]]
    ensures (forall i | 0 <= i < |es| :: es[i].key != key) ==> Step(maxmem, es, GetOp(key)) == es
  {
    OthersAreLeft(es, key);
    forall i | 0 <= i < |es| && es[i].key == key
      ensures Step(maxmem, es, GetOp(key)) == Others(es, key) + [es[i]]
    {
      IndexOfUnique(es, key, i);
    }
  }

  // ----- entry by entry -----

  /** An entry and the later ones with other keys leave room for an item of a given size. */
  predicate Stays(es: Entries, i: nat, key: bytes, size: u32, maxmem: u64)
    requires i < |es|
  {
    OthersSize(es[i..], key) + size <= maxmem
  }

  /** Where an entry with another key stands among the others. */
  lemma PlaceAmongOthers(es: Entries, i: nat, key: bytes) returns (k: nat)
    requires i < |es| && es[i].key != key
    ensures k == |Others(es[..i], key)| < |Others(es, key)| && Others(es, key)[k] == es[i]
    ensures Sum(Sizes(Others(es, key))[k..]) == OthersSize(es[i..], key)
  {
    k := |Others(es[..i], key)|;
    OthersSplit(es, i, key);
    OthersSizeIsSum(es[i..], key);
    var rest := Others(es, key);
    assert rest[k..] == Others(es[i..], key);
    assert Sizes(rest)[k..] == Sizes(rest[k..]);
  }

  /** And where one of the others stands in the list. */
  lemma {:induction false} AmongOthers(es: Entries, key: bytes, k: nat) returns (i: nat)
    requires k < |Others(es, key)|
    ensures i < |es| && es[i] == Others(es, key)[k] && es[i].key != key
  {
    if es[0].key == key {
      i := AmongOthers(es[1..], key, k);
      i := i + 1;
    } else if k == 0 {
      i := 0;
    } else {
      i := AmongOthers(es[1..], key, k - 1);
      i := i + 1;
    }
  }

  /** Without a wrap the longest end takes the entries that leave room, and no others. */
  lemma EndTakes(es: Entries, n: nat, size: u32, maxmem: u64, k: nat)
    requires n <= |es| && LongestEnd(es, n, size, maxmem) && Sum(Sizes(es)) + size < U64 && k < |es|
    ensures n <= k <==> Sum(Sizes(es)[k..]) + size <= maxmem
  {
    SumSplit(Sizes(es), k);
    SumSplit(Sizes(es), n);
    if n <= k {
      SumSplit(Sizes(es)[n..], k - n);
      assert Sizes(es)[n..][k - n..] == Sizes(es)[k..];
    } else {
      assert !Fits(Sizes(es), k, size, maxmem);
    }
  }

  /**
    While the 64-bit total does not wrap, an entry with another key is still in the list after a set
    exactly if the value is refused, or if the entry, the later ones with other keys and the value
    have room together. Nothing else is in the list but the new entry, which is last; it is there
    exactly if the value is not refused.
  */
  lemma SetKeepsExactly(maxmem: u64, es: Entries, key: Key, val: Value)
    requires DistinctKeys(es) && OthersSize(es, key) + |val| < U64
    ensures var after := Step(maxmem, es, SetOp(key, val));
            && (forall i | 0 <= i < |es| && es[i].key != key ::
                  es[i] in after <==> |val| > maxmem || Stays(es, i, key, |val|, maxmem))
            && (forall e | e in after :: (e in es && e.key != key) || (|val| <= maxmem && e == Entry(key, val)))
            && (|val| <= maxmem <==> HasKey(after, key))
            && (|val| <= maxmem ==> after[|after| - 1] == Entry(key, val))
  {
    hide Step, Others, OthersSize, LongestEnd, Stays;
    var after, rest := Step(maxmem, es, SetOp(key, val)), Others(es, key);
    SetLeaves(maxmem, es, key, val);
    OthersAreEntries(es, key);
    if |val| <= maxmem {
      var n :| 0 <= n <= |rest| && LongestEnd(rest, n, |val|, maxmem) && after == rest[n..] + [Entry(key, val)];
      assert after[|after| - 1] == Entry(key, val);
      forall i | 0 <= i < |es| && es[i].key != key
        ensures es[i] in after <==> Stays(es, i, key, |val|, maxmem)
      {
        EntryStays(es, n, key, |val|, maxmem, i);
      }
    } else {
      forall i | 0 <= i < |es| && es[i].key != key ensures es[i] in after {
        var k := PlaceAmongOthers(es, i, key);
      }
    }
  }

  lemma OthersAreEntries(es: Entries, key: bytes)
    ensures forall e | e in Others(es, key) :: e in es && e.key != key
  {
    forall k | 0 <= k < |Others(es, key)| ensures Others(es, key)[k] in es && Others(es, key)[k].key != key {
      var i := AmongOthers(es, key, k);
    }
  }

  lemma EntryStays(es: Entries, n: nat, key: bytes, size: u32, maxmem: u64, i: nat)
    requires DistinctKeys(es) && OthersSize(es, key) + size < U64 && i < |es| && es[i].key != key
    requires n <= |Others(es, key)| && LongestEnd(Others(es, key), n, size, maxmem)
    ensures es[i] in Others(es, key)[n..] <==> Stays(es, i, key, size, maxmem)
  {
    hide Others, OthersSize, Sum, Sizes;
    OthersSizeIsSum(es, key);
    var k := PlaceAmongOthers(es, i, key);
    EndTakes(Others(es, key), n, size, maxmem, k);
    StaysInEnd(es, key, n, k);
  }

  /** So it is after every run, while maxmem leaves room for one more value below 2^64. */
  lemma RunKeepsExactly(maxmem: u64, ops: seq<Op>, key: Key, val: Value, i: nat)
    requires maxmem + U32 <= U64 && i < |Run(maxmem, ops)| && Run(maxmem, ops)[i].key != key
    ensures Run(maxmem, ops)[i] in Run(maxmem, ops + [SetOp(key, val)]) <==>
              |val| > maxmem || Stays(Run(maxmem, ops), i, key, |val|, maxmem)
  {
    hide Run, Step, Stays;
    RunKeeps(maxmem, ops);
    RunBounded(maxmem, ops);
    OthersTakeLess(Run(maxmem, ops), key);
    LruRuns.RunSnoc(maxmem, ops, SetOp(key, val));
    SetKeepsExactly(maxmem, Run(maxmem, ops), key, val);
  }

  lemma {:induction false} OthersTakeLess(es: Entries, key: bytes)
    ensures OthersSize(es, key) <= Sum(Sizes(es))
  {
    if es != [] {
      OthersTakeLess(es[1..], key);
      assert Sizes(es)[1..] == Sizes(es[1..]);
    }
  }

  lemma StaysInEnd(es: Entries, key: bytes, n: nat, k: nat)
    requires DistinctKeys(es) && n <= |Others(es, key)| && k < |Others(es, key)|
    ensures var rest := Others(es, key); rest[k] in rest[n..] <==> n <= k
  {
    var rest := Others(es, key);
    OthersAreLeft(es, key);
    DistinctAfterDelete(es, key);
    if n <= k { assert rest[n..][k - n] == rest[k]; }
  }
}
