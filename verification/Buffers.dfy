/** Sequences of byte strings laid end to end. */
module Buffers {
  import opened Machine

  function Flat(bufs: seq<bytes>): bytes {
    if bufs == [] then [] else bufs[0] + Flat(bufs[1..])
  }

  lemma {:induction false} FlatAppend(a: seq<bytes>, b: seq<bytes>)
    ensures Flat(a + b) == Flat(a) + Flat(b)
  {
    if a == [] {
      assert a + b == b;
    } else {
      assert (a + b)[1..] == a[1..] + b;
      FlatAppend(a[1..], b);
    }
  }

  /** How many bytes lie before buffer c. */
  function Before(bufs: seq<bytes>, c: nat): nat
    requires c <= |bufs|
  {
    |Flat(bufs[..c])|
  }

  lemma BeforeNext(bufs: seq<bytes>, c: nat)
    requires c < |bufs|
    ensures Before(bufs, c + 1) == Before(bufs, c) + |bufs[c]|
  {
    assert bufs[..c + 1] == bufs[..c] + [bufs[c]];
    FlatAppend(bufs[..c], [bufs[c]]);
    assert Flat([bufs[c]]) == bufs[c] + Flat([bufs[c]][1..]);
  }

  lemma BeforeEnds(bufs: seq<bytes>)
    ensures Before(bufs, 0) == 0 && Before(bufs, |bufs|) == |Flat(bufs)|
  {
    assert bufs[..|bufs|] == bufs;
  }

  lemma {:induction false} BeforeMonotone(bufs: seq<bytes>, c: nat, d: nat)
    requires c <= d <= |bufs|
    ensures Before(bufs, c) <= Before(bufs, d)
    decreases d - c
  {
    if c < d {
      BeforeNext(bufs, c);
      BeforeMonotone(bufs, c + 1, d);
    }
  }

  /** Byte i of buffer c in the whole. */
  lemma FlatAt(bufs: seq<bytes>, c: nat, i: nat)
    requires c < |bufs| && i < |bufs[c]|
    ensures Before(bufs, c) + i < |Flat(bufs)| && Flat(bufs)[Before(bufs, c) + i] == bufs[c][i]
  {
    assert bufs == bufs[..c] + bufs[c..];
    FlatAppend(bufs[..c], bufs[c..]);
    assert bufs[c..][0] == bufs[c];
  }
}
