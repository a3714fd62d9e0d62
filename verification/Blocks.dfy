/**
  The C heap as far as the cache uses it: which blocks are allocated. Freeing a block demands that
  it is still allocated, so code that verifies frees nothing twice.
*/
module Blocks {
  import opened Machine

  /** What strlen and strcmp see of a block: the bytes before its first NUL byte. */
  function UpToNul(b: bytes): (k: Key)
    ensures |k| <= |b| && (0 in b ==> |k| < |b| && b[|k|] == 0) && b[..|k|] == k
  {
    if b == [] || b[0] == 0 then [] else [b[0]] + UpToNul(b[1..])
  }

  lemma {:induction false} UpToNulOf(k: Key, rest: bytes)
    ensures UpToNul(k + [0] + rest) == k
  {
    if k == [] {
      assert [] + [0] + rest == [0] + rest;
    } else {
      assert (k + [0] + rest)[1..] == k[1..] + [0] + rest;
      UpToNulOf(k[1..], rest);
    }
  }

  /** A copy of a C string with its NUL byte is the same C string. */
  lemma CopyOfText(b: bytes)
    requires 0 in b
    ensures var copy := b[..|UpToNul(b)| + 1]; 0 in copy && UpToNul(copy) == UpToNul(b)
  {
    var k := UpToNul(b);
    assert b[..|k| + 1] == b[..|k|] + [b[|k|]] == k + [0] + [];
    UpToNulOf(k, []);
  }

  /** A block of bytes: written once by make_copy, or by the caller of the cache. */
  class Blob {
    const data: bytes

    constructor (data: bytes)
      ensures this.data == data
    {
      this.data := data;
    }

    /** The block holds a C string. */
    predicate Terminated() { 0 in data }

    function Text(): Key { UpToNul(data) }
  }

  class Heap {
    ghost var live: set<object>

    /** Records a block that was just allocated. */
    method Claim(o: object)
      modifies this
      ensures live == old(live) + {o}
    {
      live := live + {o};
    }

    method Free(o: object)
      requires o in live
      modifies this
      ensures live == old(live) - {o}
    {
      live := live - {o};
    }

    /** make_copy: a new block with the first n bytes of a live one. */
    method MakeCopy(b: Blob, n: nat) returns (c: Blob)
      requires b in live && n <= |b.data|
      modifies this
      ensures fresh(c) && c.data == b.data[..n]
      ensures live == old(live) + {c}
    {
      c := new Blob(b.data[..n]);
      Claim(c);
    }
  }
}
