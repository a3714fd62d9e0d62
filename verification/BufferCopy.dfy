/**
  Scatter-gather copies of asio: buffer_copy between sequences of buffers, with and without a limit.
  A buffer is a range of addresses in one memory.
*/
module BufferCopy {
  import opened Machine

  /** mutable_buffer and const_buffer: a pointer and a size. */
  datatype Buffer = Buffer(data: nat, size: nat)

  predicate Inside(b: Buffer, memory: nat) { b.data + b.size <= memory }

  predicate AllInside(bs: seq<Buffer>, memory: nat) {
    forall i | 0 <= i < |bs| :: Inside(bs[i], memory)
  }

  /** operator+ */
  function Plus(b: Buffer, start: nat): Buffer {
    if start > b.size then Buffer(0, 0) else Buffer(b.data + start, b.size - start)
  }

  // ----- addresses -----

  function Range(b: Buffer): (r: seq<nat>)
    ensures |r| == b.size && forall i | 0 <= i < b.size :: r[i] == b.data + i
  {
    seq(b.size, i requires 0 <= i < b.size => b.data + i)
  }

  /** The addresses of the bytes of a sequence of buffers, in order. */
  function Addresses(bs: seq<Buffer>): seq<nat> {
    if bs == [] then [] else Range(bs[0]) + Addresses(bs[1..])
  }

  lemma {:induction false} AddressesAppend(a: seq<Buffer>, b: seq<Buffer>)
    ensures Addresses(a + b) == Addresses(a) + Addresses(b)
  {
    if a == [] {
      assert a + b == b;
    } else {
      assert (a + b)[1..] == a[1..] + b;
      AddressesAppend(a[1..], b);
    }
  }

  /** How many bytes lie before buffer i. */
  function Before(bs: seq<Buffer>, i: nat): nat
    requires i <= |bs|
  {
    |Addresses(bs[..i])|
  }

  /** The addresses from position n on are those of a buffer. */
  ghost predicate On(addresses: seq<nat>, n: nat, b: Buffer) {
    n + b.size <= |addresses| && addresses[n..n + b.size] == Range(b)
  }

  lemma OnAt(addresses: seq<nat>, n: nat, b: Buffer, k: nat)
    requires On(addresses, n, b) && k < b.size
    ensures n + k < |addresses| && addresses[n + k] == b.data + k
  {
    assert addresses[n..n + b.size][k] == Range(b)[k];
  }

  lemma OnRest(addresses: seq<nat>, n: nat, b: Buffer, c: nat)
    requires On(addresses, n, b) && c <= b.size
    ensures On(addresses, n + c, Plus(b, c)) && Plus(b, c).size == b.size - c
  {
    assert Range(Plus(b, c)) == Range(b)[c..];
    assert addresses[n + c..n + b.size] == addresses[n..n + b.size][c..];
  }

  lemma BufferAt(bs: seq<Buffer>, i: nat)
    requires i < |bs|
    ensures Before(bs, i + 1) == Before(bs, i) + bs[i].size
    ensures On(Addresses(bs), Before(bs, i), bs[i])
  {
    hide Addresses;
    AddressesSplit(bs, i);
    Middle(Addresses(bs[..i]), Range(bs[i]), Addresses(bs[i + 1..]));
  }

  lemma AddressesSplit(bs: seq<Buffer>, i: nat)
    requires i < |bs|
    ensures Addresses(bs[..i + 1]) == Addresses(bs[..i]) + Range(bs[i])
    ensures Addresses(bs) == Addresses(bs[..i]) + Range(bs[i]) + Addresses(bs[i + 1..])
  {
    hide Range, Addresses;
    SplitAround(bs, i);
    AddressesAppend(bs[..i], [bs[i]]);
    OneBuffer(bs[i]);
    AddressesAppend(bs[..i + 1], bs[i + 1..]);
  }

  lemma SplitAround(bs: seq<Buffer>, i: nat)
    requires i < |bs|
    ensures bs[..i + 1] == bs[..i] + [bs[i]] && bs[..i + 1] + bs[i + 1..] == bs
  {}

  lemma Middle(a: seq<nat>, b: seq<nat>, c: seq<nat>)
    ensures (a + b + c)[|a|..|a| + |b|] == b
  {}

  lemma OneBuffer(b: Buffer)
    ensures Addresses([b]) == Range(b)
  {
    assert Addresses([b]) == Range(b) + Addresses([b][1..]);
  }

  lemma OneInside(b: Buffer, memory: nat)
    requires Inside(b, memory)
    ensures AllInside([b], memory)
  {}

  lemma BeforeEnds(bs: seq<Buffer>)
    ensures Before(bs, 0) == 0 && Before(bs, |bs|) == |Addresses(bs)|
  {
    assert bs[..|bs|] == bs;
  }

  lemma {:induction false} AddressesInside(bs: seq<Buffer>, memory: nat)
    requires AllInside(bs, memory)
    ensures forall k | 0 <= k < |Addresses(bs)| :: Addresses(bs)[k] < memory
  {
    if bs != [] { AddressesInside(bs[1..], memory); }
  }

  /** The bytes a sequence of buffers holds. */
  function Held(memory: bytes, bs: seq<Buffer>): (r: bytes)
    requires AllInside(bs, |memory|)
    ensures |r| == |Addresses(bs)|
    ensures forall k | 0 <= k < |r| :: Addresses(bs)[k] < |memory| && r[k] == memory[Addresses(bs)[k]]
  {
    AddressesInside(bs, |memory|);
    seq(|Addresses(bs)|, k requires 0 <= k < |Addresses(bs)| => memory[Addresses(bs)[k]])
  }

  // ----- what a copy does -----

  /** No byte of the target lies on another one or on the source. */
  ghost predicate Apart(target: seq<nat>, source: seq<nat>) {
    && (forall i, j | 0 <= i < j < |target| :: target[i] != target[j])
    && (forall i, j | 0 <= i < |target| && 0 <= j < |source| :: target[i] != source[j])
  }

  /** The first n bytes of the source are in the target, and nothing else in memory has changed. */
  ghost predicate Copied(before: bytes, after: bytes, target: seq<nat>, source: seq<nat>, n: nat) {
    && |after| == |before| && n <= |target| && n <= |source|
    && (forall k | 0 <= k < n :: target[k] < |before| && source[k] < |before| && after[target[k]] == before[source[k]])
    && (forall a | 0 <= a < |before| && a !in target[..n] :: after[a] == before[a])
  }

  /** In terms of the bytes held: a prefix of the target is replaced, and the source is untouched. */
  ghost predicate CopiedBytes(before: bytes, after: bytes, target: seq<Buffer>, source: seq<Buffer>, n: nat)
    requires AllInside(target, |before|) && AllInside(source, |before|) && |after| == |before|
  {
    && n <= |Held(before, source)| && n <= |Held(before, target)|
    && Held(after, target) == Held(before, source)[..n] + Held(before, target)[n..]
    && Held(after, source) == Held(before, source)
  }

  lemma CopiedMeans(before: bytes, after: bytes, target: seq<Buffer>, source: seq<Buffer>, n: nat)
    requires Copied(before, after, Addresses(target), Addresses(source), n)
    requires Apart(Addresses(target), Addresses(source))
    requires AllInside(target, |before|) && AllInside(source, |before|)
    ensures CopiedBytes(before, after, target, source, n)
  {
    hide AllInside, Addresses, Held;
    var ts, ss := Addresses(target), Addresses(source);
    var now, was, from := Held(after, target), Held(before, target), Held(before, source);
    forall k | 0 <= k < |ts| ensures now[k] == (from[..n] + was[n..])[k] {
      if k >= n { assert ts[k] !in ts[..n]; }
    }
    forall k | 0 <= k < |ss| ensures Held(after, source)[k] == from[k] {
      assert ss[k] !in ts[..n];
    }
  }

  /** Two copies of one source to one target agree on all of memory. */
  lemma CopiesAgree(before: bytes, a: bytes, b: bytes, target: seq<nat>, source: seq<nat>, n: nat)
    requires Copied(before, a, target, source, n) && Copied(before, b, target, source, n)
    ensures a == b
  {
    forall x | 0 <= x < |before| ensures a[x] == b[x] {
      if x in target[..n] {
        var k :| 0 <= k < n && target[k] == x;
      }
    }
  }

  lemma CopiedNothing(memory: bytes, target: seq<nat>, source: seq<nat>)
    ensures Copied(memory, memory, target, source, 0)
  {}

  /** One more byte. */
  lemma CopiedByte(before: bytes, now: bytes, target: seq<nat>, source: seq<nat>, n: nat)
    requires Copied(before, now, target, source, n) && Apart(target, source)
    requires n < |target| && n < |source| && target[n] < |before| && source[n] < |before|
    ensures Copied(before, now[target[n] := now[source[n]]], target, source, n + 1)
  {
    assert source[n] !in target[..n];
    assert target[..n + 1] == target[..n] + [target[n]];
  }

  /** buffer_copy of one buffer to another, as a part of a larger copy that has come to n bytes. */
  method CopyBuffer(mem: array<byte>, target: Buffer, source: Buffer, maxBytes: nat,
                    ghost before: bytes, ghost ts: seq<nat>, ghost ss: seq<nat>, ghost n: nat)
    returns (copied: nat)
    requires Inside(target, mem.Length) && Inside(source, mem.Length)
    requires Apart(ts, ss) && Copied(before, mem[..], ts, ss, n)
    requires On(ts, n, target) && On(ss, n, source)
    modifies mem
    ensures copied == Min(Min(target.size, source.size), maxBytes)
    ensures Copied(before, mem[..], ts, ss, n + copied)
  {
    hide Apart, Copied, On;
    var bytesToCopy := Min(Min(target.size, source.size), maxBytes);
    assert |mem[..]| == |before| by { SameMemory(before, mem[..], ts, ss, n); }
    for k := 0 to bytesToCopy
      invariant Copied(before, mem[..], ts, ss, n + k) && mem.Length == |before|
    {
      OnAt(ts, n, target, k);
      OnAt(ss, n, source, k);
      CopiedByte(before, mem[..], ts, ss, n + k);
      ghost var now := mem[..];
      mem[target.data + k] := mem[source.data + k];
      assert mem[..] == now[target.data + k := now[source.data + k]];
    }
    return bytesToCopy;
  }

  lemma SameMemory(before: bytes, after: bytes, target: seq<nat>, source: seq<nat>, n: nat)
    requires Copied(before, after, target, source, n)
    ensures |after| == |before|
  {}

  // ----- the loops -----

  /** A cursor in a sequence of buffers: it has passed n bytes in all. */
  ghost predicate Cursor(bs: seq<Buffer>, i: nat, offset: nat, n: nat) {
    && i <= |bs| && n == Before(bs, i) + offset
    && if i == |bs| then offset == 0 else offset <= bs[i].size
  }

  /** What is left of the buffer under a cursor. */
  lemma CursorBuffer(bs: seq<Buffer>, i: nat, offset: nat, n: nat, memory: nat)
    requires Cursor(bs, i, offset, n) && i < |bs| && AllInside(bs, memory)
    ensures offset <= bs[i].size && Plus(bs[i], offset).size == bs[i].size - offset
    ensures Inside(Plus(bs[i], offset), memory) && On(Addresses(bs), n, Plus(bs[i], offset))
  {
    hide Addresses, Range, On;
    BufferAt(bs, i);
    OnRest(Addresses(bs), Before(bs, i), bs[i], offset);
  }

  /** A cursor after c more bytes of its buffer. */
  lemma CursorStep(bs: seq<Buffer>, i: nat, offset: nat, n: nat, c: nat)
    requires Cursor(bs, i, offset, n) && i < |bs| && offset + c <= bs[i].size
    ensures Cursor(bs, i, offset + c, n + c)
    ensures offset + c == bs[i].size ==> Cursor(bs, i + 1, 0, n + c)
  {
    BufferAt(bs, i);
  }

  lemma CursorBounds(bs: seq<Buffer>, i: nat, offset: nat, n: nat)
    requires Cursor(bs, i, offset, n)
    ensures n <= |Addresses(bs)| && (i == |bs| ==> n == |Addresses(bs)|)
  {
    BeforeEnds(bs);
    if i < |bs| { BufferAt(bs, i); }
  }

  lemma CursorStart(bs: seq<Buffer>)
    ensures Cursor(bs, 0, 0, 0)
  {
    BeforeEnds(bs);
  }

  /** buffer_copy of a sequence to a sequence, at most maxBytes of them. */
  method CopyLimited(mem: array<byte>, target: seq<Buffer>, source: seq<Buffer>, maxBytes: nat)
    returns (total: nat)
    requires AllInside(target, mem.Length) && AllInside(source, mem.Length)
    requires Apart(Addresses(target), Addresses(source))
    modifies mem
    ensures total == Min(Min(|Addresses(target)|, |Addresses(source)|), maxBytes)
    ensures Copied(old(mem[..]), mem[..], Addresses(target), Addresses(source), total)
    ensures CopiedBytes(old(mem[..]), mem[..], target, source, total)
  {
    hide Apart, Copied, Cursor, Addresses, AllInside, Inside, Plus, On;
    ghost var before, ts, ss := mem[..], Addresses(target), Addresses(source);
    total := 0;
    var t, tOffset, s, sOffset := 0, 0, 0, 0;
    CursorStart(target);
    CursorStart(source);
    CopiedNothing(before, ts, ss);
    while total != maxBytes && t != |target| && s != |source|
      invariant t <= |target| && s <= |source| && total <= maxBytes
      invariant Cursor(target, t, tOffset, total) && Cursor(source, s, sOffset, total)
      invariant Copied(before, mem[..], ts, ss, total)
      decreases |target| - t + |source| - s + maxBytes - total
    {
      CursorBuffer(target, t, tOffset, total, mem.Length);
      CursorBuffer(source, s, sOffset, total, mem.Length);
      var targetBuffer := Plus(target[t], tOffset);
      var sourceBuffer := Plus(source[s], sOffset);
      var copied := CopyBuffer(mem, targetBuffer, sourceBuffer, maxBytes - total, before, ts, ss, total);
      CursorStep(target, t, tOffset, total, copied);
      CursorStep(source, s, sOffset, total, copied);
      total := total + copied;
      if copied == targetBuffer.size {
        t, tOffset := t + 1, 0;
      } else {
        tOffset := tOffset + copied;
      }
      if copied == sourceBuffer.size {
        s, sOffset := s + 1, 0;
      } else {
        sOffset := sOffset + copied;
      }
    }
    CursorBounds(target, t, tOffset, total);
    CursorBounds(source, s, sOffset, total);
    CopiedMeans(before, mem[..], target, source, total);
  }

  /** buffer_copy of a sequence to a sequence. */
  method CopySequences(mem: array<byte>, target: seq<Buffer>, source: seq<Buffer>) returns (total: nat)
    requires AllInside(target, mem.Length) && AllInside(source, mem.Length)
    requires Apart(Addresses(target), Addresses(source))
    modifies mem
    ensures total == Min(|Addresses(target)|, |Addresses(source)|)
    ensures Copied(old(mem[..]), mem[..], Addresses(target), Addresses(source), total)
    ensures CopiedBytes(old(mem[..]), mem[..], target, source, total)
  {
    hide Apart, Copied, Cursor, Addresses, AllInside, Inside, Plus, On;
    ghost var before, ts, ss := mem[..], Addresses(target), Addresses(source);
    total := 0;
    var t, tOffset, s, sOffset := 0, 0, 0, 0;
    CursorStart(target);
    CursorStart(source);
    CopiedNothing(before, ts, ss);
    while t != |target| && s != |source|
      invariant t <= |target| && s <= |source|
      invariant Cursor(target, t, tOffset, total) && Cursor(source, s, sOffset, total)
      invariant Copied(before, mem[..], ts, ss, total)
      decreases |target| - t + |source| - s
    {
      CursorBuffer(target, t, tOffset, total, mem.Length);
      CursorBuffer(source, s, sOffset, total, mem.Length);
      var targetBuffer := Plus(target[t], tOffset);
      var sourceBuffer := Plus(source[s], sOffset);
      var copied := CopyBuffer(mem, targetBuffer, sourceBuffer, targetBuffer.size, before, ts, ss, total);
      CursorStep(target, t, tOffset, total, copied);
      CursorStep(source, s, sOffset, total, copied);
      total := total + copied;
      if copied == targetBuffer.size {
        t, tOffset := t + 1, 0;
      } else {
        tOffset := tOffset + copied;
      }
      if copied == sourceBuffer.size {
        s, sOffset := s + 1, 0;
      } else {
        sOffset := sOffset + copied;
      }
    }
    CursorBounds(target, t, tOffset, total);
    CursorBounds(source, s, sOffset, total);
    CopiedMeans(before, mem[..], target, source, total);
  }

  /** The rest of a buffer of which n bytes are done. */
  lemma Rest(b: Buffer, n: nat, memory: nat)
    requires n <= b.size && Inside(b, memory)
    ensures Inside(Plus(b, n), memory) && On(Range(b), n, Plus(b, n)) && Plus(b, n).size == b.size - n
  {
    assert On(Range(b), 0, b);
    OnRest(Range(b), 0, b, n);
  }

  lemma RestPlus(b: Buffer, n: nat, c: nat)
    requires n + c <= b.size
    ensures Plus(Plus(b, n), c) == Plus(b, n + c) && Plus(b, n + c).size == b.size - n - c
  {}

  lemma PlusNothing(b: Buffer)
    ensures Plus(b, 0) == b
  {}

  /** buffer_copy of a sequence to one buffer. */
  method CopyToBuffer(mem: array<byte>, target: Buffer, source: seq<Buffer>) returns (total: nat)
    requires Inside(target, mem.Length) && AllInside(source, mem.Length)
    requires Apart(Addresses([target]), Addresses(source))
    modifies mem
    ensures total == Min(|Addresses([target])|, |Addresses(source)|)
    ensures Copied(old(mem[..]), mem[..], Addresses([target]), Addresses(source), total)
    ensures CopiedBytes(old(mem[..]), mem[..], [target], source, total)
  {
    hide Apart, Copied, Cursor, Addresses, AllInside, Inside, Plus, On;
    OneBuffer(target);
    OneInside(target, mem.Length);
    ghost var before, ts, ss := mem[..], Range(target), Addresses(source);
    total := 0;
    var s := 0;
    var targetBuffer := target;
    PlusNothing(target);
    CursorStart(source);
    CopiedNothing(before, ts, ss);
    while targetBuffer.size != 0 && s != |source|
      invariant s <= |source| && total <= target.size && targetBuffer == Plus(target, total)
      invariant total <= |ss| && (targetBuffer.size != 0 ==> Cursor(source, s, 0, total))
      invariant Copied(before, mem[..], ts, ss, total) && targetBuffer.size == target.size - total
      decreases |source| - s
    {
      Rest(target, total, mem.Length);
      CursorBuffer(source, s, 0, total, mem.Length);
      PlusNothing(source[s]);
      var copied := CopyBuffer(mem, targetBuffer, source[s], targetBuffer.size, before, ts, ss, total);
      CursorStep(source, s, 0, total, copied);
      CursorBounds(source, s, copied, total + copied);
      RestPlus(target, total, copied);
      total := total + copied;
      targetBuffer := Plus(targetBuffer, copied);
      s := s + 1;
    }
    if targetBuffer.size != 0 { CursorBounds(source, s, 0, total); }
    CopiedMeans(before, mem[..], [target], source, total);
  }

  /** buffer_copy of one buffer to a sequence. */
  method CopyFromBuffer(mem: array<byte>, target: seq<Buffer>, source: Buffer) returns (total: nat)
    requires AllInside(target, mem.Length) && Inside(source, mem.Length)
    requires Apart(Addresses(target), Addresses([source]))
    modifies mem
    ensures total == Min(|Addresses(target)|, |Addresses([source])|)
    ensures Copied(old(mem[..]), mem[..], Addresses(target), Addresses([source]), total)
    ensures CopiedBytes(old(mem[..]), mem[..], target, [source], total)
  {
    hide Apart, Copied, Cursor, Addresses, AllInside, Inside, Plus, On;
    OneBuffer(source);
    OneInside(source, mem.Length);
    ghost var before, ts, ss := mem[..], Addresses(target), Range(source);
    total := 0;
    var t := 0;
    var sourceBuffer := source;
    PlusNothing(source);
    CursorStart(target);
    CopiedNothing(before, ts, ss);
    while sourceBuffer.size != 0 && t != |target|
      invariant t <= |target| && total <= source.size && sourceBuffer == Plus(source, total)
      invariant total <= |ts| && (sourceBuffer.size != 0 ==> Cursor(target, t, 0, total))
      invariant Copied(before, mem[..], ts, ss, total) && sourceBuffer.size == source.size - total
      decreases |target| - t
    {
      Rest(source, total, mem.Length);
      CursorBuffer(target, t, 0, total, mem.Length);
      PlusNothing(target[t]);
      var copied := CopyBuffer(mem, target[t], sourceBuffer, sourceBuffer.size, before, ts, ss, total);
      CursorStep(target, t, 0, total, copied);
      CursorBounds(target, t, copied, total + copied);
      RestPlus(source, total, copied);
      total := total + copied;
      sourceBuffer := Plus(sourceBuffer, copied);
      t := t + 1;
    }
    if sourceBuffer.size != 0 { CursorBounds(target, t, 0, total); }
    CopiedMeans(before, mem[..], target, [source], total);
  }

  /** buffer_size of a sequence. */
  method BufferSize(bs: seq<Buffer>) returns (total: nat)
    ensures total == |Addresses(bs)|
  {
    total := 0;
    for i := 0 to |bs|
      invariant total == Before(bs, i)
    {
      BufferAt(bs, i);
      total := total + bs[i].size;
    }
    BeforeEnds(bs);
  }
}
