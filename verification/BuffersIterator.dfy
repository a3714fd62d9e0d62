/** buffers_iterator of asio: random access to the bytes of a sequence of buffers, some of them empty. */
module BuffersIterator {
  import opened Machine
  import opened Buffers

  /**
    A place of the iterator: buffer c, byte offset in it, and the position in the whole. At the end
    there is no buffer; elsewhere the buffer is not empty.
  */
  ghost predicate Place(bufs: seq<bytes>, c: nat, offset: nat, position: nat) {
    && c <= |bufs| && position == Before(bufs, c) + offset
    && if c == |bufs| then offset == 0 else offset < |bufs[c]|
  }

  /** The position alone determines the place. */
  lemma PlaceIsUnique(bufs: seq<bytes>, c: nat, offset: nat, d: nat, other: nat, position: nat)
    requires Place(bufs, c, offset, position) && Place(bufs, d, other, position)
    ensures c == d && offset == other
  {
    if c < d {
      BeforeNext(bufs, c);
      BeforeMonotone(bufs, c + 1, d);
    } else if d < c {
      BeforeNext(bufs, d);
      BeforeMonotone(bufs, d + 1, c);
    }
  }

  lemma PlaceBounds(bufs: seq<bytes>, c: nat, offset: nat, position: nat)
    requires Place(bufs, c, offset, position)
    ensures position <= |Flat(bufs)| && (position == |Flat(bufs)| <==> c == |bufs|)
    ensures c < |bufs| ==> position < |Flat(bufs)| && Flat(bufs)[position] == bufs[c][offset]
  {
    BeforeEnds(bufs);
    if c < |bufs| { FlatAt(bufs, c, offset); }
  }

  class Iterator {
    const bufs: seq<bytes>
    var currentBuffer: bytes
    var currentBufferPosition: nat
    var current: nat
    var position: nat

    ghost predicate Valid()
      reads this
    {
      && Place(bufs, current, currentBufferPosition, position)
      && (current < |bufs| ==> currentBuffer == bufs[current])
    }

    constructor Begin(bufs: seq<bytes>)
      ensures Valid() && this.bufs == bufs && position == 0
    {
      this.bufs := bufs;
      currentBuffer, currentBufferPosition, current, position := [], 0, 0, 0;
      new;
      while current != |bufs|
        invariant current <= |bufs| && Before(bufs, current) == 0
        invariant this.bufs == bufs && currentBufferPosition == position == 0
        decreases |bufs| - current
      {
        currentBuffer := bufs[current];
        BeforeNext(bufs, current);
        if |currentBuffer| > 0 {
          break;
        }
        current := current + 1;
      }
    }

    constructor End(bufs: seq<bytes>)
      ensures Valid() && this.bufs == bufs && position == |Flat(bufs)|
    {
      this.bufs := bufs;
      currentBuffer, currentBufferPosition, current, position := [], 0, 0, 0;
      new;
      while current != |bufs|
        invariant current <= |bufs| && position == Before(bufs, current)
        invariant this.bufs == bufs && currentBufferPosition == 0
        decreases |bufs| - current
      {
        BeforeNext(bufs, current);
        position := position + |bufs[current]|;
        current := current + 1;
      }
      BeforeEnds(bufs);
    }

    method Dereference() returns (b: byte)
      requires Valid() && position < |Flat(bufs)|
      ensures b == Flat(bufs)[position]
    {
      PlaceBounds(bufs, current, currentBufferPosition, position);
      b := currentBuffer[currentBufferPosition];
    }

    method DistanceTo(other: Iterator) returns (d: int)
      requires Valid() && other.Valid() && other.bufs == bufs
      ensures d == other.position - position
      ensures d == 0 <==> other.current == current && other.currentBufferPosition == currentBufferPosition
    {
      if other.position == position {
        PlaceIsUnique(bufs, current, currentBufferPosition, other.current, other.currentBufferPosition, position);
      }
      d := other.position - position;
    }

    method Increment()
      requires Valid() && position < |Flat(bufs)|
      modifies this
      ensures Valid() && position == old(position) + 1
    {
      PlaceBounds(bufs, current, currentBufferPosition, position);
      position := position + 1;
      currentBufferPosition := currentBufferPosition + 1;
      if currentBufferPosition != |currentBuffer| {
        return;
      }
      BeforeNext(bufs, current);
      current := current + 1;
      currentBufferPosition := 0;
      while current != |bufs|
        invariant current <= |bufs| && position == Before(bufs, current)
        invariant position == old(position) + 1 && currentBufferPosition == 0
        decreases |bufs| - current
      {
        currentBuffer := bufs[current];
        if |currentBuffer| > 0 {
          return;
        }
        BeforeNext(bufs, current);
        current := current + 1;
      }
    }

    method Decrement()
      requires Valid() && position > 0
      modifies this
      ensures Valid() && position == old(position) - 1
    {
      position := position - 1;
      if currentBufferPosition != 0 {
        currentBufferPosition := currentBufferPosition - 1;
        return;
      }
      var iter := current;
      while iter != 0
        invariant 0 <= iter <= current && Before(bufs, iter) == position + 1
        invariant unchanged(`current) && unchanged(`currentBufferPosition) && unchanged(`currentBuffer)
        invariant position == old(position) - 1
        decreases iter
      {
        iter := iter - 1;
        BeforeNext(bufs, iter);
        var buffer := bufs[iter];
        if |buffer| > 0 {
          current := iter;
          currentBuffer := buffer;
          currentBufferPosition := |buffer| - 1;
          return;
        }
      }
      BeforeEnds(bufs);
    }

    method Advance(n: int)
      requires Valid() && 0 <= position + n <= |Flat(bufs)|
      modifies this
      ensures Valid() && position == old(position) + n
    {
      if n > 0 {
        AdvanceForward(n);
      } else if n < 0 {
        AdvanceBackward(-n);
      }
    }

    /** The branch of advance for a positive distance. */
    method AdvanceForward(distance: nat)
      requires Valid() && 0 < distance && position + distance <= |Flat(bufs)|
      modifies this
      ensures Valid() && position == old(position) + distance
    {
      var n: int := distance;
      PlaceBounds(bufs, current, currentBufferPosition, position);
      while true
        // the buffer the loop stands on may be empty
        invariant current < |bufs| && currentBuffer == bufs[current] && currentBufferPosition <= |currentBuffer|
        invariant position == Before(bufs, current) + currentBufferPosition
        invariant 0 <= n && position + n == old(position) + distance
        decreases |bufs| - current
      {
        var currentBufferBalance := |currentBuffer| - currentBufferPosition;
        if currentBufferBalance > n {
          position := position + n;
          currentBufferPosition := currentBufferPosition + n;
          return;
        }
        BeforeNext(bufs, current);
        n := n - currentBufferBalance;
        position := position + currentBufferBalance;
        current := current + 1;
        if current == |bufs| {
          BeforeEnds(bufs);
          assert n == 0;
          currentBuffer := [];
          currentBufferPosition := 0;
          return;
        }
        currentBuffer := bufs[current];
        currentBufferPosition := 0;
      }
    }

    /** The branch of advance for a negative distance. */
    method AdvanceBackward(distance: nat)
      requires Valid() && 0 < distance <= position
      modifies this
      ensures Valid() && position == old(position) - distance
    {
      var absN := distance;
      while true
        // between two turns the offset may be the size of the buffer
        invariant current <= |bufs| && position == Before(bufs, current) + currentBufferPosition
        invariant current < |bufs| ==> currentBuffer == bufs[current] && currentBufferPosition <= |currentBuffer|
        invariant current == |bufs| ==> currentBufferPosition == 0
        invariant 0 < absN <= position && position - absN == old(position) - distance
        decreases current
      {
        if currentBufferPosition >= absN {
          position := position - absN;
          currentBufferPosition := currentBufferPosition - absN;
          return;
        }
        absN := absN - currentBufferPosition;
        position := position - currentBufferPosition;
        BeforeEnds(bufs);
        assert current != 0;
        PreviousBuffer();
      }
    }

    /** The inner loop of advance: back to the end of the previous buffer that is not empty. */
    method PreviousBuffer()
      requires current <= |bufs| && 0 < position == Before(bufs, current)
      modifies this
      ensures current < old(current) && currentBuffer == bufs[current] && currentBufferPosition == |currentBuffer| > 0
      ensures position == old(position) == Before(bufs, current) + currentBufferPosition
    {
      BeforeEnds(bufs);
      var iter := current;
      while iter != 0
        invariant 0 <= iter <= current && Before(bufs, iter) == position
        invariant unchanged(this)
        decreases iter
      {
        iter := iter - 1;
        BeforeNext(bufs, iter);
        var buffer := bufs[iter];
        var bufferSize := |buffer|;
        if bufferSize > 0 {
          current := iter;
          currentBuffer := buffer;
          currentBufferPosition := bufferSize;
          break;
        }
      }
    }

    /** distance single steps, in either direction. */
    method Walk(n: int)
      requires Valid() && 0 <= position + n <= |Flat(bufs)|
      modifies this
      ensures Valid() && position == old(position) + n
    {
      var k := 0;
      while k != n
        invariant Valid() && position == old(position) + k && (0 <= k <= n || n <= k <= 0)
        decreases if n > k then n - k else k - n
      {
        if n > 0 {
          Increment();
          k := k + 1;
        } else {
          Decrement();
          k := k - 1;
        }
      }
    }
  }

  /** advance and as many single steps lead two iterators from one position to the same place and byte. */
  method AdvanceIsWalk(a: Iterator, b: Iterator, n: int) returns (d: int)
    requires a != b && a.Valid() && b.Valid() && a.bufs == b.bufs && a.position == b.position
    requires 0 <= a.position + n <= |Flat(a.bufs)|
    modifies a, b
    ensures a.Valid() && b.Valid() && d == 0
    ensures a.current == b.current && a.currentBufferPosition == b.currentBufferPosition
  {
    a.Advance(n);
    b.Walk(n);
    d := a.DistanceTo(b);
  }

  /** to_string of the server: the bytes from the beginning to the beginning plus n. */
  method ToString(bufs: seq<bytes>, n: nat) returns (s: bytes)
    requires n <= |Flat(bufs)|
    ensures s == Flat(bufs)[..n]
  {
    hide Place, Flat;
    var it := new Iterator.Begin(bufs);
    var end := new Iterator.Begin(bufs);
    end.Advance(n);
    s := [];
    var left := it.DistanceTo(end);
    while left != 0
      invariant it.Valid() && end.Valid() && it.bufs == end.bufs == bufs && end.position == n
      invariant it.position <= n && left == n - it.position && s == Flat(bufs)[..it.position]
      decreases left
    {
      var b := it.Dereference();
      s := s + [b];
      it.Increment();
      left := it.DistanceTo(end);
    }
  }
}
