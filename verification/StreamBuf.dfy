/**
  basic_streambuf of asio: a vector with a get area and a put area that slide along it, and the
  queue of bytes it stands for. Pointers are offsets into the vector.
*/
module StreamBuf {
  import opened Machine

  const BUFFER_DELTA: nat := 128

  // ----- the queue -----

  datatype Op =
    | Prepare(n: nat)
    /** What the user does to a prepared area: store bytes at its start. */
    | Write(chunk: bytes)
    | Commit(n: nat)
    | Consume(n: nat)
    | PutChar(c: byte)

  /**
    What a stream buffer is to its user: the bytes held, and those written to the put area but not
    committed. How far the areas can slide is seen from the number of bytes consumed since they
    last did, gap, and from the size of the put area.
  */
  datatype Queue = Queue(gap: nat, data: bytes, written: bytes, area: nat)

  predicate QueueOk(maxSize: nat, q: Queue) {
    q.gap + |q.data| + q.area <= maxSize && |q.written| <= q.area
  }

  datatype Outcome =
    | Next(q: Queue)
    /** length_error */
    | Throws
    /** A write beyond the put area. */
    | Outside
    /** A commit of bytes nobody has written: what it appends is not determined. */
    | Unwritten

  function Tail(s: bytes, n: nat): bytes { s[Min(n, |s|)..] }

  /** reserve: the put area is large enough, or becomes so by a shift or by growth; None if it throws. */
  function Room(maxSize: nat, q: Queue, n: nat): Option<Queue> {
    if n <= q.area then Some(q)
    else if n <= q.area + q.gap then Some(Queue(0, q.data, [], q.area + q.gap))
    else if |q.data| + n <= maxSize then Some(Queue(0, q.data, if q.gap == 0 then q.written else [], n))
    else None
  }

  /** How much overflow reserves. */
  function Growth(maxSize: nat, size: nat): nat {
    if size < maxSize && maxSize - size < BUFFER_DELTA then maxSize - size else BUFFER_DELTA
  }

  function Step(maxSize: nat, q: Queue, op: Op): Outcome {
    match op
    case Prepare(n) => (match Room(maxSize, q, n) case Some(r) => Next(r) case None => Throws)
    case Write(chunk) =>
      if |chunk| <= q.area then Next(q.(written := chunk + Tail(q.written, |chunk|))) else Outside
    case Commit(n) =>
      var m := Min(n, q.area);
      if m <= |q.written| then Next(Queue(q.gap, q.data + q.written[..m], q.written[m..], q.area - m)) else Unwritten
    case Consume(n) =>
      Next(Queue(q.gap + Min(n, |q.data|), Tail(q.data, n), q.written, q.area))
    case PutChar(c) =>
      match if q.area == 0 then Room(maxSize, q, Growth(maxSize, |q.data|)) else Some(q)
      case None => Throws
      case Some(r) =>
        if r.area == 0 then Throws else Next(Queue(r.gap, r.data + [c], Tail(r.written, 1), r.area - 1))
  }

  function Start(maxSize: nat): Queue {
    Queue(0, [], [], Min(maxSize, BUFFER_DELTA))
  }

  /** The queue after a run, or how the run ended. */
  function Run(maxSize: nat, ops: seq<Op>): Outcome {
    if ops == [] then Next(Start(maxSize))
    else
      match Run(maxSize, ops[..|ops| - 1])
      case Next(q) => Step(maxSize, q, ops[|ops| - 1])
      case end => end
  }

  lemma StepKeeps(maxSize: nat, q: Queue, op: Op)
    requires QueueOk(maxSize, q)
    ensures Step(maxSize, q, op).Next? ==> QueueOk(maxSize, Step(maxSize, q, op).q)
  {}

  /** prepare(n) succeeds exactly if size() + n <= max_size(). */
  lemma RoomExactly(maxSize: nat, q: Queue, n: nat)
    requires QueueOk(maxSize, q)
    ensures Room(maxSize, q, n).Some? <==> |q.data| + n <= maxSize
    ensures Room(maxSize, q, n).Some? ==>
              var r := Room(maxSize, q, n).value; r.data == q.data && n <= r.area && QueueOk(maxSize, r)
  {}

  lemma EnoughRoom(maxSize: nat, q: Queue, n: nat)
    requires n <= q.area
    ensures Room(maxSize, q, n) == Some(q)
  {}

  /** Another character is taken exactly if size() < max_size(). */
  lemma PutCharExactly(maxSize: nat, q: Queue, c: byte)
    requires QueueOk(maxSize, q)
    ensures Step(maxSize, q, PutChar(c)).Throws? <==> |q.data| == maxSize
    ensures !Step(maxSize, q, PutChar(c)).Throws? ==>
              Step(maxSize, q, PutChar(c)).Next? && Step(maxSize, q, PutChar(c)).q.data == q.data + [c]
  {
    RoomExactly(maxSize, q, Growth(maxSize, |q.data|));
  }

  lemma PutInArea(maxSize: nat, q: Queue, c: byte)
    requires q.area > 0
    ensures Step(maxSize, q, PutChar(c)) == Next(Queue(q.gap, q.data + [c], Tail(q.written, 1), q.area - 1))
  {}

  lemma PutAfterRoom(maxSize: nat, q: Queue, c: byte)
    requires q.area == 0
    ensures Step(maxSize, q, PutChar(c)) ==
            match Room(maxSize, q, Growth(maxSize, |q.data|))
            case Some(r) =>
              if r.area > 0 then Next(Queue(r.gap, r.data + [c], Tail(r.written, 1), r.area - 1)) else Throws
            case None => Throws
  {}

  /** prepare, write and commit as they are meant to be used append what was written. */
  lemma TransferAppends(maxSize: nat, q: Queue, n: nat, chunk: bytes, count: nat)
    requires QueueOk(maxSize, q) && |q.data| + n <= maxSize && count <= |chunk| <= n
    ensures var prepared := Step(maxSize, q, Prepare(n));
            && prepared.Next?
            && var filled := Step(maxSize, prepared.q, Write(chunk));
               && filled.Next?
               && var done := Step(maxSize, filled.q, Commit(count));
                  done.Next? && done.q.data == q.data + chunk[..count]
  {
    RoomExactly(maxSize, q, n);
    var r := Room(maxSize, q, n).value;
    assert (chunk + Tail(r.written, |chunk|))[..count] == chunk[..count];
  }

  /** All bytes that a run appends. */
  function Appended(maxSize: nat, ops: seq<Op>): bytes {
    if ops == [] then []
    else
      Appended(maxSize, ops[..|ops| - 1]) +
      match (Run(maxSize, ops[..|ops| - 1]), ops[|ops| - 1])
      case (Next(q), Commit(n)) => q.written[..Min(Min(n, q.area), |q.written|)]
      case (Next(q), PutChar(c)) => [c]
      case _ => []
  }

  /** How many of them a run takes out. */
  function Consumed(maxSize: nat, ops: seq<Op>): (n: nat)
    ensures n <= |Appended(maxSize, ops)|
  {
    if ops == [] then 0
    else
      var before := Consumed(maxSize, ops[..|ops| - 1]);
      match ops[|ops| - 1]
      case Consume(n) => Min(before + n, |Appended(maxSize, ops)|)
      case _ => before
  }

  /**
    First in, first out: as long as no commit takes bytes that were not written, what is in the
    queue are the bytes written and committed, from the first one not consumed.
  */
  lemma {:induction false} FirstInFirstOut(maxSize: nat, ops: seq<Op>)
    requires Run(maxSize, ops).Next?
    ensures QueueOk(maxSize, Run(maxSize, ops).q)
    ensures Run(maxSize, ops).q.data == Appended(maxSize, ops)[Consumed(maxSize, ops)..]
  {
    hide Step, Room, Growth;
    if ops != [] {
      var before, op := ops[..|ops| - 1], ops[|ops| - 1];
      FirstInFirstOut(maxSize, before);
      var q := Run(maxSize, before).q;
      StepKeeps(maxSize, q, op);
      StepData(maxSize, q, op);
      QueueTail(Appended(maxSize, before), Consumed(maxSize, before));
    }
  }

  lemma QueueTail(all: bytes, k: nat)
    requires k <= |all|
    ensures forall more: bytes :: (all + more)[k..] == all[k..] + more
    ensures forall n: nat :: Tail(all[k..], n) == all[Min(k + n, |all|)..]
  {}

  /** What a step does to the bytes held. */
  lemma StepData(maxSize: nat, q: Queue, op: Op)
    requires QueueOk(maxSize, q) && Step(maxSize, q, op).Next?
    ensures Step(maxSize, q, op).q.data ==
            match op
            case Commit(n) => q.data + q.written[..Min(Min(n, q.area), |q.written|)]
            case PutChar(c) => q.data + [c]
            case Consume(n) => Tail(q.data, n)
            case _ => q.data
  {}

  // ----- a failing prepare -----

  /** What a shift by gnext that is not followed by new pointers leaves between the old ones. */
  function AfterThrow(data: bytes, gnext: nat): bytes {
    if gnext <= |data| then data[gnext..] + data[|data| - gnext..] else data
  }

  /** The data survives, whatever it is, exactly when nothing was consumed or the areas do not overlap. */
  lemma ThrowKeepsData(size: nat, gnext: nat)
    ensures (forall data: bytes | |data| == size :: AfterThrow(data, gnext) == data) <==> gnext == 0 || gnext >= size
  {
    if 0 < gnext < size {
      var data: bytes := seq(size, i => if i == 0 then 1 else 0);
      assert AfterThrow(data, gnext)[0] == data[gnext] == 0;
      assert data[0] == 1 && |data| == size;
    } else {
      forall data: bytes | |data| == size ensures AfterThrow(data, gnext) == data {
        if gnext == 0 {
          assert data[size..] == [] && data[0..] == data;
        } else if gnext == size {
          assert data[size..] == [] && data[0..] == data;
        }
      }
    }
  }

  /** The window from g to p on a vector whose window has been copied to its front. */
  lemma ShiftedWindow(was: bytes, data: bytes, g: nat, p: nat)
    requires g <= p <= |was| && data == was[g..p] && g <= |data|
    ensures (data + was[|data|..])[g..p] == data[g..] + data[|data| - g..]
  {
    var now := data + was[|data|..];
    var moved := data[g..] + data[|data| - g..];
    assert |now[g..p]| == |moved| == |data|;
    forall i | 0 <= i < |data| ensures now[g..p][i] == moved[i] {
      if g + i < |data| {
        assert now[g + i] == data[g + i] == data[g..][i];
      } else {
        assert now[g + i] == was[|data|..][g + i - |data|];
        assert data[i] == was[g..p][i];
        assert moved[i] == data[|data| - g..][i - (|data| - g)] == data[i];
      }
    }
  }

  /** The bytes from one offset to another. */
  function Window(s: bytes, i: nat, j: nat): (w: bytes)
    requires i <= j <= |s|
    ensures |w| == j - i
  {
    s[i..j]
  }

  lemma SamePart(a: bytes, b: bytes, i: nat, n: nat)
    requires i + n <= |a| && i + n <= |b| && a[..Min(|b|, |a|)] == b[..Min(|b|, |a|)]
    ensures Window(a, i, i + n) == Window(b, i, i + n)
  {
    var m := Min(|b|, |a|);
    assert a[i..i + n] == a[..m][i..i + n] && b[i..i + n] == b[..m][i..i + n];
  }

  lemma DataGrows(s: bytes, g: nat, p: nat, e: nat, n: nat)
    requires g <= p && p + n <= e <= |s|
    ensures Window(s, g, p + n) == Window(s, g, p) + Window(s, p, e)[..n]
  {
    assert s[p..e][..n] == s[p..p + n];
  }

  lemma WrittenShrinks(s: bytes, g: nat, p: nat, w: nat, n: nat)
    requires g <= p && n <= w && p + w <= |s|
    ensures Window(s, g, p + n) == Window(s, g, p) + Window(s, p, p + w)[..n]
    ensures Window(s, p + n, p + n + (w - n)) == Window(s, p, p + w)[n..]
  {
    DataGrows(s, g, p, p + w, n);
  }

  /** What a store at offset p leaves elsewhere. */
  lemma StoreWindow(s: bytes, p: nat, chunk: bytes, i: nat, j: nat)
    requires p + |chunk| <= |s| && i <= j <= |s|
    ensures var r := s[..p] + chunk + s[p + |chunk|..];
            && |r| == |s| && Window(r, p, p + |chunk|) == chunk
            && (j <= p || p + |chunk| <= i ==> Window(r, i, j) == Window(s, i, j))
  {}

  lemma JoinWindows(s: bytes, i: nat, j: nat, k: nat)
    requires i <= j <= k <= |s|
    ensures Window(s, i, k) == Window(s, i, j) + Window(s, j, k)
    ensures Window(s, i, k)[..j - i] == Window(s, i, j) && Window(s, i, k)[j - i..] == Window(s, j, k)
  {}

  lemma FillWindow(s: bytes, g: nat, p: nat, e: nat, w: nat, chunk: bytes)
    requires g <= p && p + |chunk| <= e <= |s| && p + w <= e
    ensures var r := s[..p] + chunk + s[p + |chunk|..];
            && |r| == |s| && Window(r, g, p) == Window(s, g, p)
            && Window(r, p, p + Max(w, |chunk|)) == chunk + Tail(Window(s, p, p + w), |chunk|)
            && Window(r, p, e)[..|chunk|] == chunk && Window(r, p, e)[|chunk|..] == Window(s, p, e)[|chunk|..]
  {
    hide Window;
    var c := |chunk|;
    var r := s[..p] + chunk + s[p + c..];
    StoreWindow(s, p, chunk, g, p);
    StoreWindow(s, p, chunk, p + c, e);
    JoinWindows(r, p, p + c, e);
    JoinWindows(s, p, p + c, e);
    if c < w {
      StoreWindow(s, p, chunk, p + c, p + w);
      JoinWindows(r, p, p + c, p + w);
      JoinWindows(s, p, p + c, p + w);
    }
  }

  /** A put area beyond what was written says nothing about the bytes a commit finds there. */
  lemma UnwrittenUndetermined(s: bytes, g: nat, p: nat, w: nat, n: nat)
    requires g <= p && w < n && p + n <= |s|
    ensures exists t: bytes | |t| == |s| ::
              && Window(t, g, p) == Window(s, g, p) && Window(t, p, p + w) == Window(s, p, p + w)
              && Window(t, g, p + n) != Window(s, g, p + n)
  {
    var t := s[p + w := if s[p + w] == 0 then 1 else 0];
    assert Window(t, g, p + n)[p + w - g] != Window(s, g, p + n)[p + w - g];
  }

  lemma PutWindow(s: bytes, g: nat, p: nat, e: nat, w: nat, c: byte)
    requires g <= p < e <= |s| && p + w <= e
    ensures var r := s[p := c];
            && Window(r, g, p + 1) == Window(s, g, p) + [c]
            && Window(r, p + 1, p + 1 + if w == 0 then 0 else w - 1) == Tail(Window(s, p, p + w), 1)
  {}

  // ----- the stream buffer -----

  class StreamBuf {
    const maxSize: nat
    var buffer: seq<byte>
    var gptr: nat
    var egptr: nat
    var pptr: nat
    var epptr: nat

    ghost var written: nat  // how many bytes at the start of the put area are the user's

    ghost predicate Valid()
      reads this
    {
      && gptr <= egptr <= pptr <= epptr <= maxSize
      && |buffer| == Max(epptr, 1) && pptr + written <= epptr
    }

    /** data() */
    function Data(): (d: bytes)
      reads this
      requires Valid()
      ensures |d| == pptr - gptr <= maxSize
    {
      Window(buffer, gptr, pptr)
    }

    /** The put area. */
    function Area(): (d: bytes)
      reads this
      requires Valid()
      ensures |d| == epptr - pptr
    {
      Window(buffer, pptr, epptr)
    }

    /** The queue all this stands for. */
    ghost function Contents(): (q: Queue)
      reads this
      requires Valid()
      ensures QueueOk(maxSize, q)
    {
      Queue(gptr, Data(), Window(buffer, pptr, pptr + written), epptr - pptr)
    }

    constructor (maximumSize: nat)
      ensures Valid() && Contents() == Start(maximumSize) && maxSize == maximumSize
      ensures forall k | 0 <= k < |Area()| :: Area()[k] == 0
    {
      maxSize := maximumSize;
      var pend := Min(maximumSize, BUFFER_DELTA);
      buffer := seq(Max(pend, 1), _ => 0);
      gptr, egptr, pptr, epptr, written := 0, 0, 0, pend, 0;
    }

    method Size() returns (n: nat)
      requires Valid()
      ensures n == |Data()| <= maxSize
    {
      n := pptr - gptr;
    }

    /** reserve: make room for n bytes behind the data, or throw. */
    method Reserve(n: nat) returns (ok: bool)
      requires Valid()
      modifies this
      ensures Valid() && ok == (old(|Data()|) + n <= maxSize)
      ensures ok ==> Room(maxSize, old(Contents()), n) == Some(Contents()) && Data() == old(Data())
      ensures old(|Area()|) < n <= old(|Area()| + gptr) ==> buffer == old(Data()) + old(buffer)[old(|Data()|)..]
      ensures !ok ==> Room(maxSize, old(Contents()), n) == None
      ensures !ok ==> Data() == AfterThrow(old(Data()), old(gptr)) && unchanged(`gptr) && unchanged(`pptr)
    {
      hide AfterThrow, Room, Window;
      RoomExactly(maxSize, Contents(), n);
      if n <= epptr - pptr {
        EnoughRoom(maxSize, Contents(), n);
        return true;
      }
      ghost var q, was := Contents(), buffer;
      var pnext := Shift();
      ok := MakeRoom(n, pnext, q, was);
      if !ok {
        Thrown(was, q.data);
      }
    }

    /** The second half of reserve: the vector grows if it has to, and the positions follow the data. */
    method MakeRoom(n: nat, pnext: nat, ghost q: Queue, ghost was: bytes) returns (ok: bool)
      requires Valid() && |buffer| == |was| && q.area < n && pnext == |q.data|
      requires q == Queue(gptr, Window(was, gptr, pptr), Window(was, pptr, pptr + written), epptr - pptr)
      requires buffer == if q.gap > 0 then q.data + was[pnext..] else was
      requires Window(buffer, 0, pnext) == q.data
      modifies this
      ensures Valid() && ok == Room(maxSize, q, n).Some?
      ensures ok ==> Contents() == Room(maxSize, q, n).value
      ensures n <= q.area + q.gap ==> buffer == old(buffer)
      ensures !ok ==> unchanged(this)
    {
      hide Window;
      var pend := epptr;
      if n > pend - pnext {
        if n <= maxSize && pnext <= maxSize - n {
          pend := pnext + n;
          Resize(Max(pend, 1));
        } else {
          return false;
        }
      }
      SamePart(old(buffer), buffer, 0, pnext);
      if q.gap == 0 { SamePart(was, buffer, pnext, |q.written|); }
      Reposition(pnext, pend, q.data, if q.gap > 0 then 0 else |q.written|);
      return true;
    }

    /** The data is moved to the start of the vector; the pointers stay for now. */
    method Shift() returns (pnext: nat)
      requires Valid()
      modifies `buffer
      ensures pnext == |old(Data())| && |buffer| == |old(buffer)|
      ensures buffer == if gptr > 0 then old(Data()) + old(buffer)[pnext..] else old(buffer)
      ensures Window(buffer, 0, pnext) == old(Data())
    {
      pnext := pptr;
      if gptr > 0 {
        pnext := pnext - gptr;
        buffer := buffer[gptr..gptr + pnext] + buffer[pnext..];
      }
    }

    /** The new stream positions. */
    method Reposition(pnext: nat, pend: nat, ghost data: bytes, ghost kept: nat)
      requires pnext <= pend <= maxSize && |buffer| == Max(pend, 1) && pnext + kept <= pend
      requires Window(buffer, 0, pnext) == data
      modifies `gptr, `egptr, `pptr, `epptr, `written
      ensures Valid() && Contents() == Queue(0, data, Window(buffer, pnext, pnext + kept), pend - pnext)
    {
      hide Window;
      gptr, egptr := 0, pnext;
      pptr, epptr := pnext, pend;
      written := kept;
    }

    /** The pointers still are what they were when the bytes were elsewhere. */
    lemma Thrown(was: bytes, data: bytes)
      requires Valid() && |was| == |buffer| && data == Window(was, gptr, pptr)
      requires buffer == if gptr > 0 then data + was[|data|..] else was
      ensures Data() == AfterThrow(data, gptr)
    {
      if 0 < gptr <= |data| {
        ShiftedWindow(was, data, gptr, pptr);
      } else if gptr == 0 {
        assert data[0..] + data[|data|..] == data;
      } else {
        assert Data() == Window(was, gptr, pptr);
      }
    }

    /** std::vector::resize: new bytes are zero. */
    method Resize(n: nat)
      modifies `buffer
      ensures |buffer| == n && buffer[..Min(n, |old(buffer)|)] == old(buffer)[..Min(n, |old(buffer)|)]
    {
      buffer := if n <= |buffer| then buffer[..n] else buffer + seq(n - |buffer|, _ => 0);
    }

    /** prepare: the offset of n bytes to write to. */
    method PrepareArea(n: nat) returns (area: Option<nat>)
      requires Valid()
      modifies this
      ensures Valid() && area.Some? == (old(|Data()|) + n <= maxSize)
      ensures area.Some? ==> Room(maxSize, old(Contents()), n) == Some(Contents())
      ensures area.Some? ==> Data() == old(Data()) && area.value == pptr && n <= |Area()|
      ensures old(|Area()|) < n <= old(|Area()| + gptr) ==> buffer == old(Data()) + old(buffer)[old(|Data()|)..]
      ensures area.None? ==> Room(maxSize, old(Contents()), n) == None
      ensures area.None? ==> Data() == AfterThrow(old(Data()), old(gptr))
    {
      RoomExactly(maxSize, Contents(), n);
      var ok := Reserve(n);
      return if ok then Some(pptr) else None;
    }

    /** What the user of a prepared area does: store bytes at its start. */
    method Fill(chunk: bytes)
      requires Valid() && |chunk| <= |Area()|
      modifies `buffer, `written
      ensures Valid() && Step(maxSize, old(Contents()), Write(chunk)) == Next(Contents())
      ensures Area()[..|chunk|] == chunk && Area()[|chunk|..] == old(Area())[|chunk|..] && Data() == old(Data())
    {
      hide Window, Tail;
      FillWindow(buffer, gptr, pptr, epptr, written, chunk);
      buffer := buffer[..pptr] + chunk + buffer[pptr + |chunk|..];
      written := Max(written, |chunk|);
    }

    /** commit: the start of the put area, at most all of it, becomes data, whoever has written it. */
    method CommitBytes(count: nat)
      requires Valid()
      modifies this
      ensures Valid() && buffer == old(buffer)
      ensures Data() == old(Data()) + old(Area())[..Min(count, old(|Area()|))]
      ensures Step(maxSize, old(Contents()), Commit(count)) ==
              if Min(count, old(|Area()|)) <= old(written) then Next(Contents()) else Unwritten
      // what the user wrote is what is appended exactly if the user wrote all of it
      ensures Data() == old(Data() + Contents().written[..Min(count, written)]) <==>
              Min(count, old(|Area()|)) <= old(written)
    {
      var n := count;
      if pptr + n > epptr {
        n := epptr - pptr;
      }
      Advance(n);
    }

    /** pbump and setg: n bytes of the put area become data. */
    method Advance(n: nat)
      requires Valid() && n <= |Area()|
      modifies `pptr, `egptr, `written
      ensures Valid() && Data() == old(Data()) + old(Area())[..n]
      ensures n <= old(written) ==>
                var q := old(Contents());
                Contents() == Queue(q.gap, q.data + q.written[..n], q.written[n..], q.area - n)
    {
      hide Window;
      DataGrows(buffer, gptr, pptr, epptr, n);
      if n <= written { WrittenShrinks(buffer, gptr, pptr, written, n); }
      pptr := pptr + n;
      egptr := pptr;
      written := if n <= written then written - n else 0;
    }

    method ConsumeBytes(count: nat)
      requires Valid()
      modifies this
      ensures Valid() && Step(maxSize, old(Contents()), Consume(count)) == Next(Contents())
      ensures Data() == old(Data()[Min(count, |Data()|)..]) && buffer == old(buffer)
    {
      var n := count;
      if egptr < pptr {
        egptr := pptr;
      }
      if gptr + n > pptr {
        n := pptr - gptr;
      }
      gptr := gptr + n;
    }

    /** underflow: the next byte, if there is one, and it stays; afterwards the get area is all of the data. */
    method Underflow() returns (c: Option<byte>)
      requires Valid()
      modifies this
      ensures Valid() && Contents() == old(Contents())
      ensures c == (if Data() == [] then None else Some(Data()[0])) && (c.Some? ==> egptr == pptr)
    {
      if gptr < pptr {
        egptr := pptr;
        return Some(buffer[gptr]);
      }
      return None;
    }

    /** overflow, for a character that is not eof. */
    method Overflow(c: byte) returns (ok: bool)
      requires Valid()
      modifies this
      ensures Valid() && ok == (old(|Data()|) < maxSize)
      ensures Step(maxSize, old(Contents()), PutChar(c)) == if ok then Next(Contents()) else Throws
      ensures ok ==> Data() == old(Data()) + [c]
      ensures !ok ==> Data() == AfterThrow(old(Data()), old(gptr))
    {
      hide AfterThrow, Room, Tail, Window, Step, Growth;
      PutCharExactly(maxSize, Contents(), c);
      if pptr == epptr {
        ok := ReserveMore();
        PutAfterRoom(maxSize, old(Contents()), c);
        if !ok {
          return;
        }
      } else {
        PutInArea(maxSize, Contents(), c);
      }
      PutByte(c);
      return true;
    }

    /** What overflow reserves when the put area is full. */
    method ReserveMore() returns (ok: bool)
      requires Valid() && pptr == epptr
      modifies this
      ensures Valid() && ok == (old(|Data()|) < maxSize)
      ensures var room := Room(maxSize, old(Contents()), Growth(maxSize, old(|Data()|)));
              room == if ok then Some(Contents()) else None
      ensures ok ==> Data() == old(Data()) && pptr < epptr
      ensures !ok ==> Data() == AfterThrow(old(Data()), old(gptr))
    {
      hide AfterThrow, Room, Window;
      var size := pptr - gptr;
      RoomExactly(maxSize, Contents(), Growth(maxSize, size));
      if size < maxSize && maxSize - size < BUFFER_DELTA {
        ok := Reserve(maxSize - size);
      } else {
        ok := Reserve(BUFFER_DELTA);
      }
    }

    /** The end of overflow: the character goes to the start of the put area. */
    method PutByte(c: byte)
      requires Valid() && pptr < epptr
      modifies this
      ensures Valid() && Data() == old(Data()) + [c]
      ensures var q := old(Contents()); Contents() == Queue(q.gap, q.data + [c], Tail(q.written, 1), q.area - 1)
    {
      hide Window, Tail;
      PutWindow(buffer, gptr, pptr, epptr, written, c);
      buffer := buffer[pptr := c];
      pptr := pptr + 1;
      written := if written == 0 then 0 else written - 1;
    }

    /** One operation of a user. */
    method Apply(op: Op) returns (ok: bool)
      requires Valid() && Step(maxSize, Contents(), op) != Outside
      modifies this
      ensures Valid() && ok == !Step(maxSize, old(Contents()), op).Throws?
      ensures Step(maxSize, old(Contents()), op).Next? ==> Step(maxSize, old(Contents()), op) == Next(Contents())
    {
      ok := true;
      match op
      case Prepare(n) =>
        var area := PrepareArea(n);
        ok := area.Some?;
      case Write(chunk) => Fill(chunk);
      case Commit(n) => CommitBytes(n);
      case Consume(n) => ConsumeBytes(n);
      case PutChar(c) => ok := Overflow(c);
    }
  }

  /** Nobody writes beyond the put area or commits what was not written. */
  ghost predicate KeepsToProtocol(maxSize: nat, ops: seq<Op>) {
    forall k | 0 <= k <= |ops| :: Run(maxSize, ops[..k]).Next? || Run(maxSize, ops[..k]).Throws?
  }

  /** Any such run: until an operation throws, the buffer holds what the queue holds, first in, first out. */
  method RunStream(maxSize: nat, ops: seq<Op>) returns (result: Option<bytes>)
    requires KeepsToProtocol(maxSize, ops)
    ensures result.Some? <==> Run(maxSize, ops).Next?
    ensures result.Some? ==> result.value == Run(maxSize, ops).q.data
    ensures result.Some? ==> result.value == Appended(maxSize, ops)[Consumed(maxSize, ops)..]
    ensures result.Some? ==> |result.value| <= maxSize
  {
    hide Step, Appended, Consumed, Start;
    var b := new StreamBuf(maxSize);
    for k := 0 to |ops|
      invariant b.Valid() && b.maxSize == maxSize && Run(maxSize, ops[..k]) == Next(b.Contents())
    {
      assert ops[..k + 1][..k] == ops[..k];
      assert Run(maxSize, ops[..k + 1]).Next? || Run(maxSize, ops[..k + 1]).Throws?;
      var ok := b.Apply(ops[k]);
      if !ok {
        Stopped(maxSize, ops, k + 1);
        return None;
      }
    }
    assert ops[..|ops|] == ops;
    FirstInFirstOut(maxSize, ops);
    return Some(b.Data());
  }

  /** A run that has thrown stays so. */
  lemma {:induction false} Stopped(maxSize: nat, ops: seq<Op>, k: nat)
    requires k <= |ops| && Run(maxSize, ops[..k]) == Throws
    ensures Run(maxSize, ops) == Throws
    decreases |ops| - k
  {
    if k == |ops| {
      assert ops[..k] == ops;
    } else {
      assert ops[..k + 1][..k] == ops[..k];
      Stopped(maxSize, ops, k + 1);
    }
  }

  /** A buffer of one byte that holds a 7. */
  method Holding() returns (b: StreamBuf)
    ensures fresh(b) && b.Valid() && b.maxSize == 1
    ensures b.Contents() == Queue(0, [7], [], 0) && b.buffer == [7]
  {
    hide AfterThrow, Window, Growth, Room, Step;
    HoldingSteps();
    b := new StreamBuf(1);
    b.Fill([7]);
    assert b.Contents() == Queue(0, [], [7], 1) && b.Area() == [7];
    WholeWindow(b.buffer);
    b.CommitBytes(1);
  }

  lemma HoldingSteps()
    ensures Step(1, Start(1), Write([7])) == Next(Queue(0, [], [7], 1))
    ensures Step(1, Queue(0, [], [7], 1), Commit(1)) == Next(Queue(0, [7], [], 0))
  {}

  /** The same buffer when the byte has been taken and the areas have been moved back. */
  method Used() returns (b: StreamBuf)
    ensures fresh(b) && b.Valid() && b.maxSize == 1 && b.Data() == []
    ensures b.Contents() == Start(1) && b.Area() == [7]
  {
    hide AfterThrow, Window, Growth;
    b := Holding();
    b.ConsumeBytes(1);
    assert b.Contents() == Queue(1, [], [], 0) && b.buffer == [7];
    var area := b.PrepareArea(1);
    assert b.buffer == [] + [7][0..];
    WholeWindow(b.buffer);
  }

  lemma WholeWindow(s: bytes)
    ensures Window(s, 0, |s|) == s
  {}

  /**
    A commit of what was not written is not determined by the queue: two buffers stand for the same
    queue, and the same commit makes one hold a zero and the other a byte it has given out before.
  */
  method CommitUnwritten() returns (fresh1: bytes, stale: bytes)
    ensures fresh1 == [0] && stale == [7]
  {
    hide Step, Room, AfterThrow;
    var a := new StreamBuf(1);
    var b := Used();
    assert a.Contents() == b.Contents();
    a.CommitBytes(1);
    b.CommitBytes(1);
    fresh1, stale := a.Data(), b.Data();
  }
}
