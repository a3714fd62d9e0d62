/**
  The least-recently-used policy: a doubly linked list of infos, the most recently used one at
  top, the least recently used one at bottom, with its own count of the bytes it stands for.
*/
module Replacement {
  import opened Machine
  import opened Blocks
  import opened LruList

  class Info {
    var low: Info?
    var high: Info?
    const ident: Blob
    const valSize: u32

    constructor (ident: Blob, valSize: u32)
      ensures this.ident == ident && this.valSize == valSize
      ensures low == null && high == null
    {
      this.ident, this.valSize := ident, valSize;
      low, high := null, null;
    }
  }

  /** The answer to a request for room: the ids to delete, or a refusal. */
  datatype IdArr = IdArr(data: array?<Blob?>, size: nat, shouldAdd: bool)

  ghost function At(nodes: seq<Info>, i: int): Info? {
    if 0 <= i < |nodes| then nodes[i] else null
  }

  ghost predicate Distinct(s: seq<object>) {
    forall i, j | 0 <= i < j < |s| :: s[i] != s[j]
  }

  /** nodes, bottom first, is what the low and high pointers spell out. */
  ghost predicate Linked(nodes: seq<Info>, bottom: Info?, top: Info?)
    reads nodes
  {
    && bottom == At(nodes, 0)
    && top == At(nodes, |nodes| - 1)
    && (forall i {:trigger nodes[i].high} | 0 <= i < |nodes| :: nodes[i].high == At(nodes, i + 1))
    && (forall i {:trigger nodes[i].low} | 0 <= i < |nodes| :: nodes[i].low == At(nodes, i - 1))
    && Distinct(nodes)
  }

  /** nodes with the pointers that led to nodes[i] now leading past it. */
  ghost predicate Bypassed(nodes: seq<Info>, i: nat, bottom: Info?, top: Info?)
    requires i < |nodes|
    reads nodes
  {
    && bottom == At(nodes, if i == 0 then 1 else 0)
    && top == At(nodes, if i == |nodes| - 1 then i - 1 else |nodes| - 1)
    && (forall k {:trigger nodes[k].high} | 0 <= k < |nodes| && k != i ::
          nodes[k].high == At(nodes, if k == i - 1 then i + 1 else k + 1))
    && (forall k {:trigger nodes[k].low} | 0 <= k < |nodes| && k != i ::
          nodes[k].low == At(nodes, if k == i + 1 then i - 1 else k - 1))
    && Distinct(nodes)
  }

  lemma BypassedIsLinked(nodes: seq<Info>, i: nat, bottom: Info?, top: Info?)
    requires i < |nodes| && Bypassed(nodes, i, bottom, top)
    ensures Linked(RemoveAt(nodes, i), bottom, top) && nodes[i] !in RemoveAt(nodes, i)
  {
    var rest := RemoveAt(nodes, i);
    RemoveAtDistinct(nodes, i);
    forall k {:trigger rest[k].high} | 0 <= k < |rest| ensures rest[k].high == At(rest, k + 1) {
      var k' := if k < i then k else k + 1;
      assert rest[k] == nodes[k'];
      assert nodes[k'].high == At(nodes, if k' == i - 1 then i + 1 else k' + 1);
    }
    forall k {:trigger rest[k].low} | 0 <= k < |rest| ensures rest[k].low == At(rest, k - 1) {
      var k' := if k < i then k else k + 1;
      assert rest[k] == nodes[k'];
      assert nodes[k'].low == At(nodes, if k' == i + 1 then i - 1 else k' - 1);
    }
  }

  lemma RemoveAtDistinct(s: seq<object>, i: nat)
    requires i < |s| && Distinct(s)
    ensures Distinct(RemoveAt(s, i)) && s[i] !in RemoveAt(s, i)
  {
    var rest := RemoveAt(s, i);
    assert forall k | 0 <= k < |rest| :: rest[k] == s[if k < i then k else k + 1];
  }

  ghost predicate Sized(nodes: seq<Info>, sizes: seq<u32>) {
    |sizes| == |nodes| && forall i | 0 <= i < |nodes| :: nodes[i].valSize == sizes[i]
  }

  lemma SizedRemoveAt(nodes: seq<Info>, sizes: seq<u32>, i: nat)
    requires Sized(nodes, sizes) && i < |nodes|
    ensures Sized(RemoveAt(nodes, i), RemoveAt(sizes, i))
    ensures Total64(RemoveAt(sizes, i)) == Sub64(Total64(sizes), nodes[i].valSize)
  {
    Total64RemoveAt(sizes, i);
  }

  lemma SizedAppend(nodes: seq<Info>, sizes: seq<u32>, info: Info)
    requires Sized(nodes, sizes)
    ensures Sized(nodes + [info], sizes + [info.valSize])
    ensures Total64(sizes + [info.valSize]) == Add64(Total64(sizes), info.valSize)
  {
    Total64Append(sizes, info.valSize);
  }

  lemma SizedRotate(nodes: seq<Info>, sizes: seq<u32>, i: nat)
    requires Sized(nodes, sizes) && i < |nodes|
    ensures Sized(RemoveAt(nodes, i) + [nodes[i]], RemoveAt(sizes, i) + [sizes[i]])
    ensures Total64(RemoveAt(sizes, i) + [sizes[i]]) == Total64(sizes)
  {
    SizedRemoveAt(nodes, sizes, i);
    SizedAppend(RemoveAt(nodes, i), RemoveAt(sizes, i), nodes[i]);
  }

  class Policy {
    const heap: Heap
    const maxmem: u64
    var usedMem: u64
    var top: Info?
    var bottom: Info?
    ghost var nodes: seq<Info>
    ghost var sizes: seq<u32>

    ghost predicate Valid()
      reads this, nodes
    {
      && Linked(nodes, bottom, top)
      && Sized(nodes, sizes)
      && usedMem == Total64(sizes)
    }

    constructor (heap: Heap, maxmem: u64)
      ensures Valid() && nodes == [] && sizes == []
      ensures this.heap == heap && this.maxmem == maxmem
    {
      this.heap, this.maxmem := heap, maxmem;
      usedMem, top, bottom := 0, null, null;
      nodes, sizes := [], [];
    }

    method MoveInfoToHead(info: Info)
      requires Linked(nodes, bottom, top) && info !in nodes
      modifies this`top, this`bottom, this`nodes, nodes`high, info`low, info`high
      ensures nodes == old(nodes) + [info]
      ensures Linked(nodes, bottom, top)
    {
      var oldHead := top;
      assert forall k | 0 <= k < |nodes| :: nodes[k] != info;
      if oldHead != null {
        oldHead.high := info;
      }

      info.low := oldHead;
      info.high := null;

      top := info;
      if bottom == null {
        bottom := info;
      }
      nodes := nodes + [info];
      assert forall k | 0 <= k < |nodes| - 1 :: nodes[k] == old(nodes)[k];
    }

    method RemoveInfoFromList(info: Info, ghost i: nat)
      requires Linked(nodes, bottom, top) && i < |nodes| && nodes[i] == info
      modifies this`top, this`bottom, this`nodes, nodes`high, nodes`low
      ensures nodes == RemoveAt(old(nodes), i) && info !in nodes
      ensures Linked(nodes, bottom, top)
      ensures info.low == old(info.low) && info.high == old(info.high)
    {
      hide Linked, Bypassed;
      Bypass(info, i);
      BypassedIsLinked(nodes, i, bottom, top);
      nodes := RemoveAt(nodes, i);
    }

    /** The pointers that led to a node lead past it. */
    method Bypass(info: Info, ghost i: nat)
      requires Linked(nodes, bottom, top) && i < |nodes| && nodes[i] == info
      modifies this`top, this`bottom, nodes`high, nodes`low
      ensures Bypassed(nodes, i, bottom, top)
      ensures info.low == old(info.low) && info.high == old(info.high)
    {
      assert nodes[i].high == info.high && nodes[i].low == info.low;
      if info.high != null {
        info.high.low := info.low;
      }
      if info.low != null {
        info.low.high := info.high;
      }
      if top == info {
        top := info.low;
      }
      if bottom == info {
        bottom := info.high;
      }
    }

    method CreateInfo(id: Blob, valSize: u32) returns (info: Info)
      requires Valid()
      // the assertion of create_info
      requires Add64(usedMem, valSize) <= maxmem
      modifies this, nodes`high, heap
      ensures Valid() && fresh(info) && info.ident == id && info.valSize == valSize
      ensures nodes == old(nodes) + [info] && sizes == old(sizes) + [valSize]
      ensures heap.live == old(heap.live) + {info}
    {
      info := new Info(id, valSize);
      heap.Claim(info);

      MoveInfoToHead(info);

      usedMem := Add64(usedMem, valSize);
      SizedAppend(old(nodes), sizes, info);
      sizes := sizes + [valSize];
    }

    method DeleteInfo(info: Info, ghost i: nat)
      requires Valid() && i < |nodes| && nodes[i] == info && info in heap.live
      modifies this, nodes`high, nodes`low, heap
      ensures Valid()
      ensures nodes == RemoveAt(old(nodes), i) && sizes == RemoveAt(old(sizes), i)
      ensures heap.live == old(heap.live) - {info}
    {
      RemoveInfoFromList(info, i);

      usedMem := Sub64(usedMem, info.valSize);
      SizedRemoveAt(old(nodes), sizes, i);
      sizes := RemoveAt(sizes, i);

      heap.Free(info);
    }

    /** The length of the run of least recent items to give up, and where that run stops. */
    method NumToDelete(valSize: u32) returns (num: nat, stop: Info?)
      requires Valid()
      ensures num == EvictCount(sizes, Add64(usedMem, valSize), maxmem)
      ensures stop == At(nodes, num)
    {
      num := 0;
      var cur := bottom;
      var tot: u64 := Add64(usedMem, valSize);
      while tot > maxmem && cur != null
        invariant num <= |nodes| && cur == At(nodes, num)
        invariant EvictCount(sizes, Add64(usedMem, valSize), maxmem)
                  == num + EvictCount(sizes[num..], tot, maxmem)
        decreases |nodes| - num
      {
        assert sizes[num..][1..] == sizes[num + 1..];
        tot := Sub64(tot, cur.valSize);
        cur := cur.high;
        num := num + 1;
      }
      stop := cur;
    }

    method MakeItemArray(num: nat, start: Info?) returns (arr: array<Blob?>)
      requires Valid() && num <= |nodes| && start == bottom
      modifies heap
      ensures fresh(arr) && arr.Length == num && heap.live == old(heap.live) + {arr}
      ensures forall k | 0 <= k < num :: arr[k] == nodes[k].ident
    {
      arr := new Blob?[num](_ => null);
      heap.Claim(arr);
      var cur := start;
      for di := 0 to num
        invariant cur == At(nodes, di) && heap.live == old(heap.live) + {arr}
        invariant forall k | 0 <= k < di :: arr[k] == nodes[k].ident
      {
        arr[di] := cur.ident;
        cur := cur.high;
      }
    }

    method IdsToDeleteIfAdded(valSize: u32) returns (r: IdArr)
      requires Valid()
      modifies heap
      ensures r.shouldAdd <==> valSize <= maxmem
      ensures r.shouldAdd ==> r.size == EvictCount(sizes, Add64(usedMem, valSize), maxmem)
      ensures r.data == null <==> !r.shouldAdd || r.size == 0
      ensures r.data == null ==> heap.live == old(heap.live)
      ensures r.data != null ==>
                && fresh(r.data) && heap.live == old(heap.live) + {r.data}
                && r.data.Length == r.size
                && forall k | 0 <= k < r.size :: r.data[k] == nodes[k].ident
    {
      var num, stop := NumToDelete(valSize);

      if valSize > maxmem {
        return IdArr(null, 0, false);
      } else if num == 0 {
        return IdArr(null, 0, true);
      }
      var ids := MakeItemArray(num, bottom);
      return IdArr(ids, num, true);
    }

    method InfoGotten(info: Info, ghost i: nat)
      requires Valid() && i < |nodes| && nodes[i] == info
      modifies this, nodes`high, nodes`low
      ensures Valid()
      ensures nodes == RemoveAt(old(nodes), i) + [info]
      ensures sizes == RemoveAt(old(sizes), i) + [old(sizes)[i]]
    {
      hide Linked, Total64;
      SizedRotate(nodes, sizes, i);
      RemoveInfoFromList(info, i);
      MoveInfoToHead(info);
      sizes := RemoveAt(sizes, i) + [sizes[i]];
    }

    /** delete_policy: every node still listed is released, and then the policy itself. */
    method Delete()
      requires Valid() && this in heap.live && forall n | n in nodes :: n in heap.live
      modifies heap
      ensures heap.live == old(heap.live) - (set n | n in nodes) - {this}
    {
      var obj := bottom;
      ghost var freed := 0;
      while obj != null
        invariant freed <= |nodes| && obj == At(nodes, freed)
        invariant heap.live == old(heap.live) - (set n | n in nodes[..freed])
        decreases |nodes| - freed
      {
        var next := obj.high;
        assert obj !in nodes[..freed];
        heap.Free(obj);
        assert nodes[..freed + 1] == nodes[..freed] + [obj];
        freed := freed + 1;
        obj := next;
      }
      assert nodes[..freed] == nodes;
      heap.Free(this);
    }
  }
}
