/**
  The cache: a chained hash table driven through link slots, whose links share their keys and
  their recency with the nodes of the replacement policy.
*/
module HashCache {
  import opened Machine
  import opened Blocks
  import opened LruList
  import opened Replacement
  import opened HashTable
  import opened Bookkeeping

  const DEFAULT_TABLE_SIZE: nat := 2503

  class Cache {
    const heap: Heap
    const maxmem: u64
    const hash: HashFunc
    const policy: Policy
    var memUsed: u64
    var table: array<Link?>
    var numElements: nat

    ghost var chains: seq<seq<Link>>  // what the table and the next pointers spell out
    ghost var order: seq<Link>        // the links in the table, least recently used first

    /** Every invariant but the bound on the load factor, which add_to_cache breaks for a moment. */
    ghost predicate Consistent()
      reads this, table, order`next, policy, policy.nodes, heap
    {
      && policy.heap == heap && policy.maxmem == maxmem
      && 0 < table.Length == |chains| && InTable(Elements(order))
      && policy.Valid()
      && policy.nodes == NodesOf(order) && policy.sizes == SizesOf(order)
      && Sane(order) && Kept(maxmem, order)
      && memUsed == Total64(SizesOf(order)) && numElements == |order|
      && OwnedIsLive()
    }

    ghost predicate Valid()
      reads this, table, order`next, policy, policy.nodes, heap
    {
      Sane(order) && Consistent() && 2 * numElements <= table.Length
    }

    /** The list of (key, value) pairs all this stands for. */
    ghost function Contents(): Entries
      requires Sane(order)
      reads this
    {
      EntriesOf(order)
    }

    /** The blocks the cache has allocated and not yet freed. */
    ghost function Owned(): set<object>
      reads this
    {
      {this, policy, table} + BlocksIn(order)
    }

    /** The live blocks that are not the cache's. */
    ghost function Foreign(): set<object>
      reads this, heap
    {
      heap.live - Owned()
    }

    ghost predicate OwnedIsLive()
      reads this, heap
    {
      Owned() <= heap.live && {this, policy, table} !! BlocksIn(order) && heap !in Owned()
    }

    constructor (heap: Heap, maxmem: u64, hash: HashFunc)
      ensures this.heap == heap && this.maxmem == maxmem && this.hash == hash
      ensures fresh(table) && fresh(policy) && table.Length == |chains| == DEFAULT_TABLE_SIZE
      ensures order == [] && memUsed == 0 && numElements == 0 && InTable({})
      ensures policy.Valid() && policy.heap == heap && policy.maxmem == maxmem
      ensures policy.nodes == [] && policy.sizes == []
    {
      this.heap, this.maxmem, this.hash := heap, maxmem, hash;
      memUsed, numElements := 0, 0;
      table := new Link?[DEFAULT_TABLE_SIZE](_ => null);
      policy := new Policy(heap, maxmem);
      chains, order := seq(DEFAULT_TABLE_SIZE, _ => []), [];
      new;
      EmptyTable();
    }

    /** create_cache */
    static method Create(heap: Heap, maxmem: u64, hash: HashFunc) returns (cache: Cache)
      modifies heap
      ensures cache.Valid() && cache.Contents() == []
      ensures cache.heap == heap && cache.maxmem == maxmem && cache.hash == hash
      ensures fresh(cache.Owned()) && heap.live == old(heap.live) + cache.Owned()
    {
      hide TableOk, Kept, Policy.Valid, Elements, BlocksIn, SizesOf, NodesOf, EntriesOf;
      cache := new Cache(heap, maxmem, hash);
      KeptEmpty(maxmem);
      heap.Claim(cache);
      heap.Claim(cache.table);
      heap.Claim(cache.policy);
    }

    // ----- slots -----

    ghost predicate InTable(ms: set<Link>)
      reads this, table, ms`next
    {
      TableOk(table[..], chains, ms, hash)
    }

    ghost predicate AllChainsOk()
      requires |chains| == table.Length
      reads this, table, set c, k | 0 <= c < |chains| && 0 <= k < |chains[c]| :: chains[c][k]
    {
      forall c | 0 <= c < |chains| :: ChainOk(chains[c], table[..][c])
    }

    function Deref(slot: Slot): Link?
      requires slot.Bucket? ==> slot.b < table.Length
      reads this, table, if slot.NextOf? then {slot.link} else {}
    {
      match slot
      case Bucket(b) => table[b]
      case NextOf(link) => link.next
    }

    method Store(slot: Slot, l: Link?)
      requires slot.Bucket? ==> slot.b < table.Length
      modifies if slot.Bucket? then {table} else {}, (if slot.NextOf? then {slot.link} else {})`next
      ensures slot.Bucket? ==> table[..] == old(table[..])[slot.b := l]
      ensures slot.NextOf? ==> slot.link.next == l
    {
      match slot {
        case Bucket(b) => table[b] := l;
        case NextOf(link) => link.next := l;
      }
    }

    /** querry_hash, on a table that holds the links ms. */
    method QueryHash(key: Blob, ghost ms: set<Link>) returns (slot: Slot, ghost b: nat, ghost j: nat)
      requires InTable(ms)
      ensures InTable(ms) && b < |chains| && Found(chains, hash, key.Text(), b, j)
      ensures slot == SlotAt(chains, b, j)
      ensures (slot.Bucket? ==> slot.b < table.Length) && Deref(slot) == Nth(chains[b], j)
    {
      var loc := Home(hash, key.Text(), table.Length);
      slot, b, j := Bucket(loc), loc, 0;
      ghost var chain := chains[b];
      assert ChainOk(chain, table[..][b]);
      while Deref(slot) != null && Deref(slot).data.key.Text() != key.Text()
        invariant j <= |chain| && slot == SlotAt(chains, b, j)
        invariant slot.Bucket? ==> slot.b < table.Length
        invariant Deref(slot) == Nth(chain, j)
        invariant forall i | 0 <= i < j :: chain[i].data.key.Text() != key.Text()
        decreases |chain| - j
      {
        assert chain[j].next == Nth(chain, j + 1);
        slot, j := NextOf(Deref(slot)), j + 1;
      }
    }

    /** A store through slot j of chain b, seen from all chains. */
    method Redirect(slot: Slot, l: Link?, ghost b: nat, ghost j: nat)
      requires b < |chains| == table.Length && j <= |chains[b]| && slot == SlotAt(chains, b, j)
      requires AllChainsOk() && ApartFrom(chains, b)
      modifies if slot.Bucket? then {table} else {}, (if slot.NextOf? then {slot.link} else {})`next
      ensures forall c | 0 <= c < |chains| && c != b :: ChainOk(chains[c], table[..][c])
      ensures Redirected(chains[b], table[..][b], j, l)
    {
      assert ChainOk(chains[b], table[..][b]);
      assert forall c | 0 <= c < |chains| && c != b :: ChainOk(chains[c], table[..][c]);
      Store(slot, l);
    }

    /** Storing a link in the empty slot that querry_hash found for its key. */
    method Attach(slot: Slot, l: Link, ghost ms: set<Link>, ghost b: nat)
      requires InTable(ms) && l !in ms && l.next == null
      requires b < |chains| && Found(chains, hash, l.data.key.Text(), b, |chains[b]|)
      requires slot == SlotAt(chains, b, |chains[b]|)
      modifies this`chains, table, ms`next
      ensures InTable(ms + {l}) && |chains| == |old(chains)|
    {
      hide TableOk, Placed, OneLinkPerKey, ChainOk, Redirected, Found;
      AttachFacts(slot, l, ms, b);
      Redirect(slot, l, b, |chains[b]|);
      RedirectedToLast(chains[b], table[..][b], l);
      chains := chains[b := chains[b] + [l]];
      Attached(table[..], old(chains), ms, hash, b, l);
    }

    lemma AttachFacts(slot: Slot, l: Link, ms: set<Link>, b: nat)
      requires InTable(ms) && l !in ms && l.next == null
      requires b < |chains| && Found(chains, hash, l.data.key.Text(), b, |chains[b]|)
      requires slot == SlotAt(chains, b, |chains[b]|)
      ensures slot.NextOf? ==> slot.link in ms
      ensures |chains| == table.Length && AllChainsOk() && ApartFrom(chains, b)
      ensures l !in chains[b] && b == Home(hash, l.data.key.Text(), |chains|)
      ensures 0 < |chains| == |table[..]| && Placed(chains, ms, hash) && OneLinkPerKey(ms)
      ensures forall m | m in ms :: m.data.key.Text() != l.data.key.Text()
    {
      FoundIsTheOnly(table[..], chains, ms, hash, l.data.key.Text(), b, |chains[b]|);
    }

    /** *slot = (*slot)->next, for the link in slot j of chain b. */
    method Detach(slot: Slot, l: Link, ghost ms: set<Link>, ghost b: nat, ghost j: nat)
      requires InTable(ms) && b < |chains| && j < |chains[b]| && l == chains[b][j]
      requires slot == SlotAt(chains, b, j)
      modifies this`chains, table, ms`next
      ensures InTable(ms - {l})
      ensures chains == old(chains)[b := RemoveAt(old(chains)[b], j)]
      ensures l.next == old(l.next)
    {
      hide TableOk, Placed, OneLinkPerKey, ChainOk, Redirected, Found;
      DetachFacts(slot, l, ms, b, j);
      Redirect(slot, l.next, b, j);
      RedirectedPast(chains[b], table[..][b], j);
      chains := chains[b := RemoveAt(chains[b], j)];
      Detached(table[..], old(chains), ms, hash, b, j);
    }

    lemma DetachFacts(slot: Slot, l: Link, ms: set<Link>, b: nat, j: nat)
      requires InTable(ms) && b < |chains| && j < |chains[b]| && l == chains[b][j]
      requires slot == SlotAt(chains, b, j)
      ensures slot.NextOf? ==> slot.link in ms && slot.link != l
      ensures |chains| == table.Length && AllChainsOk() && ApartFrom(chains, b)
      ensures 0 < |chains| == |table[..]| && Placed(chains, ms, hash) && OneLinkPerKey(ms)
      ensures Distinct(chains[b]) && l.next == Nth(chains[b], j + 1)
    {
      assert ChainOk(chains[b], table[..][b]);
    }

    // ----- resize_table -----

    /** One turn of the rehash: a link that is not in the new table yet goes to its home there. */
    method MoveLink(cur: Link, ghost moved: set<Link>, ghost ms: set<Link>)
      requires InTable(moved) && OneLinkPerKey(ms) && moved <= ms && cur in ms - moved
      modifies this`chains, table, moved`next, cur`next
      ensures InTable(moved + {cur}) && |chains| == |old(chains)|
    {
      cur.next := null;
      var slot, b, k := QueryHash(cur.data.key, moved);
      NotYetMoved(cur, moved, ms, b, k);
      Attach(slot, cur, moved, b);
    }

    lemma NotYetMoved(cur: Link, moved: set<Link>, ms: set<Link>, b: nat, k: nat)
      requires InTable(moved) && OneLinkPerKey(ms) && moved <= ms && cur in ms - moved
      requires b < |chains| && Found(chains, hash, cur.data.key.Text(), b, k)
      ensures k == |chains[b]|
    {
      FoundIsTheOnly(table[..], chains, moved, hash, cur.data.key.Text(), b, k);
    }

    /** The inner loop of the rehash: all links of old chain i. */
    method MoveChain(head: Link?, ghost olds: seq<seq<Link>>, ghost i: nat, ghost moved: set<Link>)
      returns (ghost moved': set<Link>)
      requires i < |olds| && ChainOk(olds[i], head) && AllIn(olds, Elements(order))
      requires (forall b | 0 <= b < |olds| :: Distinct(olds[b])) && Apart(olds)
      requires MovedSoFar(olds, i, 0, moved) && moved <= Elements(order)
      requires InTable(moved) && OneLinkPerKey(Elements(order))
      modifies this`chains, table, Elements(order)`next
      ensures MovedSoFar(olds, i + 1, 0, moved') && moved <= moved' <= Elements(order)
      ensures InTable(moved') && |chains| == |old(chains)|
      ensures forall l | l in Elements(order) - moved' :: l.next == old(l.next)
    {
      hide TableOk, OneLinkPerKey, Apart, MovedSoFar;
      moved' := moved;
      var cur := head;
      ghost var j := 0;
      while cur != null
        invariant j <= |olds[i]| && cur == Nth(olds[i], j)
        invariant MovedSoFar(olds, i, j, moved') && moved <= moved' <= Elements(order)
        invariant forall l | l in Elements(order) - moved' :: l.next == old(l.next)
        invariant InTable(moved') && OneLinkPerKey(Elements(order)) && |chains| == |old(chains)|
        decreases |olds[i]| - j
      {
        var link: Link := cur;
        MovedOne(olds, i, j, moved');
        var next := link.next;
        MoveLink(link, moved', Elements(order));
        moved', j := moved' + {link}, j + 1;
        cur := next;
      }
      ChainMoved(olds, i, moved');
    }

    method ResizeTable(newSize: nat)
      requires 0 < newSize && InTable(Elements(order)) && table in heap.live
      modifies this`table, this`chains, Elements(order)`next, heap
      ensures InTable(Elements(order)) && fresh(table) && table.Length == |chains| == newSize
      ensures heap.live == old(heap.live) - {old(table)} + {table}
    {
      hide TableOk, Placed, OneLinkPerKey, Apart, MovedSoFar, AllIn, Distinct, ChainOk, ChainFrom, Nth;
      var oldTable := table;
      ghost var olds := chains;
      ChainsApart(oldTable[..], olds, Elements(order), hash);
      ClearTable(newSize);

      ghost var moved: set<Link> := {};
      for i := 0 to oldTable.Length
        invariant MovedSoFar(olds, i, 0, moved) && moved <= Elements(order)
        invariant forall l | l in Elements(order) - moved :: l.next == old(l.next)
        invariant InTable(moved) && OneLinkPerKey(Elements(order)) && Placed(olds, Elements(order), hash)
        invariant fresh(table) && table.Length == |chains| == newSize && heap.live == old(heap.live) + {table}
        invariant oldTable[..] == old(table[..])
      {
        ChainWaits(olds, i, moved, Elements(order));
        forall k {:trigger olds[i][k].next} | 0 <= k < |olds[i]|
          ensures olds[i][k].next == Nth(olds[i], k + 1)
        {
          assert olds[i][k].next == old(olds[i][k].next);
        }
        ChainStillOk(olds[i], oldTable[i]);
        moved := MoveChain(oldTable[i], olds, i, moved);
      }
      AllMoved(olds, moved, Elements(order), hash);
      heap.Free(oldTable);
    }

    /** cache->table = calloc(new_size, ...) */
    method ClearTable(size: nat)
      requires 0 < size
      modifies this`table, this`chains, heap
      ensures fresh(table) && table.Length == size && heap.live == old(heap.live) + {table}
      ensures InTable({}) && |chains| == size
    {
      table := new Link?[size](_ => null);
      heap.Claim(table);
      chains := seq(size, _ => []);
      EmptyTable();
    }

    lemma EmptyTable()
      requires 0 < |chains| == table.Length
      requires forall b | 0 <= b < |chains| :: chains[b] == [] && table[b] == null
      ensures InTable({})
    {}

    // ----- del_link -----

    method DelLink(slot: Slot, ghost b: nat, ghost j: nat)
      requires Consistent() && b < |chains| && j <= |chains[b]| && slot == SlotAt(chains, b, j)
      modifies this`memUsed, this`numElements, this`chains, this`order
      modifies table, Elements(order)`next, policy, policy.nodes`low, policy.nodes`high, heap
      ensures Consistent()
      ensures j == |old(chains[b])| ==> order == old(order)
      ensures j < |old(chains[b])| ==>
                var l := old(chains[b][j]);
                var i := IndexOf(old(Contents()), l.data.key.Text());
                && i < |old(order)| && old(order)[i] == l && order == RemoveAt(old(order), i)
                && Contents() == RemoveAt(old(Contents()), i)
                && chains == old(chains)[b := RemoveAt(old(chains)[b], j)]
      ensures Foreign() == old(Foreign()) && Owned() <= old(Owned())
    {
      hide TableOk, Kept, SizesOf, NodesOf, EntriesOf, Elements, BlocksIn, BlocksOf, Total64, Policy.Valid, Sane,
        IndexOf, Found;
      SlotFacts(slot, Elements(order), b, j);
      var obj := Deref(slot);
      if obj != null {
        var l: Link := obj;
        ghost var i := PlaceIn(maxmem, order, l);
        Detach(slot, l, Elements(order), b, j);

        memUsed := Sub64(memUsed, l.data.valSize);
        numElements := numElements - 1;

        Forget(l, i);
      }
    }

    /** del_link between its two halves: the link is out of the table and the counts, but owned and listed. */
    ghost predicate Unlinked(l: Link, i: nat)
      reads this, table, order`next, policy, policy.nodes, heap
    {
      && policy.heap == heap && policy.maxmem == maxmem
      && 0 < table.Length == |chains| && i < |order| && order[i] == l && InTable(Elements(order) - {l})
      && policy.Valid()
      && policy.nodes == NodesOf(order) && policy.sizes == SizesOf(order)
      && Sane(order) && Kept(maxmem, order)
      && memUsed == Sub64(Total64(SizesOf(order)), l.data.valSize) && numElements == |order| - 1
      && OwnedIsLive()
    }

    method Forget(l: Link, ghost i: nat)
      requires Unlinked(l, i)
      modifies this`order, policy, policy.nodes`low, policy.nodes`high, heap
      ensures Consistent() && order == RemoveAt(old(order), i)
      ensures Contents() == RemoveAt(old(Contents()), i)
      ensures Foreign() == old(Foreign()) && Owned() <= old(Owned())
    {
      hide TableOk, Kept, SizesOf, NodesOf, EntriesOf, Elements, BlocksIn, BlocksOf, Total64, Policy.Valid, Sane;
      BlocksOfOne(order, i);
      NotInRest(maxmem, order, i);
      assert InTable(Elements(order) - {l});
      ReleaseBlocks(l, i);
      assert InTable(Elements(order) - {l});
      order := RemoveAt(order, i);
      KeptRemoveAt(maxmem, old(order), i);
      LiveWithout(old(heap.live), {this, policy, table}, BlocksIn(old(order)), BlocksOf(l));
    }

    /** The second half of del_link: the four blocks of an unlinked link are given back. */
    method ReleaseBlocks(l: Link, ghost i: nat)
      requires policy.heap == heap && policy.Valid() && i < |policy.nodes| && policy.nodes[i] == l.data.info
      requires BlocksOf(l) <= heap.live && l.data.key != l.data.val
      modifies policy, policy.nodes`low, policy.nodes`high, heap
      ensures policy.Valid()
      ensures policy.nodes == RemoveAt(old(policy.nodes), i) && policy.sizes == RemoveAt(old(policy.sizes), i)
      ensures heap.live == old(heap.live) - BlocksOf(l)
    {
      hide Policy.Valid;
      heap.Free(l.data.key);
      heap.Free(l.data.val);

      policy.DeleteInfo(l.data.info, i);

      heap.Free(l);
    }

    // ----- cache_delete, cache_get -----

    /** querry_hash finds a link exactly if the list has an entry for the key, and then its link. */
    lemma FoundIsIndex(key: bytes, b: nat, j: nat)
      requires InTable(Elements(order)) && Kept(maxmem, order)
      requires b < |chains| && Found(chains, hash, key, b, j)
      ensures j == |chains[b]| <==> IndexOf(Contents(), key) == |order|
      ensures !HasKey(Contents(), key) ==> j == |chains[b]|
      ensures j < |chains[b]| ==>
                && chains[b][j] in Elements(order)
                && IndexOf(Contents(), key) < |order| && order[IndexOf(Contents(), key)] == chains[b][j]
    {
      FoundIsTheOnly(table[..], chains, Elements(order), hash, key, b, j);
      var i := IndexOf(Contents(), key);
      if i < |order| {
        assert order[i] in Elements(order);
      }
      if j < |chains[b]| {
        var k := PlaceIn(maxmem, order, chains[b][j]);
      }
    }

    lemma LastIn(order: seq<Link>)
      requires order != []
      ensures order[|order| - 1] in Elements(order)
    {}

    lemma PolicyFacts()
      requires Consistent()
      ensures policy.usedMem == memUsed == Used(Contents())
      ensures SizesOf(order) == Sizes(Contents())
      ensures forall k | 0 <= k < |order| :: policy.nodes[k].ident == order[k].data.key
    {
      hide TableOk, BlocksIn, Elements, Linked;
      SizesAgree(order);
      IdsAreKeys(order);
    }

    method CacheDelete(key: Blob)
      requires Valid() && key in heap.live && key.Terminated()
      modifies Owned(), heap
      ensures Valid() && Contents() == Delete(old(Contents()), key.Text())
      ensures order == (var i := IndexOf(old(Contents()), key.Text());
                        if i < |old(order)| then RemoveAt(old(order), i) else old(order))
      ensures Foreign() == old(Foreign()) && Owned() <= old(Owned()) && table == old(table)
    {
      hide TableOk, Kept, SizesOf, NodesOf, Elements, BlocksIn, Policy.Valid, Found, OwnedIsLive, EntriesOf, Sane;
      OwnedObjects();
      var slot, b, j := QueryHash(key, Elements(order));
      FoundIsIndex(key.Text(), b, j);
      DelLink(slot, b, j);
    }

    /** info_gotten for the link of entry i: the entry becomes the most recent one. */
    method Promote(l: Link, ghost i: nat)
      requires Consistent() && i < |order| && order[i] == l
      modifies this`order, policy, policy.nodes`low, policy.nodes`high
      ensures Consistent() && order == RemoveAt(old(order), i) + [l]
      ensures Contents() == RemoveAt(old(Contents()), i) + [old(Contents())[i]]
      ensures BlocksIn(order) == old(BlocksIn(order))
    {
      hide TableOk, Kept, SizesOf, EntriesOf, Elements, BlocksIn, Total64, Policy.Valid, Sane;
      KeptTouch(maxmem, order, i);
      assert TableOk(table[..], chains, Elements(order), hash);
      policy.InfoGotten(l.data.info, i);
      assert TableOk(table[..], chains, Elements(order), hash);
      order := RemoveAt(order, i) + [order[i]];
    }

    method CacheGet(key: Blob) returns (val: Blob?, valSize: u32)
      requires Valid() && key in heap.live && key.Terminated()
      modifies Owned()
      ensures Valid() && Contents() == Touch(old(Contents()), key.Text())
      ensures val == null <==> Lookup(old(Contents()), key.Text()) == None
      ensures val == null ==> valSize == 0
      ensures val != null ==>
                && Lookup(old(Contents()), key.Text()) == Some(val.data) && valSize == |val.data|
                && val in Owned() && val in heap.live
                && exists l | l in Elements(order) :: l.data.val == val && l.data.key.Text() == key.Text()
      ensures Foreign() == old(Foreign()) && Owned() == old(Owned())
    {
      hide TableOk, Kept, SizesOf, NodesOf, EntriesOf, Elements, BlocksIn, Policy.Valid, Found;
      OwnedObjects();
      var slot, b, j := QueryHash(key, Elements(order));
      FoundIsIndex(key.Text(), b, j);
      var found := Deref(slot);
      if found != null {
        ghost var i := PlaceIn(maxmem, order, found);
        Promote(found, i);
        valSize := found.data.valSize;
        val := found.data.val;
        assert val in BlocksOf(found);
        LastIn(order);
      } else {
        val, valSize := null, 0;
      }
    }

    // ----- cache_set -----

    /** ids_to_delete_if_added, in terms of the cache: the ids are its own keys. */
    method AskPolicy(valSize: u32) returns (res: IdArr)
      requires Valid()
      modifies heap
      ensures Valid() && (res.shouldAdd <==> valSize <= maxmem)
      ensures res.shouldAdd ==> res.size == Evicted(maxmem, Contents(), valSize)
      ensures res.data == null <==> !res.shouldAdd || res.size == 0
      ensures res.data == null ==> heap.live == old(heap.live)
      ensures res.data != null ==>
                && fresh(res.data) && heap.live == old(heap.live) + {res.data} && res.data.Length == res.size
                && res.data !in Owned()
                && res.size <= |order| && forall k | 0 <= k < res.size :: res.data[k] == order[k].data.key
    {
      hide TableOk, Kept, SizesOf, NodesOf, Elements, BlocksIn, Policy.Valid, Total64, EvictCount;
      PolicyFacts();
      assert TableOk(table[..], chains, Elements(order), hash);
      res := policy.IdsToDeleteIfAdded(valSize);
      assert TableOk(table[..], chains, Elements(order), hash);
    }

    /** The loop over the evicted keys: each id still points at the key of the least recent link left. */
    method DeleteFirst(ids: array?<Blob?>, n: nat)
      requires Valid() && n <= |order| && (ids == null ==> n == 0)
      requires ids != null ==>
                 n == ids.Length && ids !in Owned() && forall k | 0 <= k < n :: ids[k] == order[k].data.key
      modifies Owned(), heap
      ensures Valid() && order == old(order)[n..]
      ensures Foreign() == old(Foreign()) && Owned() <= old(Owned()) && table == old(table)
    {
      hide Consistent, BlocksIn, IndexOf, EntriesOf;
      ghost var all := order;
      for di := 0 to n
        invariant Valid() && order == all[di..]
        invariant ids != null ==> forall k | 0 <= k < n :: ids[k] == all[k].data.key
        invariant Foreign() == old(Foreign()) && Owned() <= old(Owned()) && table == old(table)
      {
        FirstIsLive();
        assert ids[di] == order[0].data.key;
        CacheDelete(ids[di]);
        assert all[di..][1..] == all[di + 1..];
      }
    }

    method ShouldAddEvictDeletions(valSize: u32) returns (add: bool)
      requires Valid()
      modifies Owned(), heap
      ensures Valid() && (add <==> valSize <= maxmem)
      ensures order == if add then old(order)[Evicted(maxmem, old(Contents()), valSize)..] else old(order)
      ensures Contents() ==
              if add then old(Contents())[Evicted(maxmem, old(Contents()), valSize)..] else old(Contents())
      ensures Foreign() == old(Foreign()) && Owned() <= old(Owned()) && table == old(table)
    {
      hide Consistent, BlocksIn, IndexOf, EntriesOf, Evicted;
      var res := AskPolicy(valSize);
      if res.shouldAdd {
        DeleteFirst(res.data, res.size);
        Suffix(old(order), res.size);
      }
      if res.data != null {
        FreeForeign(res.data);
      }
      add := res.shouldAdd;
    }

    lemma FirstIsLive()
      requires Valid() && order != []
      ensures order[0].data.key in heap.live && order[0].data.key.Terminated()
      ensures IndexOf(Contents(), order[0].data.key.Text()) == 0 && RemoveAt(order, 0) == order[1..]
    {
      FirstOf(order);
    }

    /** A block that is not the cache's is freed, by its owner. */
    method FreeForeign(o: object)
      requires Valid() && o in Foreign()
      modifies heap
      ensures Valid() && order == old(order) && Foreign() == old(Foreign()) - {o} && Owned() == old(Owned())
    {
      hide TableOk, Kept, SizesOf, NodesOf, Elements, BlocksIn, Policy.Valid, Total64, EntriesOf, Sane;
      assert TableOk(table[..], chains, Elements(order), hash);
      heap.Free(o);
      assert TableOk(table[..], chains, Elements(order), hash);
    }

    /**
      assign_to_link, where querry_hash has found an empty slot. The branch that overwrites a link
      cannot be reached from add_to_cache, as this precondition says.
    */
    method AssignToLink(slot: Slot, data: KeyVal, ghost b: nat) returns (l: Link)
      requires InTable(Elements(order))
      requires b < |chains| && Found(chains, hash, data.key.Text(), b, |chains[b]|)
      requires slot == SlotAt(chains, b, |chains[b]|)
      modifies this`chains, table, Elements(order)`next, heap
      ensures fresh(l) && l.data == data && l.next == null && heap.live == old(heap.live) + {l}
      ensures InTable(Elements(order) + {l}) && |chains| == |old(chains)|
    {
      hide TableOk;
      l := new Link(data);
      heap.Claim(l);
      Attach(slot, l, Elements(order), b);
    }

    /** The data of a new item: copies of the key and the value, and a node at the top of the policy. */
    method NewItem(key: Blob, val: Blob, valSize: u32) returns (data: KeyVal)
      requires Consistent() && {key, val} <= heap.live && key.Terminated() && valSize <= |val.data|
      requires Add64(memUsed, valSize) <= maxmem
      modifies policy, policy.nodes`high, heap
      ensures data.key.Text() == key.Text() && data.key.Terminated()
      ensures data.val.data == val.data[..valSize] && data.valSize == valSize
      ensures data.info.ident == data.key && data.info.valSize == valSize
      ensures fresh({data.key, data.val, data.info}) && data.key != data.val
      ensures policy.Valid() && policy.nodes == old(policy.nodes) + [data.info]
      ensures policy.sizes == old(policy.sizes) + [valSize]
      ensures heap.live == old(heap.live) + {data.key, data.val, data.info}
    {
      hide TableOk, Kept, SizesOf, NodesOf, Elements, BlocksIn, Policy.Valid, Total64, Sane;
      PolicyFacts();
      var keyCopy := heap.MakeCopy(key, |key.Text()| + 1);
      CopyOfText(key.data);
      var valCopy := heap.MakeCopy(val, valSize);
      // the policy's id is the cache's own copy, which lives as long as the link
      var info := policy.CreateInfo(keyCopy, valSize);
      data := KeyVal(keyCopy, valCopy, valSize, info);
    }

    /** assign_to_link(querry_hash(cache, key), new_item) */
    method LinkItem(key: Blob, data: KeyVal) returns (l: Link)
      requires InTable(Elements(order)) && Kept(maxmem, order)
      requires data.key.Text() == key.Text() && !HasKey(Contents(), key.Text())
      modifies this`chains, table, Elements(order)`next, heap
      ensures fresh(l) && l.data == data && l.next == null && heap.live == old(heap.live) + {l}
      ensures InTable(Elements(order) + {l}) && |chains| == |old(chains)|
    {
      hide TableOk, Kept, Elements, Found, EntriesOf, HasKey, Sane;
      var slot, b, j := QueryHash(key, Elements(order));
      FoundIsIndex(key.Text(), b, j);
      l := AssignToLink(slot, data, b);
    }

    /** add_to_cache up to the check of the load factor. */
    method InsertItem(key: Blob, val: Blob, valSize: u32)
      requires Consistent() && {key, val} <= heap.live && key.Terminated() && valSize <= |val.data|
      requires !HasKey(Contents(), key.Text())
      requires valSize <= maxmem && Add64(memUsed, valSize) <= maxmem
      modifies this`chains, this`order, this`memUsed, this`numElements
      modifies table, Elements(order)`next, policy, policy.nodes`high, heap
      ensures Consistent() && Contents() == old(Contents()) + [Entry(key.Text(), val.data[..valSize])]
      ensures numElements == old(numElements) + 1 && table == old(table)
      ensures forall l | l in Elements(order) && l !in old(Elements(order)) :: fresh(l)
      ensures Foreign() == old(Foreign())
      ensures forall o | o in Owned() && o !in old(Owned()) :: fresh(o)
    {
      hide TableOk, Kept, SizesOf, NodesOf, Elements, BlocksIn, Policy.Valid, Total64, Sane, Found, EntriesOf,
        HasKey, SlotAt, Nth;
      assert TableOk(table[..], chains, Elements(order), hash);
      var data := NewItem(key, val, valSize);
      assert TableOk(table[..], chains, Elements(order), hash);
      var l := LinkItem(key, data);
      Enter(l);
    }

    /** The end of add_to_cache: a link that is in the table and in the policy enters the counts. */
    method Enter(l: Link)
      requires policy.heap == heap && policy.maxmem == maxmem && policy.Valid()
      requires 0 < table.Length == |chains| && InTable(Elements(order) + {l})
      requires Kept(maxmem, order) && SaneLink(l) && !HasKey(EntriesOf(order), l.data.key.Text())
      requires policy.nodes == NodesOf(order) + [l.data.info] && policy.sizes == SizesOf(order) + [l.data.valSize]
      requires memUsed == Total64(SizesOf(order)) && numElements == |order| && l.data.valSize <= maxmem
      requires BlocksOf(l) <= heap.live && l.data.key != l.data.val && BlocksOf(l) !! Owned() && heap !in BlocksOf(l)
      requires OwnedIsLive()
      modifies this`order, this`memUsed, this`numElements
      ensures Consistent() && order == old(order) + [l] && numElements == old(numElements) + 1
      ensures Contents() == old(EntriesOf(order)) + [EntryOf(l)]
      ensures Owned() == old(Owned()) + BlocksOf(l) && Elements(order) == old(Elements(order)) + {l}
    {
      hide TableOk, Kept, SizesOf, NodesOf, Elements, BlocksIn, BlocksOf, Policy.Valid, Total64, Sane, EntriesOf,
        HasKey;
      assert InTable(Elements(order) + {l});
      KeptAppend(maxmem, order, l);
      order := order + [l];

      memUsed := Add64(memUsed, l.data.valSize);
      numElements := numElements + 1;
    }

    method AddToCache(key: Blob, val: Blob, valSize: u32)
      requires Valid() && {key, val} <= heap.live && key.Terminated() && valSize <= |val.data|
      requires !HasKey(Contents(), key.Text())
      requires valSize <= maxmem && Add64(memUsed, valSize) <= maxmem
      modifies Owned(), heap
      ensures Valid() && Contents() == old(Contents()) + [Entry(key.Text(), val.data[..valSize])]
      // the table is doubled exactly if it would be more than half full
      ensures table.Length == old(table.Length) * if 2 * (old(numElements) + 1) > old(table.Length) then 2 else 1
      ensures Foreign() == old(Foreign())
      ensures forall o | o in Owned() && o !in old(Owned()) :: fresh(o)
    {
      hide TableOk, Kept, SizesOf, NodesOf, Elements, BlocksIn, Policy.Valid, Total64, Sane, EntriesOf;
      OwnedObjects();
      InsertItem(key, val, valSize);
      if numElements * 2 > table.Length {
        assert table in Owned();
        ResizeTable(table.Length * 2);
      }
    }

    /** The links and the policy nodes are blocks the cache owns. */
    lemma OwnedObjects()
      requires Consistent()
      ensures Elements(order) <= Owned()
      ensures forall n | n in policy.nodes :: n in Owned()
    {
      forall k | 0 <= k < |order| ensures order[k] in Owned() && policy.nodes[k] in Owned() {
        BlocksOfOne(order, k);
      }
    }

    /** The links left when a set has deleted the old link of its key and evicted others. */
    ghost function Survivors(key: Key, valSize: u32): seq<Link>
      requires Sane(order)
      reads this
    {
      var i := IndexOf(Contents(), key);
      var rest := if i < |order| then RemoveAt(order, i) else order;
      if valSize > maxmem then rest else rest[Evicted(maxmem, Delete(Contents(), key), valSize)..]
    }

    /** The blocks a set frees before it reads its arguments for the last time. */
    ghost function FreedBySet(key: Key, valSize: u32): set<object>
      requires Sane(order)
      reads this
    {
      BlocksIn(order) - BlocksIn(Survivors(key, valSize))
    }

    /** A value got from the cache may be set again exactly if the set leaves its own link alone. */
    lemma SurvivingValues(l: Link, key: Key, valSize: u32)
      requires Consistent() && l in Elements(order)
      ensures l.data.val in FreedBySet(key, valSize) <==> l !in Survivors(key, valSize)
    {
      hide TableOk, Policy.Valid, NodesOf, SizesOf, Total64, EntriesOf;
      ValueSurvives(order, Survivors(key, valSize), l);
      var i := PlaceIn(maxmem, order, l);
      BlocksOfOne(order, i);
    }

    /** So a value must not be set under the key it was got by. */
    lemma OwnValueIsFreed(l: Link, valSize: u32)
      requires Consistent() && l in Elements(order)
      ensures l.data.val in FreedBySet(l.data.key.Text(), valSize)
    {
      hide TableOk, Policy.Valid, NodesOf, SizesOf, Total64, EntriesOf;
      var i := PlaceIn(maxmem, order, l);
      KeptRemoveAt(maxmem, order, i);
      assert l !in RemoveAt(order, i) by { assert l !in Elements(RemoveAt(order, i)); }
      SurvivingValues(l, l.data.key.Text(), valSize);
    }

    method CacheSet(key: Blob, val: Blob, valSize: u32)
      requires Valid() && key.Terminated() && valSize <= |val.data|
      // both are still read when blocks have been freed, unless the value is refused
      requires {key, val} <= heap.live
      requires valSize <= maxmem ==> {key, val} !! FreedBySet(key.Text(), valSize)
      modifies Owned(), heap
      ensures Valid() && Contents() == Set(maxmem, old(Contents()), key.Text(), val.data[..valSize])
      ensures Foreign() == old(Foreign())
      ensures forall o | o in Owned() && o !in old(Owned()) :: fresh(o)
    {
      hide TableOk, Kept, SizesOf, NodesOf, Elements, BlocksIn, Policy.Valid, Total64, Sane, EntriesOf, Found;
      var add := MakeRoom(key, val, valSize);
      if add {
        AddToCache(key, val, valSize);
      }
    }

    /** cache_set up to add_to_cache, for any arguments: they may point into the links deleted here. */
    method MakeRoom(key: Blob, ghost val: Blob, valSize: u32) returns (add: bool)
      requires Valid() && key.Terminated() && {key, val} <= heap.live
      modifies Owned(), heap
      ensures Valid() && (add <==> valSize <= maxmem) && order == old(Survivors(key.Text(), valSize))
      ensures var rest := Delete(old(Contents()), key.Text());
              Contents() == if add then rest[Evicted(maxmem, rest, valSize)..] else rest
      ensures key in heap.live <==> key !in old(FreedBySet(key.Text(), valSize))
      ensures val in heap.live <==> val !in old(FreedBySet(key.Text(), valSize))
      ensures add ==> !HasKey(Contents(), key.Text()) && Add64(memUsed, valSize) <= maxmem
      ensures Foreign() == old(Foreign()) && Owned() <= old(Owned())
    {
      hide TableOk, Kept, SizesOf, NodesOf, Elements, BlocksIn, Policy.Valid, Total64, Sane, EntriesOf, Found;
      CacheDelete(key);
      add := ShouldAddEvictDeletions(valSize);
      if add {
        KeptFacts(maxmem, old(order));
        RoomAfterEviction(maxmem, old(Contents()), key.Text(), valSize);
        PolicyFacts();
      }
      Remains(key, old(heap.live), {this, policy, table}, old(BlocksIn(order)), heap.live, BlocksIn(order));
      Remains(val, old(heap.live), {this, policy, table}, old(BlocksIn(order)), heap.live, BlocksIn(order));
    }

    /** destroy_cache: every block the cache owns is freed, each of them once. */
    method Destroy()
      requires Valid()
      modifies Owned(), heap
      ensures heap.live == old(Foreign())
      // the state delete_policy was called in
      ensures order == [] && numElements == 0 && memUsed == policy.usedMem == 0
      ensures policy.nodes == [] && policy.bottom == policy.top == null
    {
      hide TableOk, Kept, SizesOf, NodesOf, Elements, BlocksIn, Total64, Sane, EntriesOf, Linked, Sized;
      DeleteLinks();
      NothingLeft();
      policy.Delete();
      heap.Free(table);
      heap.Free(this);
    }

    /** The loops of destroy_cache. */
    method DeleteLinks()
      requires Valid()
      modifies Owned(), heap
      ensures Consistent() && table == old(table) && Foreign() == old(Foreign()) && Owned() <= old(Owned())
      ensures forall c | 0 <= c < |chains| :: chains[c] == []
    {
      hide TableOk, Kept, SizesOf, NodesOf, Elements, BlocksIn, Total64, Sane, EntriesOf, Linked, Sized;
      OwnedObjects();
      for i := 0 to table.Length
        invariant Consistent() && table == old(table) && |chains| == table.Length
        invariant Foreign() == old(Foreign()) && Owned() <= old(Owned())
        invariant forall c | 0 <= c < i :: chains[c] == []
      {
        while table[i] != null
          invariant Consistent() && table == old(table) && |chains| == table.Length
          invariant Foreign() == old(Foreign()) && Owned() <= old(Owned())
          invariant forall c | 0 <= c < i :: chains[c] == []
          decreases |order|
        {
          OwnedObjects();
          SlotFacts(Bucket(i), Elements(order), i, 0);
          DelLink(Bucket(i), i, 0);
        }
        SlotFacts(Bucket(i), Elements(order), i, 0);
      }
    }

    lemma NothingLeft()
      requires Consistent() && forall c | 0 <= c < |chains| :: chains[c] == []
      ensures order == [] && BlocksIn(order) == {} && NodesOf(order) == []
      ensures numElements == 0 && memUsed == policy.usedMem == 0
      ensures policy.nodes == [] && policy.bottom == policy.top == null
    {
      SomeChain(table[..], chains, Elements(order), hash);
      EmptyOrder(order);
    }

    lemma SlotFacts(slot: Slot, ms: set<Link>, b: nat, j: nat)
      requires InTable(ms) && b < |chains| && j <= |chains[b]| && slot == SlotAt(chains, b, j)
      ensures slot.Bucket? ==> slot.b < table.Length
      ensures slot.NextOf? ==> slot.link in ms
      ensures Deref(slot) == Nth(chains[b], j)
      ensures j < |chains[b]| ==> chains[b][j] in ms
    {
      assert ChainOk(chains[b], table[..][b]);
    }
  }

  // ----- clients -----

  /** A block of the caller's, as an argument of a call. */
  method Buffer(cache: Cache, data: bytes) returns (b: Blob)
    requires cache.Valid()
    modifies cache.heap
    ensures fresh(b) && b.data == data
    ensures cache.Valid() && cache.Foreign() == old(cache.Foreign()) + {b} && cache.Owned() == old(cache.Owned())
  {
    hide Kept, TableOk, Elements, BlocksIn, SizesOf, NodesOf, EntriesOf, Policy.Valid, Sane;
    assert TableOk(cache.table[..], cache.chains, Elements(cache.order), cache.hash);
    b := new Blob(data);
    cache.heap.Claim(b);
    assert TableOk(cache.table[..], cache.chains, Elements(cache.order), cache.hash);
  }

  /** cache_set with the value in a block of the caller's. */
  method SetCopy(cache: Cache, key: Blob, val: Value)
    requires cache.Valid() && key in cache.Foreign() && key.Terminated()
    modifies cache.Owned(), cache.heap
    ensures cache.Valid() && cache.Contents() == Set(cache.maxmem, old(cache.Contents()), key.Text(), val)
    ensures cache.Foreign() == old(cache.Foreign())
    ensures forall o | o in cache.Owned() && o !in old(cache.Owned()) :: fresh(o)
  {
    hide Cache.Consistent, Sane, EntriesOf, Set, BlocksIn;
    var buf := Buffer(cache, val);
    assert val[..|val|] == val;
    ForeignAreNotFreed(cache, key, buf, |val|);
    cache.CacheSet(key, buf, |val|);
    cache.FreeForeign(buf);
  }

  lemma ForeignAreNotFreed(cache: Cache, key: Blob, val: Blob, valSize: u32)
    requires cache.Valid() && {key, val} <= cache.Foreign()
    ensures {key, val} !! cache.FreedBySet(key.Text(), valSize)
  {}

  /**
    A client that gets a value and hands it to cache_set under the same key: when cache_set comes to
    copy the value, the deletions have freed it.
  */
  method GetThenSet(cache: Cache, key: Blob) returns (add: bool, val: Blob?)
    requires cache.Valid() && key in cache.Foreign() && key.Terminated()
    modifies cache.Owned(), cache.heap
    ensures cache.Valid() && (val == null <==> Lookup(old(cache.Contents()), key.Text()) == None)
    ensures val != null ==> add && val !in cache.heap.live
  {
    hide Cache.Consistent, Sane, EntriesOf, BlocksIn, Elements;
    StoredFits(cache, key.Text());
    var valSize;
    val, valSize := cache.CacheGet(key);
    add := false;
    if val != null {
      ghost var l :| l in Elements(cache.order) && l.data.val == val && l.data.key.Text() == key.Text();
      cache.OwnValueIsFreed(l, valSize);
      add := cache.MakeRoom(key, val, valSize);
    }
  }

  lemma StoredFits(cache: Cache, key: Key)
    requires cache.Valid()
    ensures var v := Lookup(cache.Contents(), key); v.Some? ==> |v.value| <= cache.maxmem
  {
    KeptFacts(cache.maxmem, cache.order);
  }

  /** One call, with the caller's key and value in blocks of the caller's. */
  method Call(cache: Cache, op: Op) returns (answer: Option<bytes>)
    requires cache.Valid()
    modifies cache.Owned(), cache.heap
    ensures cache.Valid() && cache.Contents() == Step(cache.maxmem, old(cache.Contents()), op)
    ensures answer == Answer(old(cache.Contents()), op)
    ensures cache.Foreign() == old(cache.Foreign())
    ensures forall o | o in cache.Owned() && o !in old(cache.Owned()) :: fresh(o)
  {
    hide Cache.Consistent, Sane, EntriesOf;
    var key := Buffer(cache, op.key + [0]);
    assert op.key + [0] == op.key + [0] + [];
    UpToNulOf(op.key, []);
    answer := None;
    match op {
      case SetOp(_, val) => SetCopy(cache, key, val);
      case GetOp(_) =>
        var val, size := cache.CacheGet(key);
        answer := if val == null then None else Some(val.data);
      case DeleteOp(_) => cache.CacheDelete(key);
    }
    cache.FreeForeign(key);
  }

  /**
    A client that makes any calls on a cache it has created: the cache answers each of them as the
    list of LruList does, and destroy_cache gives back everything that was allocated.
  */
  method RunClient(heap: Heap, maxmem: u64, hash: HashFunc, ops: seq<Op>) returns (answers: seq<Option<bytes>>)
    modifies heap
    ensures answers == Answers(maxmem, ops)
    ensures heap.live == old(heap.live)
  {
    hide Cache.Consistent, Sane, EntriesOf, Step, Answer;
    answers := [];
    var cache := Cache.Create(heap, maxmem, hash);
    for k := 0 to |ops|
      invariant answers == Answers(maxmem, ops[..k])
      invariant cache.Valid() && (forall o | o in cache.Owned() :: fresh(o))
      invariant cache.heap == heap && cache.maxmem == maxmem
      invariant cache.Contents() == Run(maxmem, ops[..k])
      invariant cache.Foreign() == old(heap.live)
    {
      assert ops[..k + 1][..k] == ops[..k];
      var answer := Call(cache, ops[k]);
      answers := answers + [answer];
    }
    assert ops[..|ops|] == ops;
    cache.Destroy();
  }
}
