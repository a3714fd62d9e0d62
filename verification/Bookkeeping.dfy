/**
  What ties the hash table to the policy. Both are determined by the links in order of their last
  use: the policy's nodes, the list of (key, value) pairs the cache stands for, and the heap blocks
  it owns are read off that order. None of this depends on the heap, since a link's data and a
  node's id and size are written once.
*/
module Bookkeeping {
  import opened Machine
  import opened Blocks
  import opened LruList
  import opened Replacement
  import opened HashTable

  /** The link's value has the size recorded for it, and its policy node carries its own key,
      which is a C string. */
  ghost predicate SaneLink(l: Link) {
    && |l.data.val.data| == l.data.valSize == l.data.info.valSize
    && l.data.info.ident == l.data.key && l.data.key.Terminated()
  }

  ghost predicate Sane(order: seq<Link>) {
    forall i | 0 <= i < |order| :: SaneLink(order[i])
  }

  ghost function EntryOf(l: Link): Entry
    requires SaneLink(l)
  {
    Entry(l.data.key.Text(), l.data.val.data)
  }

  ghost function Elements(order: seq<Link>): set<Link> { set l | l in order }

  ghost function NodesOf(order: seq<Link>): (s: seq<Info>)
    ensures |s| == |order|
  {
    seq(|order|, i requires 0 <= i < |order| => order[i].data.info)
  }

  ghost function SizesOf(order: seq<Link>): (s: seq<u32>)
    ensures |s| == |order|
  {
    seq(|order|, i requires 0 <= i < |order| => order[i].data.valSize)
  }

  ghost function EntriesOf(order: seq<Link>): (es: Entries)
    requires Sane(order)
    ensures |es| == |order|
  {
    seq(|order|, i requires 0 <= i < |order| => EntryOf(order[i]))
  }

  /** The blocks a link stands for: itself, its copies of the key and the value, its policy node. */
  ghost function BlocksOf(l: Link): set<object> {
    {l, l.data.key, l.data.val, l.data.info}
  }

  ghost function BlocksIn(order: seq<Link>): set<object> {
    set l, o | l in order && o in BlocksOf(l) :: o
  }

  /** Every block belongs to one link only, and is one of four different blocks of it. */
  ghost predicate Separate(order: seq<Link>) {
    && (forall i | 0 <= i < |order| :: order[i].data.key != order[i].data.val)
    && (forall i, j | 0 <= i < j < |order| :: BlocksOf(order[i]) !! BlocksOf(order[j]))
  }

  ghost predicate Kept(maxmem: u64, order: seq<Link>) {
    Sane(order) && Separate(order) && Inv(maxmem, EntriesOf(order))
  }

  /** The place in the recency order of a link the table holds. */
  lemma PlaceIn(maxmem: u64, order: seq<Link>, l: Link) returns (i: nat)
    requires Kept(maxmem, order) && l in Elements(order)
    ensures i < |order| && order[i] == l && i == IndexOf(EntriesOf(order), l.data.key.Text())
    ensures NodesOf(order)[i] == l.data.info && SizesOf(order)[i] == l.data.valSize
    ensures SaneLink(l) && EntriesOf(order)[i] == EntryOf(l)
    ensures BlocksOf(l) <= BlocksIn(order) && l.data.key != l.data.val
  {
    i :| 0 <= i < |order| && order[i] == l;
    IndexOfUnique(EntriesOf(order), l.data.key.Text(), i);
  }

  lemma KeptRemoveAt(maxmem: u64, order: seq<Link>, i: nat)
    requires Kept(maxmem, order) && i < |order|
    ensures var rest := RemoveAt(order, i);
            && Sane(rest) && Kept(maxmem, rest)
            && EntriesOf(rest) == RemoveAt(EntriesOf(order), i)
            && NodesOf(rest) == RemoveAt(NodesOf(order), i)
            && SizesOf(rest) == RemoveAt(SizesOf(order), i)
            && Elements(rest) == Elements(order) - {order[i]}
            && BlocksIn(rest) == BlocksIn(order) - BlocksOf(order[i])
            && Total64(SizesOf(rest)) == Sub64(Total64(SizesOf(order)), order[i].data.valSize)
  {
    ListsRemoveAt(order, i);
    InvRemoveAt(maxmem, EntriesOf(order), i);
    RemoveAtElements(order, i);
    Total64RemoveAt(SizesOf(order), i);
  }

  lemma ListsRemoveAt(order: seq<Link>, i: nat)
    requires Sane(order) && Separate(order) && i < |order|
    ensures var rest := RemoveAt(order, i);
            && Sane(rest) && Separate(rest)
            && EntriesOf(rest) == RemoveAt(EntriesOf(order), i)
            && NodesOf(rest) == RemoveAt(NodesOf(order), i)
            && SizesOf(rest) == RemoveAt(SizesOf(order), i)
  {
    var rest := RemoveAt(order, i);
    assert forall k | 0 <= k < |rest| :: rest[k] == order[if k < i then k else k + 1];
  }

  lemma InvRemoveAt(maxmem: u64, es: Entries, i: nat)
    requires Inv(maxmem, es) && i < |es|
    ensures Inv(maxmem, RemoveAt(es, i))
  {
    var rest := RemoveAt(es, i);
    assert forall k | 0 <= k < |rest| :: rest[k] == es[if k < i then k else k + 1];
  }

  lemma RemoveAtElements(order: seq<Link>, i: nat)
    requires Separate(order) && i < |order|
    ensures var rest := RemoveAt(order, i);
            && Elements(rest) == Elements(order) - {order[i]}
            && BlocksIn(rest) == BlocksIn(order) - BlocksOf(order[i])
  {
    var rest := RemoveAt(order, i);
    forall k | 0 <= k < |order| && k != i
      ensures order[k] in rest && BlocksOf(order[k]) !! BlocksOf(order[i])
    {
      assert rest[if k < i then k else k - 1] == order[k];
    }
    assert forall k | 0 <= k < |rest| :: rest[k] == order[if k < i then k else k + 1];
  }

  lemma KeptTouch(maxmem: u64, order: seq<Link>, i: nat)
    requires Kept(maxmem, order) && i < |order|
    ensures var turned := RemoveAt(order, i) + [order[i]];
            && Sane(turned) && Kept(maxmem, turned)
            && EntriesOf(turned) == RemoveAt(EntriesOf(order), i) + [EntriesOf(order)[i]]
            && NodesOf(turned) == RemoveAt(NodesOf(order), i) + [NodesOf(order)[i]]
            && SizesOf(turned) == RemoveAt(SizesOf(order), i) + [SizesOf(order)[i]]
            && Elements(turned) == Elements(order)
            && BlocksIn(turned) == BlocksIn(order)
            && Total64(SizesOf(turned)) == Total64(SizesOf(order))
  {
    var rest, l := RemoveAt(order, i), order[i];
    KeptRemoveAt(maxmem, order, i);
    NotInRest(maxmem, order, i);
    BlocksOfOne(order, i);
    hide Kept, EntriesOf, NodesOf, SizesOf, Elements, BlocksIn, BlocksOf, Total64, RemoveAt, HasKey;
    KeptAppend(maxmem, rest, l);
  }

  lemma BlocksOfOne(order: seq<Link>, i: nat)
    requires i < |order|
    ensures BlocksOf(order[i]) <= BlocksIn(order) && order[i] in Elements(order)
  {}

  lemma NotInRest(maxmem: u64, order: seq<Link>, i: nat)
    requires Kept(maxmem, order) && i < |order|
    ensures SaneLink(order[i]) && order[i].data.valSize <= maxmem
    ensures EntriesOf(order)[i] == EntryOf(order[i]) && order[i].data.key != order[i].data.val
    ensures NodesOf(order)[i] == order[i].data.info && SizesOf(order)[i] == order[i].data.valSize
    ensures !HasKey(RemoveAt(EntriesOf(order), i), order[i].data.key.Text())
  {
    var es := EntriesOf(order);
    IndexOfUnique(es, es[i].key, i);
    DistinctWithout(es, i);
    assert AllFit(maxmem, es);
  }

  lemma DistinctWithout(es: Entries, i: nat)
    requires DistinctKeys(es) && i < |es|
    ensures !HasKey(RemoveAt(es, i), es[i].key)
  {
    var rest := RemoveAt(es, i);
    assert forall k | 0 <= k < |rest| :: rest[k] == es[if k < i then k else k + 1];
  }

  lemma KeptAppend(maxmem: u64, order: seq<Link>, l: Link)
    requires Kept(maxmem, order) && SaneLink(l) && !HasKey(EntriesOf(order), l.data.key.Text())
    requires l.data.valSize <= maxmem && l.data.key != l.data.val && BlocksOf(l) !! BlocksIn(order)
    ensures var more := order + [l];
            && Sane(more) && Kept(maxmem, more)
            && EntriesOf(more) == EntriesOf(order) + [EntryOf(l)]
            && NodesOf(more) == NodesOf(order) + [l.data.info]
            && SizesOf(more) == SizesOf(order) + [l.data.valSize]
            && Elements(more) == Elements(order) + {l}
            && BlocksIn(more) == BlocksIn(order) + BlocksOf(l)
            && Total64(SizesOf(more)) == Add64(Total64(SizesOf(order)), l.data.valSize)
  {
    ListsAppend(order, l);
    SeparateAppend(order, l);
    InsertKeeps(maxmem, EntriesOf(order), EntryOf(l));
    Total64Append(SizesOf(order), l.data.valSize);
  }

  lemma ListsAppend(order: seq<Link>, l: Link)
    requires Sane(order) && SaneLink(l)
    ensures Sane(order + [l]) && EntriesOf(order + [l]) == EntriesOf(order) + [EntryOf(l)]
    ensures NodesOf(order + [l]) == NodesOf(order) + [l.data.info]
    ensures SizesOf(order + [l]) == SizesOf(order) + [l.data.valSize]
  {}

  lemma SeparateAppend(order: seq<Link>, l: Link)
    requires Separate(order) && l.data.key != l.data.val && BlocksOf(l) !! BlocksIn(order)
    ensures Separate(order + [l])
    ensures Elements(order + [l]) == Elements(order) + {l}
    ensures BlocksIn(order + [l]) == BlocksIn(order) + BlocksOf(l)
  {
    var more := order + [l];
    forall k | 0 <= k < |order| ensures BlocksOf(order[k]) !! BlocksOf(l) {
      BlocksOfOne(order, k);
    }
    assert more[|order|] == l && forall k | 0 <= k < |order| :: more[k] == order[k];
  }

  /** A value is still a block of the links left exactly if its own link is left. */
  lemma ValueSurvives(order: seq<Link>, left: seq<Link>, l: Link)
    requires Separate(order) && l in Elements(order) && Elements(left) <= Elements(order)
    ensures l.data.val in BlocksIn(left) <==> l in left
  {
    if m :| m in left && l.data.val in BlocksOf(m) {
      var i :| 0 <= i < |order| && order[i] == l;
      assert m in Elements(order);
      var j :| 0 <= j < |order| && order[j] == m;
      assert l.data.val in BlocksOf(order[i]) && l.data.val in BlocksOf(order[j]);
    }
  }

  /** A block that was live is live still exactly if it is not among those given up. */
  lemma Remains(o: object, live: set<object>, fixed: set<object>, blocks: set<object>,
                live': set<object>, blocks': set<object>)
    requires o in live && o !in fixed && blocks' <= blocks
    requires live' - (fixed + blocks') == live - (fixed + blocks) && fixed + blocks' <= live'
    ensures o in live' <==> o !in blocks - blocks'
  {
    assert o in live' - (fixed + blocks') <==> o in live - (fixed + blocks);
  }

  lemma LiveWithout(live: set<object>, fixed: set<object>, blocks: set<object>, gone: set<object>)
    requires fixed + blocks <= live && fixed !! blocks && gone <= blocks
    ensures fixed + (blocks - gone) <= live - gone && fixed !! blocks - gone
  {}

  lemma KeptEmpty(maxmem: u64)
    ensures Kept(maxmem, []) && Elements([]) == {} && BlocksIn([]) == {} && Total64(SizesOf([])) == 0
  {}

  lemma SizesAgree(order: seq<Link>)
    requires Sane(order)
    ensures SizesOf(order) == Sizes(EntriesOf(order))
  {}

  lemma FirstOf(order: seq<Link>)
    requires Sane(order) && order != []
    ensures IndexOf(EntriesOf(order), order[0].data.key.Text()) == 0
    ensures order[0].data.key in BlocksIn(order) && order[0].data.key.Terminated()
    ensures RemoveAt(order, 0) == order[1..]
  {
    BlocksOfOne(order, 0);
  }

  lemma Suffix(order: seq<Link>, n: nat)
    requires Sane(order) && n <= |order|
    ensures Sane(order[n..]) && EntriesOf(order[n..]) == EntriesOf(order)[n..]
    ensures NodesOf(order[n..]) == NodesOf(order)[n..] && SizesOf(order[n..]) == SizesOf(order)[n..]
    ensures Elements(order[n..]) <= Elements(order)
  {}

  lemma IdsAreKeys(order: seq<Link>)
    requires Sane(order)
    ensures forall k | 0 <= k < |order| :: NodesOf(order)[k].ident == order[k].data.key
  {}

  /** What cache_set leaves after deleting the key and evicting meets the demands of add_to_cache. */
  lemma RoomAfterEviction(maxmem: u64, es: Entries, key: bytes, size: u32)
    requires Inv(maxmem, es) && size <= maxmem
    ensures var rest := Delete(es, key);
            var left := rest[Evicted(maxmem, rest, size)..];
            !HasKey(left, key) && Add64(Used(left), size) <= maxmem
  {
    var rest := Delete(es, key);
    var n := Evicted(maxmem, rest, size);
    DeleteKeeps(maxmem, es, key);
    EvictionMakesRoom(Sizes(rest), size, maxmem);
    NoKeyInSuffix(rest, key, n);
    assert Sizes(rest[n..]) == Sizes(rest)[n..];
  }

  lemma NoKeyInSuffix(es: Entries, key: bytes, n: nat)
    requires !HasKey(es, key) && n <= |es|
    ensures !HasKey(es[n..], key)
  {
    assert forall k | n <= k < |es| :: es[n..][k - n] == es[k];
  }

  lemma KeptFacts(maxmem: u64, order: seq<Link>)
    requires Kept(maxmem, order)
    ensures Sane(order) && Inv(maxmem, EntriesOf(order))
  {}

  lemma EmptyOrder(order: seq<Link>)
    requires Elements(order) == {}
    ensures order == [] && BlocksIn(order) == {} && NodesOf(order) == []
  {
    if order != [] { BlocksOfOne(order, 0); }
  }
}
