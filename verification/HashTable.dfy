/**
  The chains of the hash table: what it means for an array of chain heads and the links' next
  pointers to spell out a set of links, and what storing through one slot does to that.
*/
module HashTable {
  import opened Machine
  import opened Blocks
  import opened LruList
  import opened Replacement

  type HashFunc = bytes -> u64

  /** The struct a link holds by value. */
  datatype KeyVal = KeyVal(key: Blob, val: Blob, valSize: u32, info: Info)

  class Link {
    const data: KeyVal
    var next: Link?

    constructor (data: KeyVal)
      ensures this.data == data && next == null
    {
      this.data := data;
      next := null;
    }
  }

  /** A link_t*: the address of a chain head or of a link's next field. */
  datatype Slot = Bucket(b: nat) | NextOf(link: Link)

  /** map_to_location */
  function Home(hash: HashFunc, key: bytes, size: nat): (b: nat)
    requires 0 < size
    ensures b < size
  {
    hash(key) % size
  }

  ghost function Nth(chain: seq<Link>, i: int): Link? {
    if 0 <= i < |chain| then chain[i] else null
  }

  ghost predicate ChainFrom(chain: seq<Link>, from: nat)
    reads chain`next
  {
    forall i {:trigger chain[i].next} | from <= i < |chain| :: chain[i].next == Nth(chain, i + 1)
  }

  ghost predicate ChainOk(chain: seq<Link>, head: Link?)
    reads chain`next
  {
    head == Nth(chain, 0) && ChainFrom(chain, 0) && Distinct(chain)
  }

  lemma ChainStillOk(chain: seq<Link>, head: Link?)
    requires head == Nth(chain, 0) && Distinct(chain)
    requires forall k {:trigger chain[k].next} | 0 <= k < |chain| :: chain[k].next == Nth(chain, k + 1)
    ensures ChainOk(chain, head)
  {}

  /** Every link of the chains is one of ms, in the chain its key hashes to, and all of ms is there. */
  ghost predicate Placed(chains: seq<seq<Link>>, ms: set<Link>, hash: HashFunc)
    requires 0 < |chains|
  {
    && (forall b, j | 0 <= b < |chains| && 0 <= j < |chains[b]| ::
          chains[b][j] in ms && Home(hash, chains[b][j].data.key.Text(), |chains|) == b)
    && (forall l | l in ms :: l in chains[Home(hash, l.data.key.Text(), |chains|)])
  }

  ghost predicate OneLinkPerKey(ms: set<Link>) {
    forall l, m | l in ms && m in ms && l.data.key.Text() == m.data.key.Text() :: l == m
  }

  ghost predicate TableOk(heads: seq<Link?>, chains: seq<seq<Link>>, ms: set<Link>, hash: HashFunc)
    reads ms`next
  {
    && 0 < |chains| == |heads|
    && Placed(chains, ms, hash)
    && OneLinkPerKey(ms)
    && (forall b | 0 <= b < |chains| :: ChainOk(chains[b], heads[b]))
  }

  ghost function SlotAt(chains: seq<seq<Link>>, b: nat, j: nat): Slot
    requires b < |chains| && j <= |chains[b]|
  {
    if j == 0 then Bucket(b) else NextOf(chains[b][j - 1])
  }

  /** What querry_hash has found: slot j of chain b, the first one that does not lead to another key. */
  ghost predicate Found(chains: seq<seq<Link>>, hash: HashFunc, key: bytes, b: nat, j: nat) {
    && 0 < |chains|
    && b == Home(hash, key, |chains|)
    && j <= |chains[b]|
    && (forall i | 0 <= i < j :: chains[b][i].data.key.Text() != key)
    && (j < |chains[b]| ==> chains[b][j].data.key.Text() == key)
  }

  lemma FoundIsTheOnly(heads: seq<Link?>, chains: seq<seq<Link>>, ms: set<Link>, hash: HashFunc,
                       key: bytes, b: nat, j: nat)
    requires TableOk(heads, chains, ms, hash) && b < |chains| && Found(chains, hash, key, b, j)
    ensures j < |chains[b]| <==> exists l :: l in ms && l.data.key.Text() == key
    ensures forall l | l in ms && l.data.key.Text() == key :: j < |chains[b]| && l == chains[b][j]
  {
    forall l | l in ms && l.data.key.Text() == key ensures j < |chains[b]| && l == chains[b][j] {
      var i :| 0 <= i < |chains[b]| && chains[b][i] == l;
      assert !(i < j);
    }
    if j < |chains[b]| { assert chains[b][j] in ms; }
  }

  /** Chain b after l was stored in its last slot. */
  lemma Attached(heads: seq<Link?>, chains: seq<seq<Link>>, ms: set<Link>,
                 hash: HashFunc, b: nat, l: Link)
    requires 0 < |chains| == |heads| && b < |chains| && l !in ms
    requires Placed(chains, ms, hash) && OneLinkPerKey(ms)
    requires b == Home(hash, l.data.key.Text(), |chains|)
    requires forall m | m in ms :: m.data.key.Text() != l.data.key.Text()
    requires forall c | 0 <= c < |chains| && c != b :: ChainOk(chains[c], heads[c])
    requires ChainOk(chains[b] + [l], heads[b])
    ensures TableOk(heads, chains[b := chains[b] + [l]], ms + {l}, hash)
  {
    hide Placed, ChainOk;
    PlacedAppend(chains, ms, hash, b, l);
  }

  lemma PlacedAppend(chains: seq<seq<Link>>, ms: set<Link>, hash: HashFunc, b: nat, l: Link)
    requires b < |chains| && Placed(chains, ms, hash) && b == Home(hash, l.data.key.Text(), |chains|)
    ensures Placed(chains[b := chains[b] + [l]], ms + {l}, hash)
  {
    var after := chains[b := chains[b] + [l]];
    assert l in after[b] by { assert after[b][|chains[b]|] == l; }
    forall m | m in ms ensures m in after[Home(hash, m.data.key.Text(), |after|)] {
      var c := Home(hash, m.data.key.Text(), |chains|);
      var j :| 0 <= j < |chains[c]| && chains[c][j] == m;
      assert after[c][j] == m;
    }
  }

  /** Chain b after slot j was made to lead past its link. */
  lemma Detached(heads: seq<Link?>, chains: seq<seq<Link>>, ms: set<Link>,
                 hash: HashFunc, b: nat, j: nat)
    requires 0 < |chains| == |heads| && b < |chains| && j < |chains[b]|
    requires Placed(chains, ms, hash) && OneLinkPerKey(ms) && Distinct(chains[b])
    requires forall c | 0 <= c < |chains| && c != b :: ChainOk(chains[c], heads[c])
    requires ChainOk(RemoveAt(chains[b], j), heads[b])
    ensures TableOk(heads, chains[b := RemoveAt(chains[b], j)], ms - {chains[b][j]}, hash)
  {
    hide Placed, ChainOk, RemoveAt;
    StillPlaced(chains, ms, hash, b, j);
  }

  lemma StillPlaced(chains: seq<seq<Link>>, ms: set<Link>, hash: HashFunc, b: nat, j: nat)
    requires b < |chains| && j < |chains[b]| && Placed(chains, ms, hash) && Distinct(chains[b])
    ensures Placed(chains[b := RemoveAt(chains[b], j)], ms - {chains[b][j]}, hash)
  {
    hide Home;
    var l := chains[b][j];
    var after := chains[b := RemoveAt(chains[b], j)];
    RemoveAtDistinct(chains[b], j);
    forall c, i | 0 <= c < |after| && 0 <= i < |after[c]|
      ensures after[c][i] in ms - {l} && Home(hash, after[c][i].data.key.Text(), |after|) == c
    {
      assert after[c][i] == chains[c][if c == b && j <= i then i + 1 else i];
    }
    forall m | m in ms - {l} ensures m in after[Home(hash, m.data.key.Text(), |after|)] {
      var c := Home(hash, m.data.key.Text(), |chains|);
      var i :| 0 <= i < |chains[c]| && chains[c][i] == m;
      assert after[c][if c == b && j < i then i - 1 else i] == m;
    }
  }

  ghost predicate ApartFrom(chains: seq<seq<Link>>, b: nat)
    requires b < |chains|
  {
    forall c, j, i | 0 <= c < |chains| && c != b && 0 <= j < |chains[b]| && 0 <= i < |chains[c]| ::
      chains[b][j] != chains[c][i]
  }

  /** A chain whose slot j leads to l instead. */
  ghost predicate Redirected(chain: seq<Link>, head: Link?, j: nat, l: Link?)
    reads chain`next
  {
    && head == (if j == 0 then l else Nth(chain, 0))
    && (forall i {:trigger chain[i].next} | 0 <= i < |chain| ::
          chain[i].next == if i == j - 1 then l else Nth(chain, i + 1))
    && Distinct(chain)
  }

  lemma RedirectedToLast(chain: seq<Link>, head: Link?, l: Link)
    requires Redirected(chain, head, |chain|, l) && l !in chain && l.next == null
    ensures ChainOk(chain + [l], head)
  {}

  lemma RedirectedPast(chain: seq<Link>, head: Link?, j: nat)
    requires j < |chain| && Redirected(chain, head, j, Nth(chain, j + 1))
    ensures ChainOk(RemoveAt(chain, j), head)
  {
    var rest := RemoveAt(chain, j);
    RemoveAtDistinct(chain, j);
    forall i | 0 <= i < |rest| ensures rest[i].next == Nth(rest, i + 1) {
      var i' := if i < j then i else i + 1;
      assert rest[i] == chain[i'];
      assert chain[i'].next == if i' == j - 1 then Nth(chain, j + 1) else Nth(chain, i' + 1);
    }
  }

  ghost predicate AllIn(chains: seq<seq<Link>>, ms: set<Link>) {
    forall b, k | 0 <= b < |chains| && 0 <= k < |chains[b]| :: chains[b][k] in ms
  }

  ghost predicate Apart(chains: seq<seq<Link>>) {
    forall b, k, c, j | 0 <= b < c < |chains| && 0 <= k < |chains[b]| && 0 <= j < |chains[c]| ::
      chains[b][k] != chains[c][j]
  }

  /** A rehash has moved the links before position j of chain i, and no others. */
  ghost predicate MovedSoFar(chains: seq<seq<Link>>, i: nat, j: nat, moved: set<Link>) {
    && i <= |chains| && (i < |chains| ==> j <= |chains[i]|)
    && (forall b, k | 0 <= b < |chains| && 0 <= k < |chains[b]| ::
          chains[b][k] in moved <==> b < i || (b == i && k < j))
  }

  lemma MovedOne(chains: seq<seq<Link>>, i: nat, j: nat, moved: set<Link>)
    requires (forall b | 0 <= b < |chains| :: Distinct(chains[b])) && Apart(chains)
    requires MovedSoFar(chains, i, j, moved) && i < |chains| && j < |chains[i]|
    ensures MovedSoFar(chains, i, j + 1, moved + {chains[i][j]}) && chains[i][j] !in moved
  {}

  lemma ChainMoved(chains: seq<seq<Link>>, i: nat, moved: set<Link>)
    requires i < |chains| && MovedSoFar(chains, i, |chains[i]|, moved)
    ensures MovedSoFar(chains, i + 1, 0, moved)
  {}

  lemma ChainWaits(chains: seq<seq<Link>>, i: nat, moved: set<Link>, ms: set<Link>)
    requires i < |chains| && AllIn(chains, ms) && MovedSoFar(chains, i, 0, moved)
    ensures forall k | 0 <= k < |chains[i]| :: chains[i][k] in ms - moved
  {}

  lemma ChainsApart(heads: seq<Link?>, chains: seq<seq<Link>>, ms: set<Link>, hash: HashFunc)
    requires TableOk(heads, chains, ms, hash)
    ensures |heads| == |chains| > 0 && Placed(chains, ms, hash) && OneLinkPerKey(ms)
    ensures AllIn(chains, ms) && Apart(chains) && MovedSoFar(chains, 0, 0, {})
    ensures forall b | 0 <= b < |chains| :: Distinct(chains[b]) && heads[b] == Nth(chains[b], 0)
    ensures forall b, k {:trigger chains[b][k].next} | 0 <= b < |chains| && 0 <= k < |chains[b]| ::
              chains[b][k].next == Nth(chains[b], k + 1)
  {
    forall b | 0 <= b < |chains|
      ensures Distinct(chains[b]) && heads[b] == Nth(chains[b], 0)
      ensures forall k {:trigger chains[b][k].next} | 0 <= k < |chains[b]| ::
                chains[b][k].next == Nth(chains[b], k + 1)
    {
      assert ChainOk(chains[b], heads[b]);
    }
  }

  lemma AllMoved(chains: seq<seq<Link>>, moved: set<Link>, ms: set<Link>, hash: HashFunc)
    requires 0 < |chains| && Placed(chains, ms, hash) && moved <= ms
    requires MovedSoFar(chains, |chains|, 0, moved)
    ensures moved == ms
  {
    forall l | l in ms ensures l in moved {
      var b := Home(hash, l.data.key.Text(), |chains|);
      var k :| 0 <= k < |chains[b]| && chains[b][k] == l;
    }
  }

  lemma SomeChain(heads: seq<Link?>, chains: seq<seq<Link>>, ms: set<Link>, hash: HashFunc)
    requires TableOk(heads, chains, ms, hash)
    ensures ms != {} ==> exists c :: 0 <= c < |chains| && chains[c] != []
  {
    if l :| l in ms {
      assert l in chains[Home(hash, l.data.key.Text(), |chains|)];
    }
  }
}
