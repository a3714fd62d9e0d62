/**
  operator< of json.hpp on trees without floating-point numbers. An unsigned number meets a signed
  one as if it were signed itself, so the order is a strict weak one for exactly those sets of
  numbers in which no large unsigned number, seen as signed, is at most a signed number that is at
  most a small unsigned one; in particular for all numbers up to INT64_MAX.
*/
module JsonOrder {
  import opened Machine
  import opened JsonValue

  const INT64_MAX: int := 0x7FFF_FFFF_FFFF_FFFF

  /** The nesting depth of a value. */
  function Depth(j: Json): nat
    decreases j, 0
  {
    match j
    case Array(es) => 1 + ElementsDepth(es, 0)
    case Object(ms) => 1 + MembersDepth(ms, 0)
    case _ => 0
  }

  function ElementsDepth(es: seq<Json>, i: nat): (d: nat)
    requires i <= |es|
    ensures forall k | i <= k < |es| :: Depth(es[k]) <= d
    decreases es, |es| - i
  {
    if i == |es| then 0 else Max(Depth(es[i]), ElementsDepth(es, i + 1))
  }

  function MembersDepth(ms: seq<Member>, i: nat): (d: nat)
    requires i <= |ms|
    ensures forall k | i <= k < |ms| :: Depth(ms[k].val) <= d
    decreases ms, |ms| - i
  {
    if i == |ms| then 0 else Max(Depth(ms[i].val), MembersDepth(ms, i + 1))
  }

  /** operator< on the types: the table of the source. */
  function Rank(j: Json): nat {
    match j
    case Null => 0
    case Boolean(_) => 1
    case Integer(_) => 2
    case Unsigned(_) => 2
    case Float(_) => 2
    case Object(_) => 3
    case Array(_) => 4
    case Str(_) => 5
  }

  /** operator<, with the lexicographic comparisons of std::vector and std::map. */
  predicate Less(a: Json, b: Json)
    requires Exact(a) && Exact(b)
    decreases Depth(a) + Depth(b), 0
  {
    match (a, b)
    case (Null, Null) => false
    case (Boolean(x), Boolean(y)) => !x && y
    case (Str(x), Str(y)) => BytesLess(x, y)
    case (Integer(x), Integer(y)) => x < y
    case (Unsigned(x), Unsigned(y)) => x < y
    case (Integer(x), Unsigned(y)) => x < ToSigned(y)
    case (Unsigned(x), Integer(y)) => ToSigned(x) < y
    case (Array(x), Array(y)) => ElementsLess(x, y, 0)
    case (Object(x), Object(y)) => MembersLess(x, y, 0)
    case _ => Rank(a) < Rank(b)
  }

  predicate ElementsLess(x: seq<Json>, y: seq<Json>, i: nat)
    requires Exact(Array(x)) && Exact(Array(y)) && i <= |x| && i <= |y|
    decreases ElementsDepth(x, 0) + ElementsDepth(y, 0), 1 + |x| - i
  {
    if i == |y| then false
    else if i == |x| then true
    else if Less(x[i], y[i]) then true
    else if Less(y[i], x[i]) then false
    else ElementsLess(x, y, i + 1)
  }

  /** The members are pairs, compared by key first. */
  predicate MembersLess(x: seq<Member>, y: seq<Member>, i: nat)
    requires Exact(Object(x)) && Exact(Object(y)) && i <= |x| && i <= |y|
    decreases MembersDepth(x, 0) + MembersDepth(y, 0), 1 + |x| - i
  {
    if i == |y| then false
    else if i == |x| then true
    else if BytesLess(x[i].key, y[i].key)
         || (!BytesLess(y[i].key, x[i].key) && Less(x[i].val, y[i].val)) then true
    else if BytesLess(y[i].key, x[i].key)
         || (!BytesLess(x[i].key, y[i].key) && Less(y[i].val, x[i].val)) then false
    else MembersLess(x, y, i + 1)
  }

  // ----- a three-way comparison that operator< and operator== agree with -----

  function Sign(d: int): int {
    if d < 0 then -1 else if d == 0 then 0 else 1
  }

  predicate IsNumber(j: Json) { j.Integer? || j.Unsigned? }

  function AsSigned(j: Json): i64
    requires IsNumber(j)
  {
    if j.Integer? then j.i else ToSigned(j.u)
  }

  function CompareNumbers(a: Json, b: Json): int
    requires IsNumber(a) && IsNumber(b)
  {
    if a.Unsigned? && b.Unsigned? then Sign(a.u - b.u) else Sign(AsSigned(a) - AsSigned(b))
  }

  function CompareBytes(a: bytes, b: bytes): int {
    if BytesLess(a, b) then -1 else if a == b then 0 else 1
  }

  function Compare(a: Json, b: Json): int
    requires Exact(a) && Exact(b)
    decreases a, 0
  {
    if IsNumber(a) && IsNumber(b) then CompareNumbers(a, b)
    else
      match (a, b)
      case (Boolean(x), Boolean(y)) => if x == y then 0 else if y then -1 else 1
      case (Str(x), Str(y)) => CompareBytes(x, y)
      case (Array(x), Array(y)) => CompareElements(x, y, 0)
      case (Object(x), Object(y)) => CompareMembers(x, y, 0)
      case _ => Sign(Rank(a) - Rank(b))
  }

  function CompareElements(x: seq<Json>, y: seq<Json>, i: nat): int
    requires (forall k | 0 <= k < |x| :: Exact(x[k])) && (forall k | 0 <= k < |y| :: Exact(y[k]))
    requires i <= |x| && i <= |y|
    decreases x, |x| - i
  {
    if i == |x| || i == |y| then Sign(|x| - |y|)
    else
      var c := Compare(x[i], y[i]);
      if c != 0 then c else CompareElements(x, y, i + 1)
  }

  function CompareMembers(x: seq<Member>, y: seq<Member>, i: nat): int
    requires (forall k | 0 <= k < |x| :: Exact(x[k].val)) && (forall k | 0 <= k < |y| :: Exact(y[k].val))
    requires i <= |x| && i <= |y|
    decreases x, |x| - i
  {
    if i == |x| || i == |y| then Sign(|x| - |y|)
    else
      var k := CompareBytes(x[i].key, y[i].key);
      var c := if k != 0 then k else Compare(x[i].val, y[i].val);
      if c != 0 then c else CompareMembers(x, y, i + 1)
  }

  lemma CompareBytesIsOrder(a: bytes, b: bytes, c: bytes)
    ensures CompareBytes(b, a) == -CompareBytes(a, b) && (CompareBytes(a, b) == 0 <==> a == b)
    ensures BytesLess(a, b) <==> CompareBytes(a, b) < 0
    ensures CompareBytes(a, b) <= 0 && CompareBytes(b, c) <= 0 ==> CompareBytes(a, c) <= 0
  {
    BytesLessTrichotomy(a, b);
    if BytesLess(a, b) && BytesLess(b, c) { BytesLessTransitive(a, b, c); }
  }

  /** What operator< and operator== say is what the comparison says, and it is antisymmetric. */
  ghost predicate Agrees(a: Json, b: Json)
    requires Exact(a) && Exact(b)
  {
    && Less(a, b) == (Compare(a, b) < 0) && Less(b, a) == (Compare(a, b) > 0)
    && Equal(a, b) == (Compare(a, b) == 0) && Compare(b, a) == -Compare(a, b)
  }

  lemma {:induction false} CompareAgrees(a: Json, b: Json)
    requires Exact(a) && Exact(b)
    ensures Agrees(a, b)
    decreases a, 0
  {
    hide Agrees, Less, Equal, Compare, CompareNumbers, CompareBytes, CompareElements, CompareMembers;
    if a.Array? && b.Array? {
      ElementsAgree(a.elems, b.elems, 0);
      ArraysAgree(a.elems, b.elems);
    } else if a.Object? && b.Object? {
      MembersAgree(a.members, b.members, 0);
      ObjectsAgree(a.members, b.members);
    } else {
      ScalarsAgree(a, b);
    }
  }

  lemma ArraysAgree(x: seq<Json>, y: seq<Json>)
    requires Exact(Array(x)) && Exact(Array(y))
    requires var c := CompareElements(x, y, 0);
             && ElementsLess(x, y, 0) == (c < 0) && ElementsLess(y, x, 0) == (c > 0)
             && (|x| == |y| && forall k | 0 <= k < |x| :: Equal(x[k], y[k])) == (c == 0)
             && CompareElements(y, x, 0) == -c
    ensures Agrees(Array(x), Array(y))
  {
    hide ElementsLess, CompareElements;
  }

  lemma ObjectsAgree(x: seq<Member>, y: seq<Member>)
    requires Exact(Object(x)) && Exact(Object(y))
    requires var c := CompareMembers(x, y, 0);
             && MembersLess(x, y, 0) == (c < 0) && MembersLess(y, x, 0) == (c > 0)
             && (|x| == |y| && forall k | 0 <= k < |x| :: x[k].key == y[k].key && Equal(x[k].val, y[k].val)) == (c == 0)
             && CompareMembers(y, x, 0) == -c
    ensures Agrees(Object(x), Object(y))
  {
    hide MembersLess, CompareMembers, Sorted;
  }

  /** Values that are not both arrays or both objects. */
  lemma ScalarsAgree(a: Json, b: Json)
    requires Exact(a) && Exact(b) && !(a.Array? && b.Array?) && !(a.Object? && b.Object?)
    ensures Agrees(a, b)
  {
    hide Agrees, Exact, CompareBytes, BytesLess;
    if IsNumber(a) && IsNumber(b) {
      NumbersAgree(a, b);
    } else if a.Str? && b.Str? {
      CompareBytesIsOrder(a.s, b.s, a.s);
      CompareBytesIsOrder(b.s, a.s, b.s);
      StringsAgree(a.s, b.s);
    } else {
      KindsAgree(a, b);
    }
  }

  lemma NumbersAgree(a: Json, b: Json)
    requires IsNumber(a) && IsNumber(b)
    ensures Agrees(a, b)
  {}

  lemma StringsAgree(x: bytes, y: bytes)
    requires CompareBytes(y, x) == -CompareBytes(x, y) && (CompareBytes(x, y) == 0 <==> x == y)
    requires (BytesLess(x, y) <==> CompareBytes(x, y) < 0) && (BytesLess(y, x) <==> CompareBytes(y, x) < 0)
    ensures Agrees(Str(x), Str(y))
  {
    hide CompareBytes, BytesLess;
  }

  lemma KindsAgree(a: Json, b: Json)
    requires Exact(a) && Exact(b) && !(IsNumber(a) && IsNumber(b)) && !(a.Str? && b.Str?)
    requires !(a.Array? && b.Array?) && !(a.Object? && b.Object?)
    ensures Agrees(a, b)
  {
    hide Agrees, Sorted;
    if a.Boolean? && b.Boolean? {
      BooleansAgree(a.b, b.b);
    } else if !(a.Null? && b.Null?) {
      RanksAgree(a, b);
    } else {
      assert a == b == Null && Agrees(Null, Null) by { NullsAgree(); }
    }
  }

  lemma BooleansAgree(x: bool, y: bool)
    ensures Agrees(Boolean(x), Boolean(y))
  {}

  lemma NullsAgree()
    ensures Agrees(Null, Null)
  {}

  lemma RanksAgree(a: Json, b: Json)
    requires Exact(a) && Exact(b) && Rank(a) != Rank(b)
    ensures Agrees(a, b)
  {
    hide Sorted, ElementsLess, MembersLess, CompareElements, CompareMembers, CompareBytes, CompareNumbers, BytesLess,
         ToSigned;
  }

  lemma {:induction false} ElementsAgree(x: seq<Json>, y: seq<Json>, i: nat)
    requires Exact(Array(x)) && Exact(Array(y)) && i <= |x| && i <= |y|
    ensures var c := CompareElements(x, y, i);
            && ElementsLess(x, y, i) == (c < 0) && ElementsLess(y, x, i) == (c > 0)
            && (|x| == |y| && forall k | i <= k < |x| :: Equal(x[k], y[k])) == (c == 0)
            && CompareElements(y, x, i) == -c
    decreases x, |x| - i
  {
    hide Less, Equal, Compare;
    if i < |x| && i < |y| {
      CompareAgrees(x[i], y[i]);
      ElementsAgree(x, y, i + 1);
    }
  }

  lemma {:induction false} MembersAgree(x: seq<Member>, y: seq<Member>, i: nat)
    requires Exact(Object(x)) && Exact(Object(y)) && i <= |x| && i <= |y|
    ensures var c := CompareMembers(x, y, i);
            && MembersLess(x, y, i) == (c < 0) && MembersLess(y, x, i) == (c > 0)
            && (|x| == |y| && forall k | i <= k < |x| :: x[k].key == y[k].key && Equal(x[k].val, y[k].val)) == (c == 0)
            && CompareMembers(y, x, i) == -c
    decreases x, |x| - i
  {
    hide Less, Equal, Compare, CompareBytes;
    if i < |x| && i < |y| {
      CompareBytesIsOrder(x[i].key, y[i].key, x[i].key);
      CompareBytesIsOrder(y[i].key, x[i].key, y[i].key);
      CompareAgrees(x[i].val, y[i].val);
      MembersAgree(x, y, i + 1);
    }
  }

  // ----- transitivity -----

  /** No large unsigned number is, as a signed one, at most a signed number that is at most a small unsigned one. */
  ghost predicate Coherent(numbers: iset<Json>) {
    forall i: i64, v: u64, u: u64 | Integer(i) in numbers && Unsigned(v) in numbers && Unsigned(u) in numbers ::
      v <= INT64_MAX < u ==> !(ToSigned(u) <= i <= v)
  }

  /** Every number in the tree is one of the numbers. */
  ghost predicate NumbersIn(j: Json, numbers: iset<Json>)
    decreases j
  {
    match j
    case Integer(_) => j in numbers
    case Unsigned(_) => j in numbers
    case Array(es) => forall k | 0 <= k < |es| :: NumbersIn(es[k], numbers)
    case Object(ms) => forall k | 0 <= k < |ms| :: NumbersIn(ms[k].val, numbers)
    case _ => true
  }

  ghost predicate Tree(j: Json, numbers: iset<Json>) {
    Exact(j) && NumbersIn(j, numbers)
  }

  /** What transitivity of a comparison means for three values. */
  predicate Chains(ab: int, bc: int, ac: int) {
    ab <= 0 && bc <= 0 ==> ac <= 0 && (ac == 0 <==> ab == 0 && bc == 0)
  }

  lemma NumbersChain(a: Json, b: Json, c: Json, numbers: iset<Json>)
    requires Coherent(numbers) && a in numbers && b in numbers && c in numbers
    requires IsNumber(a) && IsNumber(b) && IsNumber(c)
    ensures Chains(CompareNumbers(a, b), CompareNumbers(b, c), CompareNumbers(a, c))
  {}

  lemma {:induction false} CompareChains(a: Json, b: Json, c: Json, numbers: iset<Json>)
    requires Coherent(numbers) && Tree(a, numbers) && Tree(b, numbers) && Tree(c, numbers)
    ensures Chains(Compare(a, b), Compare(b, c), Compare(a, c))
    decreases a, 0
  {
    hide Coherent, CompareElements, CompareMembers, CompareNumbers, CompareBytes, Compare, Sorted;
    CompareAlike(a, b);
    CompareAlike(b, c);
    CompareAlike(a, c);
    if a.Array? && b.Array? && c.Array? {
      ElementsChain(a.elems, b.elems, c.elems, 0, numbers);
    } else if a.Object? && b.Object? && c.Object? {
      MembersChain(a.members, b.members, c.members, 0, numbers);
    } else if a.Str? && b.Str? && c.Str? {
      BytesChain(a.s, b.s, c.s);
    } else if IsNumber(a) && IsNumber(b) && IsNumber(c) {
      NumbersChain(a, b, c, numbers);
    } else {
      KindsChain(a, b, c);
    }
  }

  /** How two values of one kind are compared. */
  lemma CompareAlike(a: Json, b: Json)
    requires Exact(a) && Exact(b)
    ensures IsNumber(a) && IsNumber(b) ==> Compare(a, b) == CompareNumbers(a, b)
    ensures a.Str? && b.Str? ==> Compare(a, b) == CompareBytes(a.s, b.s)
    ensures a.Array? && b.Array? ==> Compare(a, b) == CompareElements(a.elems, b.elems, 0)
    ensures a.Object? && b.Object? ==> Compare(a, b) == CompareMembers(a.members, b.members, 0)
  {
    hide CompareElements, CompareMembers, CompareNumbers, CompareBytes, Sorted;
  }

  predicate SameKind(a: Json, b: Json) { Rank(a) == Rank(b) }

  /** Values of different kinds are in the order of their kinds. */
  lemma KindsChain(a: Json, b: Json, c: Json)
    requires Exact(a) && Exact(b) && Exact(c)
    requires SameKind(a, b) && SameKind(b, c) ==> a.Null? || a.Boolean?
    ensures Chains(Compare(a, b), Compare(b, c), Compare(a, c))
  {
    RankFirst(a, b);
    RankFirst(b, c);
    RankFirst(a, c);
  }

  lemma RankFirst(a: Json, b: Json)
    requires Exact(a) && Exact(b)
    ensures !SameKind(a, b) ==> Compare(a, b) == Sign(Rank(a) - Rank(b))
  {}

  lemma BytesChain(x: bytes, y: bytes, z: bytes)
    ensures Chains(CompareBytes(x, y), CompareBytes(y, z), CompareBytes(x, z))
  {
    CompareBytesIsOrder(x, y, z);
    CompareBytesIsOrder(y, z, x);
    CompareBytesIsOrder(z, x, y);
    CompareBytesIsOrder(x, z, y);
  }

  lemma {:induction false} ElementsChain(x: seq<Json>, y: seq<Json>, z: seq<Json>, i: nat, numbers: iset<Json>)
    requires Coherent(numbers) && i <= |x| && i <= |y| && i <= |z|
    requires Tree(Array(x), numbers) && Tree(Array(y), numbers) && Tree(Array(z), numbers)
    ensures Chains(CompareElements(x, y, i), CompareElements(y, z, i), CompareElements(x, z, i))
    decreases x, |x| - i
  {
    hide Coherent, Compare;
    if i < |x| && i < |y| && i < |z| {
      CompareChains(x[i], y[i], z[i], numbers);
      ElementsChain(x, y, z, i + 1, numbers);
    }
  }

  lemma {:induction false} MembersChain(x: seq<Member>, y: seq<Member>, z: seq<Member>, i: nat, numbers: iset<Json>)
    requires Coherent(numbers) && i <= |x| && i <= |y| && i <= |z|
    requires Tree(Object(x), numbers) && Tree(Object(y), numbers) && Tree(Object(z), numbers)
    ensures Chains(CompareMembers(x, y, i), CompareMembers(y, z, i), CompareMembers(x, z, i))
    decreases x, |x| - i
  {
    hide Coherent, Compare, CompareBytes;
    if i < |x| && i < |y| && i < |z| {
      BytesChain(x[i].key, y[i].key, z[i].key);
      CompareChains(x[i].val, y[i].val, z[i].val, numbers);
      MembersChain(x, y, z, i + 1, numbers);
    }
  }

  // ----- the laws -----

  predicate Incomparable(a: Json, b: Json)
    requires Exact(a) && Exact(b)
  {
    !Less(a, b) && !Less(b, a)
  }

  /** The laws of a strict weak order for three values, and that operator== is its incomparability. */
  ghost predicate Laws(a: Json, b: Json, c: Json) {
    Exact(a) && Exact(b) && Exact(c) ==>
      && !Less(a, a) && !(Less(a, b) && Less(b, a))
      && (Less(a, b) && Less(b, c) ==> Less(a, c))
      && (Incomparable(a, b) && Incomparable(b, c) ==> Incomparable(a, c))
      && (Equal(a, b) <==> Incomparable(a, b))
  }

  ghost predicate StrictWeakOrder(numbers: iset<Json>) {
    forall a, b, c | Tree(a, numbers) && Tree(b, numbers) && Tree(c, numbers) :: Laws(a, b, c)
  }

  lemma CoherentLaws(a: Json, b: Json, c: Json, numbers: iset<Json>)
    requires Coherent(numbers) && Tree(a, numbers) && Tree(b, numbers) && Tree(c, numbers)
    ensures Laws(a, b, c)
  {
    hide Less, Equal, Compare, Coherent, NumbersIn, Exact;
    CompareAgrees(a, a);
    CompareAgrees(a, b);
    CompareAgrees(b, c);
    CompareAgrees(a, c);
    CompareChains(a, b, c, numbers);
    CompareChains(c, b, a, numbers);
    LawsOf(a, b, c);
  }

  lemma LawsOf(a: Json, b: Json, c: Json)
    requires Exact(a) && Exact(b) && Exact(c)
    requires Agrees(a, a) && Agrees(a, b) && Agrees(b, c) && Agrees(a, c)
    requires Chains(Compare(a, b), Compare(b, c), Compare(a, c))
    requires Chains(Compare(c, b), Compare(b, a), Compare(c, a))
    ensures Laws(a, b, c)
  {
    hide Less, Equal, Compare, Exact;
  }

  /** Three numbers that are not coherent break the laws. */
  lemma IncoherentNumbers(i: i64, v: u64, u: u64)
    requires v <= INT64_MAX < u && ToSigned(u) <= i <= v
    ensures !Laws(Integer(i), Unsigned(v), Unsigned(u)) || !Laws(Unsigned(v), Unsigned(u), Integer(i))
  {}

  /**
    Over all trees with numbers from a set, operator< is a strict weak order whose incomparability
    is operator== exactly when the set is coherent.
  */
  lemma OrderedExactlyWhenCoherent(numbers: iset<Json>)
    ensures StrictWeakOrder(numbers) <==> Coherent(numbers)
  {
    if Coherent(numbers) {
      forall a, b, c | Tree(a, numbers) && Tree(b, numbers) && Tree(c, numbers) ensures Laws(a, b, c) {
        CoherentLaws(a, b, c, numbers);
      }
    } else {
      var i: i64, v: u64, u: u64 :| Integer(i) in numbers && Unsigned(v) in numbers && Unsigned(u) in numbers
                     && v <= INT64_MAX < u && ToSigned(u) <= i <= v;
      IncoherentNumbers(i, v, u);
      assert Tree(Integer(i), numbers) && Tree(Unsigned(v), numbers) && Tree(Unsigned(u), numbers);
    }
  }

  /** In particular, no unsigned number above INT64_MAX in the trees makes it a strict weak order. */
  lemma OrderedUpToInt64Max()
    ensures StrictWeakOrder(iset j: Json | j.Integer? || (j.Unsigned? && j.u <= INT64_MAX))
  {
    OrderedExactlyWhenCoherent(iset j: Json | j.Integer? || (j.Unsigned? && j.u <= INT64_MAX));
  }

  /** Among all numbers it is none: -1 < 1 < UINT64_MAX, and yet -1 == UINT64_MAX. */
  lemma NotOrderedAmongAllNumbers()
    ensures Less(Integer(-1), Unsigned(1)) && Less(Unsigned(1), Unsigned(U64 - 1))
    ensures Equal(Integer(-1), Unsigned(U64 - 1))
    ensures !StrictWeakOrder(iset j: Json | IsNumber(j))
  {
    var all := iset j: Json | IsNumber(j);
    assert Integer(-1) in all && Unsigned(1) in all && Unsigned(U64 - 1) in all;
    assert ToSigned(U64 - 1) == -1;
    OrderedExactlyWhenCoherent(all);
  }

  /** A comparison of a signed with an unsigned number is the one of the integers exactly in these cases. */
  lemma MixedComparison(i: i64, u: u64)
    ensures && Less(Integer(i), Unsigned(u)) == (i < u) && Less(Unsigned(u), Integer(i)) == (u < i)
            && Equal(Integer(i), Unsigned(u)) == (i == u)
            <==> u <= INT64_MAX || i < ToSigned(u)
  {}
}
