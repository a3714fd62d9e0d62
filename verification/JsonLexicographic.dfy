/**
  The order of json.hpp by places: where two strings, arrays or objects first differ decides. And the
  order of the kinds, case by case.
*/
module JsonLexicographic {
  import opened Machine
  import opened JsonValue
  import opened JsonOrder

  // ----- strings -----

  /** The first n bytes are the same, and either a ends there, or its byte n is smaller. */
  ghost predicate BytesDiffer(a: bytes, b: bytes, n: nat) {
    && n <= |a| && n < |b|
    && (forall k | 0 <= k < n :: a[k] == b[k])
    && (n == |a| || a[n] < b[n])
  }

  ghost predicate BytesFirst(a: bytes, b: bytes) {
    exists n: nat :: BytesDiffer(a, b, n)
  }

  lemma {:induction false} BytesByPlace(a: bytes, b: bytes)
    ensures BytesLess(a, b) <==> BytesFirst(a, b)
  {
    if a != [] && b != [] && a[0] == b[0] {
      BytesByPlace(a[1..], b[1..]);
      if BytesFirst(a[1..], b[1..]) {
        var n: nat :| BytesDiffer(a[1..], b[1..], n);
        BytesLater(a, b, n + 1);
      }
      if BytesFirst(a, b) {
        var n: nat :| BytesDiffer(a, b, n);
        BytesLater(a, b, n);
      }
    } else if b != [] && (a == [] || a[0] < b[0]) {
      assert BytesDiffer(a, b, 0);
    }
  }

  lemma BytesLater(a: bytes, b: bytes, n: nat)
    requires a != [] && b != [] && a[0] == b[0]
    ensures BytesDiffer(a, b, n) <==> n > 0 && BytesDiffer(a[1..], b[1..], n - 1)
  {
    if n > 0 && BytesDiffer(a[1..], b[1..], n - 1) {
      assert forall k | 0 < k < n :: a[k] == a[1..][k - 1] && b[k] == b[1..][k - 1];
    }
  }

  // ----- arrays -----

  /** The elements from i to n are equal, and either x ends at n, or its element n is less. */
  ghost predicate ElementsDiffer(x: seq<Json>, y: seq<Json>, i: nat, n: nat)
    requires Exact(Array(x)) && Exact(Array(y))
  {
    && i <= n <= |x| && n < |y|
    && (forall k | i <= k < n :: Equal(x[k], y[k]))
    && (n == |x| || Less(x[n], y[n]))
  }

  ghost predicate ElementsFirst(x: seq<Json>, y: seq<Json>, i: nat)
    requires Exact(Array(x)) && Exact(Array(y))
  {
    exists n: nat :: ElementsDiffer(x, y, i, n)
  }

  lemma {:induction false} ElementsByPlace(x: seq<Json>, y: seq<Json>, i: nat)
    requires Exact(Array(x)) && Exact(Array(y)) && i <= |x| && i <= |y|
    ensures ElementsLess(x, y, i) <==> ElementsFirst(x, y, i)
    decreases |x| - i
  {
    hide Less, Equal;
    if i < |x| && i < |y| {
      CompareSays(x[i], y[i]);
      ElementsByPlace(x, y, i + 1);
      forall n: nat ensures ElementsDiffer(x, y, i, n) <==>
          if n == i then Less(x[i], y[i]) else ElementsDiffer(x, y, i + 1, n) && Equal(x[i], y[i])
      {
        ElementsShift(x, y, i, n);
      }
      if Less(x[i], y[i]) { assert ElementsDiffer(x, y, i, i); }
      if Equal(x[i], y[i]) && ElementsFirst(x, y, i + 1) {
        var n: nat :| ElementsDiffer(x, y, i + 1, n);
        assert ElementsDiffer(x, y, i, n);
      }
    } else if i < |y| {
      assert ElementsDiffer(x, y, i, i);
    }
  }

  lemma ElementsShift(x: seq<Json>, y: seq<Json>, i: nat, n: nat)
    requires Exact(Array(x)) && Exact(Array(y)) && i < |x| && i < |y|
    ensures ElementsDiffer(x, y, i, n) <==>
              if n == i then Less(x[i], y[i]) else ElementsDiffer(x, y, i + 1, n) && Equal(x[i], y[i])
  {
    hide Less, Equal;
  }

  /** Of two values exactly one is less, or they are equal. */
  lemma CompareSays(a: Json, b: Json)
    requires Exact(a) && Exact(b)
    ensures Equal(a, b) <==> !Less(a, b) && !Less(b, a)
    ensures !(Less(a, b) && Less(b, a))
  {
    hide Less, Equal, Compare;
    CompareAgrees(a, b);
  }

  /** One array is less than another exactly if, at the first place where they differ, it has ended or is less. */
  lemma ArraysByPlace(x: seq<Json>, y: seq<Json>)
    requires Exact(Array(x)) && Exact(Array(y))
    ensures Less(Array(x), Array(y)) <==> ElementsFirst(x, y, 0)
  {
    hide ElementsLess, ElementsFirst;
    ElementsByPlace(x, y, 0);
  }

  // ----- objects -----

  ghost predicate MemberFirst(a: Member, b: Member)
    requires Exact(a.val) && Exact(b.val)
  {
    BytesFirst(a.key, b.key) || (a.key == b.key && Less(a.val, b.val))
  }

  predicate SameMember(a: Member, b: Member)
    requires Exact(a.val) && Exact(b.val)
  {
    a.key == b.key && Equal(a.val, b.val)
  }

  /** The members from i to n are equal, and either x ends at n, or its member n is less: by key, then by value. */
  ghost predicate MembersDiffer(x: seq<Member>, y: seq<Member>, i: nat, n: nat)
    requires Exact(Object(x)) && Exact(Object(y))
  {
    && i <= n <= |x| && n < |y|
    && (forall k | i <= k < n :: SameMember(x[k], y[k]))
    && (n == |x| || MemberFirst(x[n], y[n]))
  }

  ghost predicate MembersFirst(x: seq<Member>, y: seq<Member>, i: nat)
    requires Exact(Object(x)) && Exact(Object(y))
  {
    exists n: nat :: MembersDiffer(x, y, i, n)
  }

  lemma {:induction false} MembersByPlace(x: seq<Member>, y: seq<Member>, i: nat)
    requires Exact(Object(x)) && Exact(Object(y)) && i <= |x| && i <= |y|
    ensures MembersLess(x, y, i) <==> MembersFirst(x, y, i)
    decreases |x| - i
  {
    hide Less, Equal, Sorted, BytesLess, BytesFirst;
    if i < |x| && i < |y| {
      CompareSays(x[i].val, y[i].val);
      BytesByPlace(x[i].key, y[i].key);
      BytesByPlace(y[i].key, x[i].key);
      BytesLessTrichotomy(x[i].key, y[i].key);
      MembersByPlace(x, y, i + 1);
      forall n: nat ensures MembersDiffer(x, y, i, n) <==>
          if n == i then MemberFirst(x[i], y[i]) else MembersDiffer(x, y, i + 1, n) && SameMember(x[i], y[i])
      {
        MembersShift(x, y, i, n);
      }
      if MemberFirst(x[i], y[i]) { assert MembersDiffer(x, y, i, i); }
      if SameMember(x[i], y[i]) && MembersFirst(x, y, i + 1) {
        var n: nat :| MembersDiffer(x, y, i + 1, n);
        assert MembersDiffer(x, y, i, n);
      }
    } else if i < |y| {
      assert MembersDiffer(x, y, i, i);
    }
  }

  lemma MembersShift(x: seq<Member>, y: seq<Member>, i: nat, n: nat)
    requires Exact(Object(x)) && Exact(Object(y)) && i < |x| && i < |y|
    ensures MembersDiffer(x, y, i, n) <==>
              if n == i then MemberFirst(x[i], y[i]) else MembersDiffer(x, y, i + 1, n) && SameMember(x[i], y[i])
  {
    hide Less, Equal, Sorted, BytesLess, BytesFirst;
  }

  lemma ObjectsByPlace(x: seq<Member>, y: seq<Member>)
    requires Exact(Object(x)) && Exact(Object(y))
    ensures Less(Object(x), Object(y)) <==> MembersFirst(x, y, 0)
  {
    hide MembersLess, MembersFirst, Sorted;
    MembersByPlace(x, y, 0);
  }

  // ----- kinds -----

  /** Null, booleans, numbers, objects, arrays, strings: in this order, whatever they hold. */
  lemma KindsInOrder(b: bool, n: Json, ms: seq<Member>, es: seq<Json>, s: bytes)
    requires (n.Integer? || n.Unsigned?) && Exact(Object(ms)) && Exact(Array(es))
    ensures var row := [Null, Boolean(b), n, Object(ms), Array(es), Str(s)];
            forall i, j | 0 <= i < 6 && 0 <= j < 6 && i != j ::
              && Exact(row[i]) && Exact(row[j])
              && (Less(row[i], row[j]) <==> i < j) && !Equal(row[i], row[j])
  {
    hide Less, Equal, Sorted;
    var row := [Null, Boolean(b), n, Object(ms), Array(es), Str(s)];
    forall i, j | 0 <= i < 6 && 0 <= j < 6 && i != j
      ensures Exact(row[i]) && Exact(row[j]) && (Less(row[i], row[j]) <==> i < j) && !Equal(row[i], row[j])
    {
      if i < j { KindsDecide(row[i], row[j]); } else { KindsDecide(row[j], row[i]); }
    }
  }

  lemma KindsDecide(a: Json, b: Json)
    requires Exact(a) && Exact(b) && Rank(a) < Rank(b)
    ensures Less(a, b) && !Less(b, a) && !Equal(a, b) && !Equal(b, a)
  {
    hide ElementsLess, MembersLess, Sorted, ToSigned, BytesLess;
  }

  /** Values of one kind that hold no others. */
  lemma SimpleValuesInOrder(x: bool, y: bool, i: i64, j: i64, u: u64, v: u64, s: bytes, t: bytes)
    ensures !Less(Null, Null) && Equal(Null, Null)
    ensures (Less(Boolean(x), Boolean(y)) <==> x == false && y == true) && (Equal(Boolean(x), Boolean(y)) <==> x == y)
    ensures (Less(Integer(i), Integer(j)) <==> i < j) && (Equal(Integer(i), Integer(j)) <==> i == j)
    ensures (Less(Unsigned(u), Unsigned(v)) <==> u < v) && (Equal(Unsigned(u), Unsigned(v)) <==> u == v)
    ensures (Less(Str(s), Str(t)) <==> BytesFirst(s, t)) && (Equal(Str(s), Str(t)) <==> s == t)
  {
    hide BytesFirst, BytesLess;
    BytesByPlace(s, t);
  }

  /** An unsigned number meets a signed one as the signed number that is the same modulo 2^64. */
  lemma MixedNumbersInOrder(i: i64, u: u64, r: i64)
    requires (u - r) % U64 == 0
    ensures (Less(Integer(i), Unsigned(u)) <==> i < r) && (Less(Unsigned(u), Integer(i)) <==> r < i)
    ensures (Equal(Integer(i), Unsigned(u)) <==> i == r) && (Equal(Unsigned(u), Integer(i)) <==> i == r)
  {
    assert r == ToSigned(u);
  }
}
