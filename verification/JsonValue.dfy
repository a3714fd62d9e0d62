/**
  JSON values as json.hpp holds them. An object is a std::map, here the sequence of its members in
  the order of their keys. A floating-point number is kept as the text strtod was given.
*/
module JsonValue {
  import opened Machine

  type i64 = n: int | -0x8000_0000_0000_0000 <= n < 0x8000_0000_0000_0000

  datatype Json =
    | Null
    | Boolean(b: bool)
    | Integer(i: i64)
    | Unsigned(u: u64)
    | Float(text: bytes)
    | Str(s: bytes)
    | Array(elems: seq<Json>)
    | Object(members: seq<Member>)

  datatype Member = Member(key: bytes, val: Json)

  /** operator< of std::string: by unsigned bytes, from the left. */
  predicate BytesLess(a: bytes, b: bytes) {
    if b == [] then false
    else if a == [] then true
    else if a[0] != b[0] then a[0] < b[0]
    else BytesLess(a[1..], b[1..])
  }

  ghost predicate Sorted(ms: seq<Member>) {
    forall i, j | 0 <= i < j < |ms| :: BytesLess(ms[i].key, ms[j].key)
  }

  /** Objects are maps, and no number is a floating-point one, all through the tree. */
  ghost predicate Exact(j: Json)
    decreases j
  {
    match j
    case Float(_) => false
    case Array(es) => forall i | 0 <= i < |es| :: Exact(es[i])
    case Object(ms) => Sorted(ms) && forall i | 0 <= i < |ms| :: Exact(ms[i].val)
    case _ => true
  }

  // ----- the order of keys -----

  lemma {:induction false} BytesLessTrichotomy(a: bytes, b: bytes)
    ensures BytesLess(a, b) || BytesLess(b, a) || a == b
    ensures !(BytesLess(a, b) && BytesLess(b, a)) && !BytesLess(a, a)
  {
    if a != [] {
      BytesLessTrichotomy(a[1..], a[1..]);
      if b != [] && a[0] == b[0] {
        BytesLessTrichotomy(a[1..], b[1..]);
        assert a == [a[0]] + a[1..] && b == [b[0]] + b[1..];
      }
    }
  }

  lemma {:induction false} BytesLessTransitive(a: bytes, b: bytes, c: bytes)
    requires BytesLess(a, b) && BytesLess(b, c)
    ensures BytesLess(a, c)
  {
    if a != [] && a[0] == b[0] && b[0] == c[0] {
      BytesLessTransitive(a[1..], b[1..], c[1..]);
    }
  }

  // ----- object[key] = value -----

  function Put(ms: seq<Member>, key: bytes, val: Json): seq<Member> {
    if ms == [] then [Member(key, val)]
    else if BytesLess(ms[0].key, key) then [ms[0]] + Put(ms[1..], key, val)
    else if ms[0].key == key then [Member(key, val)] + ms[1..]
    else [Member(key, val)] + ms
  }

  function Find(ms: seq<Member>, key: bytes): Option<Json> {
    if ms == [] then None
    else if ms[0].key == key then Some(ms[0].val)
    else Find(ms[1..], key)
  }

  lemma {:induction false} PutIsUpdate(ms: seq<Member>, key: bytes, val: Json, other: bytes)
    requires Sorted(ms)
    ensures Find(Put(ms, key, val), other) == if other == key then Some(val) else Find(ms, other)
  {
    if ms != [] {
      BytesLessTrichotomy(ms[0].key, key);
      if BytesLess(ms[0].key, key) {
        PutIsUpdate(ms[1..], key, val, other);
        assert Put(ms, key, val)[1..] == Put(ms[1..], key, val);
      } else if ms[0].key == key {
        assert Put(ms, key, val)[1..] == ms[1..];
      } else {
        assert Put(ms, key, val)[1..] == ms;
      }
    }
  }

  lemma {:induction false} PutKeepsSorted(ms: seq<Member>, key: bytes, val: Json)
    requires Sorted(ms)
    ensures Sorted(Put(ms, key, val))
    ensures forall i | 0 <= i < |Put(ms, key, val)| ::
              Put(ms, key, val)[i] == Member(key, val) || Put(ms, key, val)[i] in ms
  {
    hide BytesLess;
    if ms != [] {
      BytesLessTrichotomy(ms[0].key, key);
      if BytesLess(ms[0].key, key) {
        PutKeepsSorted(ms[1..], key, val);
        var rest := Put(ms[1..], key, val);
        forall i | 0 <= i < |rest| ensures BytesLess(ms[0].key, rest[i].key) {
          if rest[i] != Member(key, val) {
            var k :| 0 <= k < |ms[1..]| && ms[1..][k] == rest[i];
            assert ms[k + 1] == rest[i];
          }
        }
        SortedInFront(ms[0], rest);
      } else if ms[0].key == key {
        assert forall i | 0 <= i < |ms[1..]| :: ms[1..][i] == ms[i + 1];
        SortedInFront(Member(key, val), ms[1..]);
      } else {
        forall i | 0 <= i < |ms| ensures BytesLess(key, ms[i].key) {
          if i > 0 { BytesLessTransitive(key, ms[0].key, ms[i].key); }
        }
        SortedInFront(Member(key, val), ms);
      }
    }
  }

  lemma SortedInFront(m: Member, rest: seq<Member>)
    requires Sorted(rest) && forall i | 0 <= i < |rest| :: BytesLess(m.key, rest[i].key)
    ensures Sorted([m] + rest)
    ensures forall i | 0 <= i < |[m] + rest| :: ([m] + rest)[i] == m || ([m] + rest)[i] in rest
  {
    hide BytesLess;
    var all := [m] + rest;
    assert forall i | 0 < i < |all| :: all[i] == rest[i - 1];
  }

  /** A key above all others goes to the end. */
  lemma {:induction false} PutLast(ms: seq<Member>, key: bytes, val: Json)
    requires forall i | 0 <= i < |ms| :: BytesLess(ms[i].key, key)
    ensures Put(ms, key, val) == ms + [Member(key, val)]
  {
    if ms != [] { PutLast(ms[1..], key, val); }
  }

  // ----- operator== -----

  /** static_cast from uint64_t to int64_t. */
  function ToSigned(u: u64): i64 {
    if u < 0x8000_0000_0000_0000 then u else u - U64
  }

  /** operator==, on trees without floating-point numbers. */
  predicate Equal(a: Json, b: Json)
    requires Exact(a) && Exact(b)
    decreases a
  {
    match (a, b)
    case (Null, Null) => true
    case (Boolean(x), Boolean(y)) => x == y
    case (Str(x), Str(y)) => x == y
    case (Integer(x), Integer(y)) => x == y
    case (Unsigned(x), Unsigned(y)) => x == y
    case (Integer(x), Unsigned(y)) => x == ToSigned(y)
    case (Unsigned(x), Integer(y)) => ToSigned(x) == y
    case (Array(x), Array(y)) =>
      |x| == |y| && forall i | 0 <= i < |x| :: Equal(x[i], y[i])
    case (Object(x), Object(y)) =>
      |x| == |y| && forall i | 0 <= i < |x| :: x[i].key == y[i].key && Equal(x[i].val, y[i].val)
    case _ => false
  }

  /** What comes back when a value is printed and parsed: non-negative integers are unsigned ones. */
  function Reparsed(j: Json): Json
    decreases j
  {
    match j
    case Integer(i) => if i >= 0 then Unsigned(i) else j
    case Array(es) => Array(seq(|es|, i requires 0 <= i < |es| => Reparsed(es[i])))
    case Object(ms) =>
      Object(seq(|ms|, i requires 0 <= i < |ms| => Member(ms[i].key, Reparsed(ms[i].val))))
    case _ => j
  }

  lemma {:induction false} ReparsedIsEqual(j: Json)
    requires Exact(j)
    ensures Exact(Reparsed(j)) && Equal(Reparsed(j), j)
    decreases j
  {
    match j {
      case Array(es) =>
        forall i | 0 <= i < |es| ensures Exact(Reparsed(es[i])) && Equal(Reparsed(es[i]), es[i]) {
          ReparsedIsEqual(es[i]);
        }
      case Object(ms) =>
        forall i | 0 <= i < |ms| ensures Exact(Reparsed(ms[i].val)) && Equal(Reparsed(ms[i].val), ms[i].val) {
          ReparsedIsEqual(ms[i].val);
        }
      case _ =>
    }
  }
}
