/**
 JSON values. An object is kept as its members in the iteration order of the
 `std::map` behind it, which is the order of the keys' bytes.
 */
module JsonValue {
  import opened Bytes
  import opened JsonUtf8
  import JsonNumber

  /** A double; only the special values are told apart. */
  datatype Double = Finite(r: real) | NaN | PosInf | NegInf

  datatype Value =
    | Null
    | Bool(b: bool)
    | Int(i: int)
    | UInt(u: int)
    | Real(d: Double)
    | Str(s: bytes)
    | Array(items: seq<Value>)
    | Object(members: seq<Member>)

  datatype Member = Member(key: bytes, value: Value)

  /** The order of `CZString`: bytewise, a proper prefix first. */
  predicate KeyLess(a: bytes, b: bytes) {
    b != [] && (a == [] || a[0] < b[0] || (a[0] == b[0] && KeyLess(a[1..], b[1..])))
  }

  ghost predicate Sorted(ms: seq<Member>) {
    forall i, j | 0 <= i < j < |ms| :: KeyLess(ms[i].key, ms[j].key)
  }

  function Find(ms: seq<Member>, key: bytes): Option<Value> {
    if ms == [] then None
    else if ms[0].key == key then Some(ms[0].value)
    else Find(ms[1..], key)
  }

  /** The members after `key` has been given `value`. */
  function Put(ms: seq<Member>, key: bytes, value: Value): seq<Member> {
    if ms == [] || KeyLess(key, ms[0].key) then [Member(key, value)] + ms
    else if ms[0].key == key then [Member(key, value)] + ms[1..]
    else [ms[0]] + Put(ms[1..], key, value)
  }

  lemma {:induction false} KeyLessAsymmetric(a: bytes, b: bytes)
    requires KeyLess(a, b)
    ensures a != b && !KeyLess(b, a)
  {
    if a != [] && a[0] == b[0] {
      KeyLessAsymmetric(a[1..], b[1..]);
    }
  }

  lemma {:induction false} KeyLessTotal(a: bytes, b: bytes)
    requires a != b && !KeyLess(a, b)
    ensures KeyLess(b, a)
  {
    if a != [] && b != [] && a[0] == b[0] {
      assert a == [a[0]] + a[1..] && b == [b[0]] + b[1..];
      KeyLessTotal(a[1..], b[1..]);
    }
  }

  lemma {:induction false} KeyLessTransitive(a: bytes, b: bytes, c: bytes)
    requires KeyLess(a, b) && KeyLess(b, c)
    ensures KeyLess(a, c)
  {
    if a != [] && a[0] == b[0] == c[0] {
      KeyLessTransitive(a[1..], b[1..], c[1..]);
    }
  }

  /** Looking up after storing: the value stored under `key`, anything else as before. */
  lemma {:induction false} PutFinds(ms: seq<Member>, key: bytes, value: Value, k: bytes)
    ensures Find(Put(ms, key, value), k) == if k == key then Some(value) else Find(ms, k)
  {
    var m := Member(key, value);
    if ms == [] || KeyLess(key, ms[0].key) {
      assert ([m] + ms)[1..] == ms;
    } else if ms[0].key == key {
      assert ([m] + ms[1..])[1..] == ms[1..];
    } else {
      PutFinds(ms[1..], key, value, k);
      assert ([ms[0]] + Put(ms[1..], key, value))[1..] == Put(ms[1..], key, value);
    }
  }

  /** Storing keeps the order of the keys. */
  lemma {:induction false} PutSorted(ms: seq<Member>, key: bytes, value: Value)
    requires Sorted(ms)
    ensures Sorted(Put(ms, key, value))
    ensures forall i | 0 <= i < |Put(ms, key, value)| ::
              Put(ms, key, value)[i] == Member(key, value) || Put(ms, key, value)[i] in ms
  {
    hide KeyLess;
    var m, r := Member(key, value), Put(ms, key, value);
    if ms == [] {
      assert r == [m];
    } else if KeyLess(key, ms[0].key) {
      assert r == [m] + ms;
      forall j | 0 <= j < |ms|
        ensures KeyLess(key, ms[j].key)
      {
        if j > 0 {
          KeyLessTransitive(key, ms[0].key, ms[j].key);
        }
      }
    } else if ms[0].key == key {
      assert r == [m] + ms[1..];
    } else {
      KeyLessTotal(key, ms[0].key);
      PutSorted(ms[1..], key, value);
      assert r == [ms[0]] + Put(ms[1..], key, value);
    }
  }

  /** What a sorted object holds under a name is what looking the name up gives. */
  lemma {:induction false} SortedFinds(ms: seq<Member>, i: nat)
    requires Sorted(ms) && i < |ms|
    ensures Find(ms, ms[i].key) == Some(ms[i].value)
  {
    if i > 0 {
      KeyLessAsymmetric(ms[0].key, ms[i].key);
      SortedFinds(ms[1..], i - 1);
    }
  }

  lemma {:induction false} FoundIsMember(ms: seq<Member>, key: bytes)
    requires Find(ms, key).Some?
    ensures Member(key, Find(ms, key).value) in ms
  {
    if ms[0].key != key {
      FoundIsMember(ms[1..], key);
    }
  }

  ghost predicate SameLookup(a: seq<Member>, b: seq<Member>) {
    forall k :: Find(a, k) == Find(b, k)
  }

  /** A sorted object is determined by its lookups. */
  lemma {:induction false} LookupDetermines(a: seq<Member>, b: seq<Member>)
    requires Sorted(a) && Sorted(b) && SameLookup(a, b)
    ensures a == b
    decreases |a|
  {
    hide KeyLess;
    if a == [] || b == [] {
      EmptyLookup(a, b);
    } else {
      FirstAgrees(a, b);
      assert a == [a[0]] + a[1..] && b == [b[0]] + b[1..];
      RestAgrees(a, b);
      LookupDetermines(a[1..], b[1..]);
    }
  }

  lemma EmptyLookup(a: seq<Member>, b: seq<Member>)
    requires (a == [] || b == []) && SameLookup(a, b)
    ensures a == b
  {
    assert a != [] ==> Find(a, a[0].key) == Find(b, a[0].key);
    assert b != [] ==> Find(a, b[0].key) == Find(b, b[0].key);
  }

  /** The smallest keys of two objects with the same lookups agree. */
  lemma FirstAgrees(a: seq<Member>, b: seq<Member>)
    requires a != [] && b != [] && Sorted(a) && Sorted(b) && SameLookup(a, b)
    ensures a[0] == b[0]
  {
    hide KeyLess;
    assert Find(a, a[0].key) == Find(b, a[0].key) && Find(a, b[0].key) == Find(b, b[0].key);
    FoundIsMember(b, a[0].key);
    FoundIsMember(a, b[0].key);
    if a[0].key != b[0].key {
      KeyLessAsymmetric(a[0].key, b[0].key);
    }
  }

  lemma RestAgrees(a: seq<Member>, b: seq<Member>)
    requires a != [] && b != [] && Sorted(a) && Sorted(b) && SameLookup(a, b) && a[0] == b[0]
    ensures SameLookup(a[1..], b[1..])
  {
    forall k
      ensures Find(a[1..], k) == Find(b[1..], k)
    {
      assert Find(a, k) == Find(b, k);
      if k == a[0].key {
        AbsentBehind(a);
        AbsentBehind(b);
      }
    }
  }

  lemma AbsentBehind(ms: seq<Member>)
    requires ms != [] && Sorted(ms)
    ensures Find(ms[1..], ms[0].key) == None
  {
    if Find(ms[1..], ms[0].key).Some? {
      FoundIsMember(ms[1..], ms[0].key);
      KeyLessAsymmetric(ms[0].key, ms[0].key);
      assert false;
    }
  }

  /** A key above all others is new and goes to the end. */
  lemma {:induction false} PutLast(ms: seq<Member>, key: bytes, value: Value)
    requires forall i | 0 <= i < |ms| :: KeyLess(ms[i].key, key)
    ensures Find(ms, key) == None
    ensures Put(ms, key, value) == ms + [Member(key, value)]
  {
    if ms != [] {
      KeyLessAsymmetric(ms[0].key, key);
      PutLast(ms[1..], key, value);
      assert ms == [ms[0]] + ms[1..];
    }
  }

  function Max(a: nat, b: nat): nat {
    if a < b then b else a
  }

  /** Nesting depth; a scalar has depth 1. */
  function Depth(v: Value): (d: nat)
    ensures d >= 1
  {
    match v
    case Array(items) => 1 + ItemsDepth(items)
    case Object(members) => 1 + MembersDepth(members)
    case _ => 1
  }

  function ItemsDepth(items: seq<Value>): nat {
    if items == [] then 0 else Max(Depth(items[0]), ItemsDepth(items[1..]))
  }

  function MembersDepth(ms: seq<Member>): nat {
    if ms == [] then 0 else Max(Depth(ms[0].value), MembersDepth(ms[1..]))
  }

  const MAX_KEY_LENGTH := 0x4000_0000

  /** Text that the writer preserves: anything when written raw, else UTF-8. */
  predicate Preserved(s: bytes, emitUtf8: bool) {
    emitUtf8 || ValidUtf8(s)
  }

  /** Values without doubles whose numbers are 64-bit, whose strings the writer
      preserves and whose objects have short keys in map order. */
  ghost predicate Printable(v: Value, emitUtf8: bool) {
    match v
    case Null => true
    case Bool(_) => true
    case Int(i) => JsonNumber.MIN_INT <= i <= JsonNumber.MAX_INT
    case UInt(u) => 0 <= u <= JsonNumber.MAX_UINT
    case Real(_) => false
    case Str(s) => Preserved(s, emitUtf8)
    case Array(items) => forall i | 0 <= i < |items| :: Printable(items[i], emitUtf8)
    case Object(ms) =>
      && Sorted(ms)
      && forall i | 0 <= i < |ms| ::
           && |ms[i].key| < MAX_KEY_LENGTH
           && Preserved(ms[i].key, emitUtf8)
           && Printable(ms[i].value, emitUtf8)
  }

  /** The value as the reader rebuilds it: an unsigned number that fits the signed
      type becomes signed. */
  function Canonical(v: Value): Value {
    match v
    case UInt(u) => if u <= JsonNumber.MAX_INT then Int(u) else v
    case Array(items) => Array(CanonicalItems(items))
    case Object(ms) => Object(CanonicalMembers(ms))
    case _ => v
  }

  function CanonicalItems(items: seq<Value>): (r: seq<Value>)
    ensures |r| == |items|
  {
    if items == [] then [] else [Canonical(items[0])] + CanonicalItems(items[1..])
  }

  function CanonicalMembers(ms: seq<Member>): (r: seq<Member>)
    ensures |r| == |ms|
    ensures forall i | 0 <= i < |ms| :: r[i].key == ms[i].key
  {
    if ms == [] then []
    else [Member(ms[0].key, Canonical(ms[0].value))] + CanonicalMembers(ms[1..])
  }
}
