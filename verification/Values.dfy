/** JSON values as trees: what a json_t graph without cycles denotes (libjansson/value.c). */
module Values {
  import opened Utf8

  const INT64_MIN: int := -0x8000_0000_0000_0000
  const INT64_MAX: int := 0x7FFF_FFFF_FFFF_FFFF

  /** A real is carried as its literal text; an object lists its members in iteration order. */
  datatype Json =
    | Null
    | True
    | False
    | Integer(n: int)
    | Real(text: bytes)
    | String(s: bytes)
    | Array(elems: seq<Json>)
    | Object(members: seq<Member>)

  /** `serial` is the insertion number kept in `object_key_t`. */
  datatype Member = Member(key: bytes, serial: nat, value: Json)

  /** A C string: no byte is zero. */
  predicate CString(s: bytes) {
    forall i :: 0 <= i < |s| ==> s[i] != 0
  }

  ghost predicate UniqueKeys(ms: seq<Member>) {
    forall i, j :: 0 <= i < j < |ms| ==> ms[i].key != ms[j].key
  }

  /** No real anywhere, and no key twice in an object. */
  ghost predicate Proper(v: Json) {
    match v
    case Real(_) => false
    case Array(elems) => forall i :: 0 <= i < |elems| ==> Proper(elems[i])
    case Object(members) => UniqueKeys(members) && forall i :: 0 <= i < |members| ==> Proper(members[i].value)
    case _ => true
  }

  // ---------------------------------------------------------------- equality

  /** `json_object_get`: the position of a key. */
  function Find(ms: seq<Member>, key: bytes): (i: nat)
    ensures i <= |ms|
    ensures i < |ms| ==> ms[i].key == key
    ensures forall j :: 0 <= j < i ==> ms[j].key != key
  {
    if ms == [] then 0 else if ms[0].key == key then 0 else 1 + Find(ms[1..], key)
  }

  /** `json_equal` on trees. */
  ghost predicate Equal(v: Json, w: Json)
    decreases v, 0
  {
    match v
    case Null => w == Null
    case True => w == True
    case False => w == False
    case Integer(n) => w == Integer(n)
    case Real(text) => w == Real(text)
    case String(s) => w == String(s)
    case Array(elems) => w.Array? && |elems| == |w.elems| && forall i :: 0 <= i < |elems| ==> Equal(elems[i], w.elems[i])
    case Object(members) => w.Object? && |members| == |w.members| && forall i :: 0 <= i < |members| ==> EqualAt(members[i].key, members[i].value, w.members)
  }

  /** The value under `key` in `ms` exists and equals `v`. */
  ghost predicate EqualAt(key: bytes, v: Json, ms: seq<Member>)
    decreases v, 1
  {
    Find(ms, key) < |ms| && Equal(v, ms[Find(ms, key)].value)
  }

  lemma FindUnique(ms: seq<Member>, i: nat)
    requires UniqueKeys(ms) && i < |ms|
    ensures Find(ms, ms[i].key) == i
  {}

  lemma {:induction false} EqualReflexive(v: Json)
    requires Proper(v)
    ensures Equal(v, v)
  {
    match v
    case Array(elems) =>
      forall i | 0 <= i < |elems| ensures Equal(elems[i], elems[i]) {
        EqualReflexive(elems[i]);
      }
    case Object(members) =>
      forall i | 0 <= i < |members| ensures EqualAt(members[i].key, members[i].value, members) {
        FindUnique(members, i);
        EqualReflexive(members[i].value);
      }
    case _ =>
  }

  ghost function Keys(ms: seq<Member>): (keys: set<bytes>)
    ensures forall i :: 0 <= i < |ms| ==> ms[i].key in keys
    ensures forall k :: k in keys ==> Find(ms, k) < |ms|
  {
    if ms == [] then {} else {ms[0].key} + Keys(ms[1..])
  }

  lemma {:induction false} KeyCount(ms: seq<Member>)
    requires UniqueKeys(ms)
    ensures |Keys(ms)| == |ms|
  {
    if ms != [] {
      KeyCount(ms[1..]);
      forall k | k in Keys(ms[1..]) ensures k != ms[0].key {
        assert ms[1..][Find(ms[1..], k)].key == k;
      }
    }
  }

  /** Every key of `ms` is a key of `ns`. */
  ghost predicate KeysIn(ms: seq<Member>, ns: seq<Member>) {
    forall i :: 0 <= i < |ms| ==> Find(ns, ms[i].key) < |ns|
  }

  /** Objects of the same size where every key of the one is a key of the other have the same keys. */
  lemma SameKeys(ms: seq<Member>, ns: seq<Member>)
    requires UniqueKeys(ms) && UniqueKeys(ns) && |ms| == |ns| && KeysIn(ms, ns)
    ensures KeysIn(ns, ms)
  {
    KeyCount(ms);
    KeyCount(ns);
    forall k | k in Keys(ms) ensures k in Keys(ns) {
      assert ms[Find(ms, k)].key == k;
      assert ns[Find(ns, k)].key in Keys(ns);
    }
    assert Keys(ms) <= Keys(ns);
    assert |Keys(ns) - Keys(ms)| == 0;
    assert Keys(ns) <= Keys(ms);
  }

  lemma {:induction false} EqualSymmetric(v: Json, w: Json)
    requires Proper(v) && Proper(w) && Equal(v, w)
    ensures Equal(w, v)
    decreases v
  {
    match v
    case Array(elems) =>
      forall i | 0 <= i < |elems| ensures Equal(w.elems[i], elems[i]) {
        EqualSymmetric(elems[i], w.elems[i]);
      }
    case Object(ms) =>
      var ns := w.members;
      assert forall i :: 0 <= i < |ms| ==> EqualAt(ms[i].key, ms[i].value, ns);
      SameKeys(ms, ns);
      forall j | 0 <= j < |ns| ensures EqualAt(ns[j].key, ns[j].value, ms) {
        var i := Find(ms, ns[j].key);
        assert EqualAt(ms[i].key, ms[i].value, ns);
        FindUnique(ns, j);
        EqualSymmetric(ms[i].value, ns[j].value);
      }
    case _ =>
  }

  lemma {:induction false} EqualTransitive(v: Json, w: Json, x: Json)
    requires Equal(v, w) && Equal(w, x)
    ensures Equal(v, x)
    decreases v
  {
    match v
    case Array(elems) =>
      forall i | 0 <= i < |elems| ensures Equal(elems[i], x.elems[i]) {
        EqualTransitive(elems[i], w.elems[i], x.elems[i]);
      }
    case Object(ms) =>
      forall i | 0 <= i < |ms| ensures EqualAt(ms[i].key, ms[i].value, x.members) {
        assert EqualAt(ms[i].key, ms[i].value, w.members);
        var j := Find(w.members, ms[i].key);
        assert EqualAt(w.members[j].key, w.members[j].value, x.members);
        EqualTransitive(ms[i].value, w.members[j].value, x.members[Find(x.members, ms[i].key)].value);
      }
    case _ =>
  }
}
