/** The order in which `do_dump` visits the members of an object (libjansson/dump.c), as a transformation
    of the tree: JSON_SORT_KEYS and JSON_PRESERVE_ORDER put the members of every object in order. */
module Arrange {
  import opened Utf8
  import opened Values

  // ---------------------------------------------------------------- flags

  /** `JSON_INDENT` and the flag bits of jansson.h. */
  function Indent(flags: nat): (n: nat)
    ensures n < 32
  {
    flags % 32
  }

  predicate Compact(flags: nat) { flags / 0x20 % 2 == 1 }

  predicate EnsureAscii(flags: nat) { flags / 0x40 % 2 == 1 }

  predicate SortKeys(flags: nat) { flags / 0x80 % 2 == 1 }

  predicate PreserveOrder(flags: nat) { flags / 0x100 % 2 == 1 }

  predicate EncodeAny(flags: nat) { flags / 0x200 % 2 == 1 }

  // ---------------------------------------------------------------- comparing

  datatype KeyOrder = ByKey | BySerial

  /** `strcmp(a, b) < 0`: bytes compare as unsigned. */
  predicate StrLess(a: bytes, b: bytes) {
    b != [] && (a == [] || a[0] < b[0] || (a[0] == b[0] && StrLess(a[1..], b[1..])))
  }

  /** `object_key_compare_serials`: the difference of two size_t values, truncated to a 32-bit int. */
  function SerialCompare(a: nat, b: nat): (c: int)
    ensures -0x8000_0000 <= c < 0x8000_0000
  {
    var d := (a - b) % 0x1_0000_0000;
    if d < 0x8000_0000 then d else d - 0x1_0000_0000
  }

  /** The truncated comparison is the true difference exactly while that fits an int; for serials less than 2^32 apart
      it has the right sign exactly then, and farther apart it may have it by chance. */
  lemma SerialCompareSign(a: nat, b: nat)
    ensures (SerialCompare(a, b) == a - b) <==> -0x8000_0000 <= a - b < 0x8000_0000
    ensures -0x1_0000_0000 < a - b < 0x1_0000_0000 ==>
              ((SerialCompare(a, b) < 0 <==> a < b) <==> -0x8000_0000 <= a - b < 0x8000_0000)
  {
    var d := (a - b) % 0x1_0000_0000;
    assert (a - b - d) % 0x1_0000_0000 == 0;
  }

  predicate Precedes(cmp: KeyOrder, a: Member, b: Member) {
    match cmp
    case ByKey => StrLess(a.key, b.key)
    case BySerial => SerialCompare(a.serial, b.serial) < 0
  }

  lemma {:induction false} StrLessTotal(a: bytes, b: bytes)
    ensures a == b ==> !StrLess(a, b)
    ensures a != b ==> (StrLess(a, b) <==> !StrLess(b, a))
  {
    if a != [] && b != [] {
      StrLessTotal(a[1..], b[1..]);
      assert a == [a[0]] + a[1..] && b == [b[0]] + b[1..];
    }
  }

  /** `a` and `b` agree on their first `k` bytes, and then `a` ends or has the smaller byte. */
  predicate LessAt(a: bytes, b: bytes, k: nat) {
    k <= |a| && k < |b| && a[..k] == b[..k] && (k == |a| || a[k] < b[k])
  }

  /** The order of strings by their bytes. */
  ghost predicate Lexicographic(a: bytes, b: bytes) {
    exists k: nat :: LessAt(a, b, k)
  }

  lemma LessAtHead(a: bytes, b: bytes, k: nat)
    requires LessAt(a, b, k)
    ensures b != [] && (a == [] || if k == 0 then a[0] < b[0] else a[0] == b[0])
  {
    if k > 0 {
      assert a[0] == a[..k][0] && b[0] == b[..k][0];
    }
  }

  /** `strcmp` decides the order by bytes. */
  lemma {:induction false} StrLessIff(a: bytes, b: bytes)
    ensures StrLess(a, b) <==> Lexicographic(a, b)
  {
    if a != [] && b != [] && a[0] == b[0] {
      StrLessIff(a[1..], b[1..]);
      if k: nat :| LessAt(a[1..], b[1..], k) {
        assert a[..k + 1] == [a[0]] + a[1..][..k] && b[..k + 1] == [b[0]] + b[1..][..k];
        assert LessAt(a, b, k + 1);
      }
      if k: nat :| LessAt(a, b, k) {
        assert k > 0 && a[1..][..k - 1] == a[..k][1..] && b[1..][..k - 1] == b[..k][1..];
        assert LessAt(a[1..], b[1..], k - 1);
      }
    } else {
      if StrLess(a, b) {
        assert LessAt(a, b, 0);
      }
      if k: nat :| LessAt(a, b, k) {
        LessAtHead(a, b, k);
      }
    }
  }

  lemma {:induction false} StrLessTransitive(a: bytes, b: bytes, c: bytes)
    requires StrLess(a, b) && StrLess(b, c)
    ensures StrLess(a, c)
  {
    if a != [] && a[0] == b[0] && b[0] == c[0] {
      StrLessTransitive(a[1..], b[1..], c[1..]);
    }
  }

  /** Keys, or serials that the comparison tells apart, all different: sorting has one outcome. */
  ghost predicate Orderable(cmp: KeyOrder, ms: seq<Member>) {
    match cmp
    case ByKey => UniqueKeys(ms)
    case BySerial =>
      forall i, j :: 0 <= i < j < |ms| ==> ms[i].serial != ms[j].serial && Near(ms[i].serial, ms[j].serial)
  }

  /** The difference of the serials fits an int, either way round. */
  predicate Near(a: nat, b: nat) {
    -0x8000_0000 < a - b < 0x8000_0000
  }

  /** The serials of any two members are near. */
  ghost predicate AllNear(ms: seq<Member>) {
    forall x, y :: x in ms && y in ms ==> Near(x.serial, y.serial)
  }

  lemma OrderableNear(ms: seq<Member>)
    requires Orderable(BySerial, ms)
    ensures AllNear(ms)
  {
    forall x, y | x in ms && y in ms ensures Near(x.serial, y.serial) {
      var i :| 0 <= i < |ms| && ms[i] == x;
      var j :| 0 <= j < |ms| && ms[j] == y;
      if i > j {
        assert Near(ms[j].serial, ms[i].serial);
      }
    }
  }

  /** Serials 2^31 apart each come before the other: the comparison contradicts itself, and C leaves open what `qsort` does. */
  lemma FarApart(a: Member, b: Member)
    requires b.serial == a.serial + 0x8000_0000
    ensures Precedes(BySerial, a, b) && Precedes(BySerial, b, a) && !Orderable(BySerial, [a, b])
  {
    assert [a, b][0] == a && [a, b][1] == b && !Near(a.serial, b.serial);
  }

  /** The members `a` and `b` are told apart by the comparison, and the same way round from both sides. */
  ghost predicate Comparable(cmp: KeyOrder, a: Member, b: Member) {
    match cmp
    case ByKey => a.key != b.key
    case BySerial => a.serial != b.serial && Near(a.serial, b.serial)
  }

  lemma PrecedesTotal(cmp: KeyOrder, a: Member, b: Member)
    requires Comparable(cmp, a, b)
    ensures Precedes(cmp, a, b) <==> !Precedes(cmp, b, a)
  {
    StrLessTotal(a.key, b.key);
  }

  lemma PrecedesTransitive(cmp: KeyOrder, a: Member, b: Member, c: Member)
    requires Precedes(cmp, a, b) && Precedes(cmp, b, c)
    requires cmp == BySerial ==> Near(a.serial, b.serial) && Near(b.serial, c.serial) && Near(a.serial, c.serial)
    ensures Precedes(cmp, a, c)
  {
    if cmp == ByKey {
      StrLessTransitive(a.key, b.key, c.key);
    }
  }

  ghost predicate Sorted(cmp: KeyOrder, ms: seq<Member>) {
    forall i, j :: 0 <= i < j < |ms| ==> Precedes(cmp, ms[i], ms[j])
  }

  // ---------------------------------------------------------------- sorting

  /** `ms` with `m` put before the first member it precedes. */
  function InsertMember(cmp: KeyOrder, m: Member, ms: seq<Member>): (r: seq<Member>)
    ensures |r| == |ms| + 1
    ensures forall x :: x in r <==> x == m || x in ms
  {
    if ms == [] then [m]
    else if Precedes(cmp, m, ms[0]) then [m] + ms
    else
      assert ms == [ms[0]] + ms[1..];
      [ms[0]] + InsertMember(cmp, m, ms[1..])
  }

  /** The outcome of `qsort`. */
  function SortMembers(cmp: KeyOrder, ms: seq<Member>): (r: seq<Member>)
    ensures |r| == |ms|
    ensures forall x :: x in r <==> x in ms
  {
    if ms == [] then [] else
      assert ms == [ms[0]] + ms[1..];
      InsertMember(cmp, ms[0], SortMembers(cmp, ms[1..]))
  }

  lemma {:induction false} InsertSorted(cmp: KeyOrder, m: Member, ms: seq<Member>)
    requires Sorted(cmp, ms) && (cmp == BySerial ==> AllNear(ms)) && forall x :: x in ms ==> Comparable(cmp, m, x)
    ensures Sorted(cmp, InsertMember(cmp, m, ms))
  {
    if ms != [] {
      assert ms[0] in ms;
      PrecedesTotal(cmp, m, ms[0]);
      if Precedes(cmp, m, ms[0]) {
        forall i | 0 <= i < |ms| ensures Precedes(cmp, m, ms[i]) {
          assert ms[i] in ms;
          if i > 0 {
            PrecedesTransitive(cmp, m, ms[0], ms[i]);
          }
        }
      } else {
        InsertSorted(cmp, m, ms[1..]);
        var r := InsertMember(cmp, m, ms[1..]);
        forall i | 0 <= i < |r| ensures Precedes(cmp, ms[0], r[i]) {
          assert r[i] in r;
          if r[i] != m {
            var k :| 0 <= k < |ms[1..]| && ms[1..][k] == r[i];
            assert ms[k + 1] == r[i];
          }
        }
      }
    }
  }

  lemma {:induction false} SortSorts(cmp: KeyOrder, ms: seq<Member>)
    requires Orderable(cmp, ms)
    ensures Sorted(cmp, SortMembers(cmp, ms))
  {
    if ms != [] {
      SortSorts(cmp, ms[1..]);
      forall x | x in SortMembers(cmp, ms[1..]) ensures Comparable(cmp, ms[0], x) {
        var k :| 0 <= k < |ms[1..]| && ms[1..][k] == x;
        assert ms[k + 1] == x;
      }
      if cmp == BySerial {
        OrderableNear(ms[1..]);
      }
      InsertSorted(cmp, ms[0], SortMembers(cmp, ms[1..]));
    }
  }

  lemma {:induction false} InsertKeepsUnique(cmp: KeyOrder, m: Member, ms: seq<Member>)
    requires UniqueKeys(ms) && forall x :: x in ms ==> x.key != m.key
    ensures UniqueKeys(InsertMember(cmp, m, ms))
  {
    if ms != [] && !Precedes(cmp, m, ms[0]) {
      InsertKeepsUnique(cmp, m, ms[1..]);
      var r := InsertMember(cmp, m, ms[1..]);
      assert ms[0] in ms;
      forall i | 0 <= i < |r| ensures r[i].key != ms[0].key {
        assert r[i] in r;
      }
    }
  }

  /** Whatever the comparison says, sorting loses and duplicates no key. */
  lemma {:induction false} SortKeepsUnique(cmp: KeyOrder, ms: seq<Member>)
    requires UniqueKeys(ms)
    ensures UniqueKeys(SortMembers(cmp, ms))
  {
    if ms != [] {
      SortKeepsUnique(cmp, ms[1..]);
      InsertKeepsUnique(cmp, ms[0], SortMembers(cmp, ms[1..]));
    }
  }

  /** Two sorted lists with the same keys list them in the same order. */
  lemma {:induction false} SortedSameKeys(ms: seq<Member>, ns: seq<Member>)
    requires Sorted(ByKey, ms) && Sorted(ByKey, ns) && |ms| == |ns|
    requires KeysIn(ms, ns) && KeysIn(ns, ms)
    ensures forall i :: 0 <= i < |ms| ==> ms[i].key == ns[i].key
  {
    hide KeysIn;
    if ms != [] {
      SortedHead(ms, ns);
      SortedTail(ms, ns);
      SortedTail(ns, ms);
      SortedSameKeys(ms[1..], ns[1..]);
    }
  }

  lemma SortedHead(ms: seq<Member>, ns: seq<Member>)
    requires Sorted(ByKey, ms) && Sorted(ByKey, ns) && ms != [] && ns != []
    requires KeysIn(ms, ns) && KeysIn(ns, ms)
    ensures ms[0].key == ns[0].key
  {
    hide KeysIn;
    var i := KeyAt(ms, ns, 0);
    var j := KeyAt(ns, ms, 0);
    StrLessTotal(ms[0].key, ns[0].key);
    assert i == 0 || Precedes(ByKey, ns[0], ns[i]);
    assert j == 0 || Precedes(ByKey, ms[0], ms[j]);
  }

  lemma KeyAt(ms: seq<Member>, ns: seq<Member>, i: nat) returns (j: nat)
    requires KeysIn(ms, ns) && i < |ms|
    ensures j < |ns| && ns[j].key == ms[i].key
  {
    j := Find(ns, ms[i].key);
  }

  lemma SortedTail(ms: seq<Member>, ns: seq<Member>)
    requires Sorted(ByKey, ms) && ms != [] && ns != [] && ms[0].key == ns[0].key && KeysIn(ms, ns)
    ensures KeysIn(ms[1..], ns[1..])
  {
    forall i | 0 <= i < |ms[1..]| ensures Find(ns[1..], ms[1..][i].key) < |ns[1..]| {
      assert Precedes(ByKey, ms[0], ms[i + 1]);
      StrLessTotal(ms[0].key, ms[i + 1].key);
      var k := KeyAt(ms, ns, i + 1);
      assert ns[k] == ns[1..][k - 1];
    }
  }

  // ---------------------------------------------------------------- arranging

  /** How the members of one object are ordered: JSON_SORT_KEYS wins over JSON_PRESERVE_ORDER. */
  function Ordered(flags: nat, ms: seq<Member>): (r: seq<Member>)
    ensures |r| == |ms|
    ensures forall x :: x in r <==> x in ms
  {
    if SortKeys(flags) then SortMembers(ByKey, ms)
    else if PreserveOrder(flags) then SortMembers(BySerial, ms)
    else ms
  }

  function Arranged(v: Json, flags: nat): (r: Json)
    decreases v
  {
    match v
    case Array(elems) => Array(ArrangedElems(elems, flags))
    case Object(members) => Object(Ordered(flags, ArrangedMembers(members, flags)))
    case _ => v
  }

  function ArrangedElems(es: seq<Json>, flags: nat): (r: seq<Json>)
    ensures |r| == |es|
    ensures forall i :: 0 <= i < |es| ==> r[i] == Arranged(es[i], flags)
    decreases es
  {
    if es == [] then [] else [Arranged(es[0], flags)] + ArrangedElems(es[1..], flags)
  }

  function ArrangedMembers(ms: seq<Member>, flags: nat): (r: seq<Member>)
    ensures |r| == |ms|
    ensures forall i :: 0 <= i < |ms| ==> r[i] == Member(ms[i].key, ms[i].serial, Arranged(ms[i].value, flags))
    decreases ms
  {
    if ms == [] then [] else
      [Member(ms[0].key, ms[0].serial, Arranged(ms[0].value, flags))] + ArrangedMembers(ms[1..], flags)
  }

  /** The serials of an object are different, and the difference of any two fits an int. */
  ghost predicate NearSerials(v: Json) {
    match v
    case Array(elems) => forall i :: 0 <= i < |elems| ==> NearSerials(elems[i])
    case Object(members) => Orderable(BySerial, members) && forall i :: 0 <= i < |members| ==> NearSerials(members[i].value)
    case _ => true
  }

  lemma OrderedKeepsUnique(flags: nat, ms: seq<Member>)
    requires UniqueKeys(ms)
    ensures UniqueKeys(Ordered(flags, ms))
  {
    if SortKeys(flags) {
      SortKeepsUnique(ByKey, ms);
    } else if PreserveOrder(flags) {
      SortKeepsUnique(BySerial, ms);
    }
  }

  /** Arranging changes the order of members and nothing else: the result is `json_equal` to the original. */
  lemma {:induction false} ArrangedEqual(v: Json, flags: nat)
    requires Proper(v)
    ensures Proper(Arranged(v, flags)) && Equal(v, Arranged(v, flags))
    decreases v
  {
    match v
    case Array(elems) =>
      forall i | 0 <= i < |elems| ensures Proper(Arranged(elems[i], flags)) && Equal(elems[i], Arranged(elems[i], flags)) {
        ArrangedEqual(elems[i], flags);
      }
    case Object(ms) =>
      var as_ := ArrangedMembers(ms, flags);
      var r := Ordered(flags, as_);
      OrderedKeepsUnique(flags, as_);
      forall i | 0 <= i < |r| ensures Proper(r[i].value) {
        assert r[i] in as_;
        var k :| 0 <= k < |as_| && as_[k] == r[i];
        ArrangedEqual(ms[k].value, flags);
      }
      forall i | 0 <= i < |ms| ensures EqualAt(ms[i].key, ms[i].value, r) {
        ArrangedEqual(ms[i].value, flags);
        assert as_[i] in r;
        var k :| 0 <= k < |r| && r[k] == as_[i];
        FindUnique(r, k);
      }
    case _ =>
  }

  // ---------------------------------------------------------------- canonical order

  /** Equal but for the serials. */
  ghost predicate Alike(v: Json, w: Json)
    decreases v
  {
    match v
    case Array(elems) => w.Array? && |elems| == |w.elems| && forall i :: 0 <= i < |elems| ==> Alike(elems[i], w.elems[i])
    case Object(ms) => w.Object? && |ms| == |w.members| &&
      forall i :: 0 <= i < |ms| ==> ms[i].key == w.members[i].key && Alike(ms[i].value, w.members[i].value)
    case _ => v == w
  }

  /** JSON_SORT_KEYS makes `json_equal` values alike, whatever their insertion order and serials. */
  lemma {:induction false} SortedAlike(v: Json, w: Json, flags: nat)
    requires Proper(v) && Proper(w) && Equal(v, w) && SortKeys(flags)
    ensures Alike(Arranged(v, flags), Arranged(w, flags))
    decreases v
  {
    hide SortMembers;
    match v
    case Array(elems) =>
      forall i | 0 <= i < |elems| ensures Alike(Arranged(elems[i], flags), Arranged(w.elems[i], flags)) {
        SortedAlike(elems[i], w.elems[i], flags);
      }
    case Object(ms) =>
      SortedMembersAlike(ms, w.members, flags);
      var ps, qs := ArrangedMembers(ms, flags), ArrangedMembers(w.members, flags);
      var rs, ts := SortMembers(ByKey, ps), SortMembers(ByKey, qs);
      forall i | 0 <= i < |rs| ensures Alike(rs[i].value, ts[i].value) {
        var k := SourceOf(ms, rs[i], flags);
        var l := SourceOf(w.members, ts[i], flags);
        assert EqualAt(ms[k].key, ms[k].value, w.members);
        FindUnique(w.members, l);
        SortedAlike(ms[k].value, w.members[l].value, flags);
      }
      assert Arranged(v, flags) == Object(rs) && Arranged(w, flags) == Object(ts);
    case _ =>
  }

  /** The member that a sorted and arranged member comes from. */
  lemma SourceOf(ms: seq<Member>, r: Member, flags: nat) returns (k: nat)
    requires r in SortMembers(ByKey, ArrangedMembers(ms, flags))
    ensures k < |ms| && r == Member(ms[k].key, ms[k].serial, Arranged(ms[k].value, flags))
  {
    var ps := ArrangedMembers(ms, flags);
    k :| 0 <= k < |ps| && ps[k] == r;
  }

  /** Objects with the same keys list them in the same order once sorted. */
  lemma SortedMembersAlike(ms: seq<Member>, ns: seq<Member>, flags: nat)
    requires UniqueKeys(ms) && UniqueKeys(ns) && |ms| == |ns|
    requires forall i :: 0 <= i < |ms| ==> EqualAt(ms[i].key, ms[i].value, ns)
    ensures var rs, ts := SortMembers(ByKey, ArrangedMembers(ms, flags)), SortMembers(ByKey, ArrangedMembers(ns, flags));
            forall i :: 0 <= i < |rs| ==> rs[i].key == ts[i].key
  {
    hide Equal, EqualAt, KeysIn;
    var ps, qs := ArrangedMembers(ms, flags), ArrangedMembers(ns, flags);
    EqualKeysIn(ms, ns);
    SameKeys(ms, ns);
    SortSorts(ByKey, ps);
    SortSorts(ByKey, qs);
    SortKeysIn(ms, ns, flags);
    SortKeysIn(ns, ms, flags);
    SortedSameKeys(SortMembers(ByKey, ps), SortMembers(ByKey, qs));
  }

  lemma EqualKeysIn(ms: seq<Member>, ns: seq<Member>)
    requires forall i :: 0 <= i < |ms| ==> EqualAt(ms[i].key, ms[i].value, ns)
    ensures KeysIn(ms, ns)
  {}

  lemma SortKeysIn(ms: seq<Member>, ns: seq<Member>, flags: nat)
    requires KeysIn(ms, ns)
    ensures KeysIn(SortMembers(ByKey, ArrangedMembers(ms, flags)), SortMembers(ByKey, ArrangedMembers(ns, flags)))
  {
    var qs := ArrangedMembers(ns, flags);
    var rs, ts := SortMembers(ByKey, ArrangedMembers(ms, flags)), SortMembers(ByKey, qs);
    forall i | 0 <= i < |rs| ensures Find(ts, rs[i].key) < |ts| {
      var k := SourceOf(ms, rs[i], flags);
      var l := KeyAt(ms, ns, k);
      assert qs[l] in ts;
      var j :| 0 <= j < |ts| && ts[j] == qs[l];
    }
  }
}
