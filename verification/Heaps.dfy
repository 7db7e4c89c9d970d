/** The value graph of libjansson/value.c with its reference counts. Memory is a map from addresses to
    cells, so that a freed cell is one that is no longer there; an address is never used twice. */
module Heaps {
  import opened Utf8
  import opened Values

  type Ref = nat

  const NULL: Ref := 0
  const SIZE_MAX: nat := 0xFFFF_FFFF_FFFF_FFFF

  /** A pair of the hash table of an object. */
  datatype Slot = Slot(key: bytes, serial: nat, ref: Ref)

  datatype Body =
    | NullData
    | TrueData
    | FalseData
    | IntegerData(n: int)
    | RealData(text: bytes)
    | StringData(s: bytes)
    | ArrayData(elems: seq<Ref>)
    | ObjectData(slots: seq<Slot>, serial: nat)

  datatype Cell = Cell(refcount: nat, visited: bool, body: Body)

  function RefsOf(slots: seq<Slot>): (r: seq<Ref>)
    ensures |r| == |slots| && forall i :: 0 <= i < |r| ==> r[i] == slots[i].ref
  {
    seq(|slots|, i requires 0 <= i < |slots| => slots[i].ref)
  }

  /** The table holds every key once, with a serial given out before. */
  ghost predicate TableOk(b: Body) {
    b.ObjectData? ==>
      && (forall i, j :: 0 <= i < j < |b.slots| ==> b.slots[i].key != b.slots[j].key && b.slots[i].serial != b.slots[j].serial)
      && (forall i :: 0 <= i < |b.slots| ==> b.slots[i].serial < b.serial)
  }

  ghost predicate Tables(mem: map<Ref, Cell>) {
    forall r :: r in mem ==> TableOk(mem[r].body)
  }

  /** `hashtable_find_pair`. */
  function FindSlot(slots: seq<Slot>, key: bytes): (i: nat)
    ensures i <= |slots|
    ensures i < |slots| ==> slots[i].key == key
    ensures forall j :: 0 <= j < i ==> slots[j].key != key
  {
    if slots == [] then 0 else if slots[0].key == key then 0 else 1 + FindSlot(slots[1..], key)
  }

  /** `after` lists the pairs of `slots` in some order: a rehash relinks all pairs. */
  ghost predicate Relinked(slots: seq<Slot>, after: seq<Slot>) {
    multiset(after) == multiset(slots)
  }

  lemma RelinkedSame(slots: seq<Slot>, after: seq<Slot>)
    requires Relinked(slots, after)
    ensures |after| == |slots| && forall x :: x in after <==> x in slots
  {
    assert |after| == |multiset(after)| && |slots| == |multiset(slots)|;
    forall x ensures x in after <==> x in slots {
      assert x in after <==> x in multiset(after);
      assert x in slots <==> x in multiset(slots);
    }
  }

  lemma CutMultiset<T>(s: seq<T>, j: nat)
    requires j < |s|
    ensures multiset(s) == multiset{s[j]} + multiset(s[..j] + s[j + 1..])
  {
    assert s == s[..j] + ([s[j]] + s[j + 1..]);
  }

  lemma SameBesides<T>(x: T, a: multiset<T>, b: multiset<T>)
    requires multiset{x} + a == multiset{x} + b
    ensures a == b
  {
    assert a == multiset{x} + a - multiset{x};
    assert b == multiset{x} + b - multiset{x};
  }

  lemma RelinkedHead(slots: seq<Slot>, after: seq<Slot>) returns (j: nat)
    requires Relinked(slots, after) && slots != []
    ensures j < |after| && after[j] == slots[0] && Relinked(slots[1..], after[..j] + after[j + 1..])
  {
    assert slots[0] in multiset(after);
    j :| 0 <= j < |after| && after[j] == slots[0];
    CutMultiset(slots, 0);
    CutMultiset(after, j);
    assert slots[..0] + slots[0 + 1..] == slots[1..];
    SameBesides(slots[0], multiset(slots[1..]), multiset(after[..j] + after[j + 1..]));
  }

  lemma {:induction false} RelinkedRefs(slots: seq<Slot>, after: seq<Slot>)
    requires Relinked(slots, after)
    ensures multiset(RefsOf(after)) == multiset(RefsOf(slots))
  {
    hide *;
    RelinkedSame(slots, after);
    if slots != [] {
      var j := RelinkedHead(slots, after);
      RelinkedRefs(slots[1..], after[..j] + after[j + 1..]);
      RefsOfHead(slots);
      RefsOfCut(after, j);
    }
  }

  lemma RefsOfHead(slots: seq<Slot>)
    requires slots != []
    ensures multiset(RefsOf(slots)) == multiset(RefsOf(slots[1..])) + multiset{slots[0].ref}
  {
    assert RefsOf(slots) == [slots[0].ref] + RefsOf(slots[1..]);
  }

  /** However the pairs are relinked, the table is as good as before. */
  lemma RelinkedTable(slots: seq<Slot>, after: seq<Slot>, serial: nat)
    requires Relinked(slots, after) && TableOk(ObjectData(slots, serial))
    ensures TableOk(ObjectData(after, serial))
  {
    RelinkedSame(slots, after);
    forall i, j | 0 <= i < j < |after| ensures after[i].key != after[j].key && after[i].serial != after[j].serial {
      var x, y := after[i], after[j];
      assert x in slots && y in slots;
      if x == y {
        Twice(after, i, j);
        Once(slots, serial, x);
      }
    }
    assert forall i :: 0 <= i < |after| ==> after[i] in slots;
  }

  lemma Twice(s: seq<Slot>, i: nat, j: nat)
    requires i < j < |s| && s[i] == s[j]
    ensures multiset(s)[s[i]] >= 2
  {
    assert s == s[..i] + [s[i]] + s[i + 1..j] + [s[j]] + s[j + 1..];
  }

  lemma Once(slots: seq<Slot>, serial: nat, x: Slot)
    requires TableOk(ObjectData(slots, serial)) && x in slots
    ensures multiset(slots)[x] == 1
  {
    var i :| 0 <= i < |slots| && slots[i] == x;
    assert x !in slots[..i] && x !in slots[i + 1..];
    assert slots == slots[..i] + [x] + slots[i + 1..];
  }

  lemma RefsOfSet(slots: seq<Slot>, i: nat, value: Ref)
    requires i < |slots|
    ensures RefsOf(slots)[i] == slots[i].ref && slots[i].ref in RefsOf(slots)
    ensures multiset(RefsOf(slots[i := slots[i].(ref := value)])) == multiset(RefsOf(slots)) - multiset{slots[i].ref} + multiset{value}
  {
    assert RefsOf(slots[i := slots[i].(ref := value)]) == RefsOf(slots)[i := value];
  }

  lemma RefsOfMore(slots: seq<Slot>, slot: Slot)
    ensures multiset(RefsOf(slots + [slot])) == multiset(RefsOf(slots)) + multiset{slot.ref}
  {
    assert RefsOf(slots + [slot]) == RefsOf(slots) + [slot.ref];
  }

  lemma RefsOfCut(slots: seq<Slot>, i: nat)
    requires i < |slots|
    ensures RefsOf(slots)[i] == slots[i].ref && slots[i].ref in RefsOf(slots)
    ensures multiset(RefsOf(slots)) == multiset(RefsOf(slots[..i] + slots[i + 1..])) + multiset{slots[i].ref}
  {
    var a, b := RefsOf(slots[..i]), RefsOf(slots[i + 1..]);
    assert RefsOf(slots) == a + [slots[i].ref] + b;
    assert RefsOf(slots[..i] + slots[i + 1..]) == a + b;
  }

  /** The pairs after setting a key: a known key keeps its pair and with it its serial, a new one gets a pair. */
  function Updated(slots: seq<Slot>, key: bytes, serial: nat, value: Ref): (r: seq<Slot>)
    ensures |r| == if FindSlot(slots, key) < |slots| then |slots| else |slots| + 1
  {
    var i := FindSlot(slots, key);
    if i < |slots| then slots[i := slots[i].(ref := value)] else slots + [Slot(key, serial, value)]
  }

  /** What setting a key does to a table: `hashtable_set` rehashes a full table before it looks for the key, so the pairs
      may be in another order afterwards even if the key is there. */
  ghost predicate SlotSet(body: Body, key: bytes, value: Ref, body': Body)
    requires body.ObjectData? && body'.ObjectData?
  {
    body'.serial == body.serial + 1 && Relinked(Updated(body.slots, key, body.serial, value), body'.slots)
  }

  lemma SlotSetTableOk(body: Body, key: bytes, value: Ref, body': Body)
    requires body.ObjectData? && body'.ObjectData? && TableOk(body) && SlotSet(body, key, value, body')
    ensures TableOk(body')
  {
    hide TableOk, Updated;
    var s := Updated(body.slots, key, body.serial, value);
    UpdatedTable(body.slots, key, body.serial, value);
    RelinkedTable(s, body'.slots, body'.serial);
  }

  lemma UpdatedTable(slots: seq<Slot>, key: bytes, serial: nat, value: Ref)
    requires TableOk(ObjectData(slots, serial))
    ensures TableOk(ObjectData(Updated(slots, key, serial, value), serial + 1))
  {
    var s := Updated(slots, key, serial, value);
    assert FindSlot(slots, key) == |slots| ==> forall j :: 0 <= j < |slots| ==> s[j] == slots[j];
  }

  /** In a table that is listed in another order the same pair is found. */
  lemma FoundRelinked(slots: seq<Slot>, after: seq<Slot>, serial: nat, key: bytes)
    requires Relinked(slots, after) && TableOk(ObjectData(slots, serial))
    ensures var i, j := FindSlot(slots, key), FindSlot(after, key);
            (i < |slots| <==> j < |after|) && (i < |slots| ==> slots[i] == after[j])
  {
    hide Relinked;
    RelinkedSame(slots, after);
    var i, j := FindSlot(slots, key), FindSlot(after, key);
    if i < |slots| {
      assert slots[i] in after;
      var k :| 0 <= k < |after| && after[k] == slots[i];
    }
    if j < |after| {
      assert after[j] in slots;
      var k :| 0 <= k < |slots| && slots[k] == after[j];
    }
  }

  /** Setting a key before and after a rehash gives the same pairs. */
  lemma UpdatedRelinked(slots: seq<Slot>, after: seq<Slot>, serial: nat, key: bytes, value: Ref)
    requires Relinked(slots, after) && TableOk(ObjectData(slots, serial))
    ensures Relinked(Updated(slots, key, serial, value), Updated(after, key, serial, value))
  {
    FoundRelinked(slots, after, serial, key);
    var i, j := FindSlot(slots, key), FindSlot(after, key);
    if i < |slots| {
      var x := slots[i].(ref := value);
      assert multiset(slots[i := x]) == multiset(slots) - multiset{slots[i]} + multiset{x};
      assert multiset(after[j := x]) == multiset(after) - multiset{after[j]} + multiset{x};
    }
  }

  /** What a rehash does to the order of the pairs depends on their hashes: callers are proved for any order, whatever
      this body does. */
  method Relink(slots: seq<Slot>) returns (after: seq<Slot>)
    ensures Relinked(slots, after)
  {
    after := slots;
  }

  /** The pointers a container holds. */
  function Children(b: Body): (r: seq<Ref>) {
    match b
    case ArrayData(elems) => elems
    case ObjectData(slots, _) => RefsOf(slots)
    case _ => []
  }

  // ---------------------------------------------------------------- counting

  /** All references owned by the cells below address `n`. */
  ghost function Sum(owned: map<Ref, multiset<Ref>>, n: nat): (m: multiset<Ref>) {
    if n == 0 then multiset{} else Sum(owned, n - 1) + if n - 1 in owned then owned[n - 1] else multiset{}
  }

  ghost function At(owned: map<Ref, multiset<Ref>>, r: Ref): multiset<Ref> {
    if r in owned then owned[r] else multiset{}
  }

  lemma SumStep(owned: map<Ref, multiset<Ref>>, n: nat)
    ensures Sum(owned, n) == if n == 0 then multiset{} else Sum(owned, n - 1) + At(owned, n - 1)
  {}

  /** Maps that differ at one address only have sums that differ by what stands there. */
  lemma {:induction false} SumDiffers(a: map<Ref, multiset<Ref>>, b: map<Ref, multiset<Ref>>, r: Ref, n: nat)
    requires forall p :: p != r ==> At(a, p) == At(b, p)
    ensures r < n ==> Sum(b, n) + At(a, r) == Sum(a, n) + At(b, r)
    ensures r >= n ==> Sum(b, n) == Sum(a, n)
  {
    hide Sum, At;
    SumStep(a, n);
    SumStep(b, n);
    if n > 0 {
      SumDiffers(a, b, r, n - 1);
      if r < n - 1 {
        AddBoth(Sum(b, n - 1), Sum(a, n - 1), At(a, r), At(b, r), At(a, n - 1));
      } else if r == n - 1 {
        Swap(Sum(a, n - 1), At(b, r), At(a, r));
      } else {
        assert At(a, n - 1) == At(b, n - 1);
      }
    }
  }

  lemma AddBoth(x: multiset<Ref>, y: multiset<Ref>, p: multiset<Ref>, q: multiset<Ref>, c: multiset<Ref>)
    requires x + p == y + q
    ensures x + c + p == y + c + q
  {
    assert x + c + p == x + p + c;
    assert y + c + q == y + q + c;
  }

  lemma Swap(x: multiset<Ref>, p: multiset<Ref>, q: multiset<Ref>)
    ensures x + p + q == x + q + p
  {}

  /** Every count is exact, unless it is stuck at SIZE_MAX, and what is referred to is there. */
  ghost predicate Counts(mem: map<Ref, Cell>, refs: multiset<Ref>) {
    && NULL !in mem
    && (forall r :: r in mem ==> mem[r].refcount == SIZE_MAX || mem[r].refcount == refs[r])
    && (forall r :: r in refs ==> r in mem)
  }

  lemma CountUp(mem: map<Ref, Cell>, refs: multiset<Ref>, r: Ref)
    requires Counts(mem, refs) && r in mem
    ensures var c := mem[r];
            Counts(if c.refcount != SIZE_MAX then mem[r := c.(refcount := c.refcount + 1)] else mem, refs + multiset{r})
  {}

  lemma CountDown(mem: map<Ref, Cell>, refs: multiset<Ref>, r: Ref)
    requires Counts(mem, refs) && r in refs
    ensures r in mem && mem[r].refcount > 0
    ensures var c := mem[r];
            Counts(if c.refcount != SIZE_MAX then mem[r := c.(refcount := c.refcount - 1)] else mem, refs - multiset{r})
  {}

  lemma CountFree(mem: map<Ref, Cell>, refs: multiset<Ref>, r: Ref)
    requires Counts(mem, refs) && r in mem && mem[r].refcount == 0
    ensures Counts(mem - {r}, refs)
  {}

  // ---------------------------------------------------------------- releasing

  /** The cells that are not being deleted. */
  ghost function Alive(mem: map<Ref, Cell>): (s: set<Ref>) {
    set r | r in mem && mem[r].refcount > 0
  }

  /** The cells whose counts still change. */
  ghost function Live(mem: map<Ref, Cell>): (s: set<Ref>) {
    set r | r in mem && 0 < mem[r].refcount && mem[r].refcount != SIZE_MAX
  }

  /** What `json_decref` leaves of the memory, whoever holds what: a count of zero wraps around, and at zero the pointers
      of the cell are released in order before it is freed. */
  ghost function Cascade(mem: map<Ref, Cell>, r: Ref): (m: map<Ref, Cell>)
    ensures m.Keys <= mem.Keys && Live(m) <= Live(mem)
    decreases |Live(mem)|, 0, 0
  {
    if r !in mem || mem[r].refcount == SIZE_MAX then mem
    else
      var m := mem[r := mem[r].(refcount := if mem[r].refcount == 0 then SIZE_MAX else mem[r].refcount - 1)];
      if m[r].refcount != 0 then m
      else
        FewerLive(mem, r, m);
        CascadeAll(m, Children(m[r].body), 0) - {r}
  }

  /** The same for the pointers from the `i`th on. */
  ghost function CascadeAll(mem: map<Ref, Cell>, children: seq<Ref>, i: nat): (m: map<Ref, Cell>)
    requires i <= |children|
    ensures m.Keys <= mem.Keys && Live(m) <= Live(mem)
    decreases |Live(mem)|, 1, |children| - i
  {
    if i == |children| then mem
    else
      var m := Cascade(mem, children[i]);
      Smaller(Live(m), Live(mem));
      CascadeAll(m, children, i + 1)
  }

  lemma FewerLive(mem: map<Ref, Cell>, r: Ref, m: map<Ref, Cell>)
    requires r in mem && mem[r].refcount == 1 && m == mem[r := mem[r].(refcount := 0)]
    ensures |Live(m)| < |Live(mem)| && Live(m) <= Live(mem)
  {
    assert Live(m) == Live(mem) - {r};
  }

  /** The memory after `json_incref`. */
  ghost function Raised(mem: map<Ref, Cell>, r: Ref): map<Ref, Cell> {
    if r in mem && mem[r].refcount != SIZE_MAX then mem[r := mem[r].(refcount := mem[r].refcount + 1)] else mem
  }

  lemma RaisedIs(mem: map<Ref, Cell>, r: Ref)
    requires NULL !in mem && (r != NULL ==> r in mem)
    ensures Raised(mem, r) == if r != NULL && mem[r].refcount != SIZE_MAX then mem[r := mem[r].(refcount := mem[r].refcount + 1)] else mem
  {}

  /** The memory after a store into a cell. */
  ghost function Rewritten(mem: map<Ref, Cell>, r: Ref, body: Body): map<Ref, Cell> {
    if r in mem then mem[r := mem[r].(body := body)] else mem
  }

  lemma RewrittenIs(mem: map<Ref, Cell>, r: Ref, body: Body)
    requires r in mem
    ensures Rewritten(mem, r, body) == mem[r := mem[r].(body := body)]
  {}

  /** The cells of `kept` are there in the end, because the caller has a reference or because nothing frees them. */
  ghost predicate Lasts(kept: set<Ref>, handles: multiset<Ref>, after: map<Ref, Cell>) {
    forall p :: p in kept ==> p in handles || p in after
  }

  /** What is reached from within `scope` is within it. */
  ghost predicate Closed(owned: map<Ref, multiset<Ref>>, scope: set<Ref>) {
    forall p, x :: p in scope && p in owned && x in owned[p] ==> x in scope
  }

  /** The cells of `scope` own exactly what they point to, but for those that are kept. */
  ghost predicate Whole(mem: map<Ref, Cell>, owned: map<Ref, multiset<Ref>>, kept: set<Ref>, scope: set<Ref>) {
    forall p :: p in scope && p in mem && p in owned && mem[p].refcount > 0 && p !in kept ==> owned[p] == multiset(Children(mem[p].body))
  }

  /** What dropping a reference may change: cells of `scope` may go or be counted down, none is left at zero. */
  ghost predicate Released(mem: map<Ref, Cell>, owned: map<Ref, multiset<Ref>>, mem': map<Ref, Cell>, owned': map<Ref, multiset<Ref>>, scope: set<Ref>) {
    && (forall p :: p in mem' ==> p in mem && mem'[p].(refcount := 0) == mem[p].(refcount := 0))
    && (forall p :: p in mem' ==> (mem'[p].refcount == 0 <==> mem[p].refcount == 0))
    && (forall p :: p in mem && (p !in scope || mem[p].refcount == 0 || mem[p].refcount == SIZE_MAX) ==> p in mem' && mem'[p] == mem[p])
    && (forall p :: p in owned' ==> p in owned && owned'[p] == owned[p])
  }

  lemma ReleasedTransitive(m0: map<Ref, Cell>, o0: map<Ref, multiset<Ref>>, m1: map<Ref, Cell>, o1: map<Ref, multiset<Ref>>,
                           m2: map<Ref, Cell>, o2: map<Ref, multiset<Ref>>, scope: set<Ref>)
    requires Released(m0, o0, m1, o1, scope) && Released(m1, o1, m2, o2, scope)
    ensures Released(m0, o0, m2, o2, scope)
  {}

  lemma ReleasedKeeps(m0: map<Ref, Cell>, o0: map<Ref, multiset<Ref>>, m1: map<Ref, Cell>, o1: map<Ref, multiset<Ref>>,
                      kept: set<Ref>, scope: set<Ref>)
    requires Released(m0, o0, m1, o1, scope) && Closed(o0, scope) && Whole(m0, o0, kept, scope)
    ensures Closed(o1, scope) && Whole(m1, o1, kept, scope) && Alive(m1) <= Alive(m0) && |Alive(m1)| <= |Alive(m0)|
  {
    assert forall p :: p in m1 ==> m1[p].(refcount := 0).body == m0[p].(refcount := 0).body;
    Smaller(Alive(m1), Alive(m0));
  }

  /** No cell is at count zero, and every cell but `r` owns what it points to. */
  ghost predicate Complete(mem: map<Ref, Cell>, owned: map<Ref, multiset<Ref>>, r: Ref) {
    forall p :: p in mem ==> mem[p].refcount > 0 && p in owned && (p != r ==> owned[p] == multiset(Children(mem[p].body)))
  }

  lemma CompleteIsWhole(mem: map<Ref, Cell>, owned: map<Ref, multiset<Ref>>, r: Ref, kept: set<Ref>, scope: set<Ref>)
    requires Complete(mem, owned, r) && (r !in mem || r !in scope || r in kept)
    ensures Whole(mem, owned, kept, scope)
  {}

  lemma ReleasedComplete(m0: map<Ref, Cell>, o0: map<Ref, multiset<Ref>>, m1: map<Ref, Cell>, o1: map<Ref, multiset<Ref>>, scope: set<Ref>, r: Ref)
    requires Released(m0, o0, m1, o1, scope) && Complete(m0, o0, r) && m1.Keys == o1.Keys
    ensures Complete(m1, o1, r)
  {
    forall p | p in m1 ensures m1[p].body == m0[p].body && o1[p] == o0[p] {
      assert m1[p].(refcount := 0).body == m0[p].(refcount := 0).body;
      assert p in o1;
    }
  }

  lemma CompleteWritten(mem: map<Ref, Cell>, owned: map<Ref, multiset<Ref>>, r: Ref, body: Body, m: multiset<Ref>)
    requires Complete(mem, owned, r) && r in mem && m == multiset(Children(body))
    ensures Complete(mem[r := mem[r].(body := body)], owned[r := m], NULL)
  {}

  lemma CompleteAt(mem: map<Ref, Cell>, owned: map<Ref, multiset<Ref>>, r: Ref)
    requires Complete(mem, owned, NULL) && r in mem && NULL !in mem
    ensures Complete(mem, owned, r) && r in owned && owned[r] == multiset(Children(mem[r].body))
  {}

  /** What an operation on the container `r` leaves alone. */
  ghost predicate Elsewhere(m0: map<Ref, Cell>, m1: map<Ref, Cell>, r: Ref, scope: set<Ref>) {
    && (forall p :: p in m1 ==> p in m0 && m1[p].visited == m0[p].visited && (p != r ==> m1[p].body == m0[p].body))
    && (forall p :: p in m0 && p != r && (p !in scope || m0[p].refcount == SIZE_MAX) ==> p in m1 && m1[p] == m0[p])
    && r in m1 && r in m0
  }

  /** Only counts, and no count that is stuck, differ. */
  ghost predicate SameBodies(m0: map<Ref, Cell>, m1: map<Ref, Cell>) {
    m1.Keys == m0.Keys && forall p :: p in m1 ==>
      m1[p].body == m0[p].body && m1[p].visited == m0[p].visited && (m0[p].refcount == SIZE_MAX ==> m1[p] == m0[p])
  }

  lemma SameElsewhere(m0: map<Ref, Cell>, m1: map<Ref, Cell>, r: Ref, c: Cell)
    requires SameBodies(m0, m1) && r in m1 && c.visited == m1[r].visited
    ensures r in m0 && m1[r].body == m0[r].body
    ensures m1[r := c].Keys == m0.Keys && Elsewhere(m0, m1[r := c], r, m0.Keys)
  {}

  lemma SameBodiesStart(m: map<Ref, Cell>, base: multiset<Ref>, elems: seq<Ref>)
    ensures SameBodies(m, m) && base + multiset(elems[..0]) == base
  {}

  lemma SameBodiesStep(m0: map<Ref, Cell>, m1: map<Ref, Cell>, r: Ref, base: multiset<Ref>, elems: seq<Ref>, i: nat)
    requires SameBodies(m0, m1) && r in m1 && i < |elems| && r == elems[i]
    ensures SameBodies(m0, if m1[r].refcount != SIZE_MAX then m1[r := m1[r].(refcount := m1[r].refcount + 1)] else m1)
    ensures base + multiset(elems[..i + 1]) == base + multiset(elems[..i]) + multiset{r}
  {
    assert elems[..i + 1] == elems[..i] + [elems[i]];
  }

  lemma ElsewhereWrite(m0: map<Ref, Cell>, r: Ref, scope: set<Ref>, c: Cell)
    requires r in m0 && c.visited == m0[r].visited
    ensures Elsewhere(m0, m0[r := c], r, scope)
  {}

  lemma ElsewhereFrom(m0: map<Ref, Cell>, m1: map<Ref, Cell>, m2: map<Ref, Cell>, r: Ref, scope: set<Ref>, body: Body)
    requires Elsewhere(m1, m2, r, scope) && r in m0 && m1 == m0[r := m0[r].(body := body)]
    ensures Elsewhere(m0, m2, r, scope)
  {}

  lemma ReleasedElsewhere(m0: map<Ref, Cell>, o0: map<Ref, multiset<Ref>>, m1: map<Ref, Cell>, o1: map<Ref, multiset<Ref>>, scope: set<Ref>, r: Ref)
    requires Released(m0, o0, m1, o1, scope) && r in m1
    ensures Elsewhere(m0, m1, r, scope) && m1[r].body == m0[r].body
  {
    forall p | p in m1 ensures p in m0 && m1[p].body == m0[p].body && m1[p].visited == m0[p].visited {
      assert m1[p].(refcount := 0).body == m0[p].(refcount := 0).body;
      assert m1[p].(refcount := 0).visited == m0[p].(refcount := 0).visited;
    }
  }

  lemma ElsewhereWritten(m0: map<Ref, Cell>, m1: map<Ref, Cell>, r: Ref, scope: set<Ref>, c: Cell)
    requires Elsewhere(m0, m1, r, scope) && r in m1 && c.visited == m1[r].visited
    ensures Elsewhere(m0, m1[r := c], r, scope)
  {}

  lemma CompleteChildren(mem: map<Ref, Cell>, owned: map<Ref, multiset<Ref>>)
    requires Complete(mem, owned, NULL) && owned.Keys == mem.Keys
    ensures forall p, x :: p in mem && p != NULL && x in owned[p] ==> x in Children(mem[p].body)
  {}

  lemma CompleteNew(mem: map<Ref, Cell>, owned: map<Ref, multiset<Ref>>, r: Ref, c: Cell)
    requires Complete(mem, owned, NULL) && c.refcount > 0 && Children(c.body) == []
    ensures Complete(mem[r := c], owned[r := multiset{}], NULL)
  {}

  lemma CompleteCountUp(mem: map<Ref, Cell>, owned: map<Ref, multiset<Ref>>, r: Ref)
    requires r in mem
    ensures Complete(mem, owned, NULL) ==> Complete(mem[r := mem[r].(refcount := mem[r].refcount + 1)], owned, NULL)
  {}

  lemma CompleteBut(mem: map<Ref, Cell>, owned: map<Ref, multiset<Ref>>, r: Ref, m: multiset<Ref>)
    requires Complete(mem, owned, NULL) && NULL !in mem
    ensures Complete(mem, owned[r := m], r)
  {}

  lemma Smaller<T>(a: set<T>, b: set<T>)
    requires a <= b
    ensures |a| <= |b|
  {
    assert b == a + (b - a);
  }

  lemma FewerAlive(mem: map<Ref, Cell>, r: Ref, c: Cell)
    requires r in mem && mem[r].refcount > 0 && c.refcount == 0
    ensures |Alive(mem[r := c])| < |Alive(mem)|
  {
    assert Alive(mem[r := c]) == Alive(mem) - {r};
  }

  lemma {:induction false} SumAtLeast(owned: map<Ref, multiset<Ref>>, r: Ref, n: nat)
    requires r < n
    ensures At(owned, r) <= Sum(owned, n)
  {
    if r < n - 1 {
      SumAtLeast(owned, r, n - 1);
    }
  }

  /** References that a cell gives up become the caller's. */
  lemma Transfer(handles: multiset<Ref>, owned: map<Ref, multiset<Ref>>, r: Ref, m: multiset<Ref>, n: nat)
    requires r < n && r in owned && m <= owned[r]
    ensures handles + m + Sum(owned[r := owned[r] - m], n) == handles + Sum(owned, n)
  {
    var owned' := owned[r := owned[r] - m];
    SumDiffers(owned, owned', r, n);
    var a, b := Sum(owned, n), Sum(owned', n);
    forall x ensures (handles + m + b)[x] == (handles + a)[x] {
      assert (b + owned[r])[x] == (a + (owned[r] - m))[x];
      assert m[x] <= owned[r][x];
    }
  }

  lemma Deposit(handles: multiset<Ref>, owned: map<Ref, multiset<Ref>>, r: Ref, m: multiset<Ref>, n: nat)
    requires r < n && r in owned && m <= handles
    ensures handles - m + Sum(owned[r := owned[r] + m], n) == handles + Sum(owned, n)
  {
    var owned' := owned[r := owned[r] + m];
    assert owned'[r] - m == owned[r];
    assert owned'[r := owned'[r] - m] == owned;
    Transfer(handles - m, owned', r, m, n);
  }

  lemma CountNew(mem: map<Ref, Cell>, refs: multiset<Ref>, r: Ref, c: Cell)
    requires Counts(mem, refs) && r !in mem && r != NULL && c.refcount == 1
    ensures Counts(mem[r := c], refs + multiset{r})
  {
    assert r !in refs;
  }

  lemma SumNew(handles: multiset<Ref>, owned: map<Ref, multiset<Ref>>, n: nat)
    requires n !in owned
    ensures handles + multiset{n} + Sum(owned[n := multiset{}], n + 1) == handles + Sum(owned, n) + multiset{n}
  {
    SumDiffers(owned, owned[n := multiset{}], n, n);
    assert Sum(owned[n := multiset{}], n + 1) == Sum(owned, n) + multiset{};
  }

  /** A cell that owns nothing does not count. */
  lemma Forget(owned: map<Ref, multiset<Ref>>, r: Ref, n: nat)
    requires r in owned && owned[r] == multiset{}
    ensures Sum(owned - {r}, n) == Sum(owned, n)
  {
    SumDiffers(owned, owned - {r}, r, n);
  }

  lemma DropOne(handles: multiset<Ref>, sum: multiset<Ref>, r: Ref)
    requires r in handles
    ensures r in handles + sum && handles - multiset{r} + sum == handles + sum - multiset{r}
  {}

  lemma CountGiven(mem: map<Ref, Cell>, handles: multiset<Ref>, sum: multiset<Ref>, r: Ref)
    requires Counts(mem, handles + sum) && r in handles
    ensures r in mem && mem[r].refcount > 0
    ensures var c := mem[r];
            Counts(if c.refcount != SIZE_MAX then mem[r := c.(refcount := c.refcount - 1)] else mem, handles - multiset{r} + sum)
  {
    DropOne(handles, sum, r);
    CountDown(mem, handles + sum, r);
  }

  lemma CountZero(mem: map<Ref, Cell>, refs: multiset<Ref>, r: Ref)
    requires Counts(mem, refs) && r in mem && mem[r].refcount == 0
    ensures r !in refs
  {}

  lemma NotOwned(handles: multiset<Ref>, sum: multiset<Ref>, r: Ref)
    requires r !in handles + sum
    ensures r !in handles
  {}

  lemma WholeWithout(mem: map<Ref, Cell>, owned: map<Ref, multiset<Ref>>, kept: set<Ref>, scope: set<Ref>, r: Ref, c: Cell)
    requires Whole(mem, owned, kept, scope) && r in mem && c == mem[r].(refcount := 0)
    ensures Whole(mem[r := c], owned, kept, scope)
  {}

  lemma WholeAt(mem: map<Ref, Cell>, owned: map<Ref, multiset<Ref>>, kept: set<Ref>, scope: set<Ref>, r: Ref)
    requires Whole(mem, owned, kept, scope) && r in mem && r in owned && r in scope && r !in kept && mem[r].refcount > 0
    ensures owned[r] == multiset(Children(mem[r].body))
  {}

  lemma ReleasedNothing(mem: map<Ref, Cell>, owned: map<Ref, multiset<Ref>>, scope: set<Ref>)
    ensures Released(mem, owned, mem, owned, scope)
  {}

  lemma Emptied(owned: map<Ref, multiset<Ref>>, r: Ref, kept: set<Ref>, mem: map<Ref, Cell>, scope: set<Ref>)
    requires r in owned && r in mem && mem[r].refcount == 0
    requires Closed(owned, scope) && Whole(mem, owned, kept, scope)
    ensures var o := owned[r := owned[r] - owned[r]];
            o[r] == multiset{} && Closed(o, scope) && Whole(mem, o, kept, scope)
  {}

  /** The caller's references while the children from `i` on are still to be released. */
  ghost function Owing(base: multiset<Ref>, children: seq<Ref>, i: nat): multiset<Ref>
    requires i <= |children|
  {
    base + multiset(children[i..])
  }

  lemma OwingStart(base: multiset<Ref>, children: seq<Ref>)
    ensures Owing(base, children, 0) == base + multiset(children)
    ensures Owing(base, children, |children|) == base
  {
    assert children[0..] == children;
  }

  lemma OwingStep(base: multiset<Ref>, children: seq<Ref>, i: nat)
    requires i < |children|
    ensures children[i] in Owing(base, children, i)
    ensures children[i] in multiset(children)
    ensures Owing(base, children, i) - multiset{children[i]} == Owing(base, children, i + 1)
  {
    assert children[i..] == [children[i]] + children[i + 1..];
  }

  lemma NullIsFree(mem: map<Ref, Cell>, refs: multiset<Ref>)
    requires Counts(mem, refs)
    ensures NULL !in mem && NULL !in refs
  {}

  lemma NotNull(mem: map<Ref, Cell>, handles: multiset<Ref>, sum: multiset<Ref>, r: Ref)
    requires Counts(mem, handles + sum) && r in handles
    ensures r != NULL && r in mem
  {
    assert r in handles + sum;
  }

  lemma ChildrenInScope(owned: map<Ref, multiset<Ref>>, r: Ref, children: seq<Ref>, scope: set<Ref>)
    requires Closed(owned, scope) && r in owned && r in scope && owned[r] == multiset(children)
    ensures forall i :: 0 <= i < |children| ==> children[i] in scope
  {
    forall i | 0 <= i < |children| ensures children[i] in scope {
      assert children[i] in owned[r];
    }
  }

  lemma ClosedShrinks(owned: map<Ref, multiset<Ref>>, r: Ref, m: multiset<Ref>, scope: set<Ref>)
    requires Closed(owned, scope) && r in owned && m <= owned[r]
    ensures Closed(owned[r := m], scope)
  {
    assert forall x :: x in m ==> x in owned[r];
  }

  lemma ReleasedOwned(m0: map<Ref, Cell>, o0: map<Ref, multiset<Ref>>, m1: map<Ref, Cell>, o1: map<Ref, multiset<Ref>>, scope: set<Ref>, r: Ref)
    requires Released(m0, o0, m1, o1, scope) && r in o1
    ensures r in o0 && o1[r] == o0[r]
  {}

  lemma ChildrenThere(mem: map<Ref, Cell>, handles: multiset<Ref>, owned: map<Ref, multiset<Ref>>, next: nat, r: Ref)
    requires Counts(mem, handles + Sum(owned, next)) && Complete(mem, owned, NULL) && r in mem && r < next
    ensures forall i :: 0 <= i < |Children(mem[r].body)| ==> Children(mem[r].body)[i] in mem && Children(mem[r].body)[i] != NULL
  {
    forall i | 0 <= i < |Children(mem[r].body)| ensures Children(mem[r].body)[i] in mem {
      var x := Children(mem[r].body)[i];
      assert x in owned[r] && At(owned, r) == owned[r];
      SumAtLeast(owned, r, next);
      assert Sum(owned, next)[x] >= owned[r][x];
      assert x in handles + Sum(owned, next);
    }
  }

  lemma ReleasedZero(m0: map<Ref, Cell>, o0: map<Ref, multiset<Ref>>, m1: map<Ref, Cell>, o1: map<Ref, multiset<Ref>>, scope: set<Ref>, r: Ref)
    requires Released(m0, o0, m1, o1, scope) && r in m0 && m0[r].refcount == 0
    ensures r in m1 && m1[r] == m0[r] && (r in o1 ==> r in o0 && o1[r] == o0[r])
  {}

  /** A cell that no release within `scope` frees, as long as `kept` lasts. */
  ghost predicate Stays(mem: map<Ref, Cell>, r: Ref, kept: set<Ref>, scope: set<Ref>) {
    r in mem && (mem[r].refcount == 0 || r !in scope || r in kept)
  }

  lemma ReleasedStays(m0: map<Ref, Cell>, o0: map<Ref, multiset<Ref>>, m1: map<Ref, Cell>, o1: map<Ref, multiset<Ref>>,
                      handles: multiset<Ref>, sum: multiset<Ref>, kept: set<Ref>, scope: set<Ref>, r: Ref)
    requires Released(m0, o0, m1, o1, scope) && Stays(m0, r, kept, scope) && Counts(m1, handles + sum) && Lasts(kept, handles, m1)
    ensures Stays(m1, r, kept, scope) && m1[r].body == m0[r].body
  {
    assert r in kept && r in handles ==> r in handles + sum;
    assert r in m1 ==> m1[r].(refcount := 0).body == m0[r].(refcount := 0).body;
  }

  lemma StaysKept(mem: map<Ref, Cell>, r: Ref, kept: set<Ref>, scope: set<Ref>)
    requires r in mem && (r !in scope || r in kept)
    ensures Stays(mem, r, kept, scope)
  {}

  lemma OneOf(m: multiset<Ref>, base: multiset<Ref>, x: Ref)
    requires x in m
    ensures multiset{x} <= m && m - multiset{x} <= m && x in base + multiset{x} && base + multiset{x} - multiset{x} == base
  {}

  /** A cell that is kept can lend references of its own. */
  lemma Lent(mem: map<Ref, Cell>, owned: map<Ref, multiset<Ref>>, r: Ref, m: multiset<Ref>, kept: set<Ref>, scope: set<Ref>)
    requires Complete(mem, owned, NULL) && NULL !in mem && Closed(owned, scope) && r in mem && r in owned && m <= owned[r]
    requires r !in scope || r in kept
    ensures Complete(mem, owned[r := m], r) && Closed(owned[r := m], scope) && Whole(mem, owned[r := m], kept, scope)
    ensures Stays(mem, r, kept, scope)
  {
    hide *;
    CompleteBut(mem, owned, r, m);
    ClosedShrinks(owned, r, m, scope);
    CompleteIsWhole(mem, owned[r := m], r, kept, scope);
    StaysKept(mem, r, kept, scope);
  }

  /** The cell whose pointer was released, afterwards. */
  lemma ReleasedBeside(m0: map<Ref, Cell>, o0: map<Ref, multiset<Ref>>, m1: map<Ref, Cell>, o1: map<Ref, multiset<Ref>>,
                       handles: multiset<Ref>, sum: multiset<Ref>, kept: set<Ref>, scope: set<Ref>, r: Ref)
    requires Released(m0, o0, m1, o1, scope) && Complete(m0, o0, r) && m1.Keys == o1.Keys
    requires Stays(m0, r, kept, scope) && Counts(m1, handles + sum) && Lasts(kept, handles, m1)
    ensures Complete(m1, o1, r) && r in m1 && Elsewhere(m0, m1, r, scope) && m1[r].body == m0[r].body
    ensures r in o0 && r in o1 && o1[r] == o0[r]
  {
    hide *;
    ReleasedComplete(m0, o0, m1, o1, scope, r);
    ReleasedStays(m0, o0, m1, o1, handles, sum, kept, scope, r);
    StaysHere(m1, r, kept, scope);
    ReleasedOwned(m0, o0, m1, o1, scope, r);
    ReleasedElsewhere(m0, o0, m1, o1, scope, r);
  }

  lemma StaysHere(mem: map<Ref, Cell>, r: Ref, kept: set<Ref>, scope: set<Ref>)
    requires Stays(mem, r, kept, scope)
    ensures r in mem
  {}

  lemma OwnedSame(owned: map<Ref, multiset<Ref>>, r: Ref)
    requires r in owned
    ensures owned[r := owned[r]] == owned
  {}

  /** What lasts until all is released lasts until the next pointer is. */
  lemma LastsStep(kept: set<Ref>, base: multiset<Ref>, mem: map<Ref, Cell>, children: seq<Ref>, i: nat)
    requires i < |children| && Lasts(kept, base, CascadeAll(mem, children, i))
    ensures Lasts(kept, Owing(base, children, i + 1), Cascade(mem, children[i]))
    ensures CascadeAll(mem, children, i) == CascadeAll(Cascade(mem, children[i]), children, i + 1)
  {
    hide Cascade;
    assert CascadeAll(mem, children, i) == CascadeAll(Cascade(mem, children[i]), children, i + 1);
  }

  lemma CascadeNone(mem: map<Ref, Cell>, children: seq<Ref>)
    ensures CascadeAll(mem, children, |children|) == mem
  {}

  lemma CascadeStuck(mem: map<Ref, Cell>, r: Ref)
    requires r !in mem || mem[r].refcount == SIZE_MAX
    ensures Cascade(mem, r) == mem
  {}

  lemma CascadeCount(mem: map<Ref, Cell>, r: Ref, c: Cell)
    requires r in mem && 0 < mem[r].refcount != SIZE_MAX && c == mem[r].(refcount := mem[r].refcount - 1)
    ensures Cascade(mem, r) == if c.refcount == 0 then CascadeAll(mem[r := c], Children(c.body), 0) - {r} else mem[r := c]
  {}

  /** Once the count of `r` is zero, nobody holds it, it is not one of those that last, and it owns what it points to: so
      it can be deleted. */
  lemma AtZero(mem: map<Ref, Cell>, c: Cell, owned: map<Ref, multiset<Ref>>, handles: multiset<Ref>, sum: multiset<Ref>,
               kept: set<Ref>, scope: set<Ref>, r: Ref)
    requires r in mem && r in owned && r in scope && mem[r].refcount == 1 && c == mem[r].(refcount := 0)
    requires Whole(mem, owned, kept, scope) && Counts(mem[r := c], handles + sum) && Lasts(kept, handles, Cascade(mem, r))
    ensures Whole(mem[r := c], owned, kept, scope) && owned[r] == multiset(Children(c.body))
    ensures Lasts(kept, handles, CascadeAll(mem[r := c], Children(c.body), 0))
    ensures Cascade(mem, r) == CascadeAll(mem[r := c], Children(c.body), 0) - {r}
    ensures |Alive(mem[r := c])| < |Alive(mem)|
  {
    hide Counts, Whole, Alive, Children, Cascade, CascadeAll;
    CascadeCount(mem, r, c);
    CountZero(mem[r := c], handles + sum, r);
    NotOwned(handles, sum, r);
    FewerAlive(mem, r, c);
    WholeWithout(mem, owned, kept, scope, r, c);
    WholeAt(mem, owned, kept, scope, r);
  }

  lemma ReleasedCountDown(mem: map<Ref, Cell>, owned: map<Ref, multiset<Ref>>, r: Ref, c: Cell, scope: set<Ref>)
    requires r in mem && r in scope && 1 < mem[r].refcount != SIZE_MAX && c == mem[r].(refcount := mem[r].refcount - 1)
    ensures Released(mem, owned, mem[r := c], owned, scope) && Cascade(mem, r) == mem[r := c]
  {
    CascadeCount(mem, r, c);
  }

  lemma ReleasedFreed(m1: map<Ref, Cell>, o1: map<Ref, multiset<Ref>>, o0: map<Ref, multiset<Ref>>, r: Ref, m2: map<Ref, Cell>, o2: map<Ref, multiset<Ref>>, scope: set<Ref>)
    requires Released(m1, o1, m2, o2, scope) && r in m1 && r in o0 && o1 == o0[r := o0[r] - o0[r]]
    ensures Released(m1 - {r}, o0 - {r}, m2 - {r}, o2 - {r}, scope)
  {}

  lemma ReleasedOne(m0: map<Ref, Cell>, o0: map<Ref, multiset<Ref>>, r: Ref, c: Cell, m1: map<Ref, Cell>, o1: map<Ref, multiset<Ref>>, scope: set<Ref>)
    requires r in m0 && r in scope && 0 < m0[r].refcount != SIZE_MAX && Released(m0[r := c] - {r}, o0 - {r}, m1, o1, scope)
    ensures Released(m0, o0, m1, o1, scope)
  {}

  ghost predicate Singletons(mem: map<Ref, Cell>) {
    && 1 in mem && mem[1].refcount == SIZE_MAX && mem[1].body == NullData
    && 2 in mem && mem[2].refcount == SIZE_MAX && mem[2].body == TrueData
    && 3 in mem && mem[3].refcount == SIZE_MAX && mem[3].body == FalseData
  }

  /** The cells of `json_null`, `json_true` and `json_false`. */
  function StaticCells(): map<Ref, Cell> {
    map[1 := Cell(SIZE_MAX, false, NullData), 2 := Cell(SIZE_MAX, false, TrueData), 3 := Cell(SIZE_MAX, false, FalseData)]
  }

  lemma StaticCellsOk()
    ensures Formed(StaticCells()) && Counts(StaticCells(), multiset{})
    ensures forall r :: r in StaticCells() ==> 0 < r < 4 && StaticCells()[r].refcount > 0 && Children(StaticCells()[r].body) == []
  {}

  /** `json_null`, `json_true` and `json_false` are nowhere else. */
  ghost predicate Constants(mem: map<Ref, Cell>) {
    forall r :: r in mem ==> (mem[r].body == NullData ==> r == 1) && (mem[r].body == TrueData ==> r == 2) && (mem[r].body == FalseData ==> r == 3)
  }

  lemma {:induction false} SumOfNothing(owned: map<Ref, multiset<Ref>>, n: nat)
    requires forall r :: r in owned ==> owned[r] == multiset{}
    ensures Sum(owned, n) == multiset{}
  {
    if n > 0 {
      SumOfNothing(owned, n - 1);
    }
  }

  /** No cycle flag is set, as between two calls. */
  ghost predicate Unvisited(mem: map<Ref, Cell>) {
    forall r :: r in mem ==> !mem[r].visited
  }

  /** What every heap keeps besides its counts: good tables, the constants in their places, and no flag set. */
  ghost predicate Formed(mem: map<Ref, Cell>) {
    Tables(mem) && Singletons(mem) && Constants(mem) && Unvisited(mem)
  }

  ghost predicate Container(b: Body) {
    b.ArrayData? || b.ObjectData?
  }

  /** Operations on one container keep the heap formed. */
  lemma FormedElsewhere(m0: map<Ref, Cell>, m1: map<Ref, Cell>, r: Ref, scope: set<Ref>)
    requires Elsewhere(m0, m1, r, scope) && Formed(m0) && TableOk(m1[r].body) && Container(m0[r].body) && Container(m1[r].body)
    ensures Formed(m1)
  {}

  lemma FormedReleased(m0: map<Ref, Cell>, o0: map<Ref, multiset<Ref>>, m1: map<Ref, Cell>, o1: map<Ref, multiset<Ref>>, scope: set<Ref>)
    requires Released(m0, o0, m1, o1, scope) && Formed(m0)
    ensures Formed(m1)
  {
    forall p | p in m1 ensures p in m0 && m1[p].body == m0[p].body && m1[p].visited == m0[p].visited {
      assert m1[p].(refcount := 0).body == m0[p].(refcount := 0).body;
      assert m1[p].(refcount := 0).visited == m0[p].(refcount := 0).visited;
    }
  }

  lemma FormedTable(mem: map<Ref, Cell>, r: Ref)
    requires Formed(mem) && r in mem
    ensures TableOk(mem[r].body)
  {}

  lemma FormedCount(mem: map<Ref, Cell>, r: Ref)
    requires r in mem && mem[r].refcount != SIZE_MAX
    ensures Formed(mem) ==> Formed(mem[r := mem[r].(refcount := mem[r].refcount + 1)])
  {}

  lemma FormedNew(mem: map<Ref, Cell>, r: Ref, body: Body)
    requires Formed(mem) && r !in mem && Children(body) == [] && !body.NullData? && !body.TrueData? && !body.FalseData?
    ensures Formed(mem[r := Cell(1, false, body)])
  {}

  lemma FormedWritten(mem: map<Ref, Cell>, r: Ref, body: Body)
    requires Formed(mem) && r in mem && Container(mem[r].body) && Container(body) && TableOk(body)
    ensures Formed(mem[r := mem[r].(body := body)])
  {}

  /** A heap as the library leaves it. */
  ghost predicate Ready(h: Heap)
    reads h
  {
    h.Settled() && Formed(h.mem)
  }

  /** One reference less to a cell that stays. */
  ghost function Dropped(mem: map<Ref, Cell>, r: Ref): map<Ref, Cell> {
    if r in mem && 0 < mem[r].refcount != SIZE_MAX then mem[r := mem[r].(refcount := mem[r].refcount - 1)] else mem
  }

  lemma DroppedIs(mem: map<Ref, Cell>, r: Ref)
    ensures r !in mem || mem[r].refcount == SIZE_MAX ==> Dropped(mem, r) == mem
    ensures r in mem && 0 < mem[r].refcount != SIZE_MAX ==> Dropped(mem, r) == mem[r := mem[r].(refcount := mem[r].refcount - 1)]
  {}

  // ---------------------------------------------------------------- the heap

  class Heap {
    var mem: map<Ref, Cell>
    var next: Ref
    /** The references that code outside the graph owns. */
    ghost var handles: multiset<Ref>
    /** The references that each cell owns: what it points to, but while a pointer in it is being replaced. */
    ghost var owned: map<Ref, multiset<Ref>>

    ghost function Refs(): multiset<Ref>
      reads this
    {
      handles + Sum(owned, next)
    }

    ghost predicate Counted()
      reads this
    {
      owned.Keys == mem.Keys && next > NULL && (forall r :: r in mem ==> r < next) && Counts(mem, Refs())
    }

    /** A heap with `json_null`, `json_true` and `json_false`, whose counts are stuck. */
    constructor ()
      ensures Ready(this) && handles == multiset{} && mem == StaticCells()
    {
      mem := StaticCells();
      owned := map r | r in StaticCells() :: multiset{};
      next := 4;
      handles := multiset{};
      new;
      StaticCellsOk();
      SumOfNothing(owned, 4);
    }

    /** Between two calls: no cell is at count zero, and every cell owns what it points to. */
    ghost predicate Settled()
      reads this
    {
      Counted() && Complete(mem, owned, NULL)
    }

    /** The cell `r` outlives a release within `scope` that leaves `after`: it is out of reach, or the caller has a reference
        to it, or it is simply still there. */
    ghost predicate Outlives(r: Ref, after: map<Ref, Cell>, scope: set<Ref>)
      reads this
    {
      r !in scope || r in handles || r in after
    }

    ghost function Kept(r: Ref, scope: set<Ref>): set<Ref> {
      if r in scope then {r} else {}
    }

    lemma KeptLasts(r: Ref, after: map<Ref, Cell>, scope: set<Ref>)
      requires Outlives(r, after, scope)
      ensures Lasts(Kept(r, scope), handles, after) && (r !in scope || r in Kept(r, scope))
    {}

    /** `json_incref`. */
    method Incref(r: Ref)
      requires Counted() && (r != NULL ==> r in mem)
      modifies `mem, `handles
      ensures Counted() && handles == if r == NULL then old(handles) else old(handles) + multiset{r}
      ensures mem == if r != NULL && old(mem)[r].refcount != SIZE_MAX
                     then old(mem)[r := old(mem)[r].(refcount := old(mem)[r].refcount + 1)] else old(mem)
      ensures old(Settled()) ==> Settled()
      ensures old(Formed(mem)) ==> Formed(mem)
    {
      hide Formed, Complete, Counts, Sum;
      if r != NULL {
        CompleteCountUp(mem, owned, r);
        CountUp(mem, Refs(), r);
        assert handles + multiset{r} + Sum(owned, next) == Refs() + multiset{r};
        handles := handles + multiset{r};
        if mem[r].refcount != SIZE_MAX {
          FormedCount(mem, r);
          mem := mem[r := mem[r].(refcount := mem[r].refcount + 1)];
        }
      }
    }

    /** `json_decref`: gives up one reference of the caller's and deletes what nobody refers to any more. */
    method Decref(r: Ref, ghost kept: set<Ref>, ghost scope: set<Ref>)
      requires Counted() && Closed(owned, scope) && Whole(mem, owned, kept, scope)
      requires r != NULL ==> r in scope && r in handles && Lasts(kept, handles - multiset{r}, Cascade(mem, r))
      modifies `mem, `handles, `owned
      ensures Counted() && handles == if r == NULL then old(handles) else old(handles) - multiset{r}
      ensures mem == Cascade(old(mem), r) && Released(old(mem), old(owned), mem, owned, scope)
      ensures r == NULL || old(mem)[r].refcount > 1 ==> mem == Dropped(old(mem), r)
      decreases |Alive(mem)|, 1
    {
      hide Counts, Sum, Closed, Whole, Released, Alive, Children, Dropped, Cascade, CascadeAll, Lasts;
      ReleasedNothing(mem, owned, scope);
      if r == NULL {
        NullIsFree(mem, Refs());
        DroppedIs(mem, r);
        CascadeStuck(mem, r);
        return;
      }
      CountGiven(mem, handles, Sum(owned, next), r);
      DroppedIs(mem, r);
      handles := handles - multiset{r};
      if mem[r].refcount != SIZE_MAX {
        ghost var was := mem;
        var c := mem[r].(refcount := mem[r].refcount - 1);
        mem := mem[r := c];
        if mem[r].refcount == 0 {
          AtZero(was, c, owned, handles, Sum(owned, next), kept, scope, r);
          Delete(r, kept, scope);
          ReleasedOne(was, old(owned), r, c, mem, owned, scope);
        } else {
          ReleasedCountDown(was, owned, r, c, scope);
        }
      } else {
        CascadeStuck(mem, r);
      }
    }

    /** The references `m` of a cell are handed to the caller. */
    ghost method Surrender(r: Ref, m: multiset<Ref>)
      requires Counted() && r in mem && m <= owned[r]
      modifies `handles, `owned
      ensures Counted() && handles == old(handles) + m && owned == old(owned)[r := old(owned)[r] - m]
    {
      hide Counts, Sum;
      Transfer(handles, owned, r, m, next);
      handles := handles + m;
      owned := owned[r := owned[r] - m];
    }

    /** One turn of a loop that releases the children of a cell. */
    method ReleaseChild(r: Ref, i: nat, ghost base: multiset<Ref>, ghost kept: set<Ref>, ghost scope: set<Ref>)
      requires Counted() && Closed(owned, scope) && Whole(mem, owned, kept, scope)
      requires r in mem && i < |Children(mem[r].body)| && Children(mem[r].body)[i] in scope
      requires handles == Owing(base, Children(mem[r].body), i)
      requires Lasts(kept, Owing(base, Children(mem[r].body), i + 1), Cascade(mem, Children(mem[r].body)[i]))
      modifies `mem, `handles, `owned
      ensures Counted() && mem == Cascade(old(mem), Children(old(mem)[r].body)[i]) && Released(old(mem), old(owned), mem, owned, scope)
      ensures handles == Owing(base, Children(old(mem)[r].body), i + 1)
      decreases |Alive(mem)|, 2
    {
      hide Counts, Sum, Closed, Whole, Released, Alive, Children, Owing, Cascade, Lasts;
      var child := Children(mem[r].body)[i];
      OwingStep(base, Children(mem[r].body), i);
      NotNull(mem, handles, Sum(owned, next), child);
      Decref(child, kept, scope);
    }

    /** Release all children of a cell, which is there until the end. */
    method ReleaseChildren(r: Ref, ghost base: multiset<Ref>, ghost kept: set<Ref>, ghost scope: set<Ref>)
      requires Counted() && Closed(owned, scope) && Whole(mem, owned, kept, scope)
      requires r in mem && Stays(mem, r, kept, scope) && Lasts(kept, base, CascadeAll(mem, Children(mem[r].body), 0))
      requires forall i :: 0 <= i < |Children(mem[r].body)| ==> Children(mem[r].body)[i] in scope
      requires handles == base + multiset(Children(mem[r].body))
      modifies `mem, `handles, `owned
      ensures Counted() && handles == base && Released(old(mem), old(owned), mem, owned, scope)
      ensures mem == CascadeAll(old(mem), Children(old(mem)[r].body), 0)
      ensures r in mem && mem[r].body == old(mem)[r].body
      decreases |Alive(mem)|, 3
    {
      hide Counts, Sum, Closed, Whole, Released, Alive, Children, Owing, Stays, Cascade, CascadeAll, Lasts;
      ghost var children := Children(mem[r].body);
      ghost var m1, o1, end := mem, owned, CascadeAll(mem, children, 0);
      ReleasedNothing(mem, owned, scope);
      OwingStart(base, children);
      var i := 0;
      while i < |Children(mem[r].body)|
        invariant r in mem && mem[r].body == m1[r].body && Stays(mem, r, kept, scope) && i <= |children|
        invariant Counted() && handles == Owing(base, children, i) && CascadeAll(mem, children, i) == end
        invariant Released(m1, o1, mem, owned, scope) && Closed(owned, scope) && Whole(mem, owned, kept, scope)
        invariant |Alive(mem)| <= |Alive(m1)|
      {
        ghost var m2, o2 := mem, owned;
        LastsStep(kept, base, mem, children, i);
        ReleaseChild(r, i, base, kept, scope);
        ReleasedTransitive(m1, o1, m2, o2, mem, owned, scope);
        ReleasedKeeps(m2, o2, mem, owned, kept, scope);
        ReleasedStays(m2, o2, mem, owned, handles, Sum(owned, next), kept, scope, r);
        i := i + 1;
      }
      CascadeNone(mem, children);
    }

    /** `json_delete`: release what the cell points to, then free it. */
    method Delete(r: Ref, ghost kept: set<Ref>, ghost scope: set<Ref>)
      requires Counted() && Closed(owned, scope) && Whole(mem, owned, kept, scope)
      requires r in mem && mem[r].refcount == 0 && r in scope && Lasts(kept, handles, CascadeAll(mem, Children(mem[r].body), 0))
      requires owned[r] == multiset(Children(mem[r].body))
      modifies `mem, `handles, `owned
      ensures Counted() && handles == old(handles)
      ensures mem == CascadeAll(old(mem), Children(old(mem)[r].body), 0) - {r}
      ensures Released(old(mem - {r}), old(owned - {r}), mem, owned, scope)
      decreases |Alive(mem)|, 4
    {
      hide Counts, Sum, Closed, Whole, Released, Alive, Children, Cascade, CascadeAll, Lasts;
      ghost var base := handles;
      ChildrenInScope(owned, r, Children(mem[r].body), scope);
      Surrender(r, owned[r]);
      ghost var m1, o1 := mem, owned;
      Emptied(old(owned), r, kept, mem, scope);
      ReleaseChildren(r, base, kept, scope);
      ReleasedZero(m1, o1, mem, owned, scope, r);
      ReleasedFreed(m1, o1, old(owned), r, mem, owned, scope);
      Free(r);
    }

    /** `jsonp_free` of a cell that nobody refers to and that owns nothing. */
    method Free(r: Ref)
      requires Counted() && r in mem && mem[r].refcount == 0 && owned[r] == multiset{}
      modifies `mem, `owned
      ensures Counted() && mem == old(mem) - {r} && owned == old(owned) - {r}
    {
      hide Counts, Sum;
      Forget(owned, r, next);
      CountFree(mem, Refs(), r);
      mem := mem - {r};
      owned := owned - {r};
    }

    /** The opposite of `Surrender`: references of the caller's are stored in a cell. */
    ghost method Adopt(r: Ref, m: multiset<Ref>)
      requires Counted() && r in mem && m <= handles
      modifies `handles, `owned
      ensures Counted() && handles == old(handles) - m && owned == old(owned)[r := old(owned)[r] + m]
    {
      hide Counts, Sum;
      Deposit(handles, owned, r, m, next);
      handles := handles - m;
      owned := owned[r := owned[r] + m];
    }

    /** A cell whose count is stuck can be referred to without counting. */
    ghost method Claim(r: Ref)
      requires Counted() && r in mem && mem[r].refcount == SIZE_MAX
      modifies `handles
      ensures Counted() && handles == old(handles) + multiset{r}
    {
      CountUp(mem, Refs(), r);
      assert handles + multiset{r} + Sum(owned, next) == Refs() + multiset{r};
      handles := handles + multiset{r};
    }

    /** A store into a cell. */
    method Write(r: Ref, body: Body)
      requires Counted() && r in mem
      modifies `mem
      ensures Counted() && mem == old(mem)[r := old(mem)[r].(body := body)]
    {
      mem := mem[r := mem[r].(body := body)];
    }

    /** A cell gets new contents that hold some more references, which were the caller's. */
    method StoreAll(r: Ref, body: Body, ghost m: multiset<Ref>)
      requires Counted() && Complete(mem, owned, r) && r in mem && m <= handles
      requires multiset(Children(body)) == owned[r] + m
      modifies `mem, `handles, `owned
      ensures Settled() && handles == old(handles) - m && mem == old(mem)[r := old(mem)[r].(body := body)]
    {
      hide Counts, Sum, Complete;
      CompleteWritten(mem, owned, r, body, owned[r] + m);
      Adopt(r, m);
      Write(r, body);
    }

    method Store(r: Ref, body: Body, value: Ref)
      requires Counted() && Complete(mem, owned, r) && r in mem && value in handles
      requires multiset(Children(body)) == owned[r] + multiset{value}
      modifies `mem, `handles, `owned
      ensures Settled() && handles == old(handles) - multiset{value} && mem == old(mem)[r := old(mem)[r].(body := body)]
    {
      hide Counts, Sum, Complete;
      StoreAll(r, body, multiset{value});
    }

    /** `jsonp_malloc` and `json_init`: the caller gets the one reference. */
    method New(body: Body) returns (r: Ref)
      requires Ready(this) && Children(body) == [] && !body.NullData? && !body.TrueData? && !body.FalseData?
      modifies this
      ensures Ready(this) && r != NULL && r !in old(mem) && handles == old(handles) + multiset{r}
      ensures mem == old(mem)[r := Cell(1, false, body)]
    {
      hide Sum, Counts, Complete, Children, Formed;
      r := next;
      FormedNew(mem, r, body);
      SumNew(handles, owned, next);
      CountNew(mem, Refs(), r, Cell(1, false, body));
      NullIsFree(mem, Refs());
      CompleteNew(mem, owned, r, Cell(1, false, body));
      mem := mem[r := Cell(1, false, body)];
      owned := owned[r := multiset{}];
      handles := handles + multiset{r};
      next := r + 1;
    }

    /** `json_decref` between two calls: afterwards the heap is ready again. */
    method Drop(value: Ref, ghost scope: set<Ref>)
      requires Ready(this) && Closed(owned, scope) && (value != NULL ==> value in handles && value in scope)
      modifies `mem, `handles, `owned
      ensures Ready(this) && handles == old(handles) - multiset{value}
      ensures mem == Cascade(old(mem), value) && Released(old(mem), old(owned), mem, owned, scope)
      ensures (value in old(mem) ==> old(mem)[value].refcount > 1) ==> mem == Dropped(old(mem), value)
    {
      hide Sum, Counts, Closed, Complete, Released, Whole, Formed, Cascade;
      NullIsFree(mem, Refs());
      CompleteIsWhole(mem, owned, NULL, {}, scope);
      if value != NULL {
        NotNull(mem, handles, Sum(owned, next), value);
      }
      Decref(value, {}, scope);
      ReleasedComplete(old(mem), old(owned), mem, owned, scope, NULL);
      FormedReleased(old(mem), old(owned), mem, owned, scope);
    }

    /** The error exits of the functions that take over a reference drop it. */
    method Reject(value: Ref, ghost scope: set<Ref>) returns (result: int)
      requires Ready(this) && Closed(owned, scope) && value in handles && value in scope
      modifies `mem, `handles, `owned
      ensures Ready(this) && handles == old(handles) - multiset{value} && result == -1
      ensures mem == Cascade(old(mem), value) && Released(old(mem), old(owned), mem, owned, scope)
      ensures (value in old(mem) ==> old(mem)[value].refcount > 1) ==> mem == Dropped(old(mem), value)
    {
      hide Sum, Counts, Closed, Complete, Released, Formed, Dropped, Cascade;
      Drop(value, scope);
      result := -1;
    }

    // -------------------------------------------------------------- arrays

    /** `json_array_append_new`. */
    method ArrayAppendNew(json: Ref, value: Ref, ghost scope: set<Ref>) returns (result: int)
      requires Ready(this) && json in mem && Closed(owned, scope)
      requires value != NULL ==> value in handles && value in scope
      modifies `mem, `handles, `owned
      ensures Ready(this) && handles == old(handles) - multiset{value}
      ensures result == if value != NULL && old(mem)[json].body.ArrayData? && json != value then 0 else -1
      ensures result == 0 ==>
                var cell := old(mem)[json];
                mem == old(mem)[json := cell.(body := ArrayData(cell.body.elems + [value]))]
      ensures result == -1 ==> Released(old(mem), old(owned), mem, owned, scope)
      ensures result == -1 && (value in old(mem) ==> old(mem)[value].refcount > 1) ==> mem == Dropped(old(mem), value)
    {
      hide Formed, Counts, Sum, Released, Closed, Complete;
      if value == NULL {
        ReleasedNothing(mem, owned, scope);
        NullIsFree(mem, Refs());
        return -1;
      }
      if !mem[json].body.ArrayData? || json == value {
        result := Reject(value, scope);
        return;
      }
      ghost var elems := mem[json].body.elems;
      NullIsFree(mem, Refs());
      CompleteAt(mem, owned, json);
      assert multiset(elems + [value]) == multiset(elems) + multiset{value};
      FormedWritten(mem, json, ArrayData(elems + [value]));
      Store(json, ArrayData(mem[json].body.elems + [value]), value);
      result := 0;
    }

    /** Release what one pointer of a cell points to, the pointer itself staying in place for the moment. */
    method ReleaseSlot(r: Ref, x: Ref, ghost scope: set<Ref>)
      requires Settled() && Closed(owned, scope) && r in mem && x in owned[r] && x in scope && Outlives(r, Cascade(mem, x), scope)
      modifies `mem, `handles, `owned
      ensures Counted() && Complete(mem, owned, r) && handles == old(handles) && mem == Cascade(old(mem), x)
      ensures r in mem && Elsewhere(old(mem), mem, r, scope) && mem[r].body == old(mem)[r].body
      ensures r in owned && owned[r] == old(owned)[r] - multiset{x}
    {
      hide Counts, Sum, Closed, Complete, Released, Whole, Elsewhere, Cascade, Stays, Children, Lasts, Outlives, Kept, Dropped, CascadeAll, Live;
      NullIsFree(mem, Refs());
      KeptLasts(r, Cascade(mem, x), scope);
      ghost var kept := Kept(r, scope);
      OneOf(owned[r], handles, x);
      Lent(mem, owned, r, owned[r] - multiset{x}, kept, scope);
      Surrender(r, multiset{x});
      ghost var m1, o1 := mem, owned;
      NotNull(mem, handles, Sum(owned, next), x);
      Decref(x, kept, scope);
      ReleasedBeside(m1, o1, mem, owned, handles, Sum(owned, next), kept, scope, r);
    }

    /** Replace a pointer to `x` by one to `value`: `x` is released before the pointer is overwritten. */
    method Replace(r: Ref, x: Ref, body: Body, value: Ref, ghost scope: set<Ref>)
      requires Settled() && Closed(owned, scope) && r in mem && x in Children(mem[r].body) && x in scope && value in handles
      requires multiset(Children(body)) == multiset(Children(mem[r].body)) - multiset{x} + multiset{value} && Outlives(r, Cascade(mem, x), scope)
      modifies `mem, `handles, `owned
      ensures Settled() && handles == old(handles) - multiset{value}
      ensures r in mem && Elsewhere(old(mem), mem, r, scope) && mem[r].body == body && mem == Rewritten(Cascade(old(mem), x), r, body)
    {
      hide Counts, Sum, Closed, Complete, Elsewhere, Children, Cascade, Rewritten, Outlives;
      NullIsFree(mem, Refs());
      CompleteAt(mem, owned, r);
      assert x in multiset(Children(mem[r].body));
      ReleaseSlot(r, x, scope);
      ElsewhereWritten(old(mem), mem, r, scope, mem[r].(body := body));
      RewrittenIs(mem, r, body);
      Store(r, body, value);
    }

    /** `json_array_set_new`. */
    method ArraySetNew(json: Ref, index: nat, value: Ref, ghost scope: set<Ref>) returns (result: int)
      requires Ready(this) && json in mem && Closed(owned, scope)
      requires value != NULL ==> value in handles && value in scope
      requires value != NULL && mem[json].body.ArrayData? && json != value && index < |mem[json].body.elems| ==>
                 var x := mem[json].body.elems[index];
                 x in scope && Outlives(json, Cascade(mem, x), scope)
      modifies `mem, `handles, `owned
      ensures Ready(this) && handles == old(handles) - multiset{value}
      ensures var body := old(mem)[json].body;
              && result == (if value != NULL && body.ArrayData? && json != value && index < |body.elems| then 0 else -1)
              && (result == 0 ==>
                    && Elsewhere(old(mem), mem, json, scope) && mem[json].body == ArrayData(body.elems[index := value])
                    && mem == Rewritten(Cascade(old(mem), body.elems[index]), json, ArrayData(body.elems[index := value])))
      ensures result == -1 ==> Released(old(mem), old(owned), mem, owned, scope)
      ensures result == -1 && (value in old(mem) ==> old(mem)[value].refcount > 1) ==> mem == Dropped(old(mem), value)
    {
      hide Formed, Counts, Sum, Released, Closed, Complete, Elsewhere, Cascade, Rewritten, Outlives;
      NullIsFree(mem, Refs());
      if value == NULL {
        ReleasedNothing(mem, owned, scope);
        return -1;
      }
      if !mem[json].body.ArrayData? || json == value {
        result := Reject(value, scope);
        return;
      }
      var elems := mem[json].body.elems;
      if index >= |elems| {
        result := Reject(value, scope);
        return;
      }
      assert multiset(elems[index := value]) == multiset(elems) - multiset{elems[index]} + multiset{value};
      Replace(json, elems[index], ArrayData(elems[index := value]), value, scope);
      FormedElsewhere(old(mem), mem, json, scope);
      result := 0;
    }

    /** `json_array_insert_new`. */
    method ArrayInsertNew(json: Ref, index: nat, value: Ref, ghost scope: set<Ref>) returns (result: int)
      requires Ready(this) && json in mem && Closed(owned, scope)
      requires value != NULL ==> value in handles && value in scope
      modifies `mem, `handles, `owned
      ensures Ready(this) && handles == old(handles) - multiset{value}
      ensures var cell := old(mem)[json];
              && result == (if value != NULL && cell.body.ArrayData? && json != value && index <= |cell.body.elems| then 0 else -1)
              && (result == 0 ==>
                    var elems := cell.body.elems;
                    mem == old(mem)[json := cell.(body := ArrayData(elems[..index] + [value] + elems[index..]))])
      ensures result == -1 ==> Released(old(mem), old(owned), mem, owned, scope)
      ensures result == -1 && (value in old(mem) ==> old(mem)[value].refcount > 1) ==> mem == Dropped(old(mem), value)
    {
      hide Formed, Counts, Sum, Released, Closed, Complete;
      NullIsFree(mem, Refs());
      if value == NULL {
        ReleasedNothing(mem, owned, scope);
        return -1;
      }
      if !mem[json].body.ArrayData? || json == value {
        result := Reject(value, scope);
        return;
      }
      var elems := mem[json].body.elems;
      if index > |elems| {
        result := Reject(value, scope);
        return;
      }
      CompleteAt(mem, owned, json);
      assert elems == elems[..index] + elems[index..];
      FormedWritten(mem, json, ArrayData(elems[..index] + [value] + elems[index..]));
      Store(json, ArrayData(elems[..index] + [value] + elems[index..]), value);
      result := 0;
    }

    /** `json_array_remove`. */
    method ArrayRemove(json: Ref, index: nat, ghost scope: set<Ref>) returns (result: int)
      requires Ready(this) && json in mem && Closed(owned, scope)
      requires mem[json].body.ArrayData? && index < |mem[json].body.elems| ==>
                 var x := mem[json].body.elems[index];
                 x in scope && Outlives(json, Cascade(mem, x), scope)
      modifies `mem, `handles, `owned
      ensures Ready(this) && handles == old(handles)
      ensures var body := old(mem)[json].body;
              && result == (if body.ArrayData? && index < |body.elems| then 0 else -1)
              && (result == 0 ==>
                    var rest := ArrayData(body.elems[..index] + body.elems[index + 1..]);
                    && Elsewhere(old(mem), mem, json, scope) && mem[json].body == rest
                    && mem == Rewritten(Cascade(old(mem), body.elems[index]), json, rest))
      ensures result == -1 ==> mem == old(mem)
    {
      hide Formed, Counts, Sum, Closed, Complete, Elsewhere, Cascade, Rewritten, Outlives;
      if !mem[json].body.ArrayData? {
        return -1;
      }
      var elems := mem[json].body.elems;
      if index >= |elems| {
        return -1;
      }
      assert elems == elems[..index] + [elems[index]] + elems[index + 1..];
      Shrink(json, elems[index], ArrayData(elems[..index] + elems[index + 1..]), scope);
      FormedElsewhere(old(mem), mem, json, scope);
      result := 0;
    }

    /** Remove a pointer to `x`: `x` is released before the pointer goes. */
    method Shrink(r: Ref, x: Ref, body: Body, ghost scope: set<Ref>)
      requires Settled() && Closed(owned, scope) && r in mem && x in Children(mem[r].body) && x in scope && Outlives(r, Cascade(mem, x), scope)
      requires multiset(Children(mem[r].body)) == multiset(Children(body)) + multiset{x}
      modifies `mem, `handles, `owned
      ensures Settled() && handles == old(handles)
      ensures r in mem && Elsewhere(old(mem), mem, r, scope) && mem[r].body == body && mem == Rewritten(Cascade(old(mem), x), r, body)
    {
      hide Counts, Sum, Closed, Complete, Elsewhere, Children, Cascade, Rewritten, Outlives;
      NullIsFree(mem, Refs());
      CompleteAt(mem, owned, r);
      assert x in multiset(Children(mem[r].body));
      ReleaseSlot(r, x, scope);
      ElsewhereWritten(old(mem), mem, r, scope, mem[r].(body := body));
      RewrittenIs(mem, r, body);
      CompleteWritten(mem, owned, r, body, owned[r]);
      OwnedSame(owned, r);
      Write(r, body);
    }

    /** Release all that a cell points to, the pointers staying in place for the moment. */
    method ReleaseAll(r: Ref, ghost scope: set<Ref>)
      requires Settled() && Closed(owned, scope) && r in mem && Outlives(r, CascadeAll(mem, Children(mem[r].body), 0), scope)
      requires forall i :: 0 <= i < |Children(mem[r].body)| ==> Children(mem[r].body)[i] in scope
      modifies `mem, `handles, `owned
      ensures Counted() && Complete(mem, owned, r) && handles == old(handles)
      ensures mem == CascadeAll(old(mem), Children(old(mem)[r].body), 0)
      ensures r in mem && Elsewhere(old(mem), mem, r, scope) && mem[r].body == old(mem)[r].body
      ensures r in owned && owned[r] == multiset{}
    {
      hide Counts, Sum, Closed, Complete, Elsewhere, Children, Released, Whole, Stays, CascadeAll, Lasts, Outlives, Kept;
      NullIsFree(mem, Refs());
      KeptLasts(r, CascadeAll(mem, Children(mem[r].body), 0), scope);
      CompleteAt(mem, owned, r);
      ghost var base, kept := handles, Kept(r, scope);
      Lent(mem, owned, r, owned[r] - owned[r], kept, scope);
      Surrender(r, owned[r]);
      ghost var m1, o1 := mem, owned;
      ReleaseChildren(r, base, kept, scope);
      ReleasedComplete(m1, o1, mem, owned, scope, r);
      ReleasedOwned(m1, o1, mem, owned, scope, r);
      ReleasedElsewhere(m1, o1, mem, owned, scope, r);
    }

    /** `json_array_clear`, and `hashtable_clear` on the table of an object. */
    method Clear(r: Ref, body: Body, ghost scope: set<Ref>)
      requires Settled() && Closed(owned, scope) && r in mem && Children(body) == []
      requires Outlives(r, CascadeAll(mem, Children(mem[r].body), 0), scope)
      requires forall i :: 0 <= i < |Children(mem[r].body)| ==> Children(mem[r].body)[i] in scope
      modifies `mem, `handles, `owned
      ensures Settled() && handles == old(handles)
      ensures r in mem && Elsewhere(old(mem), mem, r, scope) && mem[r].body == body
      ensures mem == Rewritten(CascadeAll(old(mem), Children(old(mem)[r].body), 0), r, body)
    {
      hide Counts, Sum, Closed, Complete, Elsewhere, Children, CascadeAll, Rewritten, Outlives;
      ReleaseAll(r, scope);
      ElsewhereWritten(old(mem), mem, r, scope, mem[r].(body := body));
      RewrittenIs(mem, r, body);
      CompleteWritten(mem, owned, r, body, owned[r]);
      OwnedSame(owned, r);
      Write(r, body);
    }

    method IncrefAll(elems: seq<Ref>)
      requires Settled() && forall i :: 0 <= i < |elems| ==> elems[i] in mem && elems[i] != NULL
      modifies `mem, `handles
      ensures Settled() && handles == old(handles) + multiset(elems) && SameBodies(old(mem), mem)
    {
      hide Counts, Sum, Complete, Formed, SameBodies, Owing;
      ghost var base, m0 := handles, mem;
      SameBodiesStart(mem, base, elems);
      var i := 0;
      while i < |elems|
        invariant i <= |elems| && Settled() && handles == base + multiset(elems[..i])
        invariant SameBodies(m0, mem) && mem.Keys == m0.Keys
      {
        SameBodiesStep(m0, mem, elems[i], base, elems, i);
        Incref(elems[i]);
        i := i + 1;
      }
      assert elems[..i] == elems;
    }

    /** `json_array_extend`; the two arrays may be the same. */
    method ArrayExtend(json: Ref, other: Ref) returns (result: int)
      requires Ready(this) && json in mem && other in mem
      modifies `mem, `handles, `owned
      ensures Ready(this) && handles == old(handles)
      ensures result == if old(mem)[json].body.ArrayData? && old(mem)[other].body.ArrayData? then 0 else -1
      ensures result == 0 ==> mem.Keys == old(mem).Keys && Elsewhere(old(mem), mem, json, old(mem).Keys)
      ensures result == 0 ==> mem[json].body == ArrayData(old(mem)[json].body.elems + old(mem)[other].body.elems)
      ensures result == -1 ==> mem == old(mem)
    {
      hide Formed, Counts, Sum, Complete, SameBodies, Elsewhere;
      if !mem[json].body.ArrayData? || !mem[other].body.ArrayData? {
        return -1;
      }
      var elems := mem[other].body.elems;
      ghost var body := ArrayData(mem[json].body.elems + elems);
      NullIsFree(mem, Refs());
      assert elems == Children(mem[other].body);
      ChildrenThere(mem, handles, owned, next, other);
      IncrefAll(elems);
      NullIsFree(mem, Refs());
      CompleteAt(mem, owned, json);
      assert handles - multiset(elems) == old(handles);
      SameElsewhere(old(mem), mem, json, mem[json].(body := body));
      StoreAll(json, ArrayData(mem[json].body.elems + elems), multiset(elems));
      FormedElsewhere(old(mem), mem, json, old(mem).Keys);
      result := 0;
    }

    /** `json_array_clear`. */
    method ArrayClear(json: Ref, ghost scope: set<Ref>) returns (result: int)
      requires Ready(this) && Closed(owned, scope) && json in mem
      requires mem[json].body.ArrayData? ==> Outlives(json, CascadeAll(mem, Children(mem[json].body), 0), scope)
      requires forall i :: 0 <= i < |Children(mem[json].body)| ==> Children(mem[json].body)[i] in scope
      modifies `mem, `handles, `owned
      ensures Ready(this) && handles == old(handles) && result == if old(mem)[json].body.ArrayData? then 0 else -1
      ensures result == 0 ==> Elsewhere(old(mem), mem, json, scope) && mem[json].body == ArrayData([])
      ensures result == 0 ==> mem == Rewritten(CascadeAll(old(mem), Children(old(mem)[json].body), 0), json, ArrayData([]))
      ensures result == -1 ==> mem == old(mem)
    {
      hide Formed, CascadeAll, Rewritten, Outlives;
      if !mem[json].body.ArrayData? {
        return -1;
      }
      Clear(json, ArrayData([]), scope);
      FormedElsewhere(old(mem), mem, json, scope);
      result := 0;
    }

    // -------------------------------------------------------------- objects

    /** `json_object_set_new_nocheck`: a key that is there keeps its pair, and with it its serial. */
    method ObjectSetNewNocheck(json: Ref, key: bytes, value: Ref, ghost scope: set<Ref>) returns (result: int)
      requires Ready(this) && json in mem && Closed(owned, scope)
      requires value != NULL ==> value in handles && value in scope
      requires value != NULL && mem[json].body.ObjectData? && json != value ==>
                 var i := FindSlot(mem[json].body.slots, key);
                 i < |mem[json].body.slots| ==> Outlives(json, Cascade(mem, mem[json].body.slots[i].ref), scope)
      requires forall i :: 0 <= i < |Children(mem[json].body)| ==> Children(mem[json].body)[i] in scope
      modifies `mem, `handles, `owned
      ensures Ready(this) && handles == old(handles) - multiset{value}
      ensures result == if value != NULL && old(mem)[json].body.ObjectData? && json != value then 0 else -1
      ensures result == 0 ==>
                && Elsewhere(old(mem), mem, json, scope) && json in mem && mem[json].body.ObjectData?
                && SlotSet(old(mem)[json].body, key, value, mem[json].body)
                && (FindSlot(old(mem)[json].body.slots, key) == |old(mem)[json].body.slots| ==>
                      mem == old(mem)[json := old(mem)[json].(body := mem[json].body)])
      ensures result == -1 ==> Released(old(mem), old(owned), mem, owned, scope)
      ensures result == -1 && (value in old(mem) ==> old(mem)[value].refcount > 1) ==> mem == Dropped(old(mem), value)
    {
      hide Formed, Counts, Sum, Released, Closed, Complete, Elsewhere, Relinked, FindSlot, Cascade, Outlives;
      NullIsFree(mem, Refs());
      if value == NULL {
        ReleasedNothing(mem, owned, scope);
        return -1;
      }
      if !mem[json].body.ObjectData? || json == value {
        result := Reject(value, scope);
        return;
      }
      var slots, serial := mem[json].body.slots, mem[json].body.serial;
      var i := FindSlot(slots, key);
      assert i < |slots| ==> Children(mem[json].body)[i] == slots[i].ref;
      if i < |slots| {
        SetSlot(json, key, value, scope);
      } else {
        AddSlot(json, Slot(key, serial, value), scope);
      }
      result := 0;
    }

    /** A pair gets another value, once the table has been rehashed or not. */
    method SetSlot(json: Ref, key: bytes, value: Ref, ghost scope: set<Ref>)
      requires Ready(this) && json in mem && mem[json].body.ObjectData? && FindSlot(mem[json].body.slots, key) < |mem[json].body.slots|
      requires Closed(owned, scope) && value in handles
      requires var x := mem[json].body.slots[FindSlot(mem[json].body.slots, key)].ref;
               x in scope && Outlives(json, Cascade(mem, x), scope)
      modifies `mem, `handles, `owned
      ensures Ready(this) && handles == old(handles) - multiset{value}
      ensures json in mem && Elsewhere(old(mem), mem, json, scope) && mem[json].body.ObjectData?
      ensures SlotSet(old(mem)[json].body, key, value, mem[json].body)
    {
      hide Formed, Counts, Sum, Closed, Complete, Elsewhere, RefsOf, FindSlot, Relinked, TableOk, Cascade, Rewritten, Outlives;
      var slots, serial := mem[json].body.slots, mem[json].body.serial;
      var after := Relink(slots);
      var i := FindSlot(after, key);
      FormedTable(mem, json);
      FoundRelinked(slots, after, serial, key);
      RelinkedRefs(slots, after);
      UpdatedRelinked(slots, after, serial, key, value);
      RefsOfSet(after, i, value);
      ghost var body := ObjectData(Updated(after, key, serial, value), serial + 1);
      assert after[i].ref in multiset(RefsOf(slots));
      SlotSetTableOk(mem[json].body, key, value, body);
      Replace(json, after[i].ref, ObjectData(after[i := after[i].(ref := value)], serial + 1), value, scope);
      FormedElsewhere(old(mem), mem, json, scope);
    }

    /** A pair for a new key. */
    method AddSlot(json: Ref, slot: Slot, ghost scope: set<Ref>)
      requires Ready(this) && json in mem && mem[json].body.ObjectData? && slot.ref in handles
      requires FindSlot(mem[json].body.slots, slot.key) == |mem[json].body.slots| && slot.serial == mem[json].body.serial
      modifies `mem, `handles, `owned
      ensures Ready(this) && handles == old(handles) - multiset{slot.ref}
      ensures Elsewhere(old(mem), mem, json, scope) && json in mem && mem[json].body.ObjectData?
      ensures SlotSet(old(mem)[json].body, slot.key, slot.ref, mem[json].body)
      ensures mem == old(mem)[json := old(mem)[json].(body := mem[json].body)]
    {
      hide Formed, Counts, Sum, Complete, Elsewhere, RefsOf, FindSlot, Relinked, TableOk;
      var slots, serial := mem[json].body.slots, mem[json].body.serial;
      var after := Relink(slots + [slot]);
      NullIsFree(mem, Refs());
      RefsOfMore(slots, slot);
      RelinkedRefs(slots + [slot], after);
      FormedTable(mem, json);
      SlotSetTableOk(mem[json].body, slot.key, slot.ref, ObjectData(after, serial + 1));
      CompleteAt(mem, owned, json);
      ElsewhereWrite(mem, json, scope, mem[json].(body := ObjectData(after, serial + 1)));
      FormedWritten(mem, json, ObjectData(after, serial + 1));
      Store(json, ObjectData(after, serial + 1), slot.ref);
    }

    /** `json_object_set_new`. */
    method ObjectSetNew(json: Ref, key: bytes, value: Ref, ghost scope: set<Ref>) returns (result: int)
      requires Ready(this) && json in mem && Closed(owned, scope)
      requires value != NULL ==> value in handles && value in scope
      requires value != NULL && mem[json].body.ObjectData? && json != value && Utf8.Valid(key) ==>
                 var i := FindSlot(mem[json].body.slots, key);
                 i < |mem[json].body.slots| ==> Outlives(json, Cascade(mem, mem[json].body.slots[i].ref), scope)
      requires forall i :: 0 <= i < |Children(mem[json].body)| ==> Children(mem[json].body)[i] in scope
      modifies `mem, `handles, `owned
      ensures Ready(this) && handles == old(handles) - multiset{value}
      ensures result == if value != NULL && old(mem)[json].body.ObjectData? && json != value && Utf8.Valid(key) then 0 else -1
      ensures result == 0 ==>
                && Elsewhere(old(mem), mem, json, scope) && json in mem && mem[json].body.ObjectData?
                && SlotSet(old(mem)[json].body, key, value, mem[json].body)
      ensures result == -1 ==> Released(old(mem), old(owned), mem, owned, scope)
      ensures result == -1 && (value in old(mem) ==> old(mem)[value].refcount > 1) ==> mem == Dropped(old(mem), value)
    {
      hide Formed, Cascade, Outlives, FindSlot;
      var ok := CheckString(key);
      if !ok {
        NullIsFree(mem, Refs());
        if value != NULL {
          result := Reject(value, scope);
        } else {
          ReleasedNothing(mem, owned, scope);
          result := -1;
        }
        return;
      }
      result := ObjectSetNewNocheck(json, key, value, scope);
    }

    /** `json_object_del`: the pair is unlinked before its value is released. */
    method ObjectDel(json: Ref, key: bytes, ghost scope: set<Ref>) returns (result: int)
      requires Ready(this) && json in mem && Closed(owned, scope)
      requires mem[json].body.ObjectData? && FindSlot(mem[json].body.slots, key) < |mem[json].body.slots| ==>
                 var slots, i := mem[json].body.slots, FindSlot(mem[json].body.slots, key);
                 Outlives(json, Cascade(Rewritten(mem, json, ObjectData(slots[..i] + slots[i + 1..], mem[json].body.serial)), slots[i].ref), scope)
      requires forall i :: 0 <= i < |Children(mem[json].body)| ==> Children(mem[json].body)[i] in scope
      modifies `mem, `handles, `owned
      ensures Ready(this) && handles == old(handles)
      ensures var body := old(mem)[json].body;
              && result == (if body.ObjectData? && FindSlot(body.slots, key) < |body.slots| then 0 else -1)
              && (result == 0 ==>
                    var i := FindSlot(body.slots, key);
                    var rest := ObjectData(body.slots[..i] + body.slots[i + 1..], body.serial);
                    && Elsewhere(old(mem), mem, json, scope) && mem[json].body == rest
                    && mem == Cascade(Rewritten(old(mem), json, rest), body.slots[i].ref))
      ensures result == -1 ==> mem == old(mem)
    {
      hide Formed, Counts, Sum, Closed, Complete, Elsewhere, Cascade, Rewritten, Outlives, FindSlot, RefsOf, TableOk;
      if !mem[json].body.ObjectData? {
        return -1;
      }
      var slots := mem[json].body.slots;
      var i := FindSlot(slots, key);
      if i == |slots| {
        return -1;
      }
      RefsOfCut(slots, i);
      FormedTable(mem, json);
      Unlink(json, slots[i].ref, ObjectData(slots[..i] + slots[i + 1..], mem[json].body.serial), scope);
      FormedElsewhere(old(mem), mem, json, scope);
      result := 0;
    }

    /** Remove a pointer to `x`, then release `x`. */
    method Unlink(r: Ref, x: Ref, body: Body, ghost scope: set<Ref>)
      requires Settled() && Closed(owned, scope) && r in mem && x in Children(mem[r].body) && x in scope
      requires Outlives(r, Cascade(Rewritten(mem, r, body), x), scope)
      requires multiset(Children(mem[r].body)) == multiset(Children(body)) + multiset{x}
      modifies `mem, `handles, `owned
      ensures Settled() && handles == old(handles)
      ensures r in mem && Elsewhere(old(mem), mem, r, scope) && mem[r].body == body && mem == Cascade(Rewritten(old(mem), r, body), x)
    {
      hide Counts, Sum, Closed, Complete, Released, Elsewhere, Children, Cascade, Rewritten;
      ghost var base, m0 := handles, mem;
      RewrittenIs(mem, r, body);
      Detach(r, x, body, scope);
      ghost var m1 := mem;
      assert handles - multiset{x} == base;
      DropKeeping(r, x, Kept(r, scope), scope);
      ElsewhereFrom(m0, m1, mem, r, scope, body);
    }

    /** Take a pointer to `x` out of a cell; the reference becomes the caller's. */
    method Detach(r: Ref, x: Ref, body: Body, ghost scope: set<Ref>)
      requires Settled() && Closed(owned, scope) && r in mem && x in Children(mem[r].body)
      requires multiset(Children(mem[r].body)) == multiset(Children(body)) + multiset{x}
      modifies `mem, `handles, `owned
      ensures Settled() && Closed(owned, scope) && handles == old(handles) + multiset{x}
      ensures mem == old(mem)[r := old(mem)[r].(body := body)]
    {
      hide Counts, Sum, Closed, Complete, Children;
      NullIsFree(mem, Refs());
      CompleteAt(mem, owned, r);
      assert x in multiset(Children(mem[r].body));
      CompleteBut(mem, owned, r, owned[r] - multiset{x});
      ClosedShrinks(owned, r, owned[r] - multiset{x}, scope);
      Surrender(r, multiset{x});
      CompleteWritten(mem, owned, r, body, owned[r]);
      OwnedSame(owned, r);
      Write(r, body);
    }

    /** Drop a reference while the cell `r` is still in use. */
    method DropKeeping(r: Ref, x: Ref, ghost kept: set<Ref>, ghost scope: set<Ref>)
      requires Settled() && Closed(owned, scope) && r in mem && (r !in scope || r in kept)
      requires x in scope && x in handles && Lasts(kept, handles - multiset{x}, Cascade(mem, x))
      modifies `mem, `handles, `owned
      ensures Settled() && handles == old(handles) - multiset{x} && mem == Cascade(old(mem), x)
      ensures r in mem && Elsewhere(old(mem), mem, r, scope) && mem[r].body == old(mem)[r].body
    {
      hide Counts, Sum, Closed, Complete, Released, Elsewhere, Children, Whole, Stays, Cascade, Lasts;
      ghost var m1, o1 := mem, owned;
      NullIsFree(mem, Refs());
      CompleteIsWhole(mem, owned, NULL, kept, scope);
      NotNull(mem, handles, Sum(owned, next), x);
      StaysKept(mem, r, kept, scope);
      Decref(x, kept, scope);
      ReleasedComplete(m1, o1, mem, owned, scope, NULL);
      ReleasedStays(m1, o1, mem, owned, handles, Sum(owned, next), kept, scope, r);
      StaysHere(mem, r, kept, scope);
      ReleasedElsewhere(m1, o1, mem, owned, scope, r);
    }

    /** `json_object_clear`; the serial goes on counting. */
    method ObjectClear(json: Ref, ghost scope: set<Ref>) returns (result: int)
      requires Ready(this) && Closed(owned, scope) && json in mem
      requires mem[json].body.ObjectData? ==> Outlives(json, CascadeAll(mem, Children(mem[json].body), 0), scope)
      requires forall i :: 0 <= i < |Children(mem[json].body)| ==> Children(mem[json].body)[i] in scope
      modifies `mem, `handles, `owned
      ensures Ready(this) && handles == old(handles) && result == if old(mem)[json].body.ObjectData? then 0 else -1
      ensures result == 0 ==> Elsewhere(old(mem), mem, json, scope) && mem[json].body == ObjectData([], old(mem)[json].body.serial)
      ensures result == 0 ==> mem == Rewritten(CascadeAll(old(mem), Children(old(mem)[json].body), 0), json, ObjectData([], old(mem)[json].body.serial))
      ensures result == -1 ==> mem == old(mem)
    {
      hide Formed, CascadeAll, Rewritten, Outlives;
      if !mem[json].body.ObjectData? {
        return -1;
      }
      Clear(json, ObjectData([], mem[json].body.serial), scope);
      FormedElsewhere(old(mem), mem, json, scope);
      result := 0;
    }

    // -------------------------------------------------------------- borrowing

    /** `json_array_append`: the caller keeps its reference. A failed append leaves everything as it was, but that the count
        of the value may be stuck from then on. */
    method ArrayAppend(json: Ref, value: Ref, ghost scope: set<Ref>) returns (result: int)
      requires Ready(this) && json in mem && Closed(owned, scope)
      requires value != NULL ==> value in mem && value in scope
      modifies `mem, `handles, `owned
      ensures Ready(this) && handles == old(handles)
      ensures result == if value != NULL && old(mem)[json].body.ArrayData? && json != value then 0 else -1
      ensures result == 0 ==>
                && mem.Keys == old(mem).Keys && Elsewhere(old(mem), mem, json, {value})
                && mem[json].body == ArrayData(old(mem)[json].body.elems + [value])
      ensures result == -1 ==> mem == Borrowed(old(mem), value)
    {
      hide Formed, Counts, Sum, Complete, Closed, Elsewhere, Released, Cascade, Borrowed, Dropped;
      ghost var m0, h0 := mem, handles;
      NullIsFree(mem, Refs());
      ReadyPositive(this, value);
      Incref(value);
      assert handles - multiset{value} == h0;
      ghost var m1 := mem;
      BorrowedOnce(m0, m1, value);
      result := ArrayAppendNew(json, value, scope);
      if result == 0 {
        BorrowedElsewhere(m0, m1, value, json, m1[json].(body := mem[json].body));
      }
    }

    /** `json_object_set_nocheck`: the caller keeps its reference. */
    method ObjectSetNocheck(json: Ref, key: bytes, value: Ref, ghost scope: set<Ref>) returns (result: int)
      requires Ready(this) && json in mem && Closed(owned, scope)
      requires value != NULL && mem[json].body.ObjectData? && json != value ==>
                 var i := FindSlot(mem[json].body.slots, key);
                 i < |mem[json].body.slots| ==> Outlives(json, Cascade(Raised(mem, value), mem[json].body.slots[i].ref), scope)
      requires value != NULL ==> value in mem && value in scope
      requires forall i :: 0 <= i < |Children(mem[json].body)| ==> Children(mem[json].body)[i] in scope
      modifies `mem, `handles, `owned
      ensures Ready(this) && handles == old(handles)
      ensures result == if value != NULL && old(mem)[json].body.ObjectData? && json != value then 0 else -1
      ensures result == 0 ==>
                && Elsewhere(old(mem), mem, json, scope) && json in mem && mem[json].body.ObjectData?
                && SlotSet(old(mem)[json].body, key, value, mem[json].body)
      ensures result == -1 ==> mem == Borrowed(old(mem), value)
    {
      hide Formed, Counts, Sum, Complete, Closed, Elsewhere, Released, SlotSet, Cascade, Raised, FindSlot;
      ghost var m0, h0 := mem, handles;
      NullIsFree(mem, Refs());
      ReadyPositive(this, value);
      RaisedIs(mem, value);
      Incref(value);
      assert handles - multiset{value} == h0;
      ghost var m1 := mem;
      BorrowedOnce(m0, m1, value);
      result := ObjectSetNewNocheck(json, key, value, scope);
      if result == 0 {
        ElsewhereAfterCount(m0, m1, value, mem, json, scope);
      }
    }
  }

  /** What is left of counting a reference up and down again: nothing, but for a count that got stuck on the way. */
  ghost function Borrowed(mem: map<Ref, Cell>, r: Ref): map<Ref, Cell> {
    if r in mem && mem[r].refcount == SIZE_MAX - 1 then mem[r := mem[r].(refcount := SIZE_MAX)] else mem
  }

  lemma ReadyPositive(h: Heap, r: Ref)
    requires Ready(h)
    ensures NULL !in h.mem && (r in h.mem ==> h.mem[r].refcount > 0)
  {}

  lemma BorrowedOnce(m0: map<Ref, Cell>, m1: map<Ref, Cell>, r: Ref)
    requires NULL !in m0 && (r != NULL ==> r in m0 && m0[r].refcount > 0)
    requires m1 == if r != NULL && m0[r].refcount != SIZE_MAX then m0[r := m0[r].(refcount := m0[r].refcount + 1)] else m0
    ensures (r in m1 ==> m1[r].refcount > 1) && Dropped(m1, r) == Borrowed(m0, r) && m1.Keys == m0.Keys
    ensures forall p :: p in m1 ==> m1[p].body == m0[p].body
  {}

  lemma BorrowedElsewhere(m0: map<Ref, Cell>, m1: map<Ref, Cell>, value: Ref, r: Ref, c: Cell)
    requires m1 == m0 || (value in m0 && m0[value].refcount != SIZE_MAX && m1 == m0[value := m0[value].(refcount := m0[value].refcount + 1)])
    requires r in m0 && c.visited == m1[r].visited
    ensures Elsewhere(m0, m1[r := c], r, {value})
  {}

  lemma ElsewhereAfterCount(m0: map<Ref, Cell>, m1: map<Ref, Cell>, value: Ref, m2: map<Ref, Cell>, r: Ref, scope: set<Ref>)
    requires m1 == m0 || (value in m0 && m0[value].refcount != SIZE_MAX && m1 == m0[value := m0[value].(refcount := m0[value].refcount + 1)])
    requires Elsewhere(m1, m2, r, scope) && value in scope
    ensures Elsewhere(m0, m2, r, scope)
  {}

  // ---------------------------------------------------------------- exactness and leaks

  /** The references owned by cells are the pointers in cells. */
  lemma {:induction false} PointersCounted(h: Heap, x: Ref, n: nat)
    requires h.Settled()
    ensures Sum(h.owned, n)[x] == Pointers(h.mem, x, n)
  {
    if n > 0 {
      PointersCounted(h, x, n - 1);
    }
  }

  /** How many pointers to `x` there are in the cells below address `n`. */
  ghost function Pointers(mem: map<Ref, Cell>, x: Ref, n: nat): nat {
    if n == 0 then 0 else Pointers(mem, x, n - 1) + if n - 1 in mem then multiset(Children(mem[n - 1].body))[x] else 0
  }

  /** Between two calls a count that is not stuck is the number of the caller's references and of the pointers in
      cells, and a cell is there exactly while that number is not zero. */
  lemma CountsAreExact(h: Heap, r: Ref)
    requires h.Settled() && (r in h.mem ==> h.mem[r].refcount != SIZE_MAX)
    ensures r in h.mem <==> h.handles[r] + Pointers(h.mem, r, h.next) > 0
    ensures r in h.mem ==> h.mem[r].refcount == h.handles[r] + Pointers(h.mem, r, h.next)
  {
    PointersCounted(h, r, h.next);
    assert h.Refs()[r] == h.handles[r] + Sum(h.owned, h.next)[r];
  }

  /** No pointer and no reference of the caller's goes to a freed cell. */
  lemma NothingDangles(h: Heap, r: Ref, x: Ref)
    requires h.Settled()
    ensures r in h.mem && x in Children(h.mem[r].body) ==> x in h.mem
    ensures x in h.handles ==> x in h.mem
  {
    assert x in h.handles ==> x in h.Refs();
    if r in h.mem && x in Children(h.mem[r].body) {
      ChildrenThere(h.mem, h.handles, h.owned, h.next, r);
      var i :| 0 <= i < |Children(h.mem[r].body)| && Children(h.mem[r].body)[i] == x;
    }
  }

  /** A scope that is always closed: everything. */
  lemma EverythingIsClosed(h: Heap)
    requires h.Settled()
    ensures Closed(h.owned, h.mem.Keys)
  {
    hide Counts, Sum, Complete, Children;
    NullIsFree(h.mem, h.Refs());
    CompleteChildren(h.mem, h.owned);
    forall p, x | p in h.mem.Keys && p in h.owned && x in h.owned[p] ensures x in h.mem.Keys {
      assert x in Children(h.mem[p].body);
      NothingDangles(h, p, x);
    }
  }

  /** Without cycles a cell is out of reach of what it points to, so that may be released without holding the cell. */
  lemma BelowIsClosed(h: Heap, rank: map<Ref, nat>, bound: nat, r: Ref, x: Ref)
    requires h.Settled() && Ranked(h.mem, rank, bound) && r in h.mem && x in Children(h.mem[r].body)
    ensures var scope := set p | p in rank && rank[p] < rank[r];
            Closed(h.owned, scope) && r !in scope && x in scope
  {
    hide Counts, Sum, Complete, Children;
    var scope := set p | p in rank && rank[p] < rank[r];
    NullIsFree(h.mem, h.Refs());
    CompleteChildren(h.mem, h.owned);
    forall p, y | p in scope && p in h.owned && y in h.owned[p] ensures y in scope {
      assert y in Children(h.mem[p].body);
    }
  }

  /** Each cell points to the next. */
  ghost predicate Path(mem: map<Ref, Cell>, path: seq<Ref>) {
    && path != []
    && (forall i :: 0 <= i < |path| ==> path[i] in mem)
    && (forall i, j :: 0 <= i && j == i + 1 && j < |path| ==> path[j] in Children(mem[path[i]].body))
  }

  /** `rank` goes down along every pointer, so there is no cycle. */
  ghost predicate Ranked(mem: map<Ref, Cell>, rank: map<Ref, nat>, bound: nat) {
    && (forall r :: r in mem ==> r in rank && rank[r] < bound)
    && (forall r, x :: r in mem && x in Children(mem[r].body) ==> x in rank && rank[x] < rank[r])
  }

  lemma {:induction false} Owner(owned: map<Ref, multiset<Ref>>, x: Ref, n: nat) returns (p: Ref)
    requires x in Sum(owned, n)
    ensures p in owned && x in owned[p]
  {
    if n - 1 in owned && x in owned[n - 1] {
      p := n - 1;
    } else {
      p := Owner(owned, x, n - 1);
    }
  }

  /** A cell that the caller has no reference to is pointed to by another. */
  lemma PointedTo(h: Heap, r: Ref) returns (p: Ref)
    requires h.Settled() && r in h.mem && r !in h.handles && h.mem[r].refcount != SIZE_MAX
    ensures p in h.mem && r in Children(h.mem[p].body)
  {
    hide Sum, Children;
    assert r in Sum(h.owned, h.next);
    p := Owner(h.owned, r, h.next);
    assert r in multiset(Children(h.mem[p].body));
  }

  /** A path that comes back to where it starts. */
  ghost predicate OnCycle(mem: map<Ref, Cell>, r: Ref) {
    exists path :: Path(mem, path) && |path| > 1 && path[0] == r == path[|path| - 1]
  }

  ghost predicate LeadsTo(h: Heap, path: seq<Ref>, r: Ref)
    reads h
  {
    && Path(h.mem, path) && path[|path| - 1] == r
    && (path[0] in h.handles || h.mem[path[0]].refcount == SIZE_MAX)
  }

  /** The cell is reached from a reference of the caller's, or from a stuck cell. */
  ghost predicate Reached(h: Heap, r: Ref)
    reads h
  {
    exists path :: LeadsTo(h, path, r)
  }

  lemma PathPrepend(mem: map<Ref, Cell>, p: Ref, path: seq<Ref>)
    requires Path(mem, path) && p in mem && path[0] in Children(mem[p].body)
    ensures Path(mem, [p] + path)
  {}

  lemma PathJoin(mem: map<Ref, Cell>, front: seq<Ref>, path: seq<Ref>, i: nat)
    requires Path(mem, front) && Path(mem, path) && i < |path| && front[|front| - 1] == path[i]
    ensures Path(mem, front + path[i + 1..]) && (front + path[i + 1..])[|front + path[i + 1..]| - 1] == path[|path| - 1]
  {
    var q := front + path[i + 1..];
    forall k, l | 0 <= k && l == k + 1 && l < |q| ensures q[l] in Children(mem[q[k]].body) {
      if k >= |front| - 1 {
        assert q[k] == path[i + 1 + k - |front|] && q[l] == path[i + 1 + l - |front|];
      }
    }
  }

  lemma PathCloses(mem: map<Ref, Cell>, path: seq<Ref>, i: nat)
    requires Path(mem, path) && i < |path| && path[0] in Children(mem[path[i]].body)
    ensures OnCycle(mem, path[i])
  {
    var cycle := [path[i]] + path[..i + 1];
    assert cycle[1..] == path[..i + 1];
    assert Path(mem, path[..i + 1]);
    PathPrepend(mem, path[i], path[..i + 1]);
    assert cycle[|cycle| - 1] == path[i];
  }

  ghost predicate Lists(path: seq<Ref>, seen: set<Ref>) {
    forall p :: p in seen <==> p in path
  }

  lemma ListsAt(path: seq<Ref>, seen: set<Ref>, p: Ref) returns (i: nat)
    requires Lists(path, seen) && p in seen
    ensures i < |path| && path[i] == p
  {
    i :| 0 <= i < |path| && path[i] == p;
  }

  lemma ListsMore(path: seq<Ref>, seen: set<Ref>, p: Ref)
    requires Lists(path, seen)
    ensures Lists([p] + path, seen + {p})
  {}

  /** Where a path crosses a cell that is reached, the cell at its end is reached. */
  lemma Detour(h: Heap, path: seq<Ref>, i: nat)
    requires Path(h.mem, path) && i < |path| && Reached(h, path[i])
    ensures Reached(h, path[|path| - 1])
  {
    hide Path, Reached;
    var front := ReachedFrom(h, path[i]);
    PathJoin(h.mem, front, path, i);
    PathFacts(h.mem, front);
    ReachedBy(h, front + path[i + 1..]);
  }

  ghost predicate CyclesReached(h: Heap)
    reads h
  {
    forall r :: r in h.mem && OnCycle(h.mem, r) ==> Reached(h, r)
  }

  lemma CycleReached(h: Heap, r: Ref)
    requires CyclesReached(h) && r in h.mem && OnCycle(h.mem, r)
    ensures Reached(h, r)
  {}

  lemma OneMoreSeen(all: set<Ref>, seen: set<Ref>, p: Ref)
    requires p in all && p !in seen
    ensures |all - (seen + {p})| < |all - seen|
  {
    assert all - (seen + {p}) == all - seen - {p};
  }

  /** Walks back from the start of `path` until a reference from outside is found, or the walk meets itself. */
  lemma {:induction false} WalkBack(h: Heap, path: seq<Ref>, seen: set<Ref>)
    requires h.Settled() && Path(h.mem, path) && Lists(path, seen) && seen <= h.mem.Keys
    requires CyclesReached(h)
    ensures Reached(h, path[|path| - 1])
    decreases |h.mem.Keys - seen|
  {
    hide *;
    PathFacts(h.mem, path);
    if path[0] in h.handles || h.mem[path[0]].refcount == SIZE_MAX {
      ReachedBy(h, path);
    } else {
      var p := PointedTo(h, path[0]);
      if p in seen {
        var i := ListsAt(path, seen, p);
        PathCloses(h.mem, path, i);
        CycleReached(h, p);
        Detour(h, path, i);
      } else {
        PathPrepend(h.mem, p, path);
        ListsMore(path, seen, p);
        OneMoreSeen(h.mem.Keys, seen, p);
        WalkBack(h, [p] + path, seen + {p});
      }
    }
  }

  lemma PathFacts(mem: map<Ref, Cell>, path: seq<Ref>)
    requires Path(mem, path)
    ensures path != [] && forall i :: 0 <= i < |path| ==> path[i] in mem
  {}

  lemma ReachedBy(h: Heap, path: seq<Ref>)
    requires Path(h.mem, path) && (path[0] in h.handles || h.mem[path[0]].refcount == SIZE_MAX)
    ensures Reached(h, path[|path| - 1])
  {
    assert LeadsTo(h, path, path[|path| - 1]);
  }

  lemma ReachedFrom(h: Heap, r: Ref) returns (path: seq<Ref>)
    requires Reached(h, r)
    ensures Path(h.mem, path) && path[|path| - 1] == r
    ensures path[0] in h.handles || h.mem[path[0]].refcount == SIZE_MAX
  {
    path :| LeadsTo(h, path, r);
  }

  lemma PathOfOne(mem: map<Ref, Cell>, r: Ref)
    requires r in mem
    ensures Path(mem, [r])
  {}

  /** Only cycles leak: every cell is reached from a reference of the caller's or from a stuck cell exactly if the cells
      on cycles are. */
  lemma OnlyCyclesLeak(h: Heap)
    requires h.Settled()
    ensures (forall r :: r in h.mem ==> Reached(h, r)) <==> CyclesReached(h)
  {
    hide Counts, Sum, Complete, Children, Path, OnCycle, Reached;
    if CyclesReached(h) {
      forall r | r in h.mem ensures Reached(h, r) {
        PathOfOne(h.mem, r);
        WalkBack(h, [r], {r});
      }
    }
  }

  lemma {:induction false} RankFalls(mem: map<Ref, Cell>, rank: map<Ref, nat>, bound: nat, path: seq<Ref>, i: nat)
    requires Ranked(mem, rank, bound) && Path(mem, path) && 0 < i < |path|
    ensures rank[path[i]] < rank[path[0]]
  {
    if i > 1 {
      RankFalls(mem, rank, bound, path, i - 1);
    }
    assert path[i] in Children(mem[path[i - 1]].body);
  }

  lemma NoCycle(mem: map<Ref, Cell>, rank: map<Ref, nat>, bound: nat, c: Ref)
    requires Ranked(mem, rank, bound)
    ensures !OnCycle(mem, c)
  {
    if path: seq<Ref> :| Path(mem, path) && |path| > 1 && path[0] == c == path[|path| - 1] {
      RankFalls(mem, rank, bound, path, |path| - 1);
    }
  }

  /** So without cycles nothing leaks. */
  lemma NothingLeaks(h: Heap, rank: map<Ref, nat>, bound: nat, r: Ref) returns (path: seq<Ref>)
    requires h.Settled() && Ranked(h.mem, rank, bound) && r in h.mem
    ensures Path(h.mem, path) && path[|path| - 1] == r
    ensures path[0] in h.handles || h.mem[path[0]].refcount == SIZE_MAX
  {
    hide Counts, Sum, Complete, Children, Path, OnCycle, Reached, Ranked;
    forall c | c in h.mem ensures !OnCycle(h.mem, c) {
      NoCycle(h.mem, rank, bound, c);
    }
    OnlyCyclesLeak(h);
    path := ReachedFrom(h, r);
  }

  lemma NoChildren(b: Body)
    ensures b == ArrayData([]) ==> Children(b) == []
  {}

  /** The reference to `b` goes into the array `a`. */
  method Link(h: Heap, a: Ref, b: Ref)
    requires Ready(h) && a in h.mem && h.mem[a] == Cell(1, false, ArrayData([])) && b in h.mem && a != b && b in h.handles
    modifies h`mem, h`handles, h`owned
    ensures Ready(h) && h.handles == old(h.handles) - multiset{b}
    ensures h.mem == old(h.mem)[a := Cell(1, false, ArrayData([b]))]
  {
    hide Counts, Sum, Complete, Closed, Children;
    EverythingIsClosed(h);
    NullIsFree(h.mem, h.Refs());
    var r := h.ArrayAppendNew(a, b, h.mem.Keys);
    assert [] + [b] == [b];
  }

  /** Two arrays in one another, each referred to by the other only. */
  ghost predicate Ring(mem: map<Ref, Cell>, a: Ref, b: Ref) {
    a in mem && mem[a] == Cell(1, false, ArrayData([b])) && b in mem && mem[b] == Cell(1, false, ArrayData([a])) && a != b
  }

  /** Releasing the one array of such a ring frees the other: `json_array_set_new` on that one would go on writing into it. */
  lemma FreedInUse(mem: map<Ref, Cell>, a: Ref, b: Ref)
    requires Ring(mem, a, b)
    ensures a !in Cascade(mem, b)
  {
    hide CascadeAll;
    var m1 := mem[b := mem[b].(refcount := 0)];
    var m2 := m1[a := m1[a].(refcount := 0)];
    CascadeOne(m1, a);
    CascadeCount(mem, b, m1[b]);
    CascadeCount(m1, a, m2[a]);
    CascadeOne(m2, b);
  }

  /** With a reference to the released array from outside, the ring stays, although its other array is not held. */
  lemma RingOutlives(mem: map<Ref, Cell>, a: Ref, b: Ref)
    requires b in mem && mem[b].refcount == 2 && Ring(mem[b := mem[b].(refcount := 1)], a, b)
    ensures Cascade(mem, b) == mem[b := mem[b].(refcount := 1)]
  {}

  lemma CascadeOne(mem: map<Ref, Cell>, r: Ref)
    ensures CascadeAll(mem, [r], 0) == Cascade(mem, r)
  {
    assert CascadeAll(Cascade(mem, r), [r], 1) == Cascade(mem, r);
  }

  lemma LongPathStart(mem: map<Ref, Cell>, path: seq<Ref>)
    requires Path(mem, path)
    ensures |path| > 1 ==> Children(mem[path[0]].body) != []
  {
    assert |path| > 1 ==> path[1] in Children(mem[path[0]].body);
  }

  /** The constants and the ring. */
  ghost function RingHeap(a: Ref, b: Ref): map<Ref, Cell> {
    StaticCells()[a := Cell(1, false, ArrayData([b]))][b := Cell(1, false, ArrayData([a]))]
  }

  lemma RingSteps(mem: map<Ref, Cell>, a: Ref, b: Ref)
    requires a != b
    ensures var c := Cell(1, false, ArrayData([]));
            var x, y := Cell(1, false, ArrayData([b])), Cell(1, false, ArrayData([a]));
            mem[a := c][b := c][a := x][b := y] == mem[a := x][b := y]
  {}

  lemma RingUnreached(h: Heap, a: Ref, b: Ref)
    requires a != b && h.mem == RingHeap(a, b) && h.handles == multiset{}
    ensures Ring(h.mem, a, b) && !Reached(h, a)
  {
    forall path ensures !LeadsTo(h, path, a) {
      if Path(h.mem, path) {
        LongPathStart(h.mem, path);
      }
    }
  }

  method LinkBoth() returns (h: Heap, a: Ref, b: Ref)
    ensures fresh(h) && Ready(h) && h.handles == multiset{} && a != b && h.mem == RingHeap(a, b)
  {
    hide Counts, Sum, Complete, Closed, Formed, Children, StaticCells, Ready;
    h := new Heap();
    NoChildren(ArrayData([]));
    a := h.New(ArrayData([]));
    b := h.New(ArrayData([]));
    Link(h, a, b);
    Link(h, b, a);
    RingSteps(StaticCells(), a, b);
  }

  /** With a cycle something can leak: two arrays in one another, and no reference from outside. */
  method LeakyCycle() returns (h: Heap, a: Ref, b: Ref)
    ensures fresh(h) && Ready(h) && h.handles == multiset{}
    ensures Ring(h.mem, a, b) && !Reached(h, a) && a !in Cascade(h.mem, b)
  {
    hide *;
    h, a, b := LinkBoth();
    RingUnreached(h, a, b);
    FreedInUse(h.mem, a, b);
  }
}
