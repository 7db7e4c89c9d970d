/** `json_equal` and `json_deep_copy` of libjansson/value.c on the value graph. */
module HeapValues {
  import opened Options
  import opened Utf8
  import opened Values
  import opened Heaps
  import opened HeapDump
  import RoundTrip
  import Reload

  // ---------------------------------------------------------------- trees and places

  /** Where a tree is found below a path, the same tree is found below a shorter one. */
  lemma {:induction false} TreeBelowLess(mem: map<Ref, Cell>, path: set<Ref>, less: set<Ref>, r: Ref)
    requires less <= path && Tree(mem, path, r).Some?
    ensures Tree(mem, less, r) == Tree(mem, path, r)
    decreases |mem.Keys - path|
  {
    if r !in path && (mem[r].body.ArrayData? || mem[r].body.ObjectData?) {
      OneMore(mem, path, r);
      forall x | Tree(mem, path + {r}, x).Some? ensures Tree(mem, less + {r}, x) == Tree(mem, path + {r}, x) {
        TreeBelowLess(mem, path + {r}, less + {r}, x);
      }
      match mem[r].body
      case ArrayData(elems) =>
        var a, b := TreeElems(mem, path + {r}, elems), TreeElems(mem, less + {r}, elems);
        assert b.Some? && a.value == b.value;
      case ObjectData(slots, _) =>
        var a, b := TreeMembers(mem, path + {r}, slots), TreeMembers(mem, less + {r}, slots);
        assert b.Some? && a.value == b.value;
      case _ =>
    }
  }

  /** No pointer leads out of `area`. */
  ghost predicate Island(mem: map<Ref, Cell>, area: set<Ref>) {
    forall p, x :: p in area && p in mem && x in Children(mem[p].body) ==> x in area
  }

  /** A tree depends only on the cells that are reached. */
  lemma {:induction false} TreeOnIsland(m0: map<Ref, Cell>, m1: map<Ref, Cell>, area: set<Ref>, p0: set<Ref>, p1: set<Ref>, r: Ref)
    requires Island(m0, area) && r in area && forall p :: p in area ==> (p in p0 <==> p in p1)
    requires forall p :: p in area ==> p in m0 && p in m1 && m0[p].body == m1[p].body
    ensures Tree(m0, p0, r) == Tree(m1, p1, r)
    decreases |area - p0|
  {
    if r !in p0 && (m0[r].body.ArrayData? || m0[r].body.ObjectData?) {
      assert area - (p0 + {r}) == area - p0 - {r};
      forall x | x in Children(m0[r].body) ensures Tree(m0, p0 + {r}, x) == Tree(m1, p1 + {r}, x) {
        TreeOnIsland(m0, m1, area, p0 + {r}, p1 + {r}, x);
      }
      match m0[r].body
      case ArrayData(elems) =>
        SameElems(m0, m1, p0 + {r}, p1 + {r}, elems);
      case ObjectData(slots, _) =>
        assert forall i :: 0 <= i < |slots| ==> RefsOf(slots)[i] in Children(m0[r].body);
        SameMembers(m0, m1, p0 + {r}, p1 + {r}, slots);
      case _ =>
    }
  }

  lemma SameElems(m0: map<Ref, Cell>, m1: map<Ref, Cell>, p0: set<Ref>, p1: set<Ref>, elems: seq<Ref>)
    requires forall i :: 0 <= i < |elems| ==> Tree(m0, p0, elems[i]) == Tree(m1, p1, elems[i])
    ensures TreeElems(m0, p0, elems) == TreeElems(m1, p1, elems)
  {
    var a, b := TreeElems(m0, p0, elems), TreeElems(m1, p1, elems);
    assert a.Some? ==> a.value == b.value;
  }

  lemma SameMembers(m0: map<Ref, Cell>, m1: map<Ref, Cell>, p0: set<Ref>, p1: set<Ref>, slots: seq<Slot>)
    requires forall i :: 0 <= i < |slots| ==> Tree(m0, p0, RefsOf(slots)[i]) == Tree(m1, p1, RefsOf(slots)[i])
    ensures TreeMembers(m0, p0, slots) == TreeMembers(m1, p1, slots)
  {
    var a, b := TreeMembers(m0, p0, slots), TreeMembers(m1, p1, slots);
    assert forall i :: 0 <= i < |slots| ==> RefsOf(slots)[i] == slots[i].ref;
    assert a.Some? ==> a.value == b.value;
  }

  /** The elements of an array and the members of an object are trees of their own. */
  lemma TreeParts(mem: map<Ref, Cell>, r: Ref)
    requires Tree(mem, {}, r).Some?
    ensures r in mem
    ensures mem[r].body.ArrayData? ==>
              var t, elems := Tree(mem, {}, r).value, mem[r].body.elems;
              && t.Array? && |t.elems| == |elems|
              && forall i :: 0 <= i < |elems| ==> Tree(mem, {}, elems[i]) == Some(t.elems[i])
    ensures mem[r].body.ObjectData? ==>
              var t, slots := Tree(mem, {}, r).value, mem[r].body.slots;
              && t.Object? && |t.members| == |slots|
              && forall i :: 0 <= i < |slots| ==>
                   && Tree(mem, {}, slots[i].ref) == Some(t.members[i].value)
                   && t.members[i].key == slots[i].key && t.members[i].serial == slots[i].serial
  {
    match mem[r].body
    case ArrayData(elems) =>
      forall i | 0 <= i < |elems| ensures Tree(mem, {}, elems[i]) == Tree(mem, {} + {r}, elems[i]) {
        TreeBelowLess(mem, {} + {r}, {}, elems[i]);
      }
    case ObjectData(slots, _) =>
      forall i | 0 <= i < |slots| ensures Tree(mem, {}, slots[i].ref) == Tree(mem, {} + {r}, slots[i].ref) {
        TreeBelowLess(mem, {} + {r}, {}, slots[i].ref);
      }
    case _ =>
  }

  // ---------------------------------------------------------------- equality

  /** `json_typeof`. */
  function TypeOf(b: Body): (n: nat) {
    match b
    case ObjectData(_, _) => 0
    case ArrayData(_) => 1
    case StringData(_) => 2
    case IntegerData(_) => 3
    case RealData(_) => 4
    case TrueData => 5
    case FalseData => 6
    case NullData => 7
  }

  /** `json_equal`; NULL is equal to nothing. The trees of the two cells bound the recursion. */
  method JsonEqual(h: Heap, a: Ref, b: Ref, ghost t: Json, ghost u: Json) returns (r: bool)
    requires NULL !in h.mem && Constants(h.mem)
    requires a != NULL ==> Tree(h.mem, {}, a) == Some(t) && Proper(t)
    requires b != NULL ==> Tree(h.mem, {}, b) == Some(u) && Proper(u)
    ensures r <==> a != NULL && b != NULL && Equal(t, u)
    decreases t, 2
  {
    hide Proper, Constants, TreeElems, TreeMembers;
    if a == NULL || b == NULL {
      return false;
    }
    var c, d := h.mem[a].body, h.mem[b].body;
    if TypeOf(c) != TypeOf(d) {
      return false;
    }
    if a == b {
      EqualReflexive(t);
      return true;
    }
    match c
    case ObjectData(_, _) => r := JsonObjectEqual(h, a, b, t, u);
    case ArrayData(_) => r := JsonArrayEqual(h, a, b, t, u);
    case StringData(s) => r := s == d.s;
    case IntegerData(n) => r := n == d.n;
    case RealData(text) => r := text == d.text;
    case _ =>
      OneConstant(h.mem, a, b);
      r := false;
  }

  lemma OneConstant(mem: map<Ref, Cell>, a: Ref, b: Ref)
    requires Constants(mem) && a in mem && b in mem && TypeOf(mem[a].body) == TypeOf(mem[b].body) >= 5
    ensures a == b
  {}

  method JsonArrayEqual(h: Heap, a: Ref, b: Ref, ghost t: Json, ghost u: Json) returns (r: bool)
    requires NULL !in h.mem && Constants(h.mem)
    requires Tree(h.mem, {}, a) == Some(t) && Proper(t) && h.mem[a].body.ArrayData?
    requires Tree(h.mem, {}, b) == Some(u) && Proper(u) && h.mem[b].body.ArrayData?
    ensures r <==> Equal(t, u)
    decreases t, 1
  {
    hide Constants, Tree;
    TreeParts(h.mem, a);
    TreeParts(h.mem, b);
    var size := |h.mem[a].body.elems|;
    if size != |h.mem[b].body.elems| {
      return false;
    }
    var i := 0;
    while i < size
      invariant i <= size && forall k :: 0 <= k < i ==> Equal(t.elems[k], u.elems[k])
    {
      NotNullTree(h.mem, h.mem[a].body.elems[i], t.elems[i]);
      NotNullTree(h.mem, h.mem[b].body.elems[i], u.elems[i]);
      var same := JsonEqual(h, h.mem[a].body.elems[i], h.mem[b].body.elems[i], t.elems[i], u.elems[i]);
      if !same {
        return false;
      }
      i := i + 1;
    }
    r := true;
  }

  /** Every pair of the one object is looked up in the other; sizes settle the rest. */
  method JsonObjectEqual(h: Heap, a: Ref, b: Ref, ghost t: Json, ghost u: Json) returns (r: bool)
    requires NULL !in h.mem && Constants(h.mem)
    requires Tree(h.mem, {}, a) == Some(t) && Proper(t) && h.mem[a].body.ObjectData?
    requires Tree(h.mem, {}, b) == Some(u) && Proper(u) && h.mem[b].body.ObjectData?
    ensures r <==> Equal(t, u)
    decreases t, 1
  {
    hide Constants, Tree;
    TreeParts(h.mem, a);
    TreeParts(h.mem, b);
    if |h.mem[a].body.slots| != |h.mem[b].body.slots| {
      return false;
    }
    var i := 0;
    while i < |h.mem[a].body.slots|
      invariant i <= |h.mem[a].body.slots|
      invariant forall k :: 0 <= k < i ==> EqualAt(t.members[k].key, t.members[k].value, u.members)
    {
      var slot := h.mem[a].body.slots[i];
      var j := FindSlot(h.mem[b].body.slots, slot.key);
      FoundAlike(h.mem[b].body.slots, u.members, slot.key);
      var value2 := if j < |h.mem[b].body.slots| then h.mem[b].body.slots[j].ref else NULL;
      ghost var v := if j < |h.mem[b].body.slots| then u.members[j].value else Null;
      NotNullTree(h.mem, value2, v);
      NotNullTree(h.mem, slot.ref, t.members[i].value);
      var same := JsonEqual(h, slot.ref, value2, t.members[i].value, v);
      if !same {
        assert !EqualAt(t.members[i].key, t.members[i].value, u.members);
        return false;
      }
      i := i + 1;
    }
    r := true;
  }

  lemma FoundAlike(slots: seq<Slot>, ms: seq<Member>, key: bytes)
    requires |ms| == |slots| && forall i :: 0 <= i < |ms| ==> ms[i].key == slots[i].key
    ensures FindSlot(slots, key) == Find(ms, key)
  {
    var i, j := FindSlot(slots, key), Find(ms, key);
    assert i < |slots| ==> ms[i].key == key;
    assert j < |ms| ==> slots[j].key == key;
  }

  lemma NotNullTree(mem: map<Ref, Cell>, r: Ref, t: Json)
    requires NULL !in mem && (r != NULL ==> Tree(mem, {}, r) == Some(t))
    ensures Tree(mem, {}, r).Some? <==> r != NULL
  {}

  // ---------------------------------------------------------------- copying

  /** `r` is a cell that was not there before, or one of the three constants. */
  ghost predicate NewOrConstant(m0: map<Ref, Cell>, m1: map<Ref, Cell>, r: Ref) {
    r in m1 && r != NULL && (r !in m0 || 1 <= r <= 3)
  }

  /** What was there is unchanged, counts and all, and new cells point to new cells and constants only. */
  ghost predicate Grown(m0: map<Ref, Cell>, m1: map<Ref, Cell>) {
    && (forall p :: p in m0 ==> p in m1 && m1[p] == m0[p])
    && (forall p, x :: p in m1 && p !in m0 && x in Children(m1[p].body) ==> NewOrConstant(m0, m1, x))
  }

  ghost predicate NotPointed(mem: map<Ref, Cell>, r: Ref) {
    forall p, x :: p in mem && x in Children(mem[p].body) ==> x != r
  }

  lemma GrownAgain(m0: map<Ref, Cell>, m1: map<Ref, Cell>, m2: map<Ref, Cell>, r: Ref)
    requires Grown(m0, m1) && Grown(m1, m2) && r in m1 && r !in m0 && r > 3 && NotPointed(m1, r)
    ensures Grown(m0, m2) && NotPointed(m2, r)
  {
    forall p, x | p in m2 && p !in m0 && x in Children(m2[p].body) ensures NewOrConstant(m0, m2, x) {
      if p in m1 {
        assert x in Children(m1[p].body);
        assert NewOrConstant(m0, m1, x);
      } else {
        assert NewOrConstant(m1, m2, x);
      }
    }
    forall p, x | p in m2 && x in Children(m2[p].body) ensures x != r {
      if p in m1 {
        assert x in Children(m1[p].body);
      } else {
        assert NewOrConstant(m1, m2, x);
      }
    }
  }

  /** Trees stay as they are while the heap grows. */
  lemma TreeGrown(m0: map<Ref, Cell>, m1: map<Ref, Cell>, r: Ref)
    requires NoDangling(m0) && Grown(m0, m1) && r in m0
    ensures Tree(m1, {}, r) == Tree(m0, {}, r)
  {
    TreeOnIsland(m0, m1, m0.Keys, {}, {}, r);
  }

  /** Trees stay as they are while a cell that nothing points to gets new contents. */
  lemma TreeBeside(m0: map<Ref, Cell>, m1: map<Ref, Cell>, r: Ref, path: set<Ref>, x: Ref)
    requires NoDangling(m0) && NotPointed(m0, r) && x in m0 && x != r && path <= {r}
    requires m1.Keys == m0.Keys && forall p :: p in m0 && p != r ==> m1[p].body == m0[p].body
    ensures Tree(m1, path, x) == Tree(m0, {}, x)
  {
    TreeOnIsland(m0, m1, m0.Keys - {r}, {}, path, x);
  }

  /** A new container without contents. */
  method NewContainer(h: Heap, body: Body) returns (r: Ref)
    requires Ready(h) && (body == ArrayData([]) || body == ObjectData([], 0))
    modifies h
    ensures Ready(h) && r > 3 && r !in old(h.mem) && h.handles == old(h.handles) + multiset{r}
    ensures h.mem == old(h.mem)[r := Cell(1, false, body)]
    ensures Grown(old(h.mem), h.mem) && NotPointed(h.mem, r) && NoDangling(h.mem)
  {
    hide Ready, Grown, NotPointed, NoDangling;
    ghost var m0 := h.mem;
    ReadyParts(h);
    r := h.New(body);
    NewAlone(m0, r, body);
    ReadyParts(h);
  }

  lemma NewAlone(m0: map<Ref, Cell>, r: Ref, body: Body)
    requires Singletons(m0) && NoDangling(m0) && r !in m0 && r != NULL && Children(body) == []
    ensures var m1 := m0[r := Cell(1, false, body)];
            NoDangling(m1) && Grown(m0, m1) && NotPointed(m1, r) && r > 3
  {}

  /** Equal, with the members of every object numbered in the order in which `t` lists them, and listed in any order. */
  ghost predicate Renumbered(t: Json, w: Json) {
    Equal(t, w) && Reload.Shuffled(RoundTrip.Loaded(t), w)
  }

  /** `r` is a copy of what denoted `t`: equal to it but for serials and layout, and sharing no cell with it but constants. */
  ghost predicate Copied(m0: map<Ref, Cell>, m1: map<Ref, Cell>, r: Ref, t: Json) {
    NewOrConstant(m0, m1, r) && Tree(m1, {}, r).Some? && Renumbered(t, Tree(m1, {}, r).value)
  }

  /** `json_deep_copy`: nothing that was there changes. */
  method DeepCopy(h: Heap, json: Ref, ghost t: Json) returns (r: Ref)
    requires Ready(h) && (json != NULL ==> Tree(h.mem, {}, json) == Some(t))
    modifies h
    ensures Ready(h) && Grown(old(h.mem), h.mem)
    ensures json == NULL ==> r == NULL && h.handles == old(h.handles)
    ensures json != NULL ==> h.handles == old(h.handles) + multiset{r} && Copied(old(h.mem), h.mem, r, t)
    decreases t, 3
  {
    hide Tree, Grown, Ready, Renumbered;
    GrownRefl(h.mem);
    if json == NULL {
      return NULL;
    }
    TreeParts(h.mem, json);
    LeafTree(h.mem, json, t);
    ReadyParts(h);
    var body := h.mem[json].body;
    match body
    case ObjectData(_, _) => r := CopyObject(h, json, t);
    case ArrayData(_) => r := CopyArray(h, json, t);
    case StringData(_) => r := CopyLeaf(h, body, t);
    case IntegerData(_) => r := CopyLeaf(h, body, t);
    case RealData(_) => r := CopyLeaf(h, body, t);
    case _ =>
      r := json;
      ConstantStuck(h.mem, json);
      ghost var m0 := h.mem;
      ClaimConstant(h, json);
  }

  ghost method ClaimConstant(h: Heap, r: Ref)
    requires Ready(h) && r in h.mem && h.mem[r].refcount == SIZE_MAX
    modifies h
    ensures Ready(h) && h.mem == old(h.mem) && h.handles == old(h.handles) + multiset{r}
  {
    hide Formed;
    h.Claim(r);
  }

  /** What a cell that is no container denotes. */
  lemma LeafTree(mem: map<Ref, Cell>, r: Ref, t: Json)
    requires Tree(mem, {}, r) == Some(t) && r in mem
    ensures mem[r].body.StringData? ==> t == String(mem[r].body.s)
    ensures mem[r].body.IntegerData? ==> t == Integer(mem[r].body.n)
    ensures mem[r].body.RealData? ==> t == Real(mem[r].body.text)
    ensures !mem[r].body.ArrayData? && !mem[r].body.ObjectData? ==> Renumbered(t, t)
  {}

  lemma GrownRefl(m: map<Ref, Cell>)
    ensures Grown(m, m)
  {}

  lemma ConstantStuck(mem: map<Ref, Cell>, r: Ref)
    requires Singletons(mem) && Constants(mem) && r in mem && TypeOf(mem[r].body) >= 5
    ensures mem[r].refcount == SIZE_MAX && 1 <= r <= 3
  {}

  /** `json_string_copy`, `json_integer_copy` and `json_real_copy`. */
  method CopyLeaf(h: Heap, body: Body, ghost t: Json) returns (r: Ref)
    requires Ready(h) && (body.StringData? || body.IntegerData? || body.RealData?)
    requires t == (match body case StringData(s) => String(s) case IntegerData(n) => Integer(n) case RealData(text) => Real(text) case _ => Null)
    modifies h
    ensures Ready(h) && Grown(old(h.mem), h.mem) && h.handles == old(h.handles) + multiset{r} && Copied(old(h.mem), h.mem, r, t)
  {
    hide Tree, Grown, NotPointed, NoDangling, Ready, Renumbered, Sound;
    ghost var m0 := h.mem;
    ReadyParts(h);
    r := h.New(body);
    NewAlone(m0, r, body);
    NewLeaf(m0, r, body, t);
  }

  lemma NewLeaf(m0: map<Ref, Cell>, r: Ref, body: Body, t: Json)
    requires body.StringData? || body.IntegerData? || body.RealData?
    requires t == (match body case StringData(s) => String(s) case IntegerData(n) => Integer(n) case RealData(text) => Real(text) case _ => Null)
    requires r !in m0 && r != NULL
    ensures Copied(m0, m0[r := Cell(1, false, body)], r, t)
  {}

  /** The first elements are copied: `es` holds the copies, which denote `ws`. */
  ghost predicate ElemsCopied(mem: map<Ref, Cell>, es: seq<Ref>, ws: seq<Json>, ts: seq<Json>) {
    && |es| == |ws| <= |ts|
    && (forall k :: 0 <= k < |es| ==> es[k] in mem && Tree(mem, {}, es[k]) == Some(ws[k]) && Renumbered(ts[k], ws[k]))
  }

  /** A container gets one more new cell. */
  lemma Attached(m0: map<Ref, Cell>, m1: map<Ref, Cell>, r: Ref, c: Ref, body: Body)
    requires Grown(m0, m1) && NotPointed(m1, r) && r in m1 && r !in m0 && r > 3 && NewOrConstant(m0, m1, c) && c != r
    requires forall x :: x in Children(body) ==> x == c || x in Children(m1[r].body)
    ensures var m2 := m1[r := m1[r].(body := body)];
            Grown(m0, m2) && NotPointed(m2, r)
  {
    var m2 := m1[r := m1[r].(body := body)];
    forall p, x | p in m2 && p !in m0 && x in Children(m2[p].body) ensures NewOrConstant(m0, m2, x) {
      assert p != r ==> x in Children(m1[p].body);
      assert NewOrConstant(m0, m1, x);
    }
    forall p, x | p in m2 && x in Children(m2[p].body) ensures x != r {
      assert p != r ==> x in Children(m1[p].body);
    }
  }

  lemma CopiedLater(m0: map<Ref, Cell>, m1: map<Ref, Cell>, m2: map<Ref, Cell>, c: Ref)
    requires Grown(m0, m1) && NewOrConstant(m1, m2, c)
    ensures NewOrConstant(m0, m2, c)
  {}

  lemma ElemsCopiedGrown(m1: map<Ref, Cell>, m2: map<Ref, Cell>, es: seq<Ref>, ws: seq<Json>, ts: seq<Json>)
    requires NoDangling(m1) && Grown(m1, m2) && ElemsCopied(m1, es, ws, ts)
    ensures ElemsCopied(m2, es, ws, ts)
  {
    hide Tree, Renumbered;
    forall k | 0 <= k < |es| ensures Tree(m2, {}, es[k]) == Tree(m1, {}, es[k]) {
      TreeGrown(m1, m2, es[k]);
    }
  }

  lemma ElemsCopiedMore(m2: map<Ref, Cell>, m3: map<Ref, Cell>, r: Ref, es: seq<Ref>, ws: seq<Json>, ts: seq<Json>, c: Ref)
    requires NoDangling(m2) && NotPointed(m2, r) && ElemsCopied(m2, es, ws, ts) && |es| < |ts| && c in m2 && c != r
    requires r in m2 && r !in es && m3.Keys == m2.Keys && forall p :: p in m2 && p != r ==> m3[p].body == m2[p].body
    requires Tree(m2, {}, c).Some? && Renumbered(ts[|es|], Tree(m2, {}, c).value)
    ensures ElemsCopied(m3, es + [c], ws + [Tree(m2, {}, c).value], ts)
  {
    hide Tree, Renumbered;
    forall k | 0 <= k < |es| ensures Tree(m3, {}, es[k]) == Tree(m2, {}, es[k]) {
      TreeBeside(m2, m3, r, {}, es[k]);
    }
    TreeBeside(m2, m3, r, {}, c);
  }

  lemma ArrayCopied(m0: map<Ref, Cell>, mem: map<Ref, Cell>, r: Ref, es: seq<Ref>, ws: seq<Json>, t: Json)
    requires NoDangling(mem) && Building(m0, mem, r) && mem[r].body == ArrayData(es)
    requires t.Array? && ElemsCopied(mem, es, ws, t.elems) && |es| == |t.elems|
    ensures Copied(m0, mem, r, t) && Grown(m0, mem)
  {
    forall k | 0 <= k < |es| ensures Tree(mem, {} + {r}, es[k]) == Some(ws[k]) {
      assert es[k] in Children(mem[r].body);
      TreeBeside(mem, mem, r, {r}, es[k]);
      assert {} + {r} == {r};
    }
    var a := TreeElems(mem, {} + {r}, es);
    assert a.Some? && a.value == ws;
  }

  /** The container `r` is being filled with copies; nothing points to it yet. */
  ghost predicate Building(m0: map<Ref, Cell>, m: map<Ref, Cell>, r: Ref) {
    Grown(m0, m) && NotPointed(m, r) && r in m && r !in m0 && r > 3
  }

  /** Copy one value for the container `r`. */
  method CopyChild(h: Heap, x: Ref, r: Ref, ghost m0: map<Ref, Cell>, ghost v: Json) returns (c: Ref)
    requires Ready(h) && Building(m0, h.mem, r) && NoDangling(m0) && x in m0 && Tree(m0, {}, x) == Some(v)
    modifies h
    ensures Ready(h) && Building(m0, h.mem, r) && Grown(old(h.mem), h.mem) && h.mem[r] == old(h.mem)[r]
    ensures h.handles == old(h.handles) + multiset{c} && c != r && NewOrConstant(m0, h.mem, c)
    ensures Tree(h.mem, {}, c).Some? && Renumbered(v, Tree(h.mem, {}, c).value)
    decreases v, 4
  {
    hide Tree, Grown, NotPointed, NoDangling, Ready, Renumbered;
    ghost var m1 := h.mem;
    TreeGrown(m0, m1, x);
    ReadyParts(h);
    GrownCell(m0, m1, x);
    c := DeepCopy(h, x, v);
    GrownCell(m1, h.mem, r);
    GrownAgain(m0, m1, h.mem, r);
    CopiedLater(m0, m1, h.mem, c);
  }

  method CopyElem(h: Heap, json: Ref, r: Ref, i: nat, ghost m0: map<Ref, Cell>, ghost ws: seq<Json>, ghost t: Json) returns (ghost w: Json)
    requires Ready(h) && Building(m0, h.mem, r) && NoDangling(m0) && json in m0 && Tree(m0, {}, json) == Some(t)
    requires m0[json].body.ArrayData? && i < |m0[json].body.elems|
    requires h.mem[r].body.ArrayData? && |h.mem[r].body.elems| == i && t.Array? && ElemsCopied(h.mem, h.mem[r].body.elems, ws, t.elems)
    modifies h
    ensures Ready(h) && Building(m0, h.mem, r) && h.handles == old(h.handles)
    ensures h.mem[r].body.ArrayData? && |h.mem[r].body.elems| == i + 1 && ElemsCopied(h.mem, h.mem[r].body.elems, ws + [w], t.elems)
    decreases t, 1
  {
    hide Tree, Grown, NotPointed, NoDangling, Ready, Renumbered, ElemsCopied, Building, NewOrConstant;
    BuildingCell(m0, h.mem, r);
    ghost var m1, es := h.mem, h.mem[r].body.elems;
    TreeParts(m0, json);
    BuildingOld(m0, m1, r, json);
    NoDanglingReady(h);
    ElemIn(m0, json, i);
    var c := CopyChild(h, h.mem[json].body.elems[i], r, m0, t.elems[i]);
    ghost var m2 := h.mem;
    w := Tree(m2, {}, c).value;
    NoDanglingReady(h);
    CopyThere(m0, m2, c, h.handles);
    ElemsCopiedGrown(m1, m2, es, ws, t.elems);
    BuildingCell(m0, m2, r);
    NotItself(m2, r);
    AppendCopy(h, r, c, m0);
    ElemsCopiedMore(m2, h.mem, r, es, ws, t.elems, c);
  }

  lemma ElemIn(mem: map<Ref, Cell>, r: Ref, i: nat)
    requires NoDangling(mem) && r in mem && i < |Children(mem[r].body)|
    ensures Children(mem[r].body)[i] in mem
  {
    assert Children(mem[r].body)[i] in Children(mem[r].body);
  }

  lemma ArrayAttached(m0: map<Ref, Cell>, m1: map<Ref, Cell>, r: Ref, c: Ref, es: seq<Ref>)
    requires Building(m0, m1, r) && NewOrConstant(m0, m1, c) && c != r && m1[r].body == ArrayData(es)
    ensures Building(m0, m1[r := m1[r].(body := ArrayData(es + [c]))], r)
  {
    Attached(m0, m1, r, c, ArrayData(es + [c]));
  }

  /** `json_array_deep_copy`. */
  method CopyArray(h: Heap, json: Ref, ghost t: Json) returns (r: Ref)
    requires Ready(h) && Tree(h.mem, {}, json) == Some(t) && json in h.mem && h.mem[json].body.ArrayData?
    modifies h
    ensures Ready(h) && Grown(old(h.mem), h.mem) && h.handles == old(h.handles) + multiset{r} && Copied(old(h.mem), h.mem, r, t)
    decreases t, 2
  {
    hide Tree, Grown, NotPointed, NoDangling, Ready, ElemsCopied, Renumbered, Sound, Building;
    ghost var m0, h0 := h.mem, h.handles;
    TreeParts(m0, json);
    ReadyParts(h);
    var n := |h.mem[json].body.elems|;
    r := NewContainer(h, ArrayData([]));
    ghost var ws: seq<Json> := [];
    NothingCopied(h.mem, t.elems);
    BuildingStart(m0, h.mem, r);
    var i := 0;
    while i < n
      invariant i <= n && Ready(h) && Building(m0, h.mem, r) && h.handles == h0 + multiset{r} && r in h.mem
      invariant h.mem[r].body.ArrayData? && |h.mem[r].body.elems| == i && ElemsCopied(h.mem, h.mem[r].body.elems, ws, t.elems)
    {
      ghost var w := CopyElem(h, json, r, i, m0, ws, t);
      BuildingCell(m0, h.mem, r);
      ws := ws + [w];
      i := i + 1;
    }
    ReadyParts(h);
    ArrayCopied(m0, h.mem, r, h.mem[r].body.elems, ws, t);
  }

  lemma BuildingStart(m0: map<Ref, Cell>, m1: map<Ref, Cell>, r: Ref)
    requires Grown(m0, m1) && NotPointed(m1, r) && r in m1 && r !in m0 && r > 3
    ensures Building(m0, m1, r)
  {}

  lemma BuildingCell(m0: map<Ref, Cell>, m1: map<Ref, Cell>, r: Ref)
    requires Building(m0, m1, r)
    ensures r in m1 && NotPointed(m1, r)
  {}

  lemma NotItself(mem: map<Ref, Cell>, r: Ref)
    requires NotPointed(mem, r) && r in mem
    ensures r !in Children(mem[r].body)
  {}

  lemma BuildingOld(m0: map<Ref, Cell>, m1: map<Ref, Cell>, r: Ref, p: Ref)
    requires Building(m0, m1, r) && p in m0
    ensures p in m1 && m1[p] == m0[p]
  {}

  lemma CopyThere(m0: map<Ref, Cell>, m1: map<Ref, Cell>, c: Ref, handles: multiset<Ref>)
    requires NewOrConstant(m0, m1, c)
    ensures c in m1
  {}

  lemma NoDanglingReady(h: Heap)
    requires Ready(h)
    ensures NoDangling(h.mem)
  {
    ReadyParts(h);
  }

  lemma NothingCopied(mem: map<Ref, Cell>, ts: seq<Json>)
    ensures ElemsCopied(mem, [], [], ts)
  {}

  lemma GrownCell(m0: map<Ref, Cell>, m1: map<Ref, Cell>, r: Ref)
    requires Grown(m0, m1) && r in m0
    ensures r in m1 && m1[r] == m0[r]
  {}

  lemma ReadyParts(h: Heap)
    requires Ready(h)
    ensures h.Settled() && Tables(h.mem) && Singletons(h.mem) && Constants(h.mem) && NoDangling(h.mem) && NULL !in h.mem
  {
    ReadyIsSound(h);
    NullIsFree(h.mem, h.Refs());
  }

  /** `json_array_append_new` on a copy. */
  method AppendCopy(h: Heap, r: Ref, c: Ref, ghost m0: map<Ref, Cell>)
    requires Ready(h) && Building(m0, h.mem, r) && NewOrConstant(m0, h.mem, c) && c != r
    requires h.mem[r].body.ArrayData? && c in h.mem && c in h.handles
    modifies h
    ensures Ready(h) && Building(m0, h.mem, r) && h.handles == old(h.handles) - multiset{c}
    ensures h.mem == old(h.mem)[r := old(h.mem)[r].(body := ArrayData(old(h.mem)[r].body.elems + [c]))]
  {
    hide Building, NoDangling, Formed, Closed, Complete, Counts, Sum;
    ReadyParts(h);
    EverythingIsClosed(h);
    BuildingCell(m0, h.mem, r);
    ArrayAttached(m0, h.mem, r, c, h.mem[r].body.elems);
    var result := h.ArrayAppendNew(r, c, h.mem.Keys);
  }

  // ---------------------------------------------------------------- copying objects

  ghost function ValuesOf(ms: seq<Member>): (ts: seq<Json>)
    ensures |ts| == |ms| && forall i :: 0 <= i < |ms| ==> ts[i] == ms[i].value
  {
    seq(|ms|, i requires 0 <= i < |ms| => ms[i].value)
  }

  /** The table lists the first keys of `ms`, in whatever order, with the copies `cs`. */
  ghost predicate Listed(slots: seq<Slot>, ms: seq<Member>, cs: seq<Ref>) {
    && |slots| == |cs| <= |ms| && TableOk(ObjectData(slots, |cs|))
    && (forall x :: x in slots ==> exists k :: 0 <= k < |cs| && x == Slot(ms[k].key, k, cs[k]))
    && (forall k :: 0 <= k < |cs| ==> Slot(ms[k].key, k, cs[k]) in slots)
  }

  lemma ListedNewKey(slots: seq<Slot>, ms: seq<Member>, cs: seq<Ref>)
    requires Listed(slots, ms, cs) && |cs| < |ms| && UniqueKeys(ms)
    ensures FindSlot(slots, ms[|cs|].key) == |slots|
  {
    forall i | 0 <= i < |slots| ensures slots[i].key != ms[|cs|].key {
      assert slots[i] in slots;
      var k :| 0 <= k < |cs| && slots[i] == Slot(ms[k].key, k, cs[k]);
    }
  }

  lemma ListedMore(slots: seq<Slot>, ms: seq<Member>, cs: seq<Ref>, c: Ref, after: seq<Slot>)
    requires Listed(slots, ms, cs) && |cs| < |ms| && UniqueKeys(ms)
    requires Relinked(slots + [Slot(ms[|cs|].key, |cs|, c)], after)
    ensures Listed(after, ms, cs + [c])
  {
    var slot, ds := Slot(ms[|cs|].key, |cs|, c), cs + [c];
    ListedNewKey(slots, ms, cs);
    RelinkedSame(slots + [slot], after);
    RelinkedTable(slots + [slot], after, |cs| + 1) by {
      hide Relinked;
    }
    forall x | x in after ensures exists k :: 0 <= k < |ds| && x == Slot(ms[k].key, k, ds[k]) {
      if x == slot {
        assert x == Slot(ms[|cs|].key, |cs|, ds[|cs|]);
      } else {
        var k :| 0 <= k < |cs| && x == Slot(ms[k].key, k, cs[k]);
        assert x == Slot(ms[k].key, k, ds[k]);
      }
    }
    forall k | 0 <= k < |ds| ensures Slot(ms[k].key, k, ds[k]) in after {
      assert k < |cs| ==> Slot(ms[k].key, k, cs[k]) in slots;
    }
  }

  /** Copies in a table are not the table. */
  lemma ListedElsewhere(mem: map<Ref, Cell>, r: Ref, slots: seq<Slot>, serial: nat, ms: seq<Member>, cs: seq<Ref>)
    requires NotPointed(mem, r) && r in mem && mem[r].body == ObjectData(slots, serial) && Listed(slots, ms, cs)
    ensures r !in cs
  {
    forall k | 0 <= k < |cs| ensures cs[k] != r {
      var x := Slot(ms[k].key, k, cs[k]);
      assert x in slots;
      var i :| 0 <= i < |slots| && slots[i] == x;
      assert RefsOf(slots)[i] in Children(mem[r].body);
    }
  }

  lemma ObjectCopied(m0: map<Ref, Cell>, mem: map<Ref, Cell>, r: Ref, slots: seq<Slot>, serial: nat, cs: seq<Ref>, ws: seq<Json>, t: Json)
    requires NoDangling(mem) && Building(m0, mem, r) && mem[r].body == ObjectData(slots, serial)
    requires t.Object? && Listed(slots, t.members, cs) && ElemsCopied(mem, cs, ws, ValuesOf(t.members)) && |cs| == |t.members|
    requires UniqueKeys(t.members)
    ensures Copied(m0, mem, r, t) && Grown(m0, mem)
  {
    var ms, path := t.members, {} + {r};
    ListedElsewhere(mem, r, slots, serial, ms, cs);
    forall i | 0 <= i < |slots| ensures Tree(mem, path, slots[i].ref).Some? {
      assert slots[i] in slots;
      var k :| 0 <= k < |cs| && slots[i] == Slot(ms[k].key, k, cs[k]);
      TreeBeside(mem, mem, r, path, cs[k]);
    }
    var ns := TreeMembers(mem, path, slots).value;
    forall k | 0 <= k < |ms|
      ensures EqualAt(ms[k].key, ms[k].value, ns) && Reload.ShuffledAt(ms[k].key, k, RoundTrip.Loaded(ms[k].value), ns)
    {
      CopyFound(mem, r, slots, serial, ms, cs, ws, ns, k);
    }
    assert UniqueKeys(ns);
    CopyShuffled(ms, ns);
  }

  lemma CopyShuffled(ms: seq<Member>, ns: seq<Member>)
    requires |ms| == |ns| && UniqueKeys(ms) && UniqueKeys(ns)
    requires forall k :: 0 <= k < |ms| ==> Reload.ShuffledAt(ms[k].key, k, RoundTrip.Loaded(ms[k].value), ns)
    ensures Reload.Shuffled(RoundTrip.Loaded(Object(ms)), Object(ns))
  {
    hide Reload.ShuffledAt;
    var ls := RoundTrip.LoadedMembers(ms, 0);
    forall k | 0 <= k < |ls| ensures Reload.ShuffledAt(ls[k].key, ls[k].serial, ls[k].value, ns) {
      assert ls[k] == Member(ms[k].key, k, RoundTrip.Loaded(ms[k].value));
    }
  }

  lemma CopyFound(mem: map<Ref, Cell>, r: Ref, slots: seq<Slot>, serial: nat, ms: seq<Member>, cs: seq<Ref>, ws: seq<Json>, ns: seq<Member>, k: nat)
    requires NoDangling(mem) && NotPointed(mem, r) && r in mem && mem[r].body == ObjectData(slots, serial)
    requires Listed(slots, ms, cs) && ElemsCopied(mem, cs, ws, ValuesOf(ms)) && k < |cs| && TreeMembers(mem, {} + {r}, slots) == Some(ns)
    ensures EqualAt(ms[k].key, ms[k].value, ns) && Reload.ShuffledAt(ms[k].key, k, RoundTrip.Loaded(ms[k].value), ns)
  {
    var x := Slot(ms[k].key, k, cs[k]);
    ListedElsewhere(mem, r, slots, serial, ms, cs);
    assert x in slots;
    var i :| 0 <= i < |slots| && slots[i] == x;
    assert ns[i].key == x.key;
    var j := Find(ns, x.key);
    assert slots[j] in slots && slots[j].key == x.key;
    SameKeySameSlot(slots, |cs|, x, slots[j]);
    TreeBeside(mem, mem, r, {} + {r}, cs[k]);
    assert ns[j].value == ws[k];
    assert ValuesOf(ms)[k] == ms[k].value;
  }

  /** `json_object_set_new_nocheck` on a copy, with a key it does not have yet. */
  method SetCopy(h: Heap, r: Ref, key: bytes, c: Ref, ghost m0: map<Ref, Cell>)
    requires Ready(h) && Building(m0, h.mem, r) && NewOrConstant(m0, h.mem, c) && c != r
    requires h.mem[r].body.ObjectData? && FindSlot(h.mem[r].body.slots, key) == |h.mem[r].body.slots|
    requires c in h.mem && c in h.handles && r in h.handles
    modifies h
    ensures Ready(h) && Building(m0, h.mem, r) && h.handles == old(h.handles) - multiset{c}
    ensures h.mem[r].body.ObjectData? && h.mem == old(h.mem)[r := old(h.mem)[r].(body := h.mem[r].body)]
    ensures var body := old(h.mem)[r].body;
            h.mem[r].body.serial == body.serial + 1 && Relinked(body.slots + [Slot(key, body.serial, c)], h.mem[r].body.slots)
  {
    hide Building, NoDangling, Formed, Closed, Complete, Counts, Sum, Elsewhere, Relinked, FindSlot, Children, NewOrConstant;
    ghost var m1 := h.mem;
    ReadyParts(h);
    EverythingIsClosed(h);
    BuildingCell(m0, h.mem, r);
    forall i | 0 <= i < |Children(h.mem[r].body)| ensures Children(h.mem[r].body)[i] in h.mem {
      ElemIn(h.mem, r, i);
    }
    CopyThere(m0, m1, c, h.handles);
    var result := h.ObjectSetNewNocheck(r, key, c, h.mem.Keys);
    ObjectAttached(m0, m1, r, key, c, h.mem[r].body);
  }

  lemma ObjectAttached(m0: map<Ref, Cell>, m1: map<Ref, Cell>, r: Ref, key: bytes, c: Ref, body: Body)
    requires Building(m0, m1, r) && NewOrConstant(m0, m1, c) && c != r && m1[r].body.ObjectData? && body.ObjectData?
    requires SlotSet(m1[r].body, key, c, body) && FindSlot(m1[r].body.slots, key) == |m1[r].body.slots|
    ensures Building(m0, m1[r := m1[r].(body := body)], r)
  {
    var slots, slot := m1[r].body.slots, Slot(key, m1[r].body.serial, c);
    RelinkedSame(slots + [slot], body.slots);
    forall x | x in Children(body) ensures x == c || x in Children(m1[r].body) {
      var i :| 0 <= i < |body.slots| && RefsOf(body.slots)[i] == x;
      assert body.slots[i] in body.slots;
      if body.slots[i] != slot {
        var j :| 0 <= j < |slots| && slots[j] == body.slots[i];
        assert RefsOf(slots)[j] == x;
      }
    }
    Attached(m0, m1, r, c, body);
  }

  method CopyMember(h: Heap, json: Ref, r: Ref, i: nat, ghost m0: map<Ref, Cell>, ghost cs: seq<Ref>, ghost ws: seq<Json>, ghost t: Json)
    returns (c: Ref, ghost w: Json)
    requires Ready(h) && Building(m0, h.mem, r) && NoDangling(m0) && json in m0 && Tree(m0, {}, json) == Some(t)
    requires m0[json].body.ObjectData? && i < |m0[json].body.slots| && r in h.handles
    requires h.mem[r].body.ObjectData? && h.mem[r].body.serial == i == |cs| && t.Object? && UniqueKeys(t.members)
    requires Listed(h.mem[r].body.slots, t.members, cs) && ElemsCopied(h.mem, cs, ws, ValuesOf(t.members))
    modifies h
    ensures Ready(h) && Building(m0, h.mem, r) && h.handles == old(h.handles)
    ensures h.mem[r].body.ObjectData? && h.mem[r].body.serial == i + 1
    ensures Listed(h.mem[r].body.slots, t.members, cs + [c]) && ElemsCopied(h.mem, cs + [c], ws + [w], ValuesOf(t.members))
    decreases t, 1
  {
    hide Tree, Grown, NotPointed, NoDangling, Ready, Renumbered, ElemsCopied, Building, NewOrConstant, Listed, UniqueKeys, FindSlot, Relinked;
    BuildingCell(m0, h.mem, r);
    ghost var m1, slots := h.mem, h.mem[r].body.slots;
    TreeParts(m0, json);
    BuildingOld(m0, m1, r, json);
    NoDanglingReady(h);
    ElemIn(m0, json, i);
    var slot := h.mem[json].body.slots[i];
    c := CopyChild(h, slot.ref, r, m0, t.members[i].value);
    ghost var m2 := h.mem;
    w := Tree(m2, {}, c).value;
    NoDanglingReady(h);
    CopyThere(m0, m2, c, h.handles);
    ElemsCopiedGrown(m1, m2, cs, ws, ValuesOf(t.members));
    BuildingCell(m0, m2, r);
    ListedElsewhere(m2, r, slots, i, t.members, cs);
    ListedNewKey(slots, t.members, cs);
    SetCopy(h, r, slot.key, c, m0);
    ListedMore(slots, t.members, cs, c, h.mem[r].body.slots);
    ElemsCopiedMore(m2, h.mem, r, cs, ws, ValuesOf(t.members), c);
  }

  /** `json_object_deep_copy`. */
  method CopyObject(h: Heap, json: Ref, ghost t: Json) returns (r: Ref)
    requires Ready(h) && Tree(h.mem, {}, json) == Some(t) && json in h.mem && h.mem[json].body.ObjectData?
    modifies h
    ensures Ready(h) && Grown(old(h.mem), h.mem) && h.handles == old(h.handles) + multiset{r} && Copied(old(h.mem), h.mem, r, t)
    decreases t, 2
  {
    hide Tree, Grown, NotPointed, NoDangling, Ready, ElemsCopied, Renumbered, Sound, Building, Listed, UniqueKeys, Copied, Tables;
    ghost var m0, h0 := h.mem, h.handles;
    TreeParts(m0, json);
    ReadyParts(h);
    SourceKeys(m0, json, t);
    var n := |h.mem[json].body.slots|;
    r := NewContainer(h, ObjectData([], 0));
    ghost var cs: seq<Ref>, ws: seq<Json> := [], [];
    NothingCopied(h.mem, ValuesOf(t.members));
    NothingListed(t.members);
    BuildingStart(m0, h.mem, r);
    var i := 0;
    while i < n
      invariant i <= n && Ready(h) && Building(m0, h.mem, r) && h.handles == h0 + multiset{r} && r in h.mem
      invariant h.mem[r].body.ObjectData? && h.mem[r].body.serial == i == |cs|
      invariant Listed(h.mem[r].body.slots, t.members, cs) && ElemsCopied(h.mem, cs, ws, ValuesOf(t.members))
    {
      ghost var w;
      var c;
      c, w := CopyMember(h, json, r, i, m0, cs, ws, t);
      BuildingCell(m0, h.mem, r);
      cs, ws := cs + [c], ws + [w];
      i := i + 1;
    }
    ReadyParts(h);
    ObjectCopied(m0, h.mem, r, h.mem[r].body.slots, h.mem[r].body.serial, cs, ws, t);
  }

  lemma NothingListed(ms: seq<Member>)
    ensures Listed([], ms, [])
  {}

  lemma SourceKeys(mem: map<Ref, Cell>, r: Ref, t: Json)
    requires Tables(mem) && Tree(mem, {}, r) == Some(t) && r in mem && mem[r].body.ObjectData?
    ensures t.Object? && UniqueKeys(t.members)
  {
    TreeParts(mem, r);
    assert TableOk(mem[r].body);
    var slots, ms := mem[r].body.slots, t.members;
    forall i, j | 0 <= i < j < |ms| ensures ms[i].key != ms[j].key {
      assert ms[i].key == slots[i].key && ms[j].key == slots[j].key;
    }
  }

  /** From a copy no walk leads to a cell of the original but the constants. */
  lemma {:induction false} CopySharesNothing(m0: map<Ref, Cell>, m1: map<Ref, Cell>, walk: seq<Ref>)
    requires Grown(m0, m1) && Path(m1, walk) && NewOrConstant(m0, m1, walk[0]) && Singletons(m1)
    ensures NewOrConstant(m0, m1, walk[|walk| - 1])
    decreases |walk|
  {
    if |walk| > 1 {
      TailPath(m1, walk);
      assert NewOrConstant(m0, m1, walk[1]) by {
        assert walk[0] !in m0;
      }
      CopySharesNothing(m0, m1, walk[1..]);
    }
  }
}
