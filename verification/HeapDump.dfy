/** `do_dump` of libjansson/dump.c on the value graph: cycle detection by flags in the cells, and a callback
    that may fail at any call. */
module HeapDump {
  import opened Options
  import opened Utf8
  import opened Values
  import opened Arrange
  import opened DumpText
  import opened Heaps

  // ---------------------------------------------------------------- the tree of a cell

  /** What a cell denotes when the containers of `path` are above it; nothing when one of them is met again. */
  ghost function Tree(mem: map<Ref, Cell>, path: set<Ref>, r: Ref): (t: Option<Json>)
    decreases |mem.Keys - path|, 0, 0
  {
    if r !in mem then None
    else
      match mem[r].body
      case NullData => Some(Null)
      case TrueData => Some(True)
      case FalseData => Some(False)
      case IntegerData(n) => Some(Integer(n))
      case RealData(text) => Some(Real(text))
      case StringData(s) => Some(String(s))
      case ArrayData(elems) =>
        if r in path then None
        else
          OneMore(mem, path, r);
          var es := TreeElems(mem, path + {r}, elems);
          if es.Some? then Some(Array(es.value)) else None
      case ObjectData(slots, _) =>
        if r in path then None
        else
          OneMore(mem, path, r);
          var ms := TreeMembers(mem, path + {r}, slots);
          if ms.Some? then Some(Object(ms.value)) else None
  }

  ghost function TreeElems(mem: map<Ref, Cell>, path: set<Ref>, elems: seq<Ref>): (t: Option<seq<Json>>)
    ensures t.Some? <==> forall i :: 0 <= i < |elems| ==> Tree(mem, path, elems[i]).Some?
    ensures t.Some? ==> |t.value| == |elems| && forall i :: 0 <= i < |elems| ==> t.value[i] == Tree(mem, path, elems[i]).value
    decreases |mem.Keys - path|, 1, |elems|
  {
    if elems == [] then Some([])
    else
      var v := Tree(mem, path, elems[0]);
      var es := TreeElems(mem, path, elems[1..]);
      assert forall i :: 0 < i < |elems| ==> elems[i] == elems[1..][i - 1];
      if v.Some? && es.Some? then Some([v.value] + es.value) else None
  }

  ghost function TreeMembers(mem: map<Ref, Cell>, path: set<Ref>, slots: seq<Slot>): (t: Option<seq<Member>>)
    ensures t.Some? <==> forall i :: 0 <= i < |slots| ==> Tree(mem, path, slots[i].ref).Some?
    ensures t.Some? ==> |t.value| == |slots| && forall i :: 0 <= i < |slots| ==>
                          t.value[i] == Member(slots[i].key, slots[i].serial, Tree(mem, path, slots[i].ref).value)
    decreases |mem.Keys - path|, 1, |slots|
  {
    if slots == [] then Some([])
    else
      var v := Tree(mem, path, slots[0].ref);
      var ms := TreeMembers(mem, path, slots[1..]);
      assert forall i :: 0 < i < |slots| ==> slots[i] == slots[1..][i - 1];
      if v.Some? && ms.Some? then Some([Member(slots[0].key, slots[0].serial, v.value)] + ms.value) else None
  }

  lemma OneMore(mem: map<Ref, Cell>, path: set<Ref>, r: Ref)
    requires r in mem && r !in path
    ensures |mem.Keys - (path + {r})| < |mem.Keys - path|
  {
    assert mem.Keys - (path + {r}) == mem.Keys - path - {r};
  }

  /** Counts and flags do not matter. */
  ghost predicate SameShape(m0: map<Ref, Cell>, m1: map<Ref, Cell>) {
    m0.Keys == m1.Keys && forall r :: r in m0 ==> m0[r].body == m1[r].body
  }

  lemma {:induction false} TreeOfSameShape(m0: map<Ref, Cell>, m1: map<Ref, Cell>, path: set<Ref>, r: Ref)
    requires SameShape(m0, m1)
    ensures Tree(m0, path, r) == Tree(m1, path, r)
    decreases |m0.Keys - path|
  {
    if r in m0 && r !in path && (m0[r].body.ArrayData? || m0[r].body.ObjectData?) {
      OneMore(m0, path, r);
      forall x ensures Tree(m0, path + {r}, x) == Tree(m1, path + {r}, x) {
        TreeOfSameShape(m0, m1, path + {r}, x);
      }
      match m0[r].body
      case ArrayData(elems) =>
        var a, b := TreeElems(m0, path + {r}, elems), TreeElems(m1, path + {r}, elems);
        assert a.Some? ==> a.value == b.value;
      case ObjectData(slots, _) =>
        var a, b := TreeMembers(m0, path + {r}, slots), TreeMembers(m1, path + {r}, slots);
        assert a.Some? ==> a.value == b.value;
      case _ =>
    }
  }

  // ---------------------------------------------------------------- cycles

  ghost predicate IsContainer(mem: map<Ref, Cell>, r: Ref) {
    r in mem && (mem[r].body.ArrayData? || mem[r].body.ObjectData?)
  }

  ghost predicate NoDangling(mem: map<Ref, Cell>) {
    forall r, x :: r in mem && x in Children(mem[r].body) ==> x in mem
  }

  ghost predicate Repeats(walk: seq<Ref>) {
    exists i, j :: 0 <= i < j < |walk| && walk[i] == walk[j]
  }

  ghost predicate Hits(walk: seq<Ref>, path: set<Ref>) {
    exists i :: 0 <= i < |walk| && walk[i] in path
  }

  lemma ChildTree(mem: map<Ref, Cell>, path: set<Ref>, r: Ref, x: Ref)
    requires Tree(mem, path, r).Some? && r in mem && x in Children(mem[r].body)
    ensures r !in path && Tree(mem, path + {r}, x).Some?
  {
    match mem[r].body
    case ArrayData(elems) =>
      var i :| 0 <= i < |elems| && elems[i] == x;
    case ObjectData(slots, _) =>
      var i :| 0 <= i < |RefsOf(slots)| && RefsOf(slots)[i] == x;
      assert slots[i].ref == x;
    case _ =>
  }

  lemma TailPath(mem: map<Ref, Cell>, walk: seq<Ref>)
    requires Path(mem, walk) && |walk| > 1
    ensures Path(mem, walk[1..]) && walk[1] in Children(mem[walk[0]].body)
  {}

  lemma {:induction false} TreeHasNoCycle(mem: map<Ref, Cell>, path: set<Ref>, walk: seq<Ref>)
    requires Path(mem, walk) && Tree(mem, path, walk[0]).Some? && forall p :: p in path ==> IsContainer(mem, p)
    ensures !Repeats(walk) && !Hits(walk, path)
    decreases |walk|
  {
    hide Tree;
    if |walk| > 1 {
      var r, t := walk[0], walk[1..];
      TailPath(mem, walk);
      ChildTree(mem, path, r, t[0]);
      assert IsContainer(mem, r);
      TreeHasNoCycle(mem, path + {r}, t);
      assert forall i :: 0 < i < |walk| ==> walk[i] == t[i - 1];
      assert !Hits(t, path + {r});
    } else {
      LeafOrFree(mem, path, walk[0]);
    }
  }

  lemma LeafOrFree(mem: map<Ref, Cell>, path: set<Ref>, r: Ref)
    requires Tree(mem, path, r).Some? && forall p :: p in path ==> IsContainer(mem, p)
    ensures r !in path
  {}

  /** Where no tree is found, a walk runs into its own track. */
  lemma {:induction false} CycleFound(mem: map<Ref, Cell>, path: set<Ref>, r: Ref) returns (walk: seq<Ref>)
    requires NoDangling(mem) && r in mem && Tree(mem, path, r).None?
    ensures Path(mem, walk) && walk[0] == r && (Repeats(walk) || Hits(walk, path))
    decreases |mem.Keys - path|
  {
    if r in path {
      walk := [r];
      assert walk[0] in path;
    } else {
      var x := BadChild(mem, path, r);
      OneMore(mem, path, r);
      var t := CycleFound(mem, path + {r}, x);
      walk := [r] + t;
      Prepended(r, t, path);
    }
  }

  lemma Prepended(r: Ref, t: seq<Ref>, path: set<Ref>)
    requires Repeats(t) || Hits(t, path + {r})
    ensures Repeats([r] + t) || Hits([r] + t, path)
  {
    var w := [r] + t;
    assert forall i :: 0 <= i < |t| ==> w[i + 1] == t[i];
    if Repeats(t) {
      var i, j :| 0 <= i < j < |t| && t[i] == t[j];
      assert w[i + 1] == w[j + 1];
    } else {
      var i :| 0 <= i < |t| && t[i] in path + {r};
      assert w[i + 1] in path || w[i + 1] == w[0];
    }
  }

  lemma BadChild(mem: map<Ref, Cell>, path: set<Ref>, r: Ref) returns (x: Ref)
    requires NoDangling(mem) && r in mem && r !in path && Tree(mem, path, r).None?
    ensures x in Children(mem[r].body) && x in mem && Tree(mem, path + {r}, x).None?
  {
    match mem[r].body
    case ArrayData(elems) =>
      var i :| 0 <= i < |elems| && Tree(mem, path + {r}, elems[i]).None?;
      x := elems[i];
    case ObjectData(slots, _) =>
      var i :| 0 <= i < |slots| && Tree(mem, path + {r}, slots[i].ref).None?;
      assert RefsOf(slots)[i] == slots[i].ref;
      x := slots[i].ref;
    case _ =>
  }

  /** A cell denotes a tree exactly when no walk from it comes back to where it was. */
  lemma TreeIffNoCycle(mem: map<Ref, Cell>, r: Ref)
    requires NoDangling(mem) && r in mem
    ensures Tree(mem, {}, r).Some? <==> forall walk :: Path(mem, walk) && walk[0] == r ==> !Repeats(walk)
  {
    hide Tree, Repeats;
    if Tree(mem, {}, r).Some? {
      forall walk | Path(mem, walk) && walk[0] == r ensures !Repeats(walk) {
        TreeHasNoCycle(mem, {}, walk);
      }
    } else {
      var walk := CycleFound(mem, {}, r);
    }
  }

  // ---------------------------------------------------------------- the callback

  /** `json_dump_callback_t`: which of its calls fail is arbitrary. */
  class Sink {
    const fails: nat -> bool
    var calls: nat
    var out: bytes
    var failed: bool

    constructor (fails: nat -> bool)
      ensures this.fails == fails && out == [] && !failed
    {
      this.fails := fails;
      calls, out, failed := 0, [], false;
    }

    method Write(text: bytes) returns (err: bool)
      modifies this
      ensures old(failed) ==> failed
      ensures err ==> failed
      ensures Reliable(this) ==> failed == old(failed)
      ensures !failed ==> out == old(out) + text
    {
      err := fails(calls);
      calls := calls + 1;
      if err {
        failed := true;
      } else {
        out := out + text;
      }
    }
  }

  /** A sink no call of which fails: the string buffer of `json_dumps`. */
  ghost predicate Reliable(sink: Sink) {
    forall n :: !sink.fails(n)
  }

  lemma SpacesAdd(m: nat, n: nat)
    ensures Spaces(m) + Spaces(n) == Spaces(m + n)
  {
    assert forall i :: 0 <= i < m + n ==> (Spaces(m) + Spaces(n))[i] == Spaces(m + n)[i];
  }

  /** `dump_indent`. */
  method DumpIndent(sink: Sink, flags: nat, depth: nat, space: bool) returns (err: bool)
    modifies sink
    ensures old(sink.failed) ==> sink.failed
    ensures err ==> sink.failed
    ensures Reliable(sink) ==> sink.failed == old(sink.failed)
    ensures !sink.failed ==> sink.out == old(sink.out) + IndentText(flags, depth, space)
  {
    if Indent(flags) > 0 {
      var count := Indent(flags);
      err := sink.Write([NEWLINE]);
      if err {
        return;
      }
      var i := 0;
      assert [NEWLINE] + Spaces(0) == [NEWLINE];
      while i < depth
        invariant i <= depth && (old(sink.failed) ==> sink.failed) && !err
        invariant Reliable(sink) ==> sink.failed == old(sink.failed)
        invariant !sink.failed ==> sink.out == old(sink.out) + ([NEWLINE] + Spaces(count * i))
      {
        ghost var was := sink.out;
        err := sink.Write(Spaces(count));
        if err {
          return;
        }
        SpacesAdd(count * i, count);
        assert count * i + count == count * (i + 1);
        Regroup(old(sink.out), [NEWLINE], Spaces(count * i), Spaces(count));
        i := i + 1;
      }
    } else if space && !Compact(flags) {
      err := sink.Write([SPACE]);
    } else {
      err := false;
      assert sink.out + [] == sink.out;
    }
  }

  lemma Regroup(a: bytes, b: bytes, c: bytes, d: bytes)
    ensures a + (b + c) + d == a + (b + (c + d))
  {}

  /** `todo` is what is left to emit of what a sink is to hold in the end. */
  ghost predicate Emitting(out0: bytes, all: Emitted, out: bytes, todo: Emitted) {
    all.ok == todo.ok && out0 + all.text == out + todo.text
  }

  lemma EmittingStart(out0: bytes, text: bytes, ascii: bool)
    ensures Emitting(out0, StringText(text, ascii), out0 + [QUOTE], StringBody([], text, ascii))
  {
    var t := StringBody([], text, ascii).text;
    assert out0 + ([QUOTE] + t) == out0 + [QUOTE] + t;
  }

  lemma EmittingPlain(out0: bytes, all: Emitted, out: bytes, text: bytes, start: nat, pos: nat, ascii: bool)
    requires start <= pos < |text| && Next(text[pos..]).Some? && !NeedsEscape(Next(text[pos..]).value.cp, ascii)
    requires Emitting(out0, all, out, StringBody(text[start..pos], text[pos..], ascii))
    ensures var end := pos + Next(text[pos..]).value.size;
            Emitting(out0, all, out, StringBody(text[start..end], text[end..], ascii))
  {
    var n := Next(text[pos..]).value.size;
    assert text[start..pos] + text[pos..][..n] == text[start..pos + n];
    assert text[pos..][n..] == text[pos + n..];
  }

  lemma EmittingEscape(out0: bytes, all: Emitted, out: bytes, run: bytes, text: bytes, pos: nat, ascii: bool)
    requires pos < |text| && Next(text[pos..]).Some? && NeedsEscape(Next(text[pos..]).value.cp, ascii)
    requires Emitting(out0, all, out, StringBody(run, text[pos..], ascii))
    ensures 0 <= Next(text[pos..]).value.cp <= 0x10FFFF
    ensures var Char(cp, n) := Next(text[pos..]).value;
            Emitting(out0, all, out + run + Escape(cp), StringBody([], text[pos + n..], ascii))
  {
    EncodeOfNext(text[pos..]);
    var Char(cp, n) := Next(text[pos..]).value;
    var rest := StringBody([], text[pos + n..], ascii);
    assert text[pos..][n..] == text[pos + n..];
    assert out + (run + Escape(cp) + rest.text) == out + run + Escape(cp) + rest.text;
  }

  lemma EmittingStuck(out0: bytes, all: Emitted, out: bytes, run: bytes, rest: bytes, ascii: bool)
    requires rest != [] && Next(rest).None? && Emitting(out0, all, out, StringBody(run, rest, ascii))
    ensures !all.ok && out == out0 + all.text
  {
    assert out + [] == out;
  }

  lemma EmittingEnd(out0: bytes, all: Emitted, out: bytes, run: bytes, ascii: bool)
    requires Emitting(out0, all, out, StringBody(run, [], ascii))
    ensures all.ok && out + run + [QUOTE] == out0 + all.text
  {}

  /** The inner loop of `dump_string`: find the end of a run of bytes that need no escape. */
  method PlainRun(text: bytes, start: nat, ascii: bool, ghost out0: bytes, ghost out: bytes, ghost all: Emitted) returns (ok: bool, pos: nat)
    requires start <= |text| && Emitting(out0, all, out, StringBody([], text[start..], ascii))
    ensures start <= pos <= |text|
    ensures Emitting(out0, all, out, StringBody(text[start..pos], text[pos..], ascii))
    ensures !ok ==> pos < |text| && Next(text[pos..]).None?
    ensures ok && pos < |text| ==> Next(text[pos..]).Some? && NeedsEscape(Next(text[pos..]).value.cp, ascii)
  {
    hide Next, StringBody, Emitting;
    pos := start;
    assert text[start..start] == [];
    while pos < |text|
      invariant start <= pos <= |text|
      invariant Emitting(out0, all, out, StringBody(text[start..pos], text[pos..], ascii))
    {
      var c := Next(text[pos..]);
      if c.None? {
        return false, pos;
      }
      if NeedsEscape(c.value.cp, ascii) {
        return true, pos;
      }
      EmittingPlain(out0, all, out, text, start, pos, ascii);
      pos := pos + c.value.size;
    }
    ok := true;
  }

  /** `dump_string`: each run of plain bytes is emitted at once, then the escape that ends it. */
  method DumpString(sink: Sink, text: bytes, ascii: bool) returns (err: bool)
    modifies sink
    ensures old(sink.failed) ==> sink.failed
    ensures Reliable(sink) ==> sink.failed == old(sink.failed)
    ensures err ==> sink.failed || !StringText(text, ascii).ok
    ensures !sink.failed ==> (err <==> !StringText(text, ascii).ok) && sink.out == old(sink.out) + StringText(text, ascii).text
  {
    hide Next, StringBody, Emitting, StringText, Reliable, Escape;
    ghost var out0, all := sink.out, StringText(text, ascii);
    EmittingStart(sink.out, text, ascii);
    err := sink.Write([QUOTE]);
    if err {
      return;
    }
    var start := 0;
    ghost var out := out0 + [QUOTE];
    assert text[0..] == text;
    while true
      invariant start <= |text| && (old(sink.failed) ==> sink.failed) && (Reliable(sink) ==> sink.failed == old(sink.failed))
      invariant !sink.failed ==> sink.out == out
      invariant Emitting(out0, all, out, StringBody([], text[start..], ascii))
      decreases |text| - start
    {
      var ok, pos := PlainRun(text, start, ascii, out0, out, all);
      if !ok {
        EmittingStuck(out0, all, out, text[start..pos], text[pos..], ascii);
        return true;
      }
      if pos != start {
        err := sink.Write(text[start..pos]);
        if err {
          return;
        }
      }
      assert pos == start ==> out + text[start..pos] == out;
      if pos == |text| {
        assert text[pos..] == [];
        EmittingEnd(out0, all, out, text[start..pos], ascii);
        out := out + text[start..pos];
        break;
      }
      var c := Next(text[pos..]).value;
      EmittingEscape(out0, all, out, text[start..pos], text, pos, ascii);
      err := sink.Write(Escape(c.cp));
      if err {
        return;
      }
      out := out + text[start..pos] + Escape(c.cp);
      start := pos + c.size;
    }
    err := sink.Write([QUOTE]);
  }

  // ---------------------------------------------------------------- the order of the members

  ghost function Blank(slots: seq<Slot>): (ms: seq<Member>)
    ensures |ms| == |slots| && forall i :: 0 <= i < |slots| ==> ms[i] == Member(slots[i].key, slots[i].serial, Null)
  {
    seq(|slots|, i requires 0 <= i < |slots| => Member(slots[i].key, slots[i].serial, Null))
  }

  /** Same keys and serials in the same places. */
  ghost predicate SameLabels(ms: seq<Member>, ns: seq<Member>) {
    |ms| == |ns| && forall i :: 0 <= i < |ms| ==> ms[i].key == ns[i].key && ms[i].serial == ns[i].serial
  }

  lemma {:induction false} InsertSameLabels(cmp: KeyOrder, m: Member, n: Member, ms: seq<Member>, ns: seq<Member>)
    requires SameLabels(ms, ns) && m.key == n.key && m.serial == n.serial
    ensures SameLabels(InsertMember(cmp, m, ms), InsertMember(cmp, n, ns))
  {
    if ms != [] {
      InsertSameLabels(cmp, m, n, ms[1..], ns[1..]);
    }
  }

  lemma {:induction false} SortSameLabels(cmp: KeyOrder, ms: seq<Member>, ns: seq<Member>)
    requires SameLabels(ms, ns)
    ensures SameLabels(SortMembers(cmp, ms), SortMembers(cmp, ns))
  {
    if ms != [] {
      SortSameLabels(cmp, ms[1..], ns[1..]);
      InsertSameLabels(cmp, ms[0], ns[0], SortMembers(cmp, ms[1..]), SortMembers(cmp, ns[1..]));
    }
  }

  lemma OrderedSameLabels(flags: nat, ms: seq<Member>, ns: seq<Member>)
    requires SameLabels(ms, ns)
    ensures SameLabels(Ordered(flags, ms), Ordered(flags, ns))
  {
    SortSameLabels(ByKey, ms, ns);
    SortSameLabels(BySerial, ms, ns);
  }

  /** `order` lists the pairs of the table as the flags ask for. */
  ghost predicate InOrder(slots: seq<Slot>, flags: nat, order: seq<Slot>) {
    && |order| == |slots|
    && (forall x :: x in order <==> x in slots)
    && SameLabels(Blank(order), Ordered(flags, Blank(slots)))
  }

  lemma SameKeySameSlot(slots: seq<Slot>, serial: nat, x: Slot, y: Slot)
    requires TableOk(ObjectData(slots, serial)) && x in slots && y in slots && x.key == y.key
    ensures x == y
  {
    var i :| 0 <= i < |slots| && slots[i] == x;
    var j :| 0 <= j < |slots| && slots[j] == y;
  }

  /** The sorting of the keys in `do_dump`; each key is then looked up again. */
  method VisitOrder(slots: seq<Slot>, ghost serial: nat, flags: nat) returns (order: seq<Slot>)
    requires TableOk(ObjectData(slots, serial))
    ensures InOrder(slots, flags, order)
  {
    if !SortKeys(flags) && !PreserveOrder(flags) {
      return slots;
    }
    var keys: seq<Member> := [];
    var i := 0;
    while i < |slots|
      invariant i <= |slots| && |keys| == i
      invariant forall k :: 0 <= k < i ==> keys[k] == Member(slots[k].key, slots[k].serial, Null)
    {
      keys := keys + [Member(slots[i].key, slots[i].serial, Null)];
      i := i + 1;
    }
    assert keys == Blank(slots);
    keys := SortMembers(if SortKeys(flags) then ByKey else BySerial, keys);
    order := [];
    i := 0;
    while i < |keys|
      invariant i <= |keys| && |order| == i
      invariant forall k :: 0 <= k < i ==> order[k] in slots && order[k].key == keys[k].key && order[k].serial == keys[k].serial
    {
      KeyInTable(slots, serial, flags, keys, i);
      order := order + [slots[FindSlot(slots, keys[i].key)]];
      i := i + 1;
    }
    AllVisited(slots, serial, flags, keys, order);
  }

  lemma KeyInTable(slots: seq<Slot>, serial: nat, flags: nat, keys: seq<Member>, i: nat)
    requires TableOk(ObjectData(slots, serial)) && keys == Ordered(flags, Blank(slots)) && i < |keys|
    ensures var k := FindSlot(slots, keys[i].key);
            k < |slots| && slots[k].key == keys[i].key && slots[k].serial == keys[i].serial
  {
    assert keys[i] in Blank(slots);
    var j :| 0 <= j < |slots| && Blank(slots)[j] == keys[i];
    SameKeySameSlot(slots, serial, slots[j], slots[FindSlot(slots, keys[i].key)]);
  }

  lemma AllVisited(slots: seq<Slot>, serial: nat, flags: nat, keys: seq<Member>, order: seq<Slot>)
    requires TableOk(ObjectData(slots, serial)) && keys == Ordered(flags, Blank(slots)) && |order| == |keys|
    requires forall k :: 0 <= k < |keys| ==> order[k] in slots && order[k].key == keys[k].key && order[k].serial == keys[k].serial
    ensures InOrder(slots, flags, order)
  {
    forall x | x in slots ensures x in order {
      var i :| 0 <= i < |slots| && slots[i] == x;
      assert Blank(slots)[i] in keys;
      var k :| 0 <= k < |keys| && keys[k] == Blank(slots)[i];
      SameKeySameSlot(slots, serial, x, order[k]);
    }
  }

  /** Visiting the pairs in order is visiting the members of the arranged tree in order. */
  lemma OrderOfTree(slots: seq<Slot>, serial: nat, flags: nat, order: seq<Slot>, ms: seq<Member>, done: seq<Member>)
    requires TableOk(ObjectData(slots, serial)) && InOrder(slots, flags, order) && |ms| == |slots| && |done| == |order|
    requires forall i :: 0 <= i < |slots| ==> ms[i].key == slots[i].key && ms[i].serial == slots[i].serial
    requires forall i, k :: 0 <= i < |slots| && 0 <= k < |order| && slots[i] == order[k] ==>
               done[k] == Member(slots[i].key, slots[i].serial, Arranged(ms[i].value, flags))
    ensures done == Ordered(flags, ArrangedMembers(ms, flags))
  {
    var as_ := ArrangedMembers(ms, flags);
    var rs := Ordered(flags, as_);
    OrderedSameLabels(flags, Blank(slots), as_);
    forall k | 0 <= k < |order| ensures done[k] == rs[k] {
      assert Blank(order)[k].key == rs[k].key;
      assert rs[k] in as_;
      var i :| 0 <= i < |as_| && as_[i] == rs[k];
      SameKeySameSlot(slots, serial, slots[i], order[k]);
    }
  }

  // ---------------------------------------------------------------- the text of a container, from the left

  ghost function ElemsText(done: seq<Json>, n: nat, flags: nat, depth: nat): bytes {
    if done == [] then []
    else
      var k := |done| - 1;
      ElemsText(done[..k], n, flags, depth) + Plain(done[k], flags, depth + 1) + After(k + 1 == n, flags, depth)
  }

  lemma {:induction false} ElemsTextPlain(es: seq<Json>, i: nat, flags: nat, depth: nat)
    requires i <= |es|
    ensures ElemsText(es[..i], |es|, flags, depth) + PlainElems(es[i..], flags, depth) == PlainElems(es, flags, depth)
  {
    hide Plain, After;
    if i == 0 {
      assert es[0..] == es && es[..0] == [];
    } else {
      ElemsTextPlain(es, i - 1, flags, depth);
      assert es[..i][..i - 1] == es[..i - 1] && es[i - 1..][1..] == es[i..];
      Regroup3(ElemsText(es[..i - 1], |es|, flags, depth), Plain(es[i - 1], flags, depth + 1), After(i == |es|, flags, depth),
               PlainElems(es[i..], flags, depth));
    }
  }

  lemma Regroup4(a: bytes, b: bytes, c: bytes, d: bytes)
    ensures a + b + c + d == a + (b + (c + d))
  {}

  lemma Regroup3(a: bytes, b: bytes, c: bytes, d: bytes)
    ensures a + b + c + d == a + (b + c + d)
  {}

  ghost function MembersText(done: seq<Member>, n: nat, flags: nat, depth: nat): bytes {
    if done == [] then []
    else
      var k := |done| - 1;
      MembersText(done[..k], n, flags, depth) + StringText(done[k].key, EnsureAscii(flags)).text + Separator(flags)
      + Plain(done[k].value, flags, depth + 1) + After(k + 1 == n, flags, depth)
  }

  lemma {:induction false} MembersTextPlain(ms: seq<Member>, i: nat, flags: nat, depth: nat)
    requires i <= |ms|
    ensures MembersText(ms[..i], |ms|, flags, depth) + PlainMembers(ms[i..], flags, depth) == PlainMembers(ms, flags, depth)
  {
    hide Plain, After, StringText, Separator;
    if i == 0 {
      assert ms[0..] == ms && ms[..0] == [];
    } else {
      MembersTextPlain(ms, i - 1, flags, depth);
      assert ms[..i][..i - 1] == ms[..i - 1] && ms[i - 1..][1..] == ms[i..];
      var m := ms[i - 1];
      Regroup5(MembersText(ms[..i - 1], |ms|, flags, depth), StringText(m.key, EnsureAscii(flags)).text, Separator(flags),
               Plain(m.value, flags, depth + 1), After(i == |ms|, flags, depth), PlainMembers(ms[i..], flags, depth));
    }
  }

  lemma Regroup5(a: bytes, b: bytes, c: bytes, d: bytes, e: bytes, f: bytes)
    ensures a + b + c + d + e + f == a + (b + c + d + e + f)
  {}

  // ---------------------------------------------------------------- do_dump

  ghost function Visited(mem: map<Ref, Cell>): set<Ref> {
    set r | r in mem && mem[r].visited
  }

  /** Nothing but flags differ, and no flag is set that was not. */
  ghost predicate FlagsBack(m0: map<Ref, Cell>, m1: map<Ref, Cell>) {
    && m0.Keys == m1.Keys
    && forall r :: r in m0 ==> m1[r].(visited := false) == m0[r].(visited := false) && (m1[r].visited ==> m0[r].visited)
  }

  /** Every string that is a value is UTF-8. */
  ghost predicate Printable(v: Json) {
    match v
    case String(s) => Utf8.Valid(s)
    case Array(es) => forall i :: 0 <= i < |es| ==> Printable(es[i])
    case Object(ms) => forall i :: 0 <= i < |ms| ==> Printable(ms[i].value)
    case _ => true
  }

  /** The outcome of dumping a cell that denotes `t`, given whether a call of the callback failed. */
  ghost predicate Outcome(err: bool, failed: bool, t: Option<Json>, out0: bytes, out: bytes, flags: nat, depth: nat) {
    && (!err ==> t.Some?)
    && (!failed ==> (err <==> t.None? || !Printable(t.value)))
    && (!failed && !err ==> out == out0 + Plain(Arranged(t.value, flags), flags, depth))
  }

  /** What `do_dump` needs: pointers that lead somewhere and tables without double keys. */
  ghost predicate Sound(mem: map<Ref, Cell>) {
    NoDangling(mem) && Tables(mem)
  }

  function Flag(mem: map<Ref, Cell>, r: Ref, visited: bool): map<Ref, Cell>
    requires r in mem
  {
    mem[r := mem[r].(visited := visited)]
  }

  lemma FlagSet(m0: map<Ref, Cell>, r: Ref)
    requires r in m0 && !m0[r].visited
    ensures Visited(Flag(m0, r, true)) == Visited(m0) + {r} && r !in Visited(m0)
    ensures |Flag(m0, r, true).Keys - Visited(Flag(m0, r, true))| < |m0.Keys - Visited(m0)|
    ensures SameShape(m0, Flag(m0, r, true))
  {
    OneMore(m0, Visited(m0), r);
    assert Flag(m0, r, true).Keys == m0.Keys;
  }

  lemma SoundSameShape(m0: map<Ref, Cell>, m1: map<Ref, Cell>)
    requires SameShape(m0, m1) && Sound(m0)
    ensures Sound(m1)
  {}

  lemma FlagCleared(m0: map<Ref, Cell>, r: Ref, m2: map<Ref, Cell>)
    requires r in m0 && !m0[r].visited && FlagsBack(Flag(m0, r, true), m2)
    ensures r in m2 && FlagsBack(m0, Flag(m2, r, false))
    ensures m2 == Flag(m0, r, true) ==> Flag(m2, r, false) == m0
  {
    var m1 := Flag(m0, r, true);
    assert m2[r].(visited := false) == m1[r].(visited := false);
  }

  lemma FlagDropped(m0: map<Ref, Cell>, r: Ref)
    requires r in m0
    ensures FlagsBack(m0, Flag(m0, r, false))
  {}

  method DoDump(h: Heap, sink: Sink, json: Ref, flags: nat, depth: nat) returns (err: bool)
    requires json in h.mem && Sound(h.mem)
    modifies h`mem, sink
    ensures FlagsBack(old(h.mem), h.mem) && (!err ==> h.mem == old(h.mem))
    ensures old(sink.failed) ==> sink.failed
    ensures Reliable(sink) ==> sink.failed == old(sink.failed)
    ensures Outcome(err, sink.failed, Tree(old(h.mem), Visited(old(h.mem)), json), old(sink.out), sink.out, flags, depth)
    decreases |h.mem.Keys - Visited(h.mem)|, 3
  {
    hide Plain, StringText, Reliable, FlagsBack, Visited;
    FlagsBackRefl(h.mem);
    PlainLeaf(h.mem[json].body, flags, depth);
    match h.mem[json].body
    case NullData => err := sink.Write(NULL_TEXT);
    case TrueData => err := sink.Write(TRUE_TEXT);
    case FalseData => err := sink.Write(FALSE_TEXT);
    case IntegerData(n) => err := sink.Write(IntegerText(n));
    case RealData(text) => err := sink.Write(text);
    case StringData(s) => err := DumpString(sink, s, EnsureAscii(flags));
    case ArrayData(elems) => err := DumpArray(h, sink, json, flags, depth);
    case ObjectData(slots, serial) => err := DumpObject(h, sink, json, flags, depth);
  }

  lemma FlagsBackRefl(m: map<Ref, Cell>)
    ensures FlagsBack(m, m)
  {}

  /** An array: an element that comes back to it finds its flag set. */
  method DumpArray(h: Heap, sink: Sink, json: Ref, flags: nat, depth: nat) returns (err: bool)
    requires json in h.mem && h.mem[json].body.ArrayData? && Sound(h.mem)
    modifies h`mem, sink
    ensures FlagsBack(old(h.mem), h.mem) && (!err ==> h.mem == old(h.mem))
    ensures old(sink.failed) ==> sink.failed
    ensures Reliable(sink) ==> sink.failed == old(sink.failed)
    ensures Outcome(err, sink.failed, Tree(old(h.mem), Visited(old(h.mem)), json), old(sink.out), sink.out, flags, depth)
    decreases |h.mem.Keys - Visited(h.mem)|, 2
  {
    hide Plain, PlainElems, StringText, Reliable, FlagsBack, Visited, Sound, Tree, Printable, Arranged, ArrayText;
    ghost var m0 := h.mem;
    if h.mem[json].visited {
      FlagDropped(m0, json);
      InVisited(m0, json);
      h.mem := Flag(h.mem, json, false);
      return true;
    }
    FlagSet(m0, json);
    h.mem := Flag(h.mem, json, true);
    ghost var elems, m1 := h.mem[json].body.elems, h.mem;
    SoundSameShape(m0, m1);
    TreeOfArray(m0, m1, Visited(m0), json);
    err := DumpElems(h, sink, json, flags, depth);
    FlagCleared(m0, json, h.mem);
    h.mem := Flag(h.mem, json, false);
    if err {
      return;
    }
    err := sink.Write([RBRACKET]);
    PlainArray(TreeElems(m1, Visited(m1), elems).value, flags, depth);
  }

  /** The elements of an array, from the opening bracket on. */
  method DumpElems(h: Heap, sink: Sink, json: Ref, flags: nat, depth: nat) returns (err: bool)
    requires json in h.mem && h.mem[json].body.ArrayData? && Sound(h.mem)
    modifies h`mem, sink
    ensures FlagsBack(old(h.mem), h.mem) && (!err ==> h.mem == old(h.mem))
    ensures old(sink.failed) ==> sink.failed
    ensures Reliable(sink) ==> sink.failed == old(sink.failed)
    ensures var t := TreeElems(old(h.mem), Visited(old(h.mem)), old(h.mem)[json].body.elems);
            && (!err ==> t.Some?)
            && (!sink.failed ==> (err <==> t.None? || !AllPrintable(t.value)))
            && (!sink.failed && !err ==> sink.out == old(sink.out) + ArrayText(t.value, flags, depth))
    decreases |h.mem.Keys - Visited(h.mem)|, 4
  {
    hide Plain, PlainElems, ElemsText, IndentText, StringText, Reliable, FlagsBack, Visited, Sound, Printable, Tree, After;
    ghost var m1, path, elems := h.mem, Visited(h.mem), h.mem[json].body.elems;
    ghost var start, base := sink.out, sink.out + [LBRACKET] + IndentText(flags, depth + 1, false);
    FlagsBackRefl(m1);
    err := sink.Write([LBRACKET]);
    var n := |h.mem[json].body.elems|;
    if err || n == 0 {
      return;
    }
    err := DumpIndent(sink, flags, depth + 1, false);
    if err {
      return;
    }
    ghost var done: seq<Json> := [];
    var i := 0;
    NoElemsText(base, n, flags, depth);
    while i < n
      invariant i <= n && h.mem == m1 && !err && |done| == i
      invariant (old(sink.failed) ==> sink.failed) && (Reliable(sink) ==> sink.failed == old(sink.failed))
      invariant DoneElems(m1, path, elems, done, flags)
      invariant !sink.failed ==> PrintableUpTo(m1, path, elems, i) && sink.out == base + ElemsText(done, n, flags, depth)
    {
      ghost var v, was := Tree(m1, path, elems[i]), sink.out;
      ElemThere(m1, json, i);
      err := DoDump(h, sink, h.mem[json].body.elems[i], flags, depth + 1);
      if err {
        return;
      }
      err := DumpAfter(sink, i == n - 1, flags, depth);
      if err {
        return;
      }
      NextElemText(base, done, Arranged(v.value, flags), n, flags, depth);
      done := done + [Arranged(v.value, flags)];
      i := i + 1;
    }
    AllDone(m1, path, elems, done, flags);
    AllElemsText(start, base, done, flags, depth);
  }

  /** What follows an element or a member. */
  method DumpAfter(sink: Sink, last: bool, flags: nat, depth: nat) returns (err: bool)
    modifies sink
    ensures old(sink.failed) ==> sink.failed
    ensures err ==> sink.failed
    ensures Reliable(sink) ==> sink.failed == old(sink.failed)
    ensures !sink.failed ==> sink.out == old(sink.out) + After(last, flags, depth)
  {
    if last {
      err := DumpIndent(sink, flags, depth, false);
    } else {
      err := sink.Write([COMMA]);
      if err {
        return;
      }
      err := DumpIndent(sink, flags, depth + 1, true);
      assert old(sink.out) + [COMMA] + IndentText(flags, depth + 1, true) == old(sink.out) + ([COMMA] + IndentText(flags, depth + 1, true));
    }
  }

  /** The first elements have trees, which `done` lists arranged. */
  ghost predicate DoneElems(mem: map<Ref, Cell>, path: set<Ref>, elems: seq<Ref>, done: seq<Json>, flags: nat) {
    |done| <= |elems| && forall k :: 0 <= k < |done| ==> Tree(mem, path, elems[k]).Some? && done[k] == Arranged(Tree(mem, path, elems[k]).value, flags)
  }

  ghost predicate PrintableUpTo(mem: map<Ref, Cell>, path: set<Ref>, elems: seq<Ref>, n: nat) {
    forall k :: 0 <= k < n && k < |elems| ==> Tree(mem, path, elems[k]).Some? && Printable(Tree(mem, path, elems[k]).value)
  }

  lemma ElemThere(mem: map<Ref, Cell>, r: Ref, i: nat)
    requires Sound(mem) && r in mem && i < |Children(mem[r].body)|
    ensures Children(mem[r].body)[i] in mem
  {
    assert Children(mem[r].body)[i] in Children(mem[r].body);
  }

  lemma NoElemsText(base: bytes, n: nat, flags: nat, depth: nat)
    ensures base + ElemsText([], n, flags, depth) == base
  {}

  lemma NextElemText(base: bytes, done: seq<Json>, v: Json, n: nat, flags: nat, depth: nat)
    ensures base + ElemsText(done, n, flags, depth) + Plain(v, flags, depth + 1) + After(|done| + 1 == n, flags, depth)
            == base + ElemsText(done + [v], n, flags, depth)
  {
    hide Plain, After;
    assert (done + [v])[..|done|] == done;
    Regroup3(base + ElemsText(done, n, flags, depth), Plain(v, flags, depth + 1), After(|done| + 1 == n, flags, depth), []);
    var a, b, c := ElemsText(done, n, flags, depth), Plain(v, flags, depth + 1), After(|done| + 1 == n, flags, depth);
    assert base + a + b + c == base + (a + b + c);
  }

  lemma AllDone(mem: map<Ref, Cell>, path: set<Ref>, elems: seq<Ref>, done: seq<Json>, flags: nat)
    requires DoneElems(mem, path, elems, done, flags) && |done| == |elems|
    ensures TreeElems(mem, path, elems).Some? && done == ArrangedElems(TreeElems(mem, path, elems).value, flags)
    ensures PrintableUpTo(mem, path, elems, |elems|) <==> AllPrintable(TreeElems(mem, path, elems).value)
  {
    hide Tree, Printable, Arranged;
  }

  lemma AllElemsText(start: bytes, base: bytes, done: seq<Json>, flags: nat, depth: nat)
    requires done != [] && base == start + [LBRACKET] + IndentText(flags, depth + 1, false)
    ensures base + ElemsText(done, |done|, flags, depth)
            == start + ([LBRACKET] + (IndentText(flags, depth + 1, false) + PlainElems(done, flags, depth)))
  {
    hide Plain, IndentText;
    ElemsTextPlain(done, |done|, flags, depth);
    assert done[..|done|] == done && done[|done|..] == [];
    Regroup4(start, [LBRACKET], IndentText(flags, depth + 1, false), PlainElems(done, flags, depth));
  }

  /** An object, in the same way as an array. */
  method DumpObject(h: Heap, sink: Sink, json: Ref, flags: nat, depth: nat) returns (err: bool)
    requires json in h.mem && h.mem[json].body.ObjectData? && Sound(h.mem)
    modifies h`mem, sink
    ensures FlagsBack(old(h.mem), h.mem) && (!err ==> h.mem == old(h.mem))
    ensures old(sink.failed) ==> sink.failed
    ensures Reliable(sink) ==> sink.failed == old(sink.failed)
    ensures Outcome(err, sink.failed, Tree(old(h.mem), Visited(old(h.mem)), json), old(sink.out), sink.out, flags, depth)
    decreases |h.mem.Keys - Visited(h.mem)|, 2
  {
    hide Plain, PlainMembers, StringText, Reliable, FlagsBack, Visited, Sound, Tree, Printable, Arranged, ObjectText;
    ghost var m0 := h.mem;
    if h.mem[json].visited {
      FlagDropped(m0, json);
      InVisited(m0, json);
      h.mem := Flag(h.mem, json, false);
      return true;
    }
    FlagSet(m0, json);
    h.mem := Flag(h.mem, json, true);
    ghost var slots, m1 := h.mem[json].body.slots, h.mem;
    SoundSameShape(m0, m1);
    TreeOfObject(m0, m1, Visited(m0), json);
    err := DumpMembers(h, sink, json, flags, depth);
    FlagCleared(m0, json, h.mem);
    h.mem := Flag(h.mem, json, false);
    if err {
      return;
    }
    err := sink.Write([RBRACE]);
    PlainObject(TreeMembers(m1, Visited(m1), slots).value, flags, depth);
  }

  /** One member and what follows it. What becomes of the key is not looked at. */
  method DumpMember(h: Heap, sink: Sink, slot: Slot, last: bool, flags: nat, depth: nat) returns (err: bool)
    requires slot.ref in h.mem && Sound(h.mem)
    modifies h`mem, sink
    ensures FlagsBack(old(h.mem), h.mem) && (!err ==> h.mem == old(h.mem))
    ensures old(sink.failed) ==> sink.failed
    ensures Reliable(sink) ==> sink.failed == old(sink.failed)
    ensures var t := Tree(old(h.mem), Visited(old(h.mem)), slot.ref);
            && (!err ==> t.Some?)
            && (!sink.failed ==> (err <==> t.None? || !Printable(t.value)))
            && (!sink.failed && !err ==>
                  sink.out == old(sink.out) + StringText(slot.key, EnsureAscii(flags)).text + Separator(flags)
                              + Plain(Arranged(t.value, flags), flags, depth + 1) + After(last, flags, depth))
    decreases |h.mem.Keys - Visited(h.mem)|, 4
  {
    hide Plain, IndentText, Separator, StringText, Reliable, FlagsBack, Visited, Sound, Printable, Tree, After, Arranged;
    FlagsBackRefl(h.mem);
    var ignored := DumpString(sink, slot.key, EnsureAscii(flags));
    err := sink.Write(Separator(flags));
    if err {
      return;
    }
    err := DoDump(h, sink, slot.ref, flags, depth + 1);
    if err {
      return;
    }
    err := DumpAfter(sink, last, flags, depth);
  }

  /** The members of an object, from the opening brace on. What becomes of a key is not looked at. */
  method DumpMembers(h: Heap, sink: Sink, json: Ref, flags: nat, depth: nat) returns (err: bool)
    requires json in h.mem && h.mem[json].body.ObjectData? && Sound(h.mem)
    modifies h`mem, sink
    ensures FlagsBack(old(h.mem), h.mem) && (!err ==> h.mem == old(h.mem))
    ensures old(sink.failed) ==> sink.failed
    ensures Reliable(sink) ==> sink.failed == old(sink.failed)
    ensures var t := TreeMembers(old(h.mem), Visited(old(h.mem)), old(h.mem)[json].body.slots);
            && (!err ==> t.Some?)
            && (!sink.failed ==> (err <==> t.None? || !MembersPrintable(t.value)))
            && (!sink.failed && !err ==> sink.out == old(sink.out) + ObjectText(t.value, flags, depth))
    decreases |h.mem.Keys - Visited(h.mem)|, 5
  {
    hide Plain, PlainMembers, MembersText, IndentText, Separator, StringText, Reliable, FlagsBack, Visited, Sound, Printable, Tree,
      After, Arranged, InOrder, Ordered;
    ghost var m1, path, slots, serial := h.mem, Visited(h.mem), h.mem[json].body.slots, h.mem[json].body.serial;
    ghost var start, base := sink.out, sink.out + [LBRACE] + IndentText(flags, depth + 1, false);
    FlagsBackRefl(m1);
    TableThere(m1, json);
    err := sink.Write([LBRACE]);
    var n := |h.mem[json].body.slots|;
    if err || n == 0 {
      return;
    }
    err := DumpIndent(sink, flags, depth + 1, false);
    if err {
      return;
    }
    var order := VisitOrder(h.mem[json].body.slots, h.mem[json].body.serial, flags);
    OrderSize(slots, flags, order);
    ghost var done: seq<Member> := [];
    var i := 0;
    NoMembersText(base, n, flags, depth);
    while i < n
      invariant i <= n && h.mem == m1 && !err && |done| == i
      invariant (old(sink.failed) ==> sink.failed) && (Reliable(sink) ==> sink.failed == old(sink.failed))
      invariant DoneMembers(m1, path, order, done, flags)
      invariant !sink.failed ==> SlotsPrintable(m1, path, order, i) && sink.out == base + MembersText(done, n, flags, depth)
    {
      ghost var v := Tree(m1, path, order[i].ref);
      SlotThere(m1, json, flags, order, i);
      err := DumpMember(h, sink, order[i], i == n - 1, flags, depth);
      if err {
        NotAllPrintable(m1, path, slots, flags, order, i);
        return;
      }
      ghost var m := Member(order[i].key, order[i].serial, Arranged(v.value, flags));
      NextMemberText(base, done, m, n, flags, depth);
      done := done + [m];
      i := i + 1;
    }
    AllMembersDone(m1, path, slots, serial, order, done, flags);
    AllMembersText(start, base, done, flags, depth);
  }

  ghost predicate MembersPrintable(ms: seq<Member>) {
    forall i :: 0 <= i < |ms| ==> Printable(ms[i].value)
  }

  /** The text of an object up to its closing brace. */
  ghost function ObjectText(ms: seq<Member>, flags: nat, depth: nat): bytes {
    [LBRACE] + if ms == [] then [] else IndentText(flags, depth + 1, false) + PlainMembers(Ordered(flags, ArrangedMembers(ms, flags)), flags, depth)
  }

  lemma PlainObject(ms: seq<Member>, flags: nat, depth: nat)
    ensures Plain(Arranged(Object(ms), flags), flags, depth) == ObjectText(ms, flags, depth) + [RBRACE]
  {}

  lemma TreeOfObject(m0: map<Ref, Cell>, m1: map<Ref, Cell>, path: set<Ref>, r: Ref)
    requires SameShape(m0, m1) && r in m0 && r !in path && m0[r].body.ObjectData?
    ensures var t := TreeMembers(m1, path + {r}, m0[r].body.slots);
            && Tree(m0, path, r) == (if t.Some? then Some(Object(t.value)) else None)
            && (t.Some? ==> (Printable(Object(t.value)) <==> MembersPrintable(t.value)))
  {
    var slots := m0[r].body.slots;
    forall x ensures Tree(m0, path + {r}, x) == Tree(m1, path + {r}, x) {
      TreeOfSameShape(m0, m1, path + {r}, x);
    }
    var a, b := TreeMembers(m0, path + {r}, slots), TreeMembers(m1, path + {r}, slots);
    assert a.Some? ==> a.value == b.value;
  }

  ghost predicate DoneMembers(mem: map<Ref, Cell>, path: set<Ref>, order: seq<Slot>, done: seq<Member>, flags: nat) {
    |done| <= |order| && forall k :: 0 <= k < |done| ==>
      && Tree(mem, path, order[k].ref).Some?
      && done[k] == Member(order[k].key, order[k].serial, Arranged(Tree(mem, path, order[k].ref).value, flags))
  }

  ghost predicate SlotsPrintable(mem: map<Ref, Cell>, path: set<Ref>, order: seq<Slot>, n: nat) {
    forall k :: 0 <= k < n && k < |order| ==> Tree(mem, path, order[k].ref).Some? && Printable(Tree(mem, path, order[k].ref).value)
  }

  lemma TableThere(mem: map<Ref, Cell>, r: Ref)
    requires Sound(mem) && r in mem
    ensures TableOk(mem[r].body)
  {}

  lemma OrderSize(slots: seq<Slot>, flags: nat, order: seq<Slot>)
    requires InOrder(slots, flags, order)
    ensures |order| == |slots|
  {}

  lemma SlotThere(mem: map<Ref, Cell>, r: Ref, flags: nat, order: seq<Slot>, i: nat)
    requires Sound(mem) && r in mem && mem[r].body.ObjectData? && InOrder(mem[r].body.slots, flags, order) && i < |order|
    ensures order[i].ref in mem
  {
    var slots := mem[r].body.slots;
    assert order[i] in slots;
    var k :| 0 <= k < |slots| && slots[k] == order[i];
    assert RefsOf(slots)[k] in Children(mem[r].body);
  }

  lemma NoMembersText(base: bytes, n: nat, flags: nat, depth: nat)
    ensures base + MembersText([], n, flags, depth) == base
  {}

  lemma NextMemberText(base: bytes, done: seq<Member>, m: Member, n: nat, flags: nat, depth: nat)
    ensures base + MembersText(done, n, flags, depth) + StringText(m.key, EnsureAscii(flags)).text + Separator(flags)
            + Plain(m.value, flags, depth + 1) + After(|done| + 1 == n, flags, depth)
            == base + MembersText(done + [m], n, flags, depth)
  {
    hide Plain, After, StringText, Separator;
    assert (done + [m])[..|done|] == done;
    var a, b, c := MembersText(done, n, flags, depth), StringText(m.key, EnsureAscii(flags)).text, Separator(flags);
    var d, e := Plain(m.value, flags, depth + 1), After(|done| + 1 == n, flags, depth);
    assert base + a + b + c + d + e == base + (a + b + c + d + e);
  }

  lemma AllMembersText(start: bytes, base: bytes, done: seq<Member>, flags: nat, depth: nat)
    requires done != [] && base == start + [LBRACE] + IndentText(flags, depth + 1, false)
    ensures base + MembersText(done, |done|, flags, depth)
            == start + ([LBRACE] + (IndentText(flags, depth + 1, false) + PlainMembers(done, flags, depth)))
  {
    hide Plain, IndentText, StringText, Separator, After;
    MembersTextPlain(done, |done|, flags, depth);
    assert done[..|done|] == done && done[|done|..] == [];
    Regroup4(start, [LBRACE], IndentText(flags, depth + 1, false), PlainMembers(done, flags, depth));
  }

  lemma NotAllPrintable(mem: map<Ref, Cell>, path: set<Ref>, slots: seq<Slot>, flags: nat, order: seq<Slot>, i: nat)
    requires InOrder(slots, flags, order) && i < |order|
    ensures Tree(mem, path, order[i].ref).None? ==> TreeMembers(mem, path, slots).None?
    ensures var t := TreeMembers(mem, path, slots);
            t.Some? && !Printable(Tree(mem, path, order[i].ref).value) ==> !MembersPrintable(t.value)
  {
    hide Tree, Printable;
    assert order[i] in slots;
    var k :| 0 <= k < |slots| && slots[k] == order[i];
    assert slots[k].ref == order[i].ref;
  }

  lemma AllMembersDone(mem: map<Ref, Cell>, path: set<Ref>, slots: seq<Slot>, serial: nat, order: seq<Slot>, done: seq<Member>, flags: nat)
    requires TableOk(ObjectData(slots, serial)) && InOrder(slots, flags, order)
    requires DoneMembers(mem, path, order, done, flags) && |done| == |order|
    ensures var t := TreeMembers(mem, path, slots);
            && t.Some? && done == Ordered(flags, ArrangedMembers(t.value, flags))
            && (SlotsPrintable(mem, path, order, |order|) ==> MembersPrintable(t.value))
  {
    hide Tree, Printable, Arranged, Ordered;
    forall i | 0 <= i < |slots| ensures exists k :: 0 <= k < |order| && slots[i] == order[k] {
      assert slots[i] in order;
    }
    var t := TreeMembers(mem, path, slots);
    OrderOfTree(slots, serial, flags, order, t.value, done);
  }

  ghost predicate AllPrintable(es: seq<Json>) {
    forall i :: 0 <= i < |es| ==> Printable(es[i])
  }

  /** The text of an array up to its closing bracket. */
  ghost function ArrayText(es: seq<Json>, flags: nat, depth: nat): bytes {
    [LBRACKET] + if es == [] then [] else IndentText(flags, depth + 1, false) + PlainElems(ArrangedElems(es, flags), flags, depth)
  }

  lemma PlainArray(es: seq<Json>, flags: nat, depth: nat)
    ensures Plain(Arranged(Array(es), flags), flags, depth) == ArrayText(es, flags, depth) + [RBRACKET]
  {}

  lemma InVisited(mem: map<Ref, Cell>, r: Ref)
    requires r in mem
    ensures r in Visited(mem) <==> mem[r].visited
    ensures mem[r].visited && (mem[r].body.ArrayData? || mem[r].body.ObjectData?) ==> Tree(mem, Visited(mem), r).None?
  {}

  /** The tree of an array is made of the trees that its elements have once its flag is set. */
  lemma TreeOfArray(m0: map<Ref, Cell>, m1: map<Ref, Cell>, path: set<Ref>, r: Ref)
    requires SameShape(m0, m1) && r in m0 && r !in path && m0[r].body.ArrayData?
    ensures var t := TreeElems(m1, path + {r}, m0[r].body.elems);
            && Tree(m0, path, r) == (if t.Some? then Some(Array(t.value)) else None)
            && (t.Some? ==> (Printable(Array(t.value)) <==> AllPrintable(t.value)))
  {
    var elems := m0[r].body.elems;
    forall x ensures Tree(m0, path + {r}, x) == Tree(m1, path + {r}, x) {
      TreeOfSameShape(m0, m1, path + {r}, x);
    }
    var a, b := TreeElems(m0, path + {r}, elems), TreeElems(m1, path + {r}, elems);
    assert a.Some? ==> a.value == b.value;
  }

  /** What `Plain` and `Printable` say of values that are not containers. */
  lemma PlainLeaf(b: Body, flags: nat, depth: nat)
    ensures Plain(Null, flags, depth) == NULL_TEXT && Plain(True, flags, depth) == TRUE_TEXT && Plain(False, flags, depth) == FALSE_TEXT
    ensures b.IntegerData? ==> Plain(Integer(b.n), flags, depth) == IntegerText(b.n)
    ensures b.RealData? ==> Plain(Real(b.text), flags, depth) == b.text
    ensures b.StringData? ==>
              && Plain(String(b.s), flags, depth) == StringText(b.s, EnsureAscii(flags)).text
              && (StringText(b.s, EnsureAscii(flags)).ok <==> Utf8.Valid(b.s))
  {
    if b.StringData? {
      StringBodyIff([], b.s, EnsureAscii(flags));
    }
  }

  // ---------------------------------------------------------------- entry points

  lemma UnvisitedStays(m0: map<Ref, Cell>, m1: map<Ref, Cell>)
    requires Unvisited(m0) && FlagsBack(m0, m1)
    ensures Visited(m0) == {} && m1 == m0
  {
    forall r | r in m0 ensures m1[r] == m0[r] {
      assert m1[r].(visited := false) == m0[r].(visited := false);
    }
  }

  /** Every heap that the operations leave behind can be dumped. */
  lemma ReadyIsSound(h: Heap)
    requires Ready(h)
    ensures Sound(h.mem) && Unvisited(h.mem)
  {
    hide Counts, Sum, Complete, Children, Tables;
    forall r, x | r in h.mem && x in Children(h.mem[r].body) ensures x in h.mem {
      NothingDangles(h, r, x);
    }
  }

  /** `json_dump_callback`: on every exit the heap is as it was. */
  method DumpCallback(h: Heap, sink: Sink, json: Ref, flags: nat) returns (err: bool)
    requires json in h.mem && Sound(h.mem) && Unvisited(h.mem)
    modifies h`mem, sink
    ensures h.mem == old(h.mem)
    ensures Reliable(sink) ==> sink.failed == old(sink.failed)
    ensures !EncodeAny(flags) && !IsContainer(h.mem, json) ==> err && sink.out == old(sink.out)
    ensures EncodeAny(flags) || IsContainer(h.mem, json) ==>
              Outcome(err, sink.failed, Tree(h.mem, {}, json), old(sink.out), sink.out, flags, 0)
  {
    hide Outcome, Tree, Reliable, Sound, Visited, FlagsBack;
    if !EncodeAny(flags) {
      if !h.mem[json].body.ArrayData? && !h.mem[json].body.ObjectData? {
        return true;
      }
    }
    UnvisitedStays(h.mem, h.mem) by {
      FlagsBackRefl(h.mem);
    }
    ghost var m0 := h.mem;
    err := DoDump(h, sink, json, flags, 0);
    UnvisitedStays(m0, h.mem);
  }

  /** `json_dumps`: it yields text exactly when no walk from the cell meets a cell twice and every string is UTF-8. */
  method JsonDumps(h: Heap, json: Ref, flags: nat) returns (text: Option<bytes>)
    requires json in h.mem && Sound(h.mem) && Unvisited(h.mem)
    modifies h`mem
    ensures h.mem == old(h.mem)
    ensures var t := Tree(h.mem, {}, json);
            && (text.Some? <==> (EncodeAny(flags) || IsContainer(h.mem, json)) && t.Some? && Printable(t.value))
            && (text.Some? ==> text.value == Dumps(t.value, flags))
    ensures text.Some? ==> forall walk :: Path(h.mem, walk) && walk[0] == json ==> !Repeats(walk)
  {
    hide Tree, Plain, Arranged, Repeats, Path;
    var sink := new Sink(_ => false);
    var err := DumpCallback(h, sink, json, flags);
    assert Reliable(sink);
    assert [] + sink.out == sink.out;
    text := if err then None else Some(sink.out);
    TreeIffNoCycle(h.mem, json);
  }
}
