/** JSON_PRESERVE_ORDER over the whole life of an object: whatever has been set, deleted and cleared, in whatever order
    the hash table holds its pairs, members are emitted in the order in which their keys were first set since they were
    last removed (libjansson/value.c, libjansson/dump.c). */
module Histories {
  import opened Options
  import opened Utf8
  import opened Values
  import opened Arrange
  import opened DumpText
  import opened Heaps
  import opened HeapDump
  import opened HeapValues
  import Reload

  datatype Op = SetKey(key: bytes, value: Ref) | DelKey(key: bytes) | ClearAll

  /** A key with the value it was last set to. */
  datatype Entry = Entry(key: bytes, value: Ref)

  function Position(es: seq<Entry>, key: bytes): (i: nat)
    ensures i <= |es|
    ensures i < |es| ==> es[i].key == key
    ensures forall j :: 0 <= j < i ==> es[j].key != key
  {
    if es == [] then 0 else if es[0].key == key then 0 else 1 + Position(es[1..], key)
  }

  /** Setting a key again keeps its place; a key that was removed goes to the end when it is set again. */
  function Applied(es: seq<Entry>, op: Op): (r: seq<Entry>) {
    match op
    case SetKey(key, value) =>
      var i := Position(es, key);
      if i < |es| then es[i := Entry(key, value)] else es + [Entry(key, value)]
    case DelKey(key) =>
      var i := Position(es, key);
      if i < |es| then es[..i] + es[i + 1..] else es
    case ClearAll => []
  }

  function InsertionOrder(history: seq<Op>): (r: seq<Entry>) {
    if history == [] then [] else Applied(InsertionOrder(history[..|history| - 1]), history[|history| - 1])
  }

  // ---------------------------------------------------------------- first set since last removed

  predicate Removes(op: Op, key: bytes) {
    op == DelKey(key) || op == ClearAll
  }

  predicate Sets(op: Op, key: bytes) {
    op.SetKey? && op.key == key
  }

  /** Operation `b` is the first to set the key since it was last removed. */
  ghost predicate Born(history: seq<Op>, key: bytes, b: nat) {
    && b < |history| && Sets(history[b], key)
    && (forall k :: b <= k < |history| ==> !Removes(history[k], key))
    && (forall k :: 0 <= k < b && Sets(history[k], key) ==> exists m :: k <= m < b && Removes(history[m], key))
  }

  /** Operation `b` is the last to set the key. */
  ghost predicate LastSet(history: seq<Op>, key: bytes, b: nat) {
    b < |history| && Sets(history[b], key) && forall k :: b < k < |history| ==> !Sets(history[k], key)
  }

  ghost predicate LastValue(history: seq<Op>, e: Entry) {
    exists b: nat :: LastSet(history, e.key, b) && history[b].value == e.value
  }

  /** The entries in the order of their births, each with the value it was last set to, and none missing. */
  ghost predicate ByBirth(history: seq<Op>, es: seq<Entry>, births: seq<nat>) {
    && |births| == |es|
    && (forall i :: 0 <= i < |es| ==> Born(history, es[i].key, births[i]) && LastValue(history, es[i]))
    && (forall i, j :: 0 <= i < j < |es| ==> births[i] < births[j])
    && (forall key, b :: Born(history, key, b) ==> Position(es, key) < |es|)
  }

  lemma StillBorn(past: seq<Op>, op: Op, key: bytes, b: nat)
    requires Born(past, key, b) && !Removes(op, key)
    ensures Born(past + [op], key, b)
  {
    var h := past + [op];
    forall k | 0 <= k < b && Sets(h[k], key) ensures exists m :: k <= m < b && Removes(h[m], key) {
      assert Sets(past[k], key);
      var m :| k <= m < b && Removes(past[m], key);
      assert Removes(h[m], key);
    }
  }

  lemma BornBefore(past: seq<Op>, op: Op, key: bytes, b: nat)
    requires Born(past + [op], key, b)
    ensures b < |past| ==> Born(past, key, b)
    ensures !Removes(op, key) && (b >= |past| ==> Sets(op, key))
  {
    var h := past + [op];
    assert h[|past|] == op;
    if b < |past| {
      forall k | 0 <= k < b && Sets(past[k], key) ensures exists m :: k <= m < b && Removes(past[m], key) {
        assert Sets(h[k], key);
        var m :| k <= m < b && Removes(h[m], key);
        assert Removes(past[m], key);
      }
      forall k | b <= k < |past| ensures !Removes(past[k], key) {
        assert !Removes(h[k], key);
      }
    }
  }

  lemma ValueKept(past: seq<Op>, op: Op, e: Entry)
    requires LastValue(past, e) && !Sets(op, e.key)
    ensures LastValue(past + [op], e)
  {
    var b: nat :| LastSet(past, e.key, b) && past[b].value == e.value;
    assert LastSet(past + [op], e.key, b) && (past + [op])[b] == past[b];
  }

  lemma ValueSet(past: seq<Op>, op: Op)
    requires op.SetKey?
    ensures LastValue(past + [op], Entry(op.key, op.value))
  {
    assert LastSet(past + [op], op.key, |past|) && (past + [op])[|past|] == op;
  }

  /** A key that is set and has no birth has been removed since. */
  lemma {:induction false} RemovedSince(past: seq<Op>, key: bytes, k: nat) returns (m: nat)
    requires k < |past| && Sets(past[k], key) && forall b :: !Born(past, key, b)
    ensures k <= m < |past| && Removes(past[m], key)
    decreases k
  {
    if j :| k <= j < |past| && Removes(past[j], key) {
      m := j;
    } else {
      assert !Born(past, key, k);
      var i :| 0 <= i < k && Sets(past[i], key) && forall j :: i <= j < k ==> !Removes(past[j], key);
      m := RemovedSince(past, key, i);
    }
  }

  /** The key of an operation that sets one not there is born by it. */
  lemma NewlyBorn(past: seq<Op>, op: Op)
    requires op.SetKey? && forall b :: !Born(past, op.key, b)
    ensures Born(past + [op], op.key, |past|)
  {
    var h := past + [op];
    assert h[|past|] == op;
    forall k | 0 <= k < |past| && Sets(h[k], op.key) ensures exists m :: k <= m < |past| && Removes(h[m], op.key) {
      var m := RemovedSince(past, op.key, k);
      assert Removes(h[m], op.key);
    }
  }

  lemma Known(es: seq<Entry>, i: nat)
    requires i < |es|
    ensures Position(es, es[i].key) < |es|
  {}

  /** No key is twice among the entries. */
  lemma SameBirth(past: seq<Op>, es: seq<Entry>, births: seq<nat>, i: nat, j: nat)
    requires ByBirth(past, es, births) && i < |es| && j < |es| && es[i].key == es[j].key
    ensures i == j
  {
    hide LastValue;
    var a, b := births[i], births[j];
    assert Born(past, es[i].key, a) && Born(past, es[i].key, b);
    assert Sets(past[a], es[i].key) && Sets(past[b], es[i].key);
  }

  function BirthsAfter(es: seq<Entry>, births: seq<nat>, op: Op, now: nat): (r: seq<nat>)
    requires |births| == |es|
    ensures |r| == |Applied(es, op)|
  {
    match op
    case SetKey(key, _) => if Position(es, key) < |es| then births else births + [now]
    case DelKey(key) =>
      var i := Position(es, key);
      if i < |es| then births[..i] + births[i + 1..] else births
    case ClearAll => []
  }

  lemma BirthsIncrease(es: seq<Entry>, births: seq<nat>, op: Op, now: nat)
    requires |births| == |es| && (forall i :: 0 <= i < |es| ==> births[i] < now) && forall i, j :: 0 <= i < j < |es| ==> births[i] < births[j]
    ensures var r := BirthsAfter(es, births, op, now);
            forall i, j :: 0 <= i < j < |r| ==> r[i] < r[j]
  {
    hide Position;
  }

  /** Where an entry was before the operation. */
  lemma StepPlace(es: seq<Entry>, births: seq<nat>, op: Op, now: nat, i: nat) returns (k: nat)
    requires |births| == |es| && i < |Applied(es, op)|
    ensures k <= |es| && !op.ClearAll?
    ensures k < |es| ==> BirthsAfter(es, births, op, now)[i] == births[k] && Applied(es, op)[i].key == es[k].key
    ensures k < |es| && (op.SetKey? ==> k != Position(es, op.key)) ==> Applied(es, op)[i] == es[k]
    ensures op.SetKey? && k == Position(es, op.key) ==> Applied(es, op)[i] == Entry(op.key, op.value)
    ensures k == |es| ==> op.SetKey? && k == Position(es, op.key) && BirthsAfter(es, births, op, now)[i] == now
    ensures op.DelKey? ==> k != Position(es, op.key)
  {
    k := if op.DelKey? && i >= Position(es, op.key) then i + 1 else i;
  }

  lemma StepEntry(past: seq<Op>, op: Op, es: seq<Entry>, births: seq<nat>, i: nat)
    requires ByBirth(past, es, births) && i < |Applied(es, op)|
    ensures Born(past + [op], Applied(es, op)[i].key, BirthsAfter(es, births, op, |past|)[i]) && LastValue(past + [op], Applied(es, op)[i])
  {
    hide Born, LastValue, Applied, BirthsAfter;
    var k := StepPlace(es, births, op, |past|, i);
    var p := Position(es, op.key);
    if op.SetKey? {
      ValueSet(past, op);
    }
    if k < |es| {
      if k != p {
        if es[k].key == op.key {
          SameBirth(past, es, births, k, p);
        }
        ValueKept(past, op, es[k]);
      }
      StillBorn(past, op, es[k].key, births[k]);
    } else {
      NewlyBorn(past, op);
    }
  }

  lemma StepComplete(past: seq<Op>, op: Op, es: seq<Entry>, births: seq<nat>, key: bytes, b: nat)
    requires ByBirth(past, es, births) && Born(past + [op], key, b)
    ensures Position(Applied(es, op), key) < |Applied(es, op)|
  {
    hide Born, LastValue;
    BornBefore(past, op, key, b);
    var rs, p, k := Applied(es, op), Position(es, op.key), Position(es, key);
    var i := if op.SetKey? && op.key == key then p else if op.SetKey? || k < p then k else k - 1;
    assert rs[i].key == key;
    Known(rs, i);
  }

  lemma StepByBirth(past: seq<Op>, op: Op, es: seq<Entry>, births: seq<nat>)
    requires ByBirth(past, es, births)
    ensures |births| == |es| && ByBirth(past + [op], Applied(es, op), BirthsAfter(es, births, op, |past|))
  {
    hide Born, LastValue, Applied, Position, BirthsAfter;
    var h, rs, bs := past + [op], Applied(es, op), BirthsAfter(es, births, op, |past|);
    BirthsInPast(past, es, births);
    BirthsIncrease(es, births, op, |past|);
    forall i | 0 <= i < |rs| ensures Born(h, rs[i].key, bs[i]) && LastValue(h, rs[i]) {
      StepEntry(past, op, es, births, i);
    }
    forall key, b | Born(h, key, b) ensures Position(rs, key) < |rs| {
      StepComplete(past, op, es, births, key, b);
    }
  }

  /** `InsertionOrder` is what its name says: it lists exactly the keys that were set since they were last removed, in the
      order of their first setting since then, each with its last value. */
  lemma {:induction false} OrderIsByBirth(history: seq<Op>) returns (births: seq<nat>)
    ensures ByBirth(history, InsertionOrder(history), births)
  {
    hide ByBirth, Applied, Position;
    if history == [] {
      births := [];
      NothingBorn();
    } else {
      var n := |history| - 1;
      var es := InsertionOrder(history[..n]);
      var bs := OrderIsByBirth(history[..n]);
      assert history == history[..n] + [history[n]];
      StepByBirth(history[..n], history[n], es, bs);
      births := BirthsAfter(es, bs, history[n], n);
    }
  }

  lemma NothingBorn()
    ensures ByBirth([], [], [])
  {}

  lemma BirthsInPast(past: seq<Op>, es: seq<Entry>, births: seq<nat>)
    requires ByBirth(past, es, births)
    ensures |births| == |es| && forall i :: 0 <= i < |births| ==> births[i] < |past|
  {}

  // ---------------------------------------------------------------- the table of an object

  /** The pairs without that of a key. */
  function Without(slots: seq<Slot>, key: bytes): (r: seq<Slot>) {
    var i := FindSlot(slots, key);
    if i < |slots| then slots[..i] + slots[i + 1..] else slots
  }

  /** What an operation does to an object. */
  ghost predicate Done(op: Op, b: Body, b': Body) {
    && b.ObjectData? && b'.ObjectData?
    && match op
       case SetKey(key, value) => SlotSet(b, key, value, b')
       case DelKey(key) => b' == ObjectData(Without(b.slots, key), b.serial)
       case ClearAll => b' == ObjectData([], b.serial)
  }

  /** The states of an object from its creation on. */
  ghost predicate Run(history: seq<Op>, bodies: seq<Body>) {
    && |bodies| == |history| + 1 && bodies[0] == ObjectData([], 0)
    && forall i, j :: 0 <= i && j == i + 1 && j < |bodies| ==> Done(history[i], bodies[i], bodies[j])
  }

  /** How often a key is set. */
  function Settings(history: seq<Op>): (n: nat)
    ensures n <= |history|
  {
    if history == [] then 0 else Settings(history[..|history| - 1]) + if history[|history| - 1].SetKey? then 1 else 0
  }

  /** Listed by their serials, `ss`, the pairs of the table are the entries `es`. */
  ghost predicate Chronicle(b: Body, ss: seq<Slot>, es: seq<Entry>) {
    && b.ObjectData? && TableOk(b) && Relinked(ss, b.slots) && |ss| == |es|
    && (forall i :: 0 <= i < |es| ==> ss[i].key == es[i].key && ss[i].ref == es[i].value)
    && (forall i, j :: 0 <= i < j < |ss| ==> ss[i].serial < ss[j].serial)
  }

  lemma {:induction false} SamePosition(ss: seq<Slot>, es: seq<Entry>, key: bytes)
    requires |ss| == |es| && forall i :: 0 <= i < |es| ==> ss[i].key == es[i].key
    ensures FindSlot(ss, key) == Position(es, key)
  {
    var i, j := FindSlot(ss, key), Position(es, key);
    assert i < |ss| ==> es[i].key == key;
    assert j < |es| ==> ss[j].key == key;
  }

  lemma ChronicleTable(b: Body, ss: seq<Slot>, es: seq<Entry>)
    requires Chronicle(b, ss, es)
    ensures TableOk(ObjectData(ss, b.serial))
  {
    RelinkedTable(b.slots, ss, b.serial);
  }

  lemma SetChronicle(b: Body, ss: seq<Slot>, es: seq<Entry>, op: Op, b': Body)
    requires Chronicle(b, ss, es) && op.SetKey? && Done(op, b, b')
    ensures Chronicle(b', Updated(ss, op.key, b.serial, op.value), Applied(es, op))
  {
    hide Relinked, FindSlot, Position;
    ChronicleTable(b, ss, es);
    SamePosition(ss, es, op.key);
    RelinkedAgain(ss, b.slots, b.slots);
    UpdatedRelinked(ss, b.slots, b.serial, op.key, op.value);
    RelinkedAgain(Updated(ss, op.key, b.serial, op.value), Updated(b.slots, op.key, b.serial, op.value), b'.slots);
    SlotSetTableOk(b, op.key, op.value, b');
  }

  lemma RelinkedAgain(a: seq<Slot>, b: seq<Slot>, c: seq<Slot>)
    requires Relinked(a, b)
    ensures Relinked(b, a) && (Relinked(b, c) ==> Relinked(a, c))
  {}

  lemma WithoutTable(slots: seq<Slot>, serial: nat, key: bytes)
    requires TableOk(ObjectData(slots, serial))
    ensures TableOk(ObjectData(Without(slots, key), serial))
  {}

  lemma DelChronicle(b: Body, ss: seq<Slot>, es: seq<Entry>, op: Op, b': Body)
    requires Chronicle(b, ss, es) && op.DelKey? && Done(op, b, b')
    ensures Chronicle(b', Without(ss, op.key), Applied(es, op))
  {
    hide Relinked, FindSlot, Position;
    ChronicleTable(b, ss, es);
    SamePosition(ss, es, op.key);
    WithoutRelinked(ss, b.slots, b.serial, op.key);
    WithoutTable(b.slots, b.serial, op.key);
  }

  lemma WithoutRelinked(slots: seq<Slot>, after: seq<Slot>, serial: nat, key: bytes)
    requires Relinked(slots, after) && TableOk(ObjectData(slots, serial))
    ensures Relinked(Without(slots, key), Without(after, key))
  {
    hide FindSlot, TableOk, Relinked;
    FoundRelinked(slots, after, serial, key);
    var i, j := FindSlot(slots, key), FindSlot(after, key);
    if i < |slots| {
      CutRelinked(slots, after, i, j);
    }
  }

  lemma CutRelinked(slots: seq<Slot>, after: seq<Slot>, i: nat, j: nat)
    requires Relinked(slots, after) && i < |slots| && j < |after| && slots[i] == after[j]
    ensures Relinked(slots[..i] + slots[i + 1..], after[..j] + after[j + 1..])
  {
    CutMultiset(slots, i);
    CutMultiset(after, j);
    SameBesides(slots[i], multiset(slots[..i] + slots[i + 1..]), multiset(after[..j] + after[j + 1..]));
  }

  /** Whatever the layout of the table, its pairs listed by serial are the insertion order. */
  lemma {:induction false} Chronicled(history: seq<Op>, bodies: seq<Body>) returns (ss: seq<Slot>)
    requires Run(history, bodies)
    ensures Chronicle(bodies[|history|], ss, InsertionOrder(history)) && bodies[|history|].serial == Settings(history)
  {
    hide Chronicle, Applied, Relinked;
    if history == [] {
      ss := [];
      EmptyChronicle();
    } else {
      var n := |history| - 1;
      var past, op := history[..n], history[n];
      ss := Chronicled(past, bodies[..n + 1]);
      assert Done(op, bodies[n], bodies[n + 1]);
      match op {
        case SetKey(key, value) =>
          SetChronicle(bodies[n], ss, InsertionOrder(past), op, bodies[n + 1]);
          ss := Updated(ss, key, bodies[n].serial, value);
        case DelKey(key) =>
          DelChronicle(bodies[n], ss, InsertionOrder(past), op, bodies[n + 1]);
          ss := Without(ss, key);
        case ClearAll =>
          ss := [];
          ClearChronicle(bodies[n].serial, InsertionOrder(past));
      }
    }
  }

  lemma EmptyChronicle()
    ensures Chronicle(ObjectData([], 0), [], [])
  {}

  lemma ClearChronicle(serial: nat, es: seq<Entry>)
    ensures Chronicle(ObjectData([], serial), [], Applied(es, ClearAll))
  {}

  // ---------------------------------------------------------------- the order of emission

  /** The members under the entries, whatever their values. */
  ghost predicate Lists(ms: seq<Member>, es: seq<Entry>, value: Ref -> Json) {
    |ms| == |es| && forall i :: 0 <= i < |es| ==> ms[i].key == es[i].key && ms[i].value == value(es[i].value)
  }

  ghost function MembersOf(slots: seq<Slot>, value: Ref -> Json): (ms: seq<Member>)
    ensures |ms| == |slots| && forall i :: 0 <= i < |ms| ==> ms[i] == Member(slots[i].key, slots[i].serial, value(slots[i].ref))
  {
    seq(|slots|, i requires 0 <= i < |slots| => Member(slots[i].key, slots[i].serial, value(slots[i].ref)))
  }

  lemma MembersRelinked(slots: seq<Slot>, after: seq<Slot>, value: Ref -> Json)
    requires Relinked(slots, after)
    ensures forall x :: x in MembersOf(slots, value) ==> x in MembersOf(after, value)
  {
    RelinkedSame(slots, after);
    var ms, ns := MembersOf(slots, value), MembersOf(after, value);
    forall x | x in ms ensures x in ns {
      var i :| 0 <= i < |ms| && ms[i] == x;
      assert slots[i] in after;
      var j :| 0 <= j < |after| && after[j] == slots[i];
      assert ns[j] == x;
    }
  }

  // ---------------------------------------------------------------- the age of the pairs

  lemma BornHasSlot(history: seq<Op>, bodies: seq<Body>, key: bytes, b: nat)
    requires Run(history, bodies) && Born(history, key, b)
    ensures bodies[|history|].ObjectData? && FindSlot(bodies[|history|].slots, key) < |bodies[|history|].slots|
  {
    hide InsertionOrder, Position, FindSlot, Done, Relinked;
    var births := OrderIsByBirth(history);
    var ss := Chronicled(history, bodies);
    SamePosition(ss, InsertionOrder(history), key);
    ChronicleTable(bodies[|history|], ss, InsertionOrder(history));
    FoundRelinked(ss, bodies[|history|].slots, bodies[|history|].serial, key);
  }

  lemma SlotsStep(b: Body, op: Op, b': Body, s: Slot) returns (i: nat)
    requires Done(op, b, b') && TableOk(b) && s in b'.slots
    ensures !op.ClearAll? && i <= |b.slots|
    ensures i < |b.slots| ==> b.slots[i].key == s.key && b.slots[i].serial == s.serial && !Removes(op, s.key)
    ensures i == |b.slots| ==> op.SetKey? && s.key == op.key && s.serial == b.serial && FindSlot(b.slots, s.key) == |b.slots|
  {
    hide Relinked;
    if op.SetKey? {
      var after := Updated(b.slots, op.key, b.serial, op.value);
      RelinkedSame(after, b'.slots);
      i :| 0 <= i < |after| && after[i] == s;
    } else {
      var k := FindSlot(b.slots, op.key);
      var j :| 0 <= j < |b'.slots| && b'.slots[j] == s;
      i := if j < k then j else j + 1;
    }
  }

  lemma SettingsOfPast(history: seq<Op>, n: nat, b: nat)
    requires b <= n <= |history|
    ensures Settings(history[..n][..b]) == Settings(history[..b])
  {
    assert history[..n][..b] == history[..b];
  }

  lemma RunPast(history: seq<Op>, bodies: seq<Body>)
    requires Run(history, bodies) && history != []
    ensures var n := |history| - 1;
            Run(history[..n], bodies[..n + 1]) && bodies[..n + 1][n] == bodies[n] && Done(history[n], bodies[n], bodies[n + 1])
            && history == history[..n] + [history[n]]
  {
    hide Done;
  }

  /** The serial of a pair counts the settings before the birth of its key. */
  lemma {:induction false} SerialIsBirth(history: seq<Op>, bodies: seq<Body>, s: Slot) returns (b: nat)
    requires Run(history, bodies) && bodies[|history|].ObjectData? && s in bodies[|history|].slots
    ensures Born(history, s.key, b) && s.serial == Settings(history[..b])
  {
    hide Done, Born, Settings, Chronicle, TableOk, FindSlot, InsertionOrder;
    if history != [] {
      var n := |history| - 1;
      RunPast(history, bodies);
      var past := history[..n];
      var ss := Chronicled(past, bodies[..n + 1]);
      ChronicleOk(bodies[n], ss, InsertionOrder(past));
      var i := SlotsStep(bodies[n], history[n], bodies[n + 1], s);
      if i < |bodies[n].slots| {
        b := SerialIsBirth(past, bodies[..n + 1], bodies[n].slots[i]);
        StillBorn(past, history[n], s.key, b);
        BornInPast(past, s.key, b);
      } else {
        b := n;
        forall c | Born(past, s.key, c) ensures false {
          BornHasSlot(past, bodies[..n + 1], s.key, c);
        }
        NewlyBorn(past, history[n]);
      }
      SettingsOfPast(history, n, b);
    }
  }

  lemma ChronicleOk(b: Body, ss: seq<Slot>, es: seq<Entry>)
    requires Chronicle(b, ss, es)
    ensures b.ObjectData? && TableOk(b)
  {}

  lemma BornInPast(past: seq<Op>, key: bytes, b: nat)
    requires Born(past, key, b)
    ensures b < |past|
  {}

  /** No more than 2^31 settings of keys since the birth of any that is still there. */
  ghost predicate Recent(history: seq<Op>) {
    forall key, b: nat :: Born(history, key, b) ==> Settings(history) - Settings(history[..b]) <= 0x8000_0000
  }

  lemma RecentNear(history: seq<Op>, bodies: seq<Body>, ss: seq<Slot>)
    requires Run(history, bodies) && Recent(history) && bodies[|history|].ObjectData? && TableOk(bodies[|history|])
    requires bodies[|history|].serial == Settings(history) && forall x :: x in ss ==> x in bodies[|history|].slots
    ensures forall i, j :: 0 <= i < |ss| && 0 <= j < |ss| ==> Near(ss[i].serial, ss[j].serial)
  {
    hide Run, Born, Settings;
    forall i | 0 <= i < |ss| ensures Settings(history) - 0x8000_0000 <= ss[i].serial < Settings(history) {
      var b := SerialIsBirth(history, bodies, ss[i]);
    }
  }

  /** JSON_PRESERVE_ORDER visits the members in the order of insertion, as long as no key has been there for more than 2^31
      settings of keys. */
  lemma VisitedInInsertionOrder(history: seq<Op>, bodies: seq<Body>, flags: nat, value: Ref -> Json)
    requires Run(history, bodies) && Recent(history) && PreserveOrder(flags) && !SortKeys(flags)
    ensures bodies[|history|].ObjectData?
    ensures Lists(Ordered(flags, MembersOf(bodies[|history|].slots, value)), InsertionOrder(history), value)
  {
    hide InsertionOrder, Relinked, SortMembers, Recent, Done, Near;
    var ss := Chronicled(history, bodies);
    var b, es := bodies[|history|], InsertionOrder(history);
    var ms, ks := MembersOf(b.slots, value), MembersOf(ss, value);
    RelinkedAgain(ss, b.slots, ss);
    MembersRelinked(ss, b.slots, value);
    MembersRelinked(b.slots, ss, value);
    RelinkedSame(ss, b.slots);
    RecentNear(history, bodies, ss);
    RecentNear(history, bodies, b.slots);
    SerialsSorted(ss, value);
    SlotsOrderable(b.slots, b.serial, value);
    SortSorts(BySerial, ms);
    OrderableNear(ms);
    Reload.SortedSameMembers(BySerial, SortMembers(BySerial, ms), ks);
  }

  lemma SerialsSorted(ss: seq<Slot>, value: Ref -> Json)
    requires forall i, j :: 0 <= i < |ss| && 0 <= j < |ss| ==> Near(ss[i].serial, ss[j].serial)
    requires forall i, j :: 0 <= i < j < |ss| ==> ss[i].serial < ss[j].serial
    ensures Sorted(BySerial, MembersOf(ss, value))
  {
    var ms := MembersOf(ss, value);
    forall i, j | 0 <= i < j < |ms| ensures Precedes(BySerial, ms[i], ms[j]) {
      assert Near(ss[i].serial, ss[j].serial);
    }
  }

  lemma SlotsOrderable(slots: seq<Slot>, serial: nat, value: Ref -> Json)
    requires TableOk(ObjectData(slots, serial))
    requires forall i, j :: 0 <= i < |slots| && 0 <= j < |slots| ==> Near(slots[i].serial, slots[j].serial)
    ensures Orderable(BySerial, MembersOf(slots, value))
  {}

  /** What a reference is printed as below the object. */
  ghost function Printed(mem: map<Ref, Cell>, flags: nat): Ref -> Json {
    (x: Ref) => if Tree(mem, {}, x).Some? then Arranged(Tree(mem, {}, x).value, flags) else Null
  }

  /** The text of an object with a history is that of its members in insertion order. */
  lemma TextInInsertionOrder(mem: map<Ref, Cell>, r: Ref, history: seq<Op>, bodies: seq<Body>, flags: nat) returns (ms: seq<Member>)
    requires Run(history, bodies) && Recent(history) && PreserveOrder(flags) && !SortKeys(flags)
    requires r in mem && mem[r].body == bodies[|history|] && Tree(mem, {}, r).Some?
    ensures Lists(ms, InsertionOrder(history), Printed(mem, flags))
    ensures Dumps(Tree(mem, {}, r).value, flags) == Plain(Object(ms), flags, 0)
  {
    hide Tree, Plain, Lists, InsertionOrder, Settings;
    VisitedInInsertionOrder(history, bodies, flags, Printed(mem, flags));
    TreeParts(mem, r);
    var slots, t := bodies[|history|].slots, Tree(mem, {}, r).value;
    ObjectHasMembers(mem, r);
    assert ArrangedMembers(t.members, flags) == MembersOf(slots, Printed(mem, flags));
    ms := Ordered(flags, MembersOf(slots, Printed(mem, flags)));
  }

  lemma ObjectHasMembers(mem: map<Ref, Cell>, r: Ref)
    requires Tree(mem, {}, r).Some? && r in mem && mem[r].body.ObjectData?
    ensures Tree(mem, {}, r).value.Object?
  {}

  // ---------------------------------------------------------------- through the operations

  /** One operation on an object that the caller holds. */
  method Perform(h: Heap, json: Ref, op: Op)
    requires Ready(h) && json in h.mem && h.mem[json].body.ObjectData? && json in h.handles
    requires op.SetKey? ==> op.value in h.handles && op.value != json
    modifies h
    ensures Ready(h) && h.handles == old(h.handles) - if op.SetKey? then multiset{op.value} else multiset{}
    ensures json in h.mem && Done(op, old(h.mem)[json].body, h.mem[json].body)
  {
    hide Formed, Counts, Sum, Complete, Closed, Elsewhere, Released, SlotSet, FindSlot, Cascade, CascadeAll, Rewritten, RefsOf, Dropped, Heap.Outlives, Children, NoDangling;
    EverythingIsClosed(h);
    ReadyParts(h);
    ObjectInScope(h, json);
    var result;
    match op {
      case SetKey(key, value) =>
        NothingDangles(h, json, value);
        result := h.ObjectSetNewNocheck(json, key, value, h.mem.Keys);
      case DelKey(key) =>
        ghost var m0 := h.mem;
        result := h.ObjectDel(json, key, h.mem.Keys);
        StillThere(m0, h.mem, json, m0.Keys, result);
      case ClearAll =>
        ghost var m0 := h.mem;
        result := h.ObjectClear(json, h.mem.Keys);
        StillThere(m0, h.mem, json, m0.Keys, result);
    }
  }

  /** Everything is in scope, and the object that is held outlives whatever is released. */
  lemma ObjectInScope(h: Heap, json: Ref)
    requires Ready(h) && json in h.mem && json in h.handles
    ensures forall i :: 0 <= i < |Children(h.mem[json].body)| ==> Children(h.mem[json].body)[i] in h.mem.Keys
    ensures forall after :: h.Outlives(json, after, h.mem.Keys)
  {
    hide Formed, Counts, Sum, Complete;
    ReadyParts(h);
    forall i | 0 <= i < |Children(h.mem[json].body)| ensures Children(h.mem[json].body)[i] in h.mem.Keys {
      assert Children(h.mem[json].body)[i] in Children(h.mem[json].body);
    }
  }

  lemma StillThere(m0: map<Ref, Cell>, m1: map<Ref, Cell>, r: Ref, scope: set<Ref>, result: int)
    requires r in m0 && (result == 0 ==> Elsewhere(m0, m1, r, scope)) && (result != 0 ==> m1 == m0)
    ensures r in m1
  {}

  /** The references that a history stores. */
  ghost function Stored(history: seq<Op>): (m: multiset<Ref>) {
    if history == [] then multiset{}
    else (if history[0].SetKey? then multiset{history[0].value} else multiset{}) + Stored(history[1..])
  }

  lemma StoredNext(history: seq<Op>, i: nat, handles: multiset<Ref>, json: Ref)
    requires i < |history| && Stored(history[i..]) + multiset{json} <= handles && json !in Stored(history[i..])
    ensures json !in Stored(history[i + 1..]) && (history[i].SetKey? ==> history[i].value != json)
    ensures var m := if history[i].SetKey? then multiset{history[i].value} else multiset{};
            m <= handles && Stored(history[i + 1..]) + multiset{json} <= handles - m
    ensures json in handles && (history[i].SetKey? ==> history[i].value in handles)
  {
    assert history[i..][1..] == history[i + 1..];
    var m := if history[i].SetKey? then multiset{history[i].value} else multiset{};
    assert Stored(history[i..]) == m + Stored(history[i + 1..]);
    forall x ensures (Stored(history[i + 1..]) + multiset{json})[x] <= (handles - m)[x] && m[x] <= handles[x] {
      assert (Stored(history[i..]) + multiset{json})[x] <= handles[x];
    }
    assert history[i].SetKey? ==> m[history[i].value] == 1;
    assert (Stored(history[i..]) + multiset{json})[json] >= 1;
  }

  /** A new object lives through any history of settings, deletions and clearings and is then dumped. */
  method LiveAndDump(h: Heap, history: seq<Op>, flags: nat) returns (json: Ref, text: Option<bytes>, ghost ms: seq<Member>)
    requires Ready(h) && Stored(history) <= h.handles && Recent(history)
    requires PreserveOrder(flags) && !SortKeys(flags)
    modifies h
    ensures Ready(h) && json in h.handles
    ensures text.Some? <==> Tree(h.mem, {}, json).Some? && Printable(Tree(h.mem, {}, json).value)
    ensures text.Some? ==> Lists(ms, InsertionOrder(history), Printed(h.mem, flags)) && text.value == Plain(Object(ms), flags, 0)
  {
    hide *;
    assert history[0..] == history;
    HandlesThere(h);
    NotStored(h.handles, h.mem, Stored(history));
    json := NewContainer(h, ObjectData([], 0));
    ghost var bodies := [ObjectData([], 0)];
    var i := 0;
    RunStart(history);
    while i < |history|
      invariant i <= |history| && Ready(h) && Stored(history[i..]) + multiset{json} <= h.handles && json in h.mem
      invariant json !in Stored(history[i..])
      invariant |bodies| == i + 1 && Run(history[..i], bodies) && h.mem[json].body == bodies[i]
    {
      StoredNext(history, i, h.handles, json);
      RunObject(history[..i], bodies);
      Perform(h, json, history[i]);
      RunStep(history, i, bodies, h.mem[json].body);
      bodies := bodies + [h.mem[json].body];
      i := i + 1;
    }
    assert history[..i] == history;
    ReadyIsSound(h);
    RunObject(history, bodies);
    ObjectIsContainer(h.mem, json);
    ms := [];
    text := JsonDumps(h, json, flags);
    if text.Some? {
      ms := TextInInsertionOrder(h.mem, json, history, bodies, flags);
    }
  }

  lemma ObjectIsContainer(mem: map<Ref, Cell>, r: Ref)
    requires r in mem && mem[r].body.ObjectData?
    ensures IsContainer(mem, r)
  {}

  lemma HandlesThere(h: Heap)
    requires Ready(h)
    ensures forall x :: x in h.handles ==> x in h.mem
  {
    forall x | x in h.handles ensures x in h.mem {
      NothingDangles(h, x, x);
    }
  }

  lemma NotStored(handles: multiset<Ref>, mem: map<Ref, Cell>, m: multiset<Ref>)
    requires m <= handles && forall x :: x in handles ==> x in mem
    ensures forall x :: x !in mem ==> x !in m
  {}

  lemma RunStart(history: seq<Op>)
    ensures Run(history[..0], [ObjectData([], 0)])
  {}

  lemma RunObject(history: seq<Op>, bodies: seq<Body>)
    requires Run(history, bodies)
    ensures bodies[|history|].ObjectData?
  {
    if history != [] {
      assert Done(history[|history| - 1], bodies[|history| - 1], bodies[|history|]);
    }
  }

  lemma RunStep(history: seq<Op>, i: nat, bodies: seq<Body>, b: Body)
    requires i < |history| && Run(history[..i], bodies) && Done(history[i], bodies[i], b)
    ensures Run(history[..i + 1], bodies + [b])
  {
    hide Done;
  }
}
