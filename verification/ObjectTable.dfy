/** `json_object_t` of libjansson/value.c as it is stored: a hash table and a serial. What its operations do to the pairs is
    what the value graph of `Heaps` takes them to do. */
module ObjectTables {
  import opened Options
  import opened Utf8
  import opened Heaps
  import Hashtables

  /** `object_key_t`. */
  datatype Key = Key(key: bytes, serial: nat)

  type Item = (Key, Ref)

  type Table = Hashtables.Hashtable<Key, bytes, Ref>

  /** The part of a key that `key_equal` and `hash_key` look at. */
  function Text(k: Key): bytes {
    k.key
  }

  function SlotOf(item: Item): Slot {
    Slot(item.0.key, item.0.serial, item.1)
  }

  function ItemOf(slot: Slot): Item {
    (Key(slot.key, slot.serial), slot.ref)
  }

  ghost function SlotsOf(items: seq<Item>): (slots: seq<Slot>)
    ensures |slots| == |items| && forall i :: 0 <= i < |items| ==> slots[i] == SlotOf(items[i])
  {
    seq(|items|, i requires 0 <= i < |items| => SlotOf(items[i]))
  }

  lemma InSlots(items: seq<Item>, x: Slot)
    ensures x in SlotsOf(items) <==> ItemOf(x) in items
  {
    var slots := SlotsOf(items);
    if x in slots {
      var i :| 0 <= i < |slots| && slots[i] == x;
      assert items[i] == ItemOf(x);
    }
    if ItemOf(x) in items {
      var i :| 0 <= i < |items| && items[i] == ItemOf(x);
      assert slots[i] == x;
    }
  }

  // ---------------------------------------------------------------- one key, one pair

  ghost predicate OneEach(slots: seq<Slot>) {
    forall i, j :: 0 <= i < j < |slots| ==> slots[i].key != slots[j].key
  }

  lemma OneEachOnce(slots: seq<Slot>, x: Slot)
    requires OneEach(slots)
    ensures multiset(slots)[x] == if x in slots then 1 else 0
  {
    if x in slots {
      var i :| 0 <= i < |slots| && slots[i] == x;
      assert x !in slots[..i] && x !in slots[i + 1..];
      assert slots == slots[..i] + [x] + slots[i + 1..];
    }
  }

  lemma SamePairsRelinked(a: seq<Slot>, b: seq<Slot>)
    requires OneEach(a) && OneEach(b) && forall x :: x in a <==> x in b
    ensures Relinked(a, b)
  {
    forall x ensures multiset(a)[x] == multiset(b)[x] {
      OneEachOnce(a, x);
      OneEachOnce(b, x);
    }
  }

  lemma UniqueOneEach(items: seq<Item>)
    requires Hashtables.Unique(items, Text)
    ensures OneEach(SlotsOf(items))
  {
    var slots := SlotsOf(items);
    forall i, j | 0 <= i < j < |slots| ensures slots[i].key != slots[j].key {
      assert Text(items[i].0) != Text(items[j].0);
    }
  }

  /** A key is found in the table exactly if it is in the map. */
  lemma FoundIffMapped(items: seq<Item>, key: bytes)
    requires Hashtables.Unique(items, Text)
    ensures FindSlot(SlotsOf(items), key) < |items| <==> key in Hashtables.ToMap(items, Text)
    ensures var i := FindSlot(SlotsOf(items), key); i < |items| ==> items[i] == Hashtables.ToMap(items, Text)[key]
  {
    Hashtables.ToMapItems(items, Text);
    var m, slots := Hashtables.ToMap(items, Text), SlotsOf(items);
    var i := FindSlot(slots, key);
    if i < |items| {
      assert items[i] in items && Text(items[i].0) == key;
    }
    if key in m {
      var k :| 0 <= k < |items| && items[k] == m[key];
      assert slots[k].key == key;
    }
  }

  /** The pairs of a list are those of its map. */
  lemma ItemInMap(items: seq<Item>, x: Item)
    requires Hashtables.Unique(items, Text)
    ensures x in items <==> Text(x.0) in Hashtables.ToMap(items, Text) && Hashtables.ToMap(items, Text)[Text(x.0)] == x
  {
    Hashtables.ToMapItems(items, Text);
  }

  /** Lists with the same map are the same table, listed in some order. */
  lemma SameMapRelinked(a: seq<Item>, b: seq<Item>)
    requires Hashtables.Unique(a, Text) && Hashtables.Unique(b, Text) && Hashtables.ToMap(a, Text) == Hashtables.ToMap(b, Text)
    ensures Relinked(SlotsOf(a), SlotsOf(b))
  {
    hide Hashtables.ToMap, Hashtables.Unique;
    UniqueOneEach(a);
    UniqueOneEach(b);
    forall x ensures x in SlotsOf(a) <==> x in SlotsOf(b) {
      InSlots(a, x);
      InSlots(b, x);
      ItemInMap(a, ItemOf(x));
      ItemInMap(b, ItemOf(x));
    }
    SamePairsRelinked(SlotsOf(a), SlotsOf(b));
  }

  /** What `hashtable_set` promises about the map is what the graph takes setting a key to be. */
  lemma SetIsSlotSet(items: seq<Item>, key: bytes, serial: nat, value: Ref, items': seq<Item>)
    requires Hashtables.Unique(items, Text) && Hashtables.Unique(items', Text)
    requires var m, m' := Hashtables.ToMap(items, Text), Hashtables.ToMap(items', Text);
             m' == m[key := (if key in m then m[key].0 else Key(key, serial), value)]
    ensures SlotSet(ObjectData(SlotsOf(items), serial), key, value, ObjectData(SlotsOf(items'), serial + 1))
  {
    hide Hashtables.ToMap, Hashtables.Unique, Relinked, FindSlot;
    var slots := SlotsOf(items);
    var i := FindSlot(slots, key);
    FoundIffMapped(items, key);
    if i < |items| {
      var t := items[i := (items[i].0, value)];
      Hashtables.UpdatedMap(items, i, value, Text);
      SameMapRelinked(t, items');
      assert SlotsOf(t) == slots[i := slots[i].(ref := value)];
    } else {
      var t := items + [(Key(key, serial), value)];
      AppendedUnique(items, (Key(key, serial), value));
      Hashtables.InsertedMap(items, |items|, (Key(key, serial), value), t, Text);
      SameMapRelinked(t, items');
      assert SlotsOf(t) == slots + [Slot(key, serial, value)];
    }
  }

  lemma AppendedUnique(items: seq<Item>, x: Item)
    requires Hashtables.Unique(items, Text) && FindSlot(SlotsOf(items), x.0.key) == |items|
    ensures Hashtables.Unique(items + [x], Text) && Hashtables.Inserted(items, |items|, x, items + [x])
  {
    forall i | 0 <= i < |items| ensures Text(items[i].0) != Text(x.0) {
      assert SlotsOf(items)[i].key != x.0.key;
    }
  }

  /** What `hashtable_del` promises about the list is the pairs without that of the key. */
  lemma DelIsCut(items: seq<Item>, key: bytes, items': seq<Item>, at: nat, freed: Item)
    requires Hashtables.Unique(items, Text) && Hashtables.Inserted(items', at, freed, items) && freed.0.key == key
    ensures var i := FindSlot(SlotsOf(items), key);
            i < |items| && SlotsOf(items') == SlotsOf(items)[..i] + SlotsOf(items)[i + 1..]
  {
    var slots := SlotsOf(items);
    var i := FindSlot(slots, key);
    assert slots[at].key == key;
    assert i == at by {
      UniqueOneEach(items);
    }
    assert forall k :: 0 <= k < |items'| ==> SlotsOf(items')[k] == (slots[..i] + slots[i + 1..])[k];
  }

  lemma TextOf(k: Key)
    ensures Text(k) == k.key
  {}

  lemma MappedText(items: seq<Item>, key: bytes)
    requires Hashtables.Unique(items, Text) && key in Hashtables.ToMap(items, Text)
    ensures Hashtables.ToMap(items, Text)[key].0.key == key
  {
    Hashtables.ToMapItems(items, Text);
  }

  lemma SlotAt(items: seq<Item>, i: nat)
    requires i < |items|
    ensures ItemOf(SlotsOf(items)[i]) == items[i] && SlotsOf(items)[i].ref == items[i].1
  {}

  lemma CutTableOk(slots: seq<Slot>, i: nat, serial: nat)
    requires TableOk(ObjectData(slots, serial)) && i < |slots|
    ensures TableOk(ObjectData(slots[..i] + slots[i + 1..], serial))
  {}

  // ---------------------------------------------------------------- the object

  class JsonObject {
    const table: Table
    var serial: nat

    ghost predicate Valid()
      reads this, table, table.head, table.buckets, table.order, table.Repr()
    {
      table.Valid() && table.ident == Text && TableOk(Body())
    }

    /** The object as a cell of the value graph holds it. */
    ghost function Body(): Body
      requires table.Valid()
      reads this, table, table.head, table.buckets, table.order, table.Repr()
    {
      table.ValidFacts();
      ObjectData(SlotsOf(table.Items()), serial)
    }

    /** `json_object`; the hash of a text is arbitrary. */
    constructor (hashText: bytes -> nat)
      ensures Valid() && fresh(table) && fresh(table.Repr()) && Body() == ObjectData([], 0)
    {
      var t := new Hashtables.Hashtable<Key, bytes, Ref>(Text, hashText);
      table := t;
      serial := 0;
      new;
      table.ValidFacts();
    }

    lemma Facts()
      requires table.Valid() && table.ident == Text
      ensures Hashtables.Paired(table.order) && Body() == ObjectData(SlotsOf(table.Items()), serial)
      ensures Hashtables.Unique(table.Items(), Text) && table.Map() == Hashtables.ToMap(table.Items(), Text)
    {
      table.ValidFacts();
      table.MapDef();
      Hashtables.UniqueItems(table.order, Text);
    }

    lemma Parts()
      requires Valid()
      ensures table.Valid() && table.ident == Text && TableOk(Body())
    {}

    lemma Whole()
      requires table.Valid() && table.ident == Text && TableOk(Body())
      ensures Valid()
    {}

    /** `hashtable_set` in `json_object_set_new_nocheck`, with the serial counted up before. */
    method Set(key: bytes, value: Ref) returns (displaced: Option<Ref>)
      requires Valid() && table.size < Hashtables.NumBuckets(|Hashtables.PRIMES| - 1)
      modifies this, table.Repr()
      ensures Valid() && SlotSet(old(Body()), key, value, Body())
      ensures var slots := old(Body()).slots;
              var i := FindSlot(slots, key);
              displaced == if i < |slots| then Some(slots[i].ref) else None
    {
      hide Hashtables.ToMap, Hashtables.Unique, Hashtables.Paired, Hashtables.ItemsOf, Hashtables.Hashtable.Valid, Hashtables.Hashtable.Map,
        Hashtables.Hashtable.Items, Hashtables.Hashtable.Arrived, Hashtables.Hashtable.Roomy, Hashtables.Inserted, Hashtables.NumBuckets,
        Relinked, FindSlot, TableOk, SlotSet, Updated;
      Parts();
      Facts();
      ghost var items, before := table.Items(), Body();
      FoundIffMapped(items, key);
      if FindSlot(before.slots, key) < |items| {
        SlotAt(items, FindSlot(before.slots, key));
      }
      var k := Key(key, serial);
      TextOf(k);
      assert table.ident(k) == key;
      serial := serial + 1;
      displaced := table.Set(k, value);
      Facts();
      SetIsSlotSet(items, key, before.serial, value, table.Items());
      SlotSetTableOk(before, key, value, Body());
      Whole();
    }

    /** `hashtable_del` in `json_object_del`. */
    method Del(key: bytes) returns (freed: Option<Item>)
      requires Valid()
      modifies table`order, table`runs, table`size, table.buckets, table.head, Hashtables.LinkSet(table.order)
      ensures Valid()
      ensures var slots := old(Body()).slots;
              var i := FindSlot(slots, key);
              && Body() == ObjectData(if i < |slots| then slots[..i] + slots[i + 1..] else slots, serial)
              && freed == if i < |slots| then Some(ItemOf(slots[i])) else None
    {
      hide *;
      Parts();
      Facts();
      ghost var items, before := table.Items(), Body();
      FoundIffMapped(items, key);
      freed := table.Del(key);
      Facts();
      if freed.Some? {
        ghost var at :| Hashtables.Inserted(table.Items(), at, freed.value, items);
        MappedText(items, key);
        DelIsCut(items, key, table.Items(), at, freed.value);
        SlotAt(items, FindSlot(SlotsOf(items), key));
        CutTableOk(before.slots, FindSlot(before.slots, key), before.serial);
      }
      Whole();
    }

    /** `hashtable_clear` in `json_object_clear`. */
    method Clear() returns (freed: seq<Item>)
      requires Valid()
      modifies table`order, table`runs, table`size, table.buckets, table.head
      ensures Valid() && Body() == ObjectData([], serial) && SlotsOf(freed) == old(Body()).slots
    {
      table.ValidFacts();
      freed := table.Clear();
      table.ValidFacts();
    }
  }
}
