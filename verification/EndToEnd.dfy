/** What the layers of libjansson promise together: a value graph is printed, read and copied. */
module EndToEnd {
  import opened Options
  import opened Utf8
  import opened Values
  import opened Arrange
  import opened DumpText
  import opened RoundTrip
  import opened Heaps
  import opened HeapDump
  import opened HeapValues
  import Text = LoadText
  import Histories
  import Parsing
  import Reload

  lemma {:induction false} DocumentPrintable(v: Json)
    requires Document(v)
    ensures Printable(v)
  {
    match v
    case Array(es) =>
      forall i | 0 <= i < |es| ensures Printable(es[i]) { DocumentPrintable(es[i]); }
    case Object(ms) =>
      forall i | 0 <= i < |ms| ensures Printable(ms[i].value) { DocumentPrintable(ms[i].value); }
    case _ =>
  }

  /** Every key, at every depth, is UTF-8. */
  ghost predicate KeysValid(v: Json) {
    match v
    case Array(es) => forall i :: 0 <= i < |es| ==> KeysValid(es[i])
    case Object(ms) => forall i :: 0 <= i < |ms| ==> Utf8.Valid(ms[i].key) && KeysValid(ms[i].value)
    case _ => true
  }

  /** Integers of 64 bits and C strings, all a `json_t` has room for; no reals. */
  ghost predicate Storable(v: Json) {
    match v
    case Integer(n) => INT64_MIN <= n <= INT64_MAX
    case Real(_) => false
    case String(s) => CString(s)
    case Array(es) => forall i :: 0 <= i < |es| ==> Storable(es[i])
    case Object(ms) => forall i :: 0 <= i < |ms| ==> CString(ms[i].key) && Storable(ms[i].value)
    case _ => true
  }

  lemma {:induction false} DocumentIff(v: Json)
    requires KeysUnique(v) && Storable(v)
    ensures Document(v) <==> Printable(v) && KeysValid(v)
    ensures Proper(v)
  {
    match v
    case Array(es) =>
      forall i | 0 <= i < |es| ensures (Document(es[i]) <==> Printable(es[i]) && KeysValid(es[i])) && Proper(es[i]) {
        DocumentIff(es[i]);
      }
    case Object(ms) =>
      forall i | 0 <= i < |ms|
        ensures (Document(ms[i].value) <==> Printable(ms[i].value) && KeysValid(ms[i].value)) && Proper(ms[i].value)
      {
        DocumentIff(ms[i].value);
      }
    case _ =>
  }

  /** The keys decide: what `json_dumps` prints of an array or object is read back as an equal value, under any flags of
      the one and the other, exactly if every key is UTF-8. */
  lemma ReadBackIffKeysValid(v: Json, flags: nat, loadFlags: nat)
    requires KeysUnique(v) && Storable(v) && Printable(v) && (v.Array? || v.Object?)
    ensures Text.Load(Dumps(v, flags), loadFlags).Some? && Equal(v, Text.Load(Dumps(v, flags), loadFlags).value)
            <==> KeysValid(v)
  {
    hide *;
    DocumentIff(v);
    Reload.RoundTripIff(v, flags, loadFlags);
  }

  /** `json_loadb(json_dumps(json))` for the graph of an array or object: it is printed exactly if it has no cycle and no
      invalid string, and what was printed is read back as an equal value exactly if every key is UTF-8; the graph itself
      is as it was. */
  method DumpAndLoad(h: Heap, json: Ref, flags: nat, loadFlags: nat) returns (text: Option<bytes>, back: Option<Json>)
    requires Ready(h) && IsContainer(h.mem, json)
    modifies h`mem
    ensures h.mem == old(h.mem)
    ensures var t := Tree(h.mem, {}, json);
            && (text.Some? <==> t.Some? && Printable(t.value))
            && (text.Some? && Storable(t.value) ==> (back.Some? && Equal(t.value, back.value) <==> KeysValid(t.value)))
            && (t.Some? && Document(t.value) ==> text.Some? && back.Some? && Equal(t.value, back.value))
  {
    hide Tree, Document, Equal, Printable, Dumps, Sound, Ready, Unvisited, KeysValid, Storable, KeysUnique, Tables, Text.Load;
    ReadyParts(h);
    ReadyIsSound(h);
    ReadBack(h.mem, json, flags, loadFlags);
    text := JsonDumps(h, json, flags);
    back := None;
    if text.Some? {
      var position, line, column;
      back, position, line, column := Parsing.LoadBuffer(text.value, loadFlags);
    }
  }

  lemma ReadBack(mem: map<Ref, Cell>, r: Ref, flags: nat, loadFlags: nat)
    requires Tables(mem) && IsContainer(mem, r)
    ensures var t := Tree(mem, {}, r);
            && (t.Some? && Storable(t.value) && Printable(t.value) ==>
              (Text.Load(Dumps(t.value, flags), loadFlags).Some? && Equal(t.value, Text.Load(Dumps(t.value, flags), loadFlags).value)
               <==> KeysValid(t.value)))
            && (t.Some? && Document(t.value) ==>
              && Printable(t.value) && Text.Load(Dumps(t.value, flags), loadFlags).Some?
              && Equal(t.value, Text.Load(Dumps(t.value, flags), loadFlags).value))
  {
    hide *;
    var t := Tree(mem, {}, r);
    if t.Some? {
      ContainerTree(mem, r);
      TreeKeysUnique(mem, {}, r);
      if Document(t.value) {
        DocumentPrintable(t.value);
        DocumentRoundTrip(t.value, flags, loadFlags);
      }
      if Storable(t.value) && Printable(t.value) {
        ReadBackIffKeysValid(t.value, flags, loadFlags);
      }
    }
  }

  lemma ContainerTree(mem: map<Ref, Cell>, r: Ref)
    requires IsContainer(mem, r) && Tree(mem, {}, r).Some?
    ensures Tree(mem, {}, r).value.Array? || Tree(mem, {}, r).value.Object?
  {}

  // ---------------------------------------------------------------- keys that are not UTF-8

  /** An object whose only key is the byte FF. */
  ghost function BadKey(): Json {
    Object([Member([0xFF], 0, Null)])
  }

  /** `{": null}`, where the quote is never closed. */
  const BAD_TEXT: bytes := [LBRACE, QUOTE, COLON, SPACE, 0x6E, 0x75, 0x6C, 0x6C, RBRACE]

  lemma BadKeyText()
    ensures Printable(BadKey()) && Dumps(BadKey(), 0) == BAD_TEXT
  {
    hide Dumps, PlainMembers, StringText;
    var ms := BadKey().members;
    BadKeyTexts();
    NullsText(ms);
    NullText(ms, [QUOTE]);
    assert ms[1..] == [];
    NoneText();
  }

  lemma BadTextDoesNotLoad()
    ensures Text.Load(BAD_TEXT, 0) == None
  {
    hide Text.ValidPrefix, Text.RawLength, Text.LexNumber, Text.LexWord, Text.Unescape;
    Parsing.AsciiIsReadable(BAD_TEXT);
    assert BAD_TEXT[..|BAD_TEXT|] == BAD_TEXT;
    var s1, s2 := BAD_TEXT[1..], BAD_TEXT[2..];
    assert s1[0] == QUOTE && s1[1..] == s2;
    Unclosed(s2);
    assert Text.Lex(BAD_TEXT, false) == Text.Lexed(Text.Punct(LBRACE), s1);
    assert Text.Lex(s1, false).token == Text.Invalid;
    assert Text.ParseObject(s1, false, 0) == None;
  }

  lemma {:induction false} Unclosed(s: bytes)
    requires forall i :: 0 <= i < |s| ==> s[i] != QUOTE && s[i] != BACKSLASH
    ensures Text.RawLength(s) == None
  {
    if s != [] {
      Unclosed(s[1..]);
    }
  }

  lemma OnlyPair(b: Body)
    requires b.ObjectData? && SlotSet(ObjectData([], 0), [0xFF], 1, b)
    ensures b.slots == [Slot([0xFF], 0, 1)]
  {
    assert [] + [Slot([0xFF], 0, 1)] == [Slot([0xFF], 0, 1)];
    RelinkedSame([Slot([0xFF], 0, 1)], b.slots);
    assert b.slots[0] in b.slots;
  }

  lemma BadKeyTree(mem: map<Ref, Cell>, r: Ref)
    requires r in mem && mem[r].body.ObjectData? && mem[r].body.slots == [Slot([0xFF], 0, 1)] && 1 in mem && mem[1].body == NullData
    ensures Tree(mem, {}, r) == Some(BadKey()) && IsContainer(mem, r)
  {
    var t := TreeMembers(mem, {} + {r}, mem[r].body.slots);
    assert Tree(mem, {} + {r}, 1) == Some(Null);
    assert t.Some? && t.value == [Member([0xFF], 0, Null)];
  }

  /** Two keys that are not UTF-8, FF and FE. */
  ghost function BadKeys(): Json {
    Object([Member([0xFF], 0, Null), Member([0xFE], 1, Null)])
  }

  /** One key, which reads `: null, `. */
  ghost function OneKey(): Json {
    Object([Member([COLON, SPACE] + NULL_TEXT + [COMMA, SPACE], 0, Null)])
  }

  /** `{": null, ": null}` */
  const TWO_TEXT: bytes := [LBRACE, QUOTE, COLON, SPACE, 0x6E, 0x75, 0x6C, 0x6C, COMMA, SPACE, QUOTE, COLON, SPACE, 0x6E, 0x75, 0x6C, 0x6C, RBRACE]

  lemma NoFlags()
    ensures !SortKeys(0) && !PreserveOrder(0) && !Compact(0) && !EnsureAscii(0) && IndentText(0, 0, false) == IndentText(0, 1, false) == []
  {}

  lemma NullsStay(ms: seq<Member>)
    requires forall i :: 0 <= i < |ms| ==> ms[i].value == Null
    ensures Arranged(Object(ms), 0) == Object(ms)
  {
    hide ArrangedMembers, SortKeys, PreserveOrder, SortMembers;
    NoFlags();
    var ns := ArrangedMembers(ms, 0);
    forall i | 0 <= i < |ms| ensures ns[i] == ms[i] {
      assert ns[i].value == Arranged(Null, 0);
    }
    assert ns == ms;
  }

  lemma ObjectText(ms: seq<Member>)
    requires ms != []
    ensures Plain(Object(ms), 0, 0) == [LBRACE] + IndentText(0, 1, false) + PlainMembers(ms, 0, 0) + [RBRACE]
  {
    hide IndentText, PlainMembers;
  }

  /** An object whose values are all null, printed without flags. */
  lemma NullsText(ms: seq<Member>)
    requires ms != [] && forall i :: 0 <= i < |ms| ==> ms[i].value == Null
    ensures Dumps(Object(ms), 0) == [LBRACE] + PlainMembers(ms, 0, 0) + [RBRACE]
  {
    hide Plain, PlainMembers, Arranged, IndentText;
    NoFlags();
    NullsStay(ms);
    ObjectText(ms);
    assert [LBRACE] + IndentText(0, 1, false) == [LBRACE];
  }

  lemma NullText(ms: seq<Member>, key: bytes)
    requires ms != [] && ms[0].value == Null && StringText(ms[0].key, false).text == key
    ensures PlainMembers(ms, 0, 0) == key + [COLON, SPACE] + NULL_TEXT + (if |ms| == 1 then [] else [COMMA, SPACE]) + PlainMembers(ms[1..], 0, 0)
  {
    hide StringText;
    assert [COMMA] + [SPACE] == [COMMA, SPACE];
  }

  lemma NoneText()
    ensures PlainMembers([], 0, 0) == []
  {}

  lemma BadKeyTexts()
    ensures StringText([0xFF], false).text == [QUOTE] == StringText([0xFE], false).text
  {
    assert Next([0xFF]).None? && Next([0xFE]).None?;
    assert StringBody([], [0xFF], false) == Emitted(false, []) == StringBody([], [0xFE], false);
  }

  lemma BadKeysText()
    ensures Dumps(BadKeys(), 0) == TWO_TEXT
  {
    hide Dumps, PlainMembers, StringText;
    var ms := BadKeys().members;
    BadKeyTexts();
    NullsText(ms);
    NullText(ms, [QUOTE]);
    NullText(ms[1..], [QUOTE]);
    assert ms[1..][1..] == [];
    NoneText();
  }

  lemma {:induction false} PlainTextOf(run: bytes, s: bytes)
    requires forall i :: 0 <= i < |s| ==> 0x20 <= s[i] < 0x7F && s[i] != QUOTE && s[i] != BACKSLASH
    ensures StringBody(run, s, false) == Emitted(true, run + s + [QUOTE]) && Valid(s)
    decreases |s|
  {
    if s != [] {
      assert Next(s) == Some(Char(s[0], 1));
      PlainTextOf(run + s[..1], s[1..]);
      assert run + s[..1] + s[1..] == run + s;
    } else {
      assert run + s == run;
    }
  }

  lemma OneKeyText()
    ensures Dumps(OneKey(), 0) == TWO_TEXT && Document(OneKey())
  {
    hide Dumps, PlainMembers, StringBody, Valid;
    var ms := OneKey().members;
    PlainTextOf([], ms[0].key);
    assert StringText(ms[0].key, false).text == [QUOTE] + ([] + ms[0].key + [QUOTE]);
    NullsText(ms);
    NullText(ms, [QUOTE] + ms[0].key + [QUOTE]);
    assert ms[1..] == [];
    NoneText();
  }

  lemma OneIsNotTwo()
    ensures !Equal(BadKeys(), OneKey())
  {}

  /** The two are printed alike, as `{": null, ": null}`: text of invalid keys may load, to another value. */
  lemma InvalidKeysMayLoad(loadFlags: nat)
    ensures Text.Load(Dumps(BadKeys(), 0), loadFlags) == Some(OneKey()) && !Equal(BadKeys(), OneKey())
  {
    hide Text.Load, Equal, StringText, Valid;
    BadKeysText();
    OneKeyText();
    NullsStay(OneKey().members);
    assert LoadedMembers(OneKey().members, 0) == OneKey().members;
    DocumentRoundTrip(OneKey(), 0, loadFlags);
    OneIsNotTwo();
  }

  /** `do_dump` does not look at what becomes of a key: an object with an invalid key, which only the unchecked setter
      takes, is dumped with success, and the text does not load. */
  method InvalidKeyIsDumped() returns (text: Option<bytes>, back: Option<Json>)
    ensures text == Some(BAD_TEXT) && back == None
  {
    hide Formed, Tree, Printable, Dumps, Ready, Sound, Unvisited, BadKey, SlotSet, Relinked, IsContainer;
    var h := new Heap();
    var json := NewContainer(h, ObjectData([], 0));
    ReadyParts(h);
    ghost var m0 := h.handles;
    ClaimConstant(h, 1);
    assert 1 in h.handles && json in h.handles;
    Histories.Perform(h, json, Histories.SetKey([0xFF], 1));
    OnlyPair(h.mem[json].body);
    ReadyParts(h);
    ReadyIsSound(h);
    BadKeyTree(h.mem, json);
    BadKeyText();
    BadTextDoesNotLoad();
    text := JsonDumps(h, json, 0);
    var position, line, column;
    back, position, line, column := Parsing.LoadBuffer(text.value, 0);
  }

  // ---------------------------------------------------------------- copies

  /** No key twice in any object. */
  ghost predicate KeysUnique(v: Json) {
    match v
    case Array(es) => forall i :: 0 <= i < |es| ==> KeysUnique(es[i])
    case Object(ms) => UniqueKeys(ms) && forall i :: 0 <= i < |ms| ==> KeysUnique(ms[i].value)
    case _ => true
  }

  lemma {:induction false} TreeKeysUnique(mem: map<Ref, Cell>, path: set<Ref>, r: Ref)
    requires Tables(mem) && Tree(mem, path, r).Some?
    ensures KeysUnique(Tree(mem, path, r).value)
    decreases |mem.Keys - path|
  {
    match mem[r].body
    case ArrayData(elems) =>
      OneMore(mem, path, r);
      forall i | 0 <= i < |elems| ensures KeysUnique(Tree(mem, path + {r}, elems[i]).value) {
        TreeKeysUnique(mem, path + {r}, elems[i]);
      }
    case ObjectData(slots, serial) =>
      OneMore(mem, path, r);
      forall i | 0 <= i < |slots| ensures KeysUnique(Tree(mem, path + {r}, slots[i].ref).value) {
        TreeKeysUnique(mem, path + {r}, slots[i].ref);
      }
      assert TableOk(mem[r].body);
      var ms := TreeMembers(mem, path + {r}, slots).value;
      forall i, j | 0 <= i < j < |ms| ensures ms[i].key != ms[j].key {
        assert ms[i].key == slots[i].key && ms[j].key == slots[j].key;
      }
    case _ =>
  }

  /** What is equal to a document is a document. */
  lemma {:induction false} EqualDocument(v: Json, w: Json)
    requires Document(v) && KeysUnique(w) && Equal(v, w)
    ensures Document(w)
    decreases v
  {
    match v
    case Array(es) =>
      forall i | 0 <= i < |es| ensures Document(w.elems[i]) {
        EqualDocument(es[i], w.elems[i]);
      }
    case Object(ms) =>
      var ns := w.members;
      EqualKeysIn(ms, ns);
      SameKeys(ms, ns);
      forall j | 0 <= j < |ns| ensures CString(ns[j].key) && Utf8.Valid(ns[j].key) && Document(ns[j].value) {
        var i := KeyAt(ns, ms, j);
        assert EqualAt(ms[i].key, ms[i].value, ns);
        FindUnique(ns, j);
        EqualDocument(ms[i].value, ns[j].value);
      }
    case _ =>
  }

  /** With JSON_SORT_KEYS a deep copy prints like its original, although its pairs have other serials and other places. */
  lemma CopyPrintsAlike(m0: map<Ref, Cell>, m1: map<Ref, Cell>, r: Ref, t: Json, flags: nat)
    requires Copied(m0, m1, r, t) && Tables(m1) && Document(t) && SortKeys(flags)
    ensures Dumps(Tree(m1, {}, r).value, flags) == Dumps(t, flags)
  {
    hide Tree, Document, Equal, Dumps, KeysUnique;
    TreeKeysUnique(m1, {}, r);
    EqualDocument(t, Tree(m1, {}, r).value);
    SortedTextIsCanonical(t, Tree(m1, {}, r).value, flags);
  }

  // ---------------------------------------------------------------- the order of a copy

  /** Every object lists its members in the order of their serials, which is that of their insertion. */
  ghost predicate InSerialOrder(v: Json) {
    match v
    case Array(es) => forall i :: 0 <= i < |es| ==> InSerialOrder(es[i])
    case Object(ms) =>
      && (forall i, j :: 0 <= i < j < |ms| ==> ms[i].serial < ms[j].serial)
      && (forall i :: 0 <= i < |ms| ==> InSerialOrder(ms[i].value))
    case _ => true
  }

  lemma {:induction false} OrderedAlready(v: Json, flags: nat)
    requires NearSerials(v) && InSerialOrder(v) && PreserveOrder(flags) && !SortKeys(flags)
    ensures Arranged(v, flags) == v
    decreases v
  {
    hide SortMembers, SerialCompare;
    match v
    case Array(es) =>
      forall i | 0 <= i < |es| ensures Arranged(es[i], flags) == es[i] { OrderedAlready(es[i], flags); }
      assert ArrangedElems(es, flags) == es;
    case Object(ms) =>
      forall i | 0 <= i < |ms| ensures Arranged(ms[i].value, flags) == ms[i].value { OrderedAlready(ms[i].value, flags); }
      assert ArrangedMembers(ms, flags) == ms;
      SortedAlready(ms);
    case _ =>
  }

  lemma SortedAlready(ms: seq<Member>)
    requires Orderable(BySerial, ms) && forall i, j :: 0 <= i < j < |ms| ==> ms[i].serial < ms[j].serial
    ensures SortMembers(BySerial, ms) == ms
  {
    hide SortMembers;
    Reload.SortedStays(BySerial, ms);
  }

  lemma {:induction false} LoadedInOrder(v: Json)
    requires NearSerials(v)
    ensures NearSerials(Loaded(v)) && InSerialOrder(Loaded(v))
    decreases v
  {
    match v
    case Array(es) =>
      forall i | 0 <= i < |es| ensures NearSerials(Loaded(es[i])) && InSerialOrder(Loaded(es[i])) { LoadedInOrder(es[i]); }
    case Object(ms) =>
      forall i | 0 <= i < |ms| ensures i < 0x8000_0000 && NearSerials(Loaded(ms[i].value)) && InSerialOrder(Loaded(ms[i].value)) {
        LoadedInOrder(ms[i].value);
        Reload.RankIsSmall(ms, SortMembers(BySerial, ArrangedMembers(ms, 0)), 0, i);
      }
    case _ =>
  }

  /** Where arranging does not show in the text, there was nothing to arrange. */
  lemma {:induction false} NothingArranged(v: Json, flags: nat)
    requires Document(v) && NearSerials(v) && PreserveOrder(flags) && !SortKeys(flags)
    requires Loaded(v) == Loaded(Arranged(v, flags))
    ensures InSerialOrder(v)
    decreases v
  {
    hide Loaded, LoadedMembers, Arranged, ArrangedMembers, SortMembers, SerialCompare;
    match v
    case Array(es) =>
      forall i | 0 <= i < |es| ensures InSerialOrder(es[i]) {
        ElementUnmoved(es, flags, i);
        NothingArranged(es[i], flags);
      }
    case Object(ms) =>
      MembersUnmoved(ms, flags);
      forall i | 0 <= i < |ms| ensures InSerialOrder(ms[i].value) {
        InItsPlace(ms, SortMembers(BySerial, ArrangedMembers(ms, flags)), flags, i);
        NothingArranged(ms[i].value, flags);
      }
      SerialsInPlace(ms, flags);
    case _ =>
  }

  lemma ElementUnmoved(es: seq<Json>, flags: nat, i: nat)
    requires Loaded(Array(es)) == Loaded(Arranged(Array(es), flags)) && i < |es|
    ensures Loaded(es[i]) == Loaded(Arranged(es[i], flags))
  {
    var ls, ks := LoadedElems(es), LoadedElems(ArrangedElems(es, flags));
    assert ls[i] == ks[i];
  }

  lemma MembersUnmoved(ms: seq<Member>, flags: nat)
    requires Loaded(Object(ms)) == Loaded(Arranged(Object(ms), flags)) && PreserveOrder(flags) && !SortKeys(flags)
    ensures LoadedMembers(ms, 0) == LoadedMembers(SortMembers(BySerial, ArrangedMembers(ms, flags)), 0)
  {}

  lemma SerialsInPlace(ms: seq<Member>, flags: nat)
    requires UniqueKeys(ms) && Orderable(BySerial, ms)
    requires LoadedMembers(ms, 0) == LoadedMembers(SortMembers(BySerial, ArrangedMembers(ms, flags)), 0)
    ensures forall i, j :: 0 <= i < j < |ms| ==> ms[i].serial < ms[j].serial
  {
    hide Loaded, LoadedMembers, Arranged, ArrangedMembers, SortMembers;
    var rs := SortMembers(BySerial, ArrangedMembers(ms, flags));
    SortSorts(BySerial, ArrangedMembers(ms, flags));
    forall i, j | 0 <= i < j < |ms| ensures ms[i].serial < ms[j].serial {
      InItsPlace(ms, rs, flags, i);
      InItsPlace(ms, rs, flags, j);
      assert Precedes(BySerial, rs[i], rs[j]);
    }
  }

  lemma InItsPlace(ms: seq<Member>, rs: seq<Member>, flags: nat, i: nat)
    requires UniqueKeys(ms) && rs == SortMembers(BySerial, ArrangedMembers(ms, flags)) && i < |ms|
    requires LoadedMembers(ms, 0) == LoadedMembers(rs, 0)
    ensures rs[i].serial == ms[i].serial && Loaded(ms[i].value) == Loaded(Arranged(ms[i].value, flags))
  {
    hide Loaded, LoadedMembers, Arranged, ArrangedMembers, SortMembers;
    var ps := ArrangedMembers(ms, flags);
    assert LoadedMembers(ms, 0)[i] == LoadedMembers(rs, 0)[i];
    assert rs[i] in ps;
    var k :| 0 <= k < |ps| && ps[k] == rs[i];
    assert ms[k].key == ms[i].key;
  }

  /** With JSON_PRESERVE_ORDER a deep copy prints the members in the order in which the original iterates over them. */
  lemma CopyText(m0: map<Ref, Cell>, m1: map<Ref, Cell>, r: Ref, t: Json, flags: nat)
    requires Copied(m0, m1, r, t) && NearSerials(t) && PreserveOrder(flags) && !SortKeys(flags)
    ensures Dumps(Tree(m1, {}, r).value, flags) == Plain(t, flags, 0)
  {
    hide Tree, Loaded, Plain, Arranged, NearSerials, InSerialOrder, Equal, Reload.Shuffled;
    var l, w := Loaded(t), Tree(m1, {}, r).value;
    LoadedInOrder(t);
    OrderedAlready(l, flags);
    Reload.ShuffledNear(l, w);
    Reload.ShuffledArranged(l, w, flags);
    LoadedAlike(t);
    PlainAlike(t, l, flags, 0);
  }

  /** JSON_PRESERVE_ORDER does not show exactly if every object iterates over its members in the order of insertion. */
  lemma OrderShowsIff(t: Json, flags: nat)
    requires Document(t) && NearSerials(t) && PreserveOrder(flags) && !SortKeys(flags)
    ensures Plain(t, flags, 0) == Dumps(t, flags) <==> InSerialOrder(t)
  {
    hide Loaded, Plain, Arranged, NearSerials, InSerialOrder, Document, ParseFrom;
    if InSerialOrder(t) {
      OrderedAlready(t, flags);
    }
    if Plain(t, flags, 0) == Dumps(t, flags) {
      ArrangedIsDocument(t, flags);
      ValueRoundTrip(t, flags, 0, [], false, 0);
      ValueRoundTrip(Arranged(t, flags), flags, 0, [], false, 0);
      NothingArranged(t, flags);
    }
  }

  /** With JSON_PRESERVE_ORDER a deep copy prints the text of its original exactly if every object of the original
      happens to iterate over its members in the order of their insertion. */
  lemma CopyKeepsOrderIff(m0: map<Ref, Cell>, m1: map<Ref, Cell>, r: Ref, t: Json, flags: nat)
    requires Copied(m0, m1, r, t) && Document(t) && NearSerials(t) && PreserveOrder(flags) && !SortKeys(flags)
    ensures Dumps(Tree(m1, {}, r).value, flags) == Dumps(t, flags) <==> InSerialOrder(t)
  {
    hide *;
    CopyText(m0, m1, r, t, flags);
    OrderShowsIff(t, flags);
  }

  /** `b` is set before `a`, and the two keys fall into one bucket: the later one comes first in the list. */
  ghost function Collided(): Json {
    Object([Member([0x61], 1, Null), Member([0x62], 0, True)])
  }

  /** Such an object is `{"b":true,"a":null}` with JSON_PRESERVE_ORDER, and its deep copy is `{"a":null,"b":true}`. */
  lemma CopyReorders(m0: map<Ref, Cell>, m1: map<Ref, Cell>, r: Ref, flags: nat)
    requires PreserveOrder(flags) && !SortKeys(flags)
    ensures SlotSet(ObjectData([Slot([0x62], 0, 2)], 1), [0x61], 1, ObjectData([Slot([0x61], 1, 1), Slot([0x62], 0, 2)], 2))
    ensures Plain(Collided(), flags, 0) != Dumps(Collided(), flags)
    ensures Copied(m0, m1, r, Collided()) ==> Dumps(Tree(m1, {}, r).value, flags) != Dumps(Collided(), flags)
  {
    hide Tree, Plain, Arranged, Copied;
    CollidedDocument();
    OrderShowsIff(Collided(), flags);
    var x, y := Slot([0x62], 0, 2), Slot([0x61], 1, 1);
    assert FindSlot([x], [0x61]) == 1;
    assert [x] + [y] == [x, y];
    assert multiset([x, y]) == multiset([y, x]);
    if Copied(m0, m1, r, Collided()) {
      CopyKeepsOrderIff(m0, m1, r, Collided(), flags);
    }
  }

  lemma CollidedDocument()
    ensures Document(Collided()) && NearSerials(Collided()) && !InSerialOrder(Collided())
  {
    var ms := Collided().members;
    assert ms[0].serial == 1 && ms[1].serial == 0;
  }
}
