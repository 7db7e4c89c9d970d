/** Dumping what was loaded: JSON_PRESERVE_ORDER reproduces the text whatever the hash layout, and every
    document that loads can be dumped and loaded again (libjansson/load.c, libjansson/dump.c). */
module Reload {
  import opened Options
  import opened Utf8
  import opened Values
  import opened Arrange
  import opened DumpText
  import opened LoadText
  import opened StringRoundTrip
  import opened RoundTrip

  // ---------------------------------------------------------------- hash layout

  /** The same tree with the members of its objects in another iteration order: what the layout of the
      hash tables may change. */
  ghost predicate Shuffled(v: Json, w: Json)
    decreases v, 0
  {
    match v
    case Array(elems) => w.Array? && |elems| == |w.elems| && forall i :: 0 <= i < |elems| ==> Shuffled(elems[i], w.elems[i])
    case Object(ms) => w.Object? && |ms| == |w.members| && UniqueKeys(ms) && UniqueKeys(w.members) &&
      forall i :: 0 <= i < |ms| ==> ShuffledAt(ms[i].key, ms[i].serial, ms[i].value, w.members)
    case _ => v == w
  }

  ghost predicate ShuffledAt(key: bytes, serial: nat, v: Json, ms: seq<Member>)
    decreases v, 1
  {
    var i := Find(ms, key);
    i < |ms| && ms[i].serial == serial && Shuffled(v, ms[i].value)
  }

  lemma SortedHeadMember(cmp: KeyOrder, ms: seq<Member>, ns: seq<Member>)
    requires Sorted(cmp, ms) && Sorted(cmp, ns) && ms != [] && ns != [] && ms[0] in ns && ns[0] in ms
    requires cmp == BySerial ==> Near(ms[0].serial, ns[0].serial)
    ensures ms[0] == ns[0]
  {
    hide StrLess;
    var i :| 0 <= i < |ns| && ns[i] == ms[0];
    var j :| 0 <= j < |ms| && ms[j] == ns[0];
    assert i == 0 || Precedes(cmp, ns[0], ms[0]);
    assert j == 0 || Precedes(cmp, ms[0], ns[0]);
    StrLessTotal(ms[0].key, ns[0].key);
  }

  lemma {:induction false} SortedSameMembers(cmp: KeyOrder, ms: seq<Member>, ns: seq<Member>)
    requires Sorted(cmp, ms) && Sorted(cmp, ns) && |ms| == |ns|
    requires forall x :: x in ms <==> x in ns
    requires cmp == BySerial ==> AllNear(ms)
    ensures ms == ns
  {
    hide Precedes;
    if ms != [] {
      assert ms[0] in ns && ns[0] in ms;
      SortedHeadMember(cmp, ms, ns);
      SortedTailMembers(cmp, ms);
      SortedTailMembers(cmp, ns);
      SortedSameMembers(cmp, ms[1..], ns[1..]);
      assert ms == [ms[0]] + ms[1..] && ns == [ns[0]] + ns[1..];
    }
  }

  /** Keys and serials near each other leave `qsort` no choice: the members sorted in any way are the same list. */
  lemma OnlySorting(cmp: KeyOrder, ms: seq<Member>, rs: seq<Member>)
    requires Orderable(cmp, ms) && Sorted(cmp, rs) && |rs| == |ms| && forall x :: x in rs <==> x in ms
    ensures rs == SortMembers(cmp, ms)
  {
    hide SortMembers, Precedes;
    SortSorts(cmp, ms);
    if cmp == BySerial {
      OrderableNear(ms);
    }
    SortedSameMembers(cmp, rs, SortMembers(cmp, ms));
  }

  lemma SortedTailMembers(cmp: KeyOrder, ms: seq<Member>)
    requires Sorted(cmp, ms) && ms != []
    ensures forall x :: x in ms[1..] <==> x in ms && x != ms[0]
  {
    forall i | 0 < i < |ms| ensures ms[i] != ms[0] {
      assert Precedes(cmp, ms[0], ms[i]);
      StrLessTotal(ms[0].key, ms[0].key);
    }
    assert ms == [ms[0]] + ms[1..];
  }

  /** A change of layout changes no serial. */
  lemma {:induction false} ShuffledNear(v: Json, w: Json)
    requires Shuffled(v, w) && NearSerials(v)
    ensures NearSerials(w)
    decreases v
  {
    match v
    case Array(elems) =>
      forall i | 0 <= i < |elems| ensures NearSerials(w.elems[i]) {
        ShuffledNear(elems[i], w.elems[i]);
      }
    case Object(ms) => ShuffledMembersNear(ms, w.members);
    case _ =>
  }

  lemma {:induction false} ShuffledMembersNear(ms: seq<Member>, ns: seq<Member>)
    requires Shuffled(Object(ms), Object(ns)) && NearSerials(Object(ms))
    ensures NearSerials(Object(ns))
    decreases ms
  {
    hide Shuffled, KeysIn, UniqueKeys;
    SameKeysBack(ms, ns);
    forall j | 0 <= j < |ns| ensures HasSerial(ms, ns[j]) && NearSerials(ns[j].value) {
      var i := ShuffledFrom(ms, ns, j);
      ShuffledNear(ms[i].value, ns[j].value);
    }
    SerialsFrom(ms, ns);
  }

  ghost predicate HasSerial(ms: seq<Member>, m: Member) {
    exists i :: 0 <= i < |ms| && ms[i].key == m.key && ms[i].serial == m.serial
  }

  lemma SerialsFrom(ms: seq<Member>, ns: seq<Member>)
    requires UniqueKeys(ns) && Orderable(BySerial, ms) && forall j :: 0 <= j < |ns| ==> HasSerial(ms, ns[j])
    ensures Orderable(BySerial, ns)
  {
    OrderableNear(ms);
    forall i, j | 0 <= i < j < |ns| ensures ns[i].serial != ns[j].serial && Near(ns[i].serial, ns[j].serial) {
      var k :| 0 <= k < |ms| && ms[k].key == ns[i].key && ms[k].serial == ns[i].serial;
      var l :| 0 <= l < |ms| && ms[l].key == ns[j].key && ms[l].serial == ns[j].serial;
    }
  }

  lemma SameKeysBack(ms: seq<Member>, ns: seq<Member>)
    requires Shuffled(Object(ms), Object(ns))
    ensures KeysIn(ns, ms) && UniqueKeys(ns)
  {
    hide KeysIn;
    forall i | 0 <= i < |ms| ensures Find(ns, ms[i].key) < |ns| {
      assert ShuffledAt(ms[i].key, ms[i].serial, ms[i].value, ns);
    }
    KeysInIntro(ms, ns);
    SameKeys(ms, ns);
  }

  lemma ShuffledFrom(ms: seq<Member>, ns: seq<Member>, j: nat) returns (i: nat)
    requires Shuffled(Object(ms), Object(ns)) && KeysIn(ns, ms) && j < |ns|
    ensures i < |ms| && ms[i].key == ns[j].key && ms[i].serial == ns[j].serial && Shuffled(ms[i].value, ns[j].value)
  {
    i := KeyAt(ns, ms, j);
    FindUnique(ns, j);
    assert ShuffledAt(ms[i].key, ms[i].serial, ms[i].value, ns);
  }

  /** JSON_SORT_KEYS and JSON_PRESERVE_ORDER undo every change of layout. */
  lemma {:induction false} ShuffledArranged(v: Json, w: Json, flags: nat)
    requires Shuffled(v, w)
    requires SortKeys(flags) || (PreserveOrder(flags) && NearSerials(v) && NearSerials(w))
    ensures Arranged(v, flags) == Arranged(w, flags)
    decreases v
  {
    match v
    case Array(elems) =>
      forall i | 0 <= i < |elems| ensures Arranged(elems[i], flags) == Arranged(w.elems[i], flags) {
        ShuffledArranged(elems[i], w.elems[i], flags);
      }
      assert ArrangedElems(elems, flags) == ArrangedElems(w.elems, flags);
    case Object(ms) =>
      ShuffledMembersArranged(ms, w.members, flags);
      SameOrder(ms, w.members, flags);
    case _ =>
  }

  lemma SameOrder(ms: seq<Member>, ns: seq<Member>, flags: nat)
    requires UniqueKeys(ms) && UniqueKeys(ns) && |ms| == |ns|
    requires SortKeys(flags) || (PreserveOrder(flags) && Orderable(BySerial, ms) && Orderable(BySerial, ns))
    requires forall x :: x in ArrangedMembers(ms, flags) <==> x in ArrangedMembers(ns, flags)
    ensures Ordered(flags, ArrangedMembers(ms, flags)) == Ordered(flags, ArrangedMembers(ns, flags))
  {
    hide Arranged, SortMembers, Sorted, Near, AllNear, SortKeys, PreserveOrder;
    var ps, qs := ArrangedMembers(ms, flags), ArrangedMembers(ns, flags);
    var cmp := if SortKeys(flags) then ByKey else BySerial;
    SortSorts(cmp, ps);
    SortSorts(cmp, qs);
    if cmp == BySerial {
      OrderableNear(ps);
      NearAlike(ps, SortMembers(cmp, ps));
    }
    SortedSameMembers(cmp, SortMembers(cmp, ps), SortMembers(cmp, qs));
  }

  lemma NearAlike(ms: seq<Member>, ns: seq<Member>)
    requires AllNear(ms) && forall x :: x in ns ==> x in ms
    ensures AllNear(ns)
  {}

  lemma {:induction false} ShuffledMembersArranged(ms: seq<Member>, ns: seq<Member>, flags: nat)
    requires Shuffled(Object(ms), Object(ns))
    requires SortKeys(flags) || (PreserveOrder(flags) && NearSerials(Object(ms)) && NearSerials(Object(ns)))
    ensures forall x :: x in ArrangedMembers(ms, flags) <==> x in ArrangedMembers(ns, flags)
    decreases ms
  {
    var ps, qs := ArrangedMembers(ms, flags), ArrangedMembers(ns, flags);
    forall i | 0 <= i < |ms| ensures Find(ns, ms[i].key) < |ns| && qs[Find(ns, ms[i].key)] == ps[i] {
      assert ShuffledAt(ms[i].key, ms[i].serial, ms[i].value, ns);
      ShuffledArranged(ms[i].value, ns[Find(ns, ms[i].key)].value, flags);
    }
    SameArranged(ms, ns, flags);
  }

  lemma SameArranged(ms: seq<Member>, ns: seq<Member>, flags: nat)
    requires UniqueKeys(ms) && UniqueKeys(ns) && |ms| == |ns|
    requires forall i :: 0 <= i < |ms| ==> Find(ns, ms[i].key) < |ns| && ArrangedMembers(ns, flags)[Find(ns, ms[i].key)] == ArrangedMembers(ms, flags)[i]
    ensures forall x :: x in ArrangedMembers(ms, flags) <==> x in ArrangedMembers(ns, flags)
  {
    hide Arranged, ArrangedMembers, UniqueKeys, KeysIn;
    var ps, qs := ArrangedMembers(ms, flags), ArrangedMembers(ns, flags);
    KeysInIntro(ms, ns);
    SameKeys(ms, ns);
    forall x | x in qs ensures x in ps {
      var j :| 0 <= j < |qs| && qs[j] == x;
      var i := KeyAt(ns, ms, j);
      FindUnique(ns, j);
      assert qs[Find(ns, ms[i].key)] == ps[i];
    }
    forall x | x in ps ensures x in qs {
      var i :| 0 <= i < |ps| && ps[i] == x;
    }
  }

  lemma KeysInIntro(ms: seq<Member>, ns: seq<Member>)
    requires forall i :: 0 <= i < |ms| ==> Find(ns, ms[i].key) < |ns|
    ensures KeysIn(ms, ns)
  {}

  // ---------------------------------------------------------------- insertion order

  lemma {:induction false} SortedStays(cmp: KeyOrder, ms: seq<Member>)
    requires Sorted(cmp, ms)
    ensures SortMembers(cmp, ms) == ms
  {
    if ms != [] {
      SortedStays(cmp, ms[1..]);
      assert ms == [ms[0]] + ms[1..];
      assert |ms| > 1 ==> Precedes(cmp, ms[0], ms[1]);
    }
  }

  /** Serials in increasing order are as far apart as their positions, or farther. */
  lemma {:induction false} SerialsGrow(ms: seq<Member>, i: nat)
    requires Sorted(BySerial, ms) && i < |ms| && AllNear(ms)
    ensures ms[i].serial >= ms[0].serial + i
  {
    if i > 0 {
      SerialsGrow(ms, i - 1);
      assert Precedes(BySerial, ms[i - 1], ms[i]);
      assert Near(ms[i - 1].serial, ms[i].serial);
    }
  }

  /** Numbering the members in text order leaves the serials near and in order. */
  lemma {:induction false} LoadedStaysArranged(v: Json, flags: nat)
    requires NearSerials(v) && PreserveOrder(flags) && !SortKeys(flags)
    ensures NearSerials(Loaded(Arranged(v, flags)))
    ensures Arranged(Loaded(Arranged(v, flags)), flags) == Loaded(Arranged(v, flags))
    decreases v
  {
    match v
    case Array(elems) =>
      var ls := LoadedElems(ArrangedElems(elems, flags));
      forall i | 0 <= i < |elems| ensures NearSerials(ls[i]) && Arranged(ls[i], flags) == ls[i] {
        LoadedStaysArranged(elems[i], flags);
      }
      assert ArrangedElems(ls, flags) == ls;
    case Object(ms) => LoadedMembersStayArranged(ms, flags);
    case _ =>
  }

  lemma {:induction false} LoadedMembersStayArranged(ms: seq<Member>, flags: nat)
    requires NearSerials(Object(ms)) && PreserveOrder(flags) && !SortKeys(flags)
    ensures var ls := LoadedMembers(SortMembers(BySerial, ArrangedMembers(ms, flags)), 0);
            NearSerials(Object(ls)) && SortMembers(BySerial, ArrangedMembers(ls, flags)) == ls
    decreases ms
  {
    hide Loaded, SerialCompare, LoadedMembers, Arranged, ArrangedMembers, SortMembers, Sorted;
    var ps := ArrangedMembers(ms, flags);
    var rs := SortMembers(BySerial, ps);
    var ls := LoadedMembers(rs, 0);
    forall i | 0 <= i < |rs| ensures i < 0x8000_0000 && NearSerials(ls[i].value) && Arranged(ls[i].value, flags) == ls[i].value {
      assert rs[i] in ps;
      var k :| 0 <= k < |ps| && ps[k] == rs[i];
      LoadedStaysArranged(ms[k].value, flags);
      RankIsSmall(ms, rs, flags, i);
    }
    assert ArrangedMembers(ls, flags) == ls;
    if rs != [] {
      RankIsSmall(ms, rs, flags, |rs| - 1);
    }
    NumberedIsSorted(rs);
    SortedStays(BySerial, ls);
  }

  lemma NumberedIsSorted(rs: seq<Member>)
    requires |rs| <= 0x8000_0000
    ensures Sorted(BySerial, LoadedMembers(rs, 0))
    ensures Orderable(BySerial, LoadedMembers(rs, 0))
  {
    hide Loaded, SerialCompare, LoadedMembers;
    var ls := LoadedMembers(rs, 0);
    forall i, j | 0 <= i < j < |ls| ensures Precedes(BySerial, ls[i], ls[j]) && ls[i].serial != ls[j].serial && Near(ls[i].serial, ls[j].serial) {
      SerialCompareSign(i, j);
    }
  }

  lemma RankIsSmall(ms: seq<Member>, rs: seq<Member>, flags: nat, i: nat)
    requires Orderable(BySerial, ms) && rs == SortMembers(BySerial, ArrangedMembers(ms, flags)) && i < |rs|
    ensures i < 0x8000_0000
  {
    var ps := ArrangedMembers(ms, flags);
    SortSorts(BySerial, ps);
    OrderableNear(ps);
    SerialsGrow(rs, i);
    assert Near(rs[0].serial, rs[i].serial);
  }

  /** With JSON_PRESERVE_ORDER, dumping, loading and dumping again reproduces the text, in whatever layout
      the loaded objects keep their members. */
  lemma PreservedTextIsStable(v: Json, w: Json, flags: nat, loadFlags: nat)
    requires Document(v) && (v.Array? || v.Object?) && NearSerials(v)
    requires PreserveOrder(flags) && !SortKeys(flags)
    requires Load(Dumps(v, flags), loadFlags).Some? && Shuffled(Load(Dumps(v, flags), loadFlags).value, w)
    ensures Dumps(w, flags) == Dumps(v, flags)
  {
    hide Load, Plain, Shuffled, NearSerials, Document, Equal;
    var l := Loaded(Arranged(v, flags));
    DocumentRoundTrip(v, flags, loadFlags);
    LoadedStaysArranged(v, flags);
    ShuffledNear(l, w);
    ShuffledArranged(l, w, flags);
    LoadedAlike(Arranged(v, flags));
    PlainAlike(Arranged(v, flags), l, flags, 0);
  }

  // ---------------------------------------------------------------- what a load can yield

  /** Everything a `Document` is, but for reals. */
  ghost predicate Clean(v: Json) {
    match v
    case Integer(n) => INT64_MIN <= n <= INT64_MAX
    case String(s) => CString(s) && Valid(s)
    case Array(elems) => forall i :: 0 <= i < |elems| ==> Clean(elems[i])
    case Object(ms) => UniqueKeys(ms) && forall i :: 0 <= i < |ms| ==> CString(ms[i].key) && Valid(ms[i].key) && Clean(ms[i].value)
    case _ => true
  }

  ghost predicate RealFree(v: Json) {
    match v
    case Real(_) => false
    case Array(elems) => forall i :: 0 <= i < |elems| ==> RealFree(elems[i])
    case Object(ms) => forall i :: 0 <= i < |ms| ==> RealFree(ms[i].value)
    case _ => true
  }

  lemma {:induction false} CleanIsDocument(v: Json)
    requires Clean(v) && RealFree(v)
    ensures Document(v)
  {
    match v
    case Array(elems) =>
      forall i | 0 <= i < |elems| ensures Document(elems[i]) { CleanIsDocument(elems[i]); }
    case Object(ms) =>
      forall i | 0 <= i < |ms| ensures Document(ms[i].value) { CleanIsDocument(ms[i].value); }
    case _ =>
  }

  // ------------------------------------------------ cutting valid text at ASCII bytes

  lemma NextOfAscii(s: bytes)
    requires s != [] && s[0] < 0x80
    ensures Next(s) == Some(Char(s[0], 1)) && (Valid(s) <==> Valid(s[1..]))
  {}

  /** In a multi-byte character every byte has its high bit set. */
  lemma NextIsHigh(s: bytes)
    requires Next(s).Some? && s[0] >= 0x80
    ensures forall i :: 0 <= i < Next(s).value.size ==> s[i] >= 0x80
  {
    EncodeOfNext(s);
    var n := Next(s).value.size;
    assert forall i :: 0 <= i < n ==> s[..n][i] == s[i];
  }

  lemma {:induction false} ValidSplit(s: bytes, i: nat)
    requires Valid(s) && i < |s| && s[i] < 0x80
    ensures Valid(s[..i]) && Valid(s[i..]) && Valid(s[i + 1..])
    decreases |s|
  {
    hide Next;
    if i == 0 {
      NextOfAscii(s);
      assert s[0..] == s;
    } else {
      var n := Next(s).value.size;
      SizeBeforeAscii(s, i);
      ValidSplit(s[n..], i - n);
      assert s[n..][i - n..] == s[i..] && s[n..][i - n + 1..] == s[i + 1..];
      FirstCharValid(s);
      ValidConcat(s[..n], s[n..][..i - n]);
      assert s[..i] == s[..n] + s[n..][..i - n];
    }
  }

  lemma SizeBeforeAscii(s: bytes, i: nat)
    requires Next(s).Some? && 0 < i < |s| && s[i] < 0x80
    ensures Next(s).value.size <= i
  {
    if s[0] < 0x80 {
      NextOfAscii(s);
    } else {
      NextIsHigh(s);
    }
  }

  lemma {:induction false} ValidAfterAscii(s: bytes, k: nat)
    requires Valid(s) && k <= |s| && forall i :: 0 <= i < k ==> s[i] < 0x80
    ensures Valid(s[k..])
  {
    if k == 0 {
      assert s[0..] == s;
    } else {
      NextOfAscii(s);
      ValidAfterAscii(s[1..], k - 1);
      assert s[1..][k - 1..] == s[k..];
    }
  }

  // ------------------------------------------------ strings

  lemma RawHighStep(raw: bytes) returns (k: nat, d: bytes)
    requires raw != [] && raw[0] >= 0x80 && Valid(raw) && RawLength(raw + [QUOTE]) == Some(|raw|)
    ensures 0 < k <= |raw| && Valid(raw[k..]) && RawLength(raw[k..] + [QUOTE]) == Some(|raw| - k)
    ensures Unescape(raw) == Prepend(d, Unescape(raw[k..]))
    ensures Valid(d) && CString(d)
  {
    hide RawLength, Unescape, Next;
    k := Next(raw).value.size;
    d := raw[..k];
    NextIsHigh(raw);
    FirstCharValid(raw);
    PlainRunLength(d, raw[k..] + [QUOTE]);
    PlainRunText(d, raw[k..]);
    assert raw + [QUOTE] == d + (raw[k..] + [QUOTE]) && raw == d + raw[k..];
  }

  /** The first character of raw text, and how both passes step over it. */
  lemma RawStep(raw: bytes) returns (k: nat, d: bytes)
    requires raw != [] && Valid(raw) && Unescape(raw).Done? && RawLength(raw + [QUOTE]) == Some(|raw|)
    ensures 0 < k <= |raw| && Valid(raw[k..]) && RawLength(raw[k..] + [QUOTE]) == Some(|raw| - k)
    ensures Unescape(raw) == Prepend(d, Unescape(raw[k..]))
    ensures Valid(d) && CString(d)
  {
    hide *;
    if raw[0] >= 0x80 {
      k, d := RawHighStep(raw);
    } else if raw[0] != BACKSLASH {
      k, d := RawAsciiStep(raw);
    } else {
      k, d := RawEscapeStep(raw);
    }
  }

  lemma RawAsciiStep(raw: bytes) returns (k: nat, d: bytes)
    requires raw != [] && Valid(raw) && Unescape(raw).Done? && RawLength(raw + [QUOTE]) == Some(|raw|)
    requires raw[0] < 0x80 && raw[0] != BACKSLASH
    ensures 0 < k <= |raw| && Valid(raw[k..]) && RawLength(raw[k..] + [QUOTE]) == Some(|raw| - k)
    ensures Unescape(raw) == Prepend(d, Unescape(raw[k..]))
    ensures Valid(d) && CString(d)
  {
    var t := raw + [QUOTE];
    assert t[0] == raw[0];
    k, d := 1, [raw[0]];
    NextOfAscii(raw);
    AsciiIsValid(d);
    assert t[1..] == raw[1..] + [QUOTE];
  }

  /** A \uXXXX whose digits decode is ASCII, and the first pass steps over it. */
  lemma RawUnicodeStep(raw: bytes)
    requires StartsEscapeU(raw) && DecodeHex(raw[2..6]).Some? && Valid(raw) && RawLength(raw + [QUOTE]) == Some(|raw|)
    ensures Valid(raw[6..]) && RawLength(raw[6..] + [QUOTE]) == Some(|raw| - 6)
  {
    hide Valid;
    var t := raw + [QUOTE];
    assert t[0] == raw[0] && t[1] == raw[1] && t[6..] == raw[6..] + [QUOTE];
    var hex := raw[2..6];
    assert raw[2] == hex[0] && raw[3] == hex[1] && raw[4] == hex[2] && raw[5] == hex[3];
    ValidAfterAscii(raw, 6);
  }

  lemma RawPointStep(raw: bytes)
    requires StartsEscapeU(raw) && UnescapePoint(raw).Point? && Valid(raw) && RawLength(raw + [QUOTE]) == Some(|raw|)
    ensures var k := UnescapePoint(raw).size; Valid(raw[k..]) && RawLength(raw[k..] + [QUOTE]) == Some(|raw| - k)
  {
    hide Valid, DecodeHex, RawLength;
    RawUnicodeStep(raw);
    if UnescapePoint(raw).size == 12 {
      var low := raw[6..];
      assert low[2..6] == raw[8..12] && low[6..] == raw[12..];
      RawUnicodeStep(low);
    }
  }

  lemma RawShortStep(raw: bytes) returns (k: nat, d: bytes)
    requires raw != [] && raw[0] == BACKSLASH && !StartsEscapeU(raw)
    requires Valid(raw) && Unescape(raw).Done? && RawLength(raw + [QUOTE]) == Some(|raw|)
    ensures 0 < k <= |raw| && Valid(raw[k..]) && RawLength(raw[k..] + [QUOTE]) == Some(|raw| - k)
    ensures Unescape(raw) == Prepend(d, Unescape(raw[k..]))
    ensures Valid(d) && CString(d)
  {
    hide Valid, UnescapePoint;
    var t := raw + [QUOTE];
    assert t[0] == raw[0] && (|raw| > 1 ==> t[1] == raw[1]);
    k, d := 2, [ShortEscape(raw[1])];
    assert t[2..] == raw[2..] + [QUOTE];
    ValidAfterAscii(raw, 2);
    AsciiIsValid(d);
  }

  lemma RawEscapeStep(raw: bytes) returns (k: nat, d: bytes)
    requires raw != [] && raw[0] == BACKSLASH && Valid(raw) && Unescape(raw).Done? && RawLength(raw + [QUOTE]) == Some(|raw|)
    ensures 0 < k <= |raw| && Valid(raw[k..]) && RawLength(raw[k..] + [QUOTE]) == Some(|raw| - k)
    ensures Unescape(raw) == Prepend(d, Unescape(raw[k..]))
    ensures Valid(d) && CString(d)
  {
    hide Valid, RawLength;
    if StartsEscapeU(raw) {
      var p := UnescapePoint(raw);
      k, d := p.size, Encode(p.cp).value;
      RawPointStep(raw);
      EncodeIsValidIffScalar(p.cp);
      EncodedIsCString(p.cp);
    } else {
      k, d := RawShortStep(raw);
    }
  }

  lemma EncodedIsCString(cp: int)
    requires Encode(cp).Some? && cp != 0
    ensures CString(Encode(cp).value)
  {}

  /** Whatever string token is accepted, its value is a C string of valid UTF-8. */
  lemma {:induction false} UnescapeClean(raw: bytes)
    requires Valid(raw) && Unescape(raw).Done? && RawLength(raw + [QUOTE]) == Some(|raw|)
    ensures Valid(Unescape(raw).s) && CString(Unescape(raw).s)
    decreases |raw|
  {
    hide Valid, RawLength;
    if raw == [] {
      AsciiIsValid([]);
    } else {
      var k, d := RawStep(raw);
      UnescapeClean(raw[k..]);
      ValidConcat(d, Unescape(raw[k..]).s);
    }
  }

  lemma LexStringClean(s: bytes)
    requires Valid(s) && LexString(s).token.Str?
    ensures Valid(LexString(s).token.s) && CString(LexString(s).token.s) && Valid(LexString(s).rest)
  {
    hide Valid, RawLength, Unescape, CString;
    var n := RawLength(s).value;
    RawLengthLocal(s);
    assert s[..n + 1] == s[..n] + [QUOTE];
    ValidSplit(s, n);
    UnescapeClean(s[..n]);
  }

  // ------------------------------------------------ tokens and values

  predicate CleanToken(t: Token) {
    match t
    case Str(s) => Valid(s) && CString(s)
    case Int(n) => INT64_MIN <= n <= INT64_MAX
    case _ => true
  }

  /** Tokens after which the parser goes on. */
  predicate IsLive(t: Token) {
    !t.Invalid? && !t.Abort? && !t.Eof?
  }

  lemma UngetValid(s: bytes)
    requires Valid(s)
    ensures Valid(Unget(s))
  {
    if s != [] && s[0] == 0 {
      NextOfAscii(s);
    }
  }

  lemma FracIsAscii(s: bytes)
    requires FracPart(s).Some?
    ensures forall i :: 0 <= i < FracPart(s).value ==> s[i] < 0x80
  {
    if FracPart(s).value > 0 {
      assert forall i :: 1 <= i < FracPart(s).value ==> s[i] == s[1..][i - 1];
    }
  }

  lemma ExpIsAscii(s: bytes)
    requires ExpPart(s).Some?
    ensures forall i :: 0 <= i < ExpPart(s).value ==> s[i] < 0x80
  {
    if ExpPart(s).value > 0 {
      var sign := if |s| > 1 && (s[1] == PLUS || s[1] == MINUS) then 1 else 0;
      assert forall i :: 1 + sign <= i < ExpPart(s).value ==> s[i] == s[1 + sign..][i - 1 - sign];
    }
  }

  lemma IntPartIsAscii(s: bytes)
    requires s != [] && IntPart(s[if s[0] == MINUS then 1 else 0..]).Some?
    ensures var m := if s[0] == MINUS then 1 else 0; var j := m + IntPart(s[m..]).value;
            j <= |s| && forall i :: 0 <= i < j ==> s[i] < 0x80
  {
    var m := if s[0] == MINUS then 1 else 0;
    assert forall i :: m <= i < m + IntPart(s[m..]).value ==> s[i] == s[m..][i - m];
  }

  lemma RealRestValid(t: bytes)
    requires Valid(t) && FracPart(t).Some? && ExpPart(t[FracPart(t).value..]).Some?
    ensures Valid(t[FracPart(t).value + ExpPart(t[FracPart(t).value..]).value..])
  {
    hide Valid, FracPart, ExpPart;
    var f := FracPart(t).value;
    var u := t[f..];
    var e := ExpPart(u).value;
    FracIsAscii(t);
    ValidAfterAscii(t, f);
    ExpIsAscii(u);
    ValidAfterAscii(u, e);
    assert u[e..] == t[f + e..];
  }

  lemma LexNumberClean(s: bytes)
    requires Valid(s) && s != [] && (IsDigit(s[0]) || s[0] == MINUS) && IsLive(LexNumber(s).token)
    ensures CleanToken(LexNumber(s).token) && Valid(LexNumber(s).rest)
  {
    hide Valid, DigitsValue, IntPart, FracPart, ExpPart, Unget;
    var m := if s[0] == MINUS then 1 else 0;
    var j := m + IntPart(s[m..]).value;
    IntPartIsAscii(s);
    ValidAfterAscii(s, j);
    if j == |s| || (s[j] != DOT && !IsExponent(s[j])) {
      UngetValid(s[j..]);
    } else {
      var f := FracPart(s[j..]).value;
      assert s[j..][f..] == s[j + f..];
      RealRestValid(s[j..]);
      var k := f + ExpPart(s[j + f..]).value;
      assert s[j..][k..] == s[j + k..];
      UngetValid(s[j + k..]);
    }
  }

  lemma {:induction false} LexClean(s: bytes, broken: bool)
    requires Valid(s) && IsLive(Lex(s, broken).token)
    ensures CleanToken(Lex(s, broken).token) && Valid(Lex(s, broken).rest)
  {
    hide LexNumber, RawLength, Unescape, LetterCount, Unget, Next;
    if IsSpace(s[0]) {
      NextOfAscii(s);
      LexClean(s[1..], broken);
    } else if IsPunct(s[0]) {
      NextOfAscii(s);
    } else if s[0] == QUOTE {
      NextOfAscii(s);
      LexStringClean(s[1..]);
    } else if IsDigit(s[0]) || s[0] == MINUS {
      LexNumberClean(s);
    } else {
      ValidAfterAscii(s, LetterCount(s));
      UngetValid(s[LetterCount(s)..]);
    }
  }

  lemma SetMemberClean(ms: seq<Member>, key: bytes, serial: nat, v: Json)
    requires Clean(Object(ms)) && Clean(v) && CString(key) && Valid(key)
    ensures Clean(Object(SetMember(ms, key, serial, v)))
  {
    hide Valid, CString;
    var r := SetMember(ms, key, serial, v);
    assert Find(ms, key) == |ms| ==> forall i :: 0 <= i < |ms| ==> ms[i].key != key;
  }

  lemma {:induction false} ParseValueClean(token: Token, s: bytes, broken: bool, flags: nat)
    requires CleanToken(token) && Valid(s) && ParseValue(token, s, broken, flags).Some?
    ensures var p := ParseValue(token, s, broken, flags).value; Clean(p.value) && Valid(p.rest)
    decreases |s|, 2
  {
    hide Valid, CString, Lex;
    if token == Punct(LBRACE) {
      var l := Lex(s, broken);
      LexClean(s, broken);
      if l.token.Str? {
        ParseMembersClean(l.token.s, l.rest, broken, flags, [], 0);
      }
    } else if token == Punct(LBRACKET) {
      var l := Lex(s, broken);
      if l.token != Punct(RBRACKET) {
        ElemTokenLive(l.token, l.rest, broken, flags, []);
        LexClean(s, broken);
        ParseElemsClean(l.token, l.rest, broken, flags, []);
      } else {
        LexClean(s, broken);
      }
    }
  }

  /** An element starts with a token the parser can go on from. */
  lemma ElemTokenLive(token: Token, s: bytes, broken: bool, flags: nat, es: seq<Json>)
    requires ParseElems(token, s, broken, flags, es).Some?
    ensures IsLive(token)
  {}

  lemma {:induction false} ParseMembersClean(key: bytes, s: bytes, broken: bool, flags: nat, ms: seq<Member>, serial: nat)
    requires Valid(key) && CString(key) && Valid(s) && Clean(Object(ms)) && ParseMembers(key, s, broken, flags, ms, serial).Some?
    ensures var p := ParseMembers(key, s, broken, flags, ms, serial).value; Clean(p.value) && Valid(p.rest)
    decreases |s|, 0
  {
    hide Valid, CString, Lex, SetMember, Clean;
    var l1 := Lex(s, broken);
    LexClean(s, broken);
    var l2 := Lex(l1.rest, broken);
    assert IsLive(l2.token);
    LexClean(l1.rest, broken);
    ParseValueClean(l2.token, l2.rest, broken, flags);
    var v := ParseValue(l2.token, l2.rest, broken, flags).value;
    SetMemberClean(ms, key, serial, v.value);
    var l3 := Lex(v.rest, broken);
    LexClean(v.rest, broken);
    if l3.token == Punct(COMMA) {
      var l4 := Lex(l3.rest, broken);
      LexClean(l3.rest, broken);
      ParseMembersClean(l4.token.s, l4.rest, broken, flags, SetMember(ms, key, serial, v.value), serial + 1);
    }
  }

  lemma {:induction false} ParseElemsClean(token: Token, s: bytes, broken: bool, flags: nat, es: seq<Json>)
    requires CleanToken(token) && Valid(s) && ParseElems(token, s, broken, flags, es).Some?
    requires forall i :: 0 <= i < |es| ==> Clean(es[i])
    ensures var p := ParseElems(token, s, broken, flags, es).value; Clean(p.value) && Valid(p.rest)
    decreases |s|, 3
  {
    hide Valid, CString, Lex;
    ParseValueClean(token, s, broken, flags);
    var v := ParseValue(token, s, broken, flags).value;
    var l := Lex(v.rest, broken);
    LexClean(v.rest, broken);
    if l.token == Punct(COMMA) {
      var l2 := Lex(l.rest, broken);
      ElemTokenLive(l2.token, l2.rest, broken, flags, es + [v.value]);
      LexClean(l.rest, broken);
      ParseElemsClean(l2.token, l2.rest, broken, flags, es + [v.value]);
    }
  }

  lemma {:induction false} ValidPrefixIsValid(s: bytes)
    ensures Valid(s[..ValidPrefix(s)])
    decreases |s|
  {
    hide Next;
    if s != [] && Next(s).Some? {
      var n := Next(s).value.size;
      ValidPrefixIsValid(s[n..]);
      FirstCharValid(s);
      ValidConcat(s[..n], s[n..][..ValidPrefix(s[n..])]);
      assert s[..ValidPrefix(s)] == s[..n] + s[n..][..ValidPrefix(s[n..])];
    }
  }

  /** Whatever bytes are loaded, the value has valid strings, 64-bit integers and unique keys. */
  lemma LoadIsClean(input: bytes, flags: nat)
    requires Load(input, flags).Some?
    ensures Clean(Load(input, flags).value)
  {
    hide Valid, Lex, ParseValue, Clean;
    var s := input[..ValidPrefix(input)];
    var broken := ValidPrefix(input) < |input|;
    ValidPrefixIsValid(input);
    LexClean(s, broken);
    var l := Lex(s, broken);
    ParseValueClean(l.token, l.rest, broken, flags);
  }

  /** Every real-free document that loads can be dumped under any flags and loaded back, duplicates rejected or not. */
  lemma ReloadRoundTrip(input: bytes, flags: nat, dumpFlags: nat, loadFlags: nat)
    requires Load(input, flags).Some? && RealFree(Load(input, flags).value)
    ensures var v := Load(input, flags).value;
            Load(Dumps(v, dumpFlags), loadFlags).Some? && Equal(v, Load(Dumps(v, dumpFlags), loadFlags).value)
  {
    LoadIsClean(input, flags);
    var v := Load(input, flags).value;
    CleanIsDocument(v);
    TopLevel(input, flags);
    DocumentRoundTrip(v, dumpFlags, loadFlags);
  }

  /** Only a document equals a value that was loaded. */
  lemma {:induction false} EqualToClean(v: Json, w: Json)
    requires Proper(v) && Clean(w) && Equal(v, w)
    ensures Document(v)
    decreases v
  {
    match v
    case Array(elems) =>
      forall i | 0 <= i < |elems| ensures Document(elems[i]) { EqualToClean(elems[i], w.elems[i]); }
    case Object(ms) =>
      forall i | 0 <= i < |ms| ensures CString(ms[i].key) && Valid(ms[i].key) && Document(ms[i].value) {
        assert EqualAt(ms[i].key, ms[i].value, w.members);
        EqualToClean(ms[i].value, w.members[Find(w.members, ms[i].key)].value);
      }
    case _ =>
  }

  /** What is printed of an array or object without reals loads to an equal value exactly if it is a document. */
  lemma RoundTripIff(v: Json, flags: nat, loadFlags: nat)
    requires Proper(v) && (v.Array? || v.Object?)
    ensures Load(Dumps(v, flags), loadFlags).Some? && Equal(v, Load(Dumps(v, flags), loadFlags).value) <==> Document(v)
  {
    hide Load, Dumps, Equal, Proper, Document, Clean;
    if Document(v) {
      DocumentRoundTrip(v, flags, loadFlags);
    } else if Load(Dumps(v, flags), loadFlags).Some? && Equal(v, Load(Dumps(v, flags), loadFlags).value) {
      LoadIsClean(Dumps(v, flags), loadFlags);
      EqualToClean(v, Load(Dumps(v, flags), loadFlags).value);
    }
  }

  lemma TopLevel(input: bytes, flags: nat)
    requires Load(input, flags).Some?
    ensures Load(input, flags).value.Array? || Load(input, flags).value.Object?
  {
    hide Lex;
    var s := input[..ValidPrefix(input)];
    var broken := ValidPrefix(input) < |input|;
    var l := Lex(s, broken);
    if l.token == Punct(LBRACE) {
      ObjectValue(l.rest, broken, flags);
    } else {
      ArrayValue(l.rest, broken, flags);
    }
  }

  lemma ObjectValue(s: bytes, broken: bool, flags: nat)
    requires ParseObject(s, broken, flags).Some?
    ensures ParseObject(s, broken, flags).value.value.Object?
  {
    hide Lex, ParseMembers;
    var l := Lex(s, broken);
    if l.token != Punct(RBRACE) {
      MembersValue(l.token.s, l.rest, broken, flags, [], 0);
    }
  }

  lemma {:induction false} MembersValue(key: bytes, s: bytes, broken: bool, flags: nat, ms: seq<Member>, serial: nat)
    requires ParseMembers(key, s, broken, flags, ms, serial).Some?
    ensures ParseMembers(key, s, broken, flags, ms, serial).value.value.Object?
    decreases |s|
  {
    hide Lex, ParseValue, SetMember;
    var l1 := Lex(s, broken);
    var l2 := Lex(l1.rest, broken);
    var v := ParseValue(l2.token, l2.rest, broken, flags).value;
    var l3 := Lex(v.rest, broken);
    if l3.token == Punct(COMMA) {
      var l4 := Lex(l3.rest, broken);
      MembersValue(l4.token.s, l4.rest, broken, flags, SetMember(ms, key, serial, v.value), serial + 1);
    }
  }

  lemma ArrayValue(s: bytes, broken: bool, flags: nat)
    requires ParseArray(s, broken, flags).Some?
    ensures ParseArray(s, broken, flags).value.value.Array?
  {
    hide Lex, ParseElems;
    var l := Lex(s, broken);
    if l.token != Punct(RBRACKET) {
      ElemsValue(l.token, l.rest, broken, flags, []);
    }
  }

  lemma {:induction false} ElemsValue(token: Token, s: bytes, broken: bool, flags: nat, es: seq<Json>)
    requires ParseElems(token, s, broken, flags, es).Some?
    ensures ParseElems(token, s, broken, flags, es).value.value.Array?
    decreases |s|
  {
    hide Lex, ParseValue;
    var v := ParseValue(token, s, broken, flags).value;
    var l := Lex(v.rest, broken);
    if l.token == Punct(COMMA) {
      var l2 := Lex(l.rest, broken);
      ElemsValue(l2.token, l2.rest, broken, flags, es + [v.value]);
    }
  }

  // ---------------------------------------------------------------- duplicates

  /** The members of an object as they are written, from a key on. */
  ghost function Written(key: bytes, s: bytes, broken: bool, flags: nat): (r: seq<(bytes, Json)>)
    decreases |s|
  {
    var l1 := Lex(s, broken);
    if l1.token != Punct(COLON) then [] else
      var l2 := Lex(l1.rest, broken);
      var v := ParseValue(l2.token, l2.rest, broken, flags);
      if v.None? then [] else
        var l3 := Lex(v.value.rest, broken);
        var l4 := Lex(l3.rest, broken);
        [(key, v.value.value)] + if l3.token == Punct(COMMA) && l4.token.Str? then Written(l4.token.s, l4.rest, broken, flags) else []
  }

  /** Whether `k` is written at all, and the value written last for it. */
  ghost function LastWritten(w: seq<(bytes, Json)>, k: bytes): (r: Option<Json>) {
    if w == [] then None
    else if w[|w| - 1].0 == k then Some(w[|w| - 1].1)
    else LastWritten(w[..|w| - 1], k)
  }

  /** `json_object_get`. */
  ghost function Lookup(ms: seq<Member>, k: bytes): Option<Json> {
    var i := Find(ms, k);
    if i < |ms| then Some(ms[i].value) else None
  }

  lemma {:induction false} LastWrittenCons(h: (bytes, Json), t: seq<(bytes, Json)>, k: bytes)
    ensures LastWritten([h] + t, k) == if LastWritten(t, k).Some? then LastWritten(t, k) else if h.0 == k then Some(h.1) else None
  {
    if t == [] {
      assert [h] + t == [h] && [h][..0] == [];
    } else {
      LastWrittenCons(h, t[..|t| - 1], k);
      assert ([h] + t)[..|t|] == [h] + t[..|t| - 1];
    }
  }

  lemma LookupSet(ms: seq<Member>, key: bytes, serial: nat, v: Json, k: bytes)
    ensures Lookup(SetMember(ms, key, serial, v), k) == if k == key then Some(v) else Lookup(ms, k)
  {
    var i := Find(ms, key);
    var r := SetMember(ms, key, serial, v);
    if i < |ms| {
      assert forall n :: 0 <= n < |ms| ==> r[n].key == ms[n].key;
    } else {
      assert forall n :: 0 <= n < |ms| ==> r[n] == ms[n];
      assert r[|ms|] == Member(key, serial, v) && |r| == |ms| + 1;
      assert k != key ==> (Find(r, k) == |r| <==> Find(ms, k) == |ms|);
    }
  }

  /** The loop of `parse_object` folds the written members into the object, the last one of a key winning. */
  lemma {:induction false} LastMemberWins(key: bytes, s: bytes, broken: bool, flags: nat, ms: seq<Member>, serial: nat, k: bytes)
    requires ParseMembers(key, s, broken, flags, ms, serial).Some?
    ensures var v := ParseMembers(key, s, broken, flags, ms, serial).value.value;
            var last := LastWritten(Written(key, s, broken, flags), k);
            v.Object? && Lookup(v.members, k) == if last.Some? then last else Lookup(ms, k)
    decreases |s|
  {
    hide Lex, ParseValue, SetMember, Find, Lookup, LastWritten;
    var l1 := Lex(s, broken);
    var l2 := Lex(l1.rest, broken);
    var v := ParseValue(l2.token, l2.rest, broken, flags).value;
    var l3 := Lex(v.rest, broken);
    var l4 := Lex(l3.rest, broken);
    var ms' := SetMember(ms, key, serial, v.value);
    var t := if l3.token == Punct(COMMA) then Written(l4.token.s, l4.rest, broken, flags) else [];
    LookupSet(ms, key, serial, v.value, k);
    LastWrittenCons((key, v.value), t, k);
    assert Written(key, s, broken, flags) == [(key, v.value)] + t;
    NothingWritten(k);
    if l3.token == Punct(COMMA) {
      LastMemberWins(l4.token.s, l4.rest, broken, flags, ms', serial + 1, k);
    }
  }

  lemma NothingWritten(k: bytes)
    ensures LastWritten([], k) == None
  {}

  /** Members numbered from `serial` on. */
  ghost function Numbered(w: seq<(bytes, Json)>, serial: nat): (ms: seq<Member>)
    ensures |ms| == |w| && forall i :: 0 <= i < |w| ==> ms[i] == Member(w[i].0, serial + i, w[i].1)
  {
    if w == [] then [] else [Member(w[0].0, serial, w[0].1)] + Numbered(w[1..], serial + 1)
  }

  /** The keys, in the order they are written. */
  ghost function KeysOf(w: seq<(bytes, Json)>): (ks: seq<bytes>)
    ensures |ks| == |w| && forall i :: 0 <= i < |w| ==> ks[i] == w[i].0
  {
    seq(|w|, i requires 0 <= i < |w| => w[i].0)
  }

  /** No key twice, and none of `ms`. */
  ghost predicate Fresh(ks: seq<bytes>, ms: seq<Member>) {
    && (forall i :: 0 <= i < |ks| ==> Find(ms, ks[i]) == |ms|)
    && (forall i, j :: 0 <= i < j < |ks| ==> ks[i] != ks[j])
  }

  lemma FreshCons(k: bytes, ks: seq<bytes>, ms: seq<Member>, m: Member)
    requires Find(ms, k) == |ms| && m.key == k && Fresh(ks, ms + [m])
    ensures Fresh([k] + ks, ms)
  {
    forall i | 0 <= i < |ks| ensures Find(ms, ks[i]) == |ms| && ks[i] != k {
      NotFoundInLonger(ms, m, ks[i]);
    }
  }

  lemma NumberedCons(h: (bytes, Json), t: seq<(bytes, Json)>, ms: seq<Member>, serial: nat)
    ensures ms + [Member(h.0, serial, h.1)] + Numbered(t, serial + 1) == ms + Numbered([h] + t, serial)
  {
    hide Numbered;
    NumberedHead(h, t, serial);
    Associative(ms, [Member(h.0, serial, h.1)], Numbered(t, serial + 1));
  }

  lemma NumberedHead(h: (bytes, Json), t: seq<(bytes, Json)>, serial: nat)
    ensures Numbered([h] + t, serial) == [Member(h.0, serial, h.1)] + Numbered(t, serial + 1)
  {
    assert ([h] + t)[1..] == t && ([h] + t)[0] == h;
  }

  lemma KeysOfCons(h: (bytes, Json), t: seq<(bytes, Json)>)
    ensures KeysOf([h] + t) == [h.0] + KeysOf(t)
  {}

  /** With JSON_REJECT_DUPLICATES an accepted object has each written member once, in the order of the text. */
  lemma {:induction false} RejectedDuplicates(key: bytes, s: bytes, broken: bool, flags: nat, ms: seq<Member>, serial: nat)
    requires ParseMembers(key, s, broken, flags, ms, serial).Some? && RejectDuplicates(flags)
    ensures var v := ParseMembers(key, s, broken, flags, ms, serial).value.value;
            var w := Written(key, s, broken, flags);
            v == Object(ms + Numbered(w, serial)) && Fresh(KeysOf(w), ms)
    decreases |s|
  {
    hide Lex, ParseValue, Numbered, Fresh, KeysOf, Find;
    var l1 := Lex(s, broken);
    var l2 := Lex(l1.rest, broken);
    var v := ParseValue(l2.token, l2.rest, broken, flags).value;
    var l3 := Lex(v.rest, broken);
    var l4 := Lex(l3.rest, broken);
    var m := Member(key, serial, v.value);
    var t := if l3.token == Punct(COMMA) then Written(l4.token.s, l4.rest, broken, flags) else [];
    assert SetMember(ms, key, serial, v.value) == ms + [m];
    assert Written(key, s, broken, flags) == [(key, v.value)] + t;
    if l3.token == Punct(COMMA) {
      RejectedDuplicates(l4.token.s, l4.rest, broken, flags, ms + [m], serial + 1);
    } else {
      NoneWritten(ms + [m], serial + 1);
    }
    FreshCons(key, KeysOf(t), ms, m);
    NumberedCons((key, v.value), t, ms, serial);
    KeysOfCons((key, v.value), t);
  }

  lemma NoneWritten(ms: seq<Member>, serial: nat)
    ensures Fresh(KeysOf([]), ms) && ms + Numbered([], serial) == ms
  {}

  lemma NotFoundInLonger(ms: seq<Member>, m: Member, k: bytes)
    requires Find(ms + [m], k) == |ms| + 1
    ensures Find(ms, k) == |ms| && m.key != k
  {
    assert (ms + [m])[|ms|] == m;
    assert forall i :: 0 <= i < |ms| ==> (ms + [m])[i] == ms[i];
  }
}
