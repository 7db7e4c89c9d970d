/** What a format string asks of a value, in one piece: the reading of libjansson/pack_unpack.c apart from the order in which
    `json_unpack` looks at format, arguments and value, and the way back from what it stored. */
module Shapes {
  import opened Options
  import opened Utf8
  import opened Values
  import opened Chars = DumpText
  import opened LoadText
  import opened Pack

  // ---------------------------------------------------------------- shapes

  /** A format with the keys filled in: one character, the pairs of an object or the items of an array; `mark` is 1 where
      `!` stands before the closing bracket, -1 where `*` stands there, and 0 where neither does. */
  datatype Shape = One(c: byte) | Braced(pairs: seq<Named>, mark: int) | Bracketed(items: seq<Shape>, mark: int)

  datatype Named = Named(key: bytes, shape: Shape)

  datatype Read = Read(shape: Shape, rest: bytes, asks: seq<Ask>)

  /** The kinds of values by the characters that ask for them: `s`, `n`, `b`, `i`, `I`, `f`, `F`, `o` and `O`. */
  predicate Kind(c: byte, v: Json) {
    match c
    case 0x73 => v.String?
    case 0x6E => v.Null?
    case 0x62 => v.True? || v.False?
    case 0x69 => v.Integer?
    case 0x49 => v.Integer?
    case 0x66 => v.Real?
    case 0x46 => v.Real? || v.Integer?
    case 0x6F => true
    case 0x4F => true
    case _ => false
  }

  predicate IsKind(c: byte) {
    c == 0x73 || c == 0x6E || c == 0x62 || c == 0x69 || c == 0x49 || c == 0x66 || c == 0x46 || c == 0x6F || c == 0x4F
  }

  /** `n` stores nothing, and nothing does under JSON_VALIDATE_ONLY. */
  predicate Stores(c: byte, flags: nat) { c != 0x6E && !ValidateOnly(flags) }

  /** The shape of a format from `token` on: keys and places are fetched in passing, and no value is looked at. */
  function ReadShape(token: byte, s: bytes, asks: seq<Ask>, flags: nat): (r: Option<Read>)
    ensures r.Some? ==> |r.value.rest| <= |s|
    decreases |s|, 1
  {
    if token == LBRACE then ReadPairs(s, asks, flags, [])
    else if token == LBRACKET then ReadItems(s, asks, flags, [])
    else if !IsKind(token) then None
    else if !Stores(token, flags) then Some(Read(One(token), s, asks))
    else if asks == [] || asks[0] != Place(false) then None
    else Some(Read(One(token), s, asks[1..]))
  }

  function MarkOf(c: byte): int { if c == BANG then 1 else if c == STAR then -1 else 0 }

  function ReadPairs(s: bytes, asks: seq<Ask>, flags: nat, pairs: seq<Named>): (r: Option<Read>)
    ensures r.Some? ==> |r.value.rest| <= |s|
    decreases |s|, 0
  {
    var Scanned(t, s1) := NextToken(s);
    var Scanned(t2, s2) := NextToken(s1);
    if t == RBRACE then Some(Read(Braced(pairs, 0), s1, asks))
    else if MarkOf(t) != 0 then if t2 == RBRACE then Some(Read(Braced(pairs, MarkOf(t)), s2, asks)) else None
    else if t != LOWER_S || asks == [] || !asks[0].AskKey? || asks[0].key.None? then None
    else
      var v := ReadShape(t2, s2, asks[1..], flags);
      if v.None? then None
      else ReadPairs(v.value.rest, v.value.asks, flags, pairs + [Named(asks[0].key.value, v.value.shape)])
  }

  function ReadItems(s: bytes, asks: seq<Ask>, flags: nat, items: seq<Shape>): (r: Option<Read>)
    ensures r.Some? ==> |r.value.rest| <= |s|
    decreases |s|, 0
  {
    var Scanned(t, s1) := NextToken(s);
    if t == RBRACKET then Some(Read(Bracketed(items, 0), s1, asks))
    else if t == END then None
    else if MarkOf(t) != 0 then
      var Scanned(t2, s2) := NextToken(s1);
      if t2 == RBRACKET then Some(Read(Bracketed(items, MarkOf(t)), s2, asks)) else None
    else
      var v := ReadShape(t, s1, asks, flags);
      if v.None? then None else ReadItems(v.value.rest, v.value.asks, flags, items + [v.value.shape])
  }

  // ---------------------------------------------------------------- what matches

  /** Nothing may be left over: `!` says so, `*` says not, and else JSON_STRICT decides. */
  predicate Whole(mark: int, flags: nat) {
    if mark == 0 then flags / 2 % 2 == 1 else mark == 1
  }

  /** The value has the kinds that the shape asks for, under every key and at every place that it names. */
  ghost predicate Matches(sh: Shape, v: Json, flags: nat)
    decreases sh, 0
  {
    match sh
    case One(c) => Kind(c, v)
    case Braced(pairs, mark) =>
      && v.Object? && (forall i :: 0 <= i < |pairs| ==> MatchesUnder(pairs[i], v.members, flags))
      && (Whole(mark, flags) ==> forall j :: 0 <= j < |v.members| ==> IsNamed(pairs, v.members[j].key))
    case Bracketed(items, mark) =>
      && v.Array? && |items| <= |v.elems| && (forall i :: 0 <= i < |items| ==> Matches(items[i], v.elems[i], flags))
      && (Whole(mark, flags) ==> |items| == |v.elems|)
  }

  ghost predicate MatchesUnder(p: Named, ms: seq<Member>, flags: nat)
    decreases p, 1
  {
    Find(ms, p.key) < |ms| && Matches(p.shape, ms[Find(ms, p.key)].value, flags)
  }

  ghost predicate IsNamed(pairs: seq<Named>, key: bytes) {
    exists i :: 0 <= i < |pairs| && pairs[i].key == key
  }

  /** What a place gets. */
  function StoredAt(c: byte, v: Json): (o: Out) {
    match v
    case String(s) => if c == 0x73 then StrOut(s) else JsonOut(v)
    case Integer(n) => if c == 0x69 then IntOut(ToInt(n)) else if c == 0x49 then IntOut(n) else if c == 0x46 then NumberOut(v) else JsonOut(v)
    case Real(text) => if c == 0x66 then RealOut(text) else if c == 0x46 then NumberOut(v) else JsonOut(v)
    case True => if c == 0x62 then IntOut(1) else JsonOut(v)
    case False => if c == 0x62 then IntOut(0) else JsonOut(v)
    case _ => JsonOut(v)
  }

  ghost function Stored(sh: Shape, v: Json, flags: nat): (outs: seq<Out>)
    requires Matches(sh, v, flags)
    decreases sh, 0
  {
    match sh
    case One(c) => if Stores(c, flags) then [StoredAt(c, v)] else []
    case Braced(pairs, _) => StoredPairs(pairs, v.members, flags)
    case Bracketed(items, _) => StoredItems(items, v.elems, flags)
  }

  ghost function StoredPairs(pairs: seq<Named>, ms: seq<Member>, flags: nat): (outs: seq<Out>)
    requires forall i :: 0 <= i < |pairs| ==> MatchesUnder(pairs[i], ms, flags)
    decreases pairs, 0
  {
    if pairs == [] then []
    else
      var p := pairs[|pairs| - 1];
      assert MatchesUnder(p, ms, flags);
      StoredPairs(pairs[..|pairs| - 1], ms, flags) + Stored(p.shape, ms[Find(ms, p.key)].value, flags)
  }

  ghost function StoredItems(items: seq<Shape>, es: seq<Json>, flags: nat): (outs: seq<Out>)
    requires |items| <= |es| && forall i :: 0 <= i < |items| ==> Matches(items[i], es[i], flags)
    decreases items, 0
  {
    if items == [] then []
    else
      var n := |items| - 1;
      StoredItems(items[..n], es, flags) + Stored(items[n], es[n], flags)
  }

  // ---------------------------------------------------------------- unpacking is matching

  ghost function NamedKeys(pairs: seq<Named>): (keys: set<bytes>) {
    set i | 0 <= i < |pairs| :: pairs[i].key
  }

  lemma OneMorePair(pairs: seq<Named>, p: Named, ms: seq<Member>, flags: nat)
    requires (forall i :: 0 <= i < |pairs| ==> MatchesUnder(pairs[i], ms, flags)) && MatchesUnder(p, ms, flags)
    ensures forall i :: 0 <= i < |pairs + [p]| ==> MatchesUnder((pairs + [p])[i], ms, flags)
    ensures NamedKeys(pairs + [p]) == NamedKeys(pairs) + {p.key}
    ensures StoredPairs(pairs + [p], ms, flags) == StoredPairs(pairs, ms, flags) + Stored(p.shape, ms[Find(ms, p.key)].value, flags)
  {
    hide MatchesUnder;
    var all := pairs + [p];
    assert all[..|all| - 1] == pairs && all[|all| - 1] == p;
    forall k | k in NamedKeys(pairs) + {p.key} ensures k in NamedKeys(all) {
      if k in NamedKeys(pairs) {
        var i :| 0 <= i < |pairs| && pairs[i].key == k;
        assert all[i].key == k;
      } else {
        assert all[|pairs|].key == k;
      }
    }
  }

  lemma OneMoreItem(items: seq<Shape>, sh: Shape, es: seq<Json>, flags: nat)
    requires |items| < |es| && (forall i :: 0 <= i < |items| ==> Matches(items[i], es[i], flags)) && Matches(sh, es[|items|], flags)
    ensures forall i :: 0 <= i < |items + [sh]| ==> Matches((items + [sh])[i], es[i], flags)
    ensures StoredItems(items + [sh], es, flags) == StoredItems(items, es, flags) + Stored(sh, es[|items|], flags)
  {
    hide Matches;
    var all := items + [sh];
    assert all[..|all| - 1] == items && all[|all| - 1] == sh;
  }

  /** Reading goes on behind the pairs read so far. */
  lemma {:induction false} PairsGrow(s: bytes, asks: seq<Ask>, flags: nat, pairs: seq<Named>)
    requires ReadPairs(s, asks, flags, pairs).Some?
    ensures var sh := ReadPairs(s, asks, flags, pairs).value.shape; sh.Braced? && |pairs| <= |sh.pairs| && sh.pairs[..|pairs|] == pairs
    decreases |s|
  {
    hide ReadShape, NextToken;
    var Scanned(t, s1) := NextToken(s);
    assert pairs[..|pairs|] == pairs;
    if t != RBRACE && MarkOf(t) == 0 {
      var Scanned(t2, s2) := NextToken(s1);
      var v := ReadShape(t2, s2, asks[1..], flags).value;
      var p := Named(asks[0].key.value, v.shape);
      PairsGrow(v.rest, v.asks, flags, pairs + [p]);
      assert (pairs + [p])[..|pairs|] == pairs;
    }
  }

  lemma {:induction false} ItemsGrow(s: bytes, asks: seq<Ask>, flags: nat, items: seq<Shape>)
    requires ReadItems(s, asks, flags, items).Some?
    ensures var sh := ReadItems(s, asks, flags, items).value.shape; sh.Bracketed? && |items| <= |sh.items| && sh.items[..|items|] == items
    decreases |s|
  {
    hide ReadShape, NextToken;
    var Scanned(t, s1) := NextToken(s);
    assert items[..|items|] == items;
    if t != RBRACKET && MarkOf(t) == 0 {
      var v := ReadShape(t, s1, asks, flags).value;
      ItemsGrow(v.rest, v.asks, flags, items + [v.shape]);
      assert (items + [v.shape])[..|items|] == items;
    }
  }

  /** The outcome of unpacking, told by what was read. */
  ghost function Told(r: Option<Read>, v: Json, flags: nat): (u: Option<Unpacked>) {
    if r.Some? && Matches(r.value.shape, v, flags) then Some(Unpacked(r.value.rest, r.value.asks, Stored(r.value.shape, v, flags))) else None
  }

  /** No key twice in any object. */
  ghost predicate UniqueThroughout(v: Json) {
    match v
    case Array(elems) => forall i :: 0 <= i < |elems| ==> UniqueThroughout(elems[i])
    case Object(members) => UniqueKeys(members) && forall i :: 0 <= i < |members| ==> UniqueThroughout(members[i].value)
    case _ => true
  }

  /** `json_unpack` succeeds exactly if the format can be read and the value matches what it asks for: every named place has
      the kind of its character, and nothing is left over where nothing may be. Then it stores those places. */
  lemma {:induction false} UnpackIsMatching(token: byte, s: bytes, v: Json, asks: seq<Ask>, flags: nat)
    requires UniqueThroughout(v)
    ensures UnpackValue(token, s, v, asks, flags) == Told(ReadShape(token, s, asks, flags), v, flags)
    decreases |s|, 1
  {
    if token == LBRACE {
      if ReadPairs(s, asks, flags, []).Some? {
        PairsGrow(s, asks, flags, []);
      }
      if v.Object? {
        assert NamedKeys([]) == {};
        MembersMatching(s, v.members, asks, flags, [], {}, []);
      }
    } else if token == LBRACKET {
      if ReadItems(s, asks, flags, []).Some? {
        ItemsGrow(s, asks, flags, []);
      }
      if v.Array? {
        ElemsMatching(s, v.elems, asks, flags, [], []);
      }
    }
  }

  /** Counting the named keys tells whether all are named. */
  lemma AllNamedIff(pairs: seq<Named>, ms: seq<Member>, flags: nat)
    requires UniqueKeys(ms) && forall i :: 0 <= i < |pairs| ==> MatchesUnder(pairs[i], ms, flags)
    ensures |NamedKeys(pairs)| == |ms| <==> forall j :: 0 <= j < |ms| ==> IsNamed(pairs, ms[j].key)
    ensures |NamedKeys(pairs)| == |ms| <==> NamedKeys(pairs) == Keys(ms)
  {
    hide Matches;
    var keys := NamedKeys(pairs);
    forall k | k in keys ensures k in Keys(ms) {
      var i :| 0 <= i < |pairs| && pairs[i].key == k;
      assert MatchesUnder(pairs[i], ms, flags);
      assert ms[Find(ms, k)].key == k;
    }
    KeyCount(ms);
    SameSize(keys, Keys(ms));
    KeysFrom(ms, keys);
    forall j | 0 <= j < |ms| ensures IsNamed(pairs, ms[j].key) <==> ms[j].key in keys {}
  }

  predicate AsksKey(asks: seq<Ask>) { asks != [] && asks[0].AskKey? && asks[0].key.Some? }

  /** A member that unpacking and reading come to. */
  lemma MemberStep(s: bytes, ms: seq<Member>, asks: seq<Ask>, flags: nat, pairs: seq<Named>, keys: set<bytes>, outs: seq<Out>)
    requires NextToken(s).token == LOWER_S && AsksKey(asks)
    ensures var Scanned(t2, s2) := NextToken(NextToken(s).rest);
            var key, r := asks[0].key.value, ReadShape(t2, s2, asks[1..], flags);
            && (r.None? ==> ReadPairs(s, asks, flags, pairs) == None)
            && (r.Some? ==> ReadPairs(s, asks, flags, pairs) == ReadPairs(r.value.rest, r.value.asks, flags, pairs + [Named(key, r.value.shape)]))
            && (Find(ms, key) == |ms| ==> UnpackMembers(s, ms, asks, flags, keys, 0, outs) == None)
            && (Find(ms, key) < |ms| ==>
                  var u := UnpackValue(t2, s2, ms[Find(ms, key)].value, asks[1..], flags);
                  && (u.None? ==> UnpackMembers(s, ms, asks, flags, keys, 0, outs) == None)
                  && (u.Some? ==> UnpackMembers(s, ms, asks, flags, keys, 0, outs)
                                  == UnpackMembers(u.value.rest, ms, u.value.asks, flags, keys + {key}, 0, outs + u.value.outs)))
  {
    hide UnpackValue, ReadShape, NextToken, Find;
  }

  /** An object whose pairs all match. */
  lemma BracedTold(pairs: seq<Named>, mark: int, rest: bytes, asks: seq<Ask>, ms: seq<Member>, flags: nat)
    requires UniqueKeys(ms) && forall i :: 0 <= i < |pairs| ==> MatchesUnder(pairs[i], ms, flags)
    ensures Told(Some(Read(Braced(pairs, mark), rest, asks)), Object(ms), flags)
            == if Whole(mark, flags) && |NamedKeys(pairs)| != |ms| then None else Some(Unpacked(rest, asks, StoredPairs(pairs, ms, flags)))
  {
    hide NamedKeys, StoredPairs, MatchesUnder, IsNamed;
    AllNamedIff(pairs, ms, flags);
  }

  lemma MembersEnd(s: bytes, ms: seq<Member>, asks: seq<Ask>, flags: nat, pairs: seq<Named>, keys: set<bytes>, outs: seq<Out>)
    requires UniqueKeys(ms) && keys == NamedKeys(pairs)
    requires (forall i :: 0 <= i < |pairs| ==> MatchesUnder(pairs[i], ms, flags)) && outs == StoredPairs(pairs, ms, flags)
    requires NextToken(s).token != LOWER_S || !AsksKey(asks)
    ensures UnpackMembers(s, ms, asks, flags, keys, 0, outs) == Told(ReadPairs(s, asks, flags, pairs), Object(ms), flags)
  {
    hide UnpackValue, ReadShape, NextToken, NamedKeys, StoredPairs, MatchesUnder, Find, Told, UniqueKeys;
    var Scanned(t, s1) := NextToken(s);
    BracedTold(pairs, 0, s1, asks, ms, flags);
    BracedTold(pairs, MarkOf(t), NextToken(s1).rest, asks, ms, flags);
    NothingTold(ms, flags);
  }

  lemma NothingTold(ms: seq<Member>, flags: nat)
    ensures Told(None, Object(ms), flags) == None
  {}

  /** A pair that does not match keeps the whole from matching. */
  lemma PairFails(s: bytes, asks: seq<Ask>, flags: nat, pairs: seq<Named>, p: Named, ms: seq<Member>)
    requires !MatchesUnder(p, ms, flags)
    ensures Told(ReadPairs(s, asks, flags, pairs + [p]), Object(ms), flags) == None
  {
    hide ReadPairs, MatchesUnder;
    if ReadPairs(s, asks, flags, pairs + [p]).Some? {
      PairsGrow(s, asks, flags, pairs + [p]);
      var all := ReadPairs(s, asks, flags, pairs + [p]).value.shape.pairs;
      assert all[|pairs|] == all[..|pairs + [p]|][|pairs|] == p;
    }
  }

  lemma {:induction false} MembersMatching(s: bytes, ms: seq<Member>, asks: seq<Ask>, flags: nat, pairs: seq<Named>, keys: set<bytes>, outs: seq<Out>)
    requires UniqueThroughout(Object(ms)) && keys == NamedKeys(pairs)
    requires (forall i :: 0 <= i < |pairs| ==> MatchesUnder(pairs[i], ms, flags)) && outs == StoredPairs(pairs, ms, flags)
    ensures UnpackMembers(s, ms, asks, flags, keys, 0, outs) == Told(ReadPairs(s, asks, flags, pairs), Object(ms), flags)
    decreases |s|, 0
  {
    hide UnpackValue, ReadShape, NextToken, NamedKeys, StoredPairs, MatchesUnder, Find, UnpackMembers, ReadPairs, Matches;
    if NextToken(s).token == LOWER_S && AsksKey(asks) {
      var Scanned(t2, s2) := NextToken(NextToken(s).rest);
      var key := asks[0].key.value;
      var r := ReadShape(t2, s2, asks[1..], flags);
      MemberStep(s, ms, asks, flags, pairs, keys, outs);
      if r.Some? {
        var p := Named(key, r.value.shape);
        MatchesUnderIff(p, ms, flags);
        if !MatchesUnder(p, ms, flags) {
          PairFails(r.value.rest, r.value.asks, flags, pairs, p, ms);
        } else {
          OneMorePair(pairs, p, ms, flags);
          MembersMatching(r.value.rest, ms, r.value.asks, flags, pairs + [p], keys + {key},
                          outs + Stored(r.value.shape, ms[Find(ms, key)].value, flags));
        }
      }
      if Find(ms, key) < |ms| {
        UnpackIsMatching(t2, s2, ms[Find(ms, key)].value, asks[1..], flags);
      }
    } else {
      MembersEnd(s, ms, asks, flags, pairs, keys, outs);
    }
  }

  lemma MatchesUnderIff(p: Named, ms: seq<Member>, flags: nat)
    ensures MatchesUnder(p, ms, flags) <==> Find(ms, p.key) < |ms| && Matches(p.shape, ms[Find(ms, p.key)].value, flags)
  {}

  lemma {:induction false} ElemsMatching(s: bytes, es: seq<Json>, asks: seq<Ask>, flags: nat, items: seq<Shape>, outs: seq<Out>)
    requires UniqueThroughout(Array(es)) && |items| <= |es|
    requires (forall i :: 0 <= i < |items| ==> Matches(items[i], es[i], flags)) && outs == StoredItems(items, es, flags)
    ensures UnpackElems(s, es, asks, flags, |items|, 0, outs) == Told(ReadItems(s, asks, flags, items), Array(es), flags)
    decreases |s|, 0
  {
    hide UnpackValue, ReadShape, NextToken, StoredItems;
    var Scanned(t, s1) := NextToken(s);
    if t == RBRACKET || MarkOf(t) != 0 || t == END {
    } else {
      ShapeStarts(t, s1, asks, flags);
      var r := ReadShape(t, s1, asks, flags);
      if r.Some? && ReadItems(r.value.rest, r.value.asks, flags, items + [r.value.shape]).Some? {
        ItemsGrow(r.value.rest, r.value.asks, flags, items + [r.value.shape]);
        var all := ReadItems(r.value.rest, r.value.asks, flags, items + [r.value.shape]).value.shape.items;
        assert all[|items|] == all[..|items + [r.value.shape]|][|items|] == r.value.shape;
      }
      if |items| < |es| {
        var v := es[|items|];
        UnpackIsMatching(t, s1, v, asks, flags);
        if r.Some? && Matches(r.value.shape, v, flags) {
          OneMoreItem(items, r.value.shape, es, flags);
          ElemsMatching(r.value.rest, es, r.value.asks, flags, items + [r.value.shape], outs + Stored(r.value.shape, v, flags));
        }
      }
    }
  }

  lemma ShapeStarts(t: byte, s: bytes, asks: seq<Ask>, flags: nat)
    ensures ReadShape(t, s, asks, flags).Some? ==> StartsValue(t)
  {
    hide ReadPairs, ReadItems;
  }

  // ---------------------------------------------------------------- the way back

  /** Neither `!` nor `*`, which `json_pack` does not know, and no `F`. */
  predicate Packable(sh: Shape) {
    match sh
    case One(c) => c != 0x46
    case Braced(pairs, mark) => mark == 0 && forall i :: 0 <= i < |pairs| ==> Packable(pairs[i].shape)
    case Bracketed(items, mark) => mark == 0 && forall i :: 0 <= i < |items| ==> Packable(items[i])
  }

  /** What `json_pack` accepts: 64-bit integers, and keys and strings in UTF-8; no key twice. */
  ghost predicate Storable(v: Json) {
    match v
    case Integer(n) => INT64_MIN <= n <= INT64_MAX
    case String(s) => Utf8.Valid(s)
    case Array(elems) => forall i :: 0 <= i < |elems| ==> Storable(elems[i])
    case Object(members) => UniqueKeys(members) && forall i :: 0 <= i < |members| ==> Utf8.Valid(members[i].key) && Storable(members[i].value)
    case _ => true
  }

  /** A number that is stored in an int is one. */
  ghost predicate Narrow(sh: Shape, v: Json)
    decreases sh, 0
  {
    match sh
    case One(c) => c == 0x69 && v.Integer? ==> IsInt(v.n)
    case Braced(pairs, _) => v.Object? ==> forall i :: 0 <= i < |pairs| ==> NarrowUnder(pairs[i], v.members)
    case Bracketed(items, _) => v.Array? ==> forall i :: 0 <= i < |items| && i < |v.elems| ==> Narrow(items[i], v.elems[i])
  }

  ghost predicate NarrowUnder(p: Named, ms: seq<Member>)
    decreases p, 1
  {
    Find(ms, p.key) < |ms| ==> Narrow(p.shape, ms[Find(ms, p.key)].value)
  }

  /** What was stored, as an argument for the same character. */
  function ArgOf(c: byte, o: Out): (a: Arg) {
    match o
    case StrOut(s) => StrArg(Some(s))
    case IntOut(n) => if c == 0x62 then BoolArg(n) else IntArg(n)
    case RealOut(text) => RealArg(text)
    case NumberOut(v) => JsonArg(Some(v))
    case JsonOut(v) => JsonArg(Some(v))
  }

  /** Arguments, and the values that are left over. */
  datatype Refilled = Refilled(args: seq<Arg>, left: seq<Out>)

  /** The arguments for packing with a format: its keys, and values from the front of `outs`. */
  function Refill(sh: Shape, outs: seq<Out>): (r: Refilled)
    decreases sh, 0, 0
  {
    match sh
    case One(c) => if c == 0x6E || outs == [] then Refilled([], outs) else Refilled([ArgOf(c, outs[0])], outs[1..])
    case Braced(pairs, _) => RefillPairs(pairs, 0, outs)
    case Bracketed(items, _) => RefillItems(items, 0, outs)
  }

  function RefillPairs(pairs: seq<Named>, k: nat, outs: seq<Out>): (r: Refilled)
    requires k <= |pairs|
    decreases pairs, 1, |pairs| - k
  {
    if k == |pairs| then Refilled([], outs)
    else
      var a := Refill(pairs[k].shape, outs);
      var b := RefillPairs(pairs, k + 1, a.left);
      Refilled([KeyArg(Some(pairs[k].key))] + a.args + b.args, b.left)
  }

  function RefillItems(items: seq<Shape>, k: nat, outs: seq<Out>): (r: Refilled)
    requires k <= |items|
    decreases items, 1, |items| - k
  {
    if k == |items| then Refilled([], outs)
    else
      var a := Refill(items[k], outs);
      var b := RefillItems(items, k + 1, a.left);
      Refilled(a.args + b.args, b.left)
  }

  /** The same arguments, taken from the value. */
  ghost function Given(sh: Shape, v: Json, flags: nat): (args: seq<Arg>)
    requires Matches(sh, v, flags)
    decreases sh, 0, 0
  {
    match sh
    case One(c) => if c == 0x6E then [] else [ArgOf(c, StoredAt(c, v))]
    case Braced(pairs, _) => GivenPairs(pairs, 0, v.members, flags)
    case Bracketed(items, _) => GivenItems(items, 0, v.elems, flags)
  }

  ghost function GivenPairs(pairs: seq<Named>, k: nat, ms: seq<Member>, flags: nat): (args: seq<Arg>)
    requires k <= |pairs| && forall i :: 0 <= i < |pairs| ==> MatchesUnder(pairs[i], ms, flags)
    decreases pairs, 1, |pairs| - k
  {
    if k == |pairs| then []
    else
      assert MatchesUnder(pairs[k], ms, flags);
      [KeyArg(Some(pairs[k].key))] + Given(pairs[k].shape, ms[Find(ms, pairs[k].key)].value, flags) + GivenPairs(pairs, k + 1, ms, flags)
  }

  ghost function GivenItems(items: seq<Shape>, k: nat, es: seq<Json>, flags: nat): (args: seq<Arg>)
    requires k <= |items| <= |es| && forall i :: 0 <= i < |items| ==> Matches(items[i], es[i], flags)
    decreases items, 1, |items| - k
  {
    if k == |items| then [] else Given(items[k], es[k], flags) + GivenItems(items, k + 1, es, flags)
  }

  /** Of the stored values those from place `k` on. */
  ghost function StoredPairsFrom(pairs: seq<Named>, k: nat, ms: seq<Member>, flags: nat): (outs: seq<Out>)
    requires k <= |pairs| && forall i :: 0 <= i < |pairs| ==> MatchesUnder(pairs[i], ms, flags)
    decreases |pairs| - k
  {
    if k == |pairs| then []
    else
      assert MatchesUnder(pairs[k], ms, flags);
      Stored(pairs[k].shape, ms[Find(ms, pairs[k].key)].value, flags) + StoredPairsFrom(pairs, k + 1, ms, flags)
  }

  ghost function StoredItemsFrom(items: seq<Shape>, k: nat, es: seq<Json>, flags: nat): (outs: seq<Out>)
    requires k <= |items| <= |es| && forall i :: 0 <= i < |items| ==> Matches(items[i], es[i], flags)
    decreases |items| - k
  {
    if k == |items| then [] else Stored(items[k], es[k], flags) + StoredItemsFrom(items, k + 1, es, flags)
  }

  lemma {:induction false} PairsSplit(pairs: seq<Named>, k: nat, ms: seq<Member>, flags: nat)
    requires k <= |pairs| && forall i :: 0 <= i < |pairs| ==> MatchesUnder(pairs[i], ms, flags)
    ensures StoredPairs(pairs, ms, flags) == StoredPairs(pairs[..k], ms, flags) + StoredPairsFrom(pairs, k, ms, flags)
    decreases |pairs| - k
  {
    hide MatchesUnder, Stored, Find;
    if k == |pairs| {
      assert pairs[..k] == pairs;
    } else {
      PairsSplit(pairs, k + 1, ms, flags);
      assert pairs[..k + 1][..k] == pairs[..k];
    }
  }

  lemma {:induction false} ItemsSplit(items: seq<Shape>, k: nat, es: seq<Json>, flags: nat)
    requires k <= |items| <= |es| && forall i :: 0 <= i < |items| ==> Matches(items[i], es[i], flags)
    ensures StoredItems(items, es, flags) == StoredItems(items[..k], es, flags) + StoredItemsFrom(items, k, es, flags)
    decreases |items| - k
  {
    hide Matches, Stored;
    if k == |items| {
      assert items[..k] == items;
    } else {
      ItemsSplit(items, k + 1, es, flags);
      assert items[..k + 1][..k] == items[..k];
    }
  }

  /** Refilling a format with what was stored gives the arguments taken from the value. */
  lemma {:induction false} RefillIsGiven(sh: Shape, v: Json, flags: nat, more: seq<Out>)
    requires Matches(sh, v, flags) && !ValidateOnly(flags)
    ensures Refill(sh, Stored(sh, v, flags) + more) == Refilled(Given(sh, v, flags), more)
    decreases sh, 0, 0
  {
    match sh
    case One(c) =>
      var outs := Stored(sh, v, flags) + more;
      if c != 0x6E {
        assert outs[0] == StoredAt(c, v) && outs[1..] == more;
      } else {
        assert outs == more;
      }
    case Braced(pairs, _) =>
      PairsSplit(pairs, 0, v.members, flags);
      PairsRefilled(pairs, 0, v.members, flags, more);
      assert [] + StoredPairsFrom(pairs, 0, v.members, flags) == StoredPairsFrom(pairs, 0, v.members, flags);
    case Bracketed(items, _) =>
      ItemsSplit(items, 0, v.elems, flags);
      ItemsRefilled(items, 0, v.elems, flags, more);
      assert [] + StoredItemsFrom(items, 0, v.elems, flags) == StoredItemsFrom(items, 0, v.elems, flags);
  }

  lemma {:induction false} PairsRefilled(pairs: seq<Named>, k: nat, ms: seq<Member>, flags: nat, more: seq<Out>)
    requires k <= |pairs| && (forall i :: 0 <= i < |pairs| ==> MatchesUnder(pairs[i], ms, flags)) && !ValidateOnly(flags)
    ensures RefillPairs(pairs, k, StoredPairsFrom(pairs, k, ms, flags) + more) == Refilled(GivenPairs(pairs, k, ms, flags), more)
    decreases pairs, 1, |pairs| - k
  {
    hide Refill, Given, Stored, Find, Matches;
    if k == |pairs| {
      assert [] + more == more;
    } else {
      assert MatchesUnder(pairs[k], ms, flags);
      var v := ms[Find(ms, pairs[k].key)].value;
      var tail := StoredPairsFrom(pairs, k + 1, ms, flags);
      RefillIsGiven(pairs[k].shape, v, flags, tail + more);
      PairsRefilled(pairs, k + 1, ms, flags, more);
      assert Stored(pairs[k].shape, v, flags) + tail + more == Stored(pairs[k].shape, v, flags) + (tail + more);
    }
  }

  lemma {:induction false} ItemsRefilled(items: seq<Shape>, k: nat, es: seq<Json>, flags: nat, more: seq<Out>)
    requires k <= |items| <= |es| && (forall i :: 0 <= i < |items| ==> Matches(items[i], es[i], flags)) && !ValidateOnly(flags)
    ensures RefillItems(items, k, StoredItemsFrom(items, k, es, flags) + more) == Refilled(GivenItems(items, k, es, flags), more)
    decreases items, 1, |items| - k
  {
    hide Refill, Given, Stored, Matches;
    if k == |items| {
      assert [] + more == more;
    } else {
      var tail := StoredItemsFrom(items, k + 1, es, flags);
      RefillIsGiven(items[k], es[k], flags, tail + more);
      ItemsRefilled(items, k + 1, es, flags, more);
      assert Stored(items[k], es[k], flags) + tail + more == Stored(items[k], es[k], flags) + (tail + more);
    }
  }

  lemma {:induction false} StorableIsUnique(v: Json)
    requires Storable(v)
    ensures UniqueThroughout(v)
  {
    match v
    case Array(elems) =>
      forall i | 0 <= i < |elems| ensures UniqueThroughout(elems[i]) {
        StorableIsUnique(elems[i]);
      }
    case Object(members) =>
      forall i | 0 <= i < |members| ensures UniqueThroughout(members[i].value) {
        StorableIsUnique(members[i].value);
      }
    case _ =>
  }

  /** Without a key twice a tree equals itself, its reals compared by their text. */
  lemma {:induction false} EqualsItself(v: Json)
    requires UniqueThroughout(v)
    ensures Equal(v, v)
  {
    match v
    case Array(elems) =>
      forall i | 0 <= i < |elems| ensures Equal(elems[i], elems[i]) {
        EqualsItself(elems[i]);
      }
    case Object(members) =>
      forall i | 0 <= i < |members| ensures EqualAt(members[i].key, members[i].value, members) {
        FindUnique(members, i);
        EqualsItself(members[i].value);
      }
    case _ =>
  }

  /** The members packed so far are those of `ms` under the keys named so far, up to `json_equal`. */
  ghost predicate Rebuilt(packed: seq<Member>, pairs: seq<Named>, ms: seq<Member>) {
    UniqueKeys(packed) && Keys(packed) == NamedKeys(pairs) && forall i :: 0 <= i < |packed| ==> EqualAt(packed[i].key, packed[i].value, ms)
  }

  lemma RebuiltMore(packed: seq<Member>, pairs: seq<Named>, ms: seq<Member>, p: Named, serial: nat, v: Json)
    requires Rebuilt(packed, pairs, ms) && EqualAt(p.key, v, ms)
    ensures Rebuilt(SetMember(packed, p.key, serial, v), pairs + [p], ms)
  {
    hide Keys, Find, NamedKeys, EqualAt;
    var i := Find(packed, p.key);
    var now := SetMember(packed, p.key, serial, v);
    NewKeyUnique(packed, p.key, serial, v);
    NamedMore(pairs, p);
    if i < |packed| {
      assert packed[i].key == p.key;
      forall k | 0 <= k < |packed| ensures now[k].key == packed[k].key {}
      SameKeySet(packed, now);
      assert p.key in Keys(packed);
    }
  }

  lemma NamedMore(pairs: seq<Named>, p: Named)
    ensures NamedKeys(pairs + [p]) == NamedKeys(pairs) + {p.key}
  {
    var all := pairs + [p];
    forall k | k in NamedKeys(pairs) + {p.key} ensures k in NamedKeys(all) {
      if k in NamedKeys(pairs) {
        var i :| 0 <= i < |pairs| && pairs[i].key == k;
        assert all[i].key == k;
      } else {
        assert all[|pairs|].key == k;
      }
    }
  }

  lemma {:induction false} SameKeySet(ms: seq<Member>, ns: seq<Member>)
    requires |ms| == |ns| && forall i :: 0 <= i < |ms| ==> ms[i].key == ns[i].key
    ensures Keys(ms) == Keys(ns)
  {
    if ms != [] {
      SameKeySet(ms[1..], ns[1..]);
    }
  }

  lemma RebuiltWhole(packed: seq<Member>, pairs: seq<Named>, ms: seq<Member>, flags: nat)
    requires Rebuilt(packed, pairs, ms) && UniqueKeys(ms)
    requires (forall i :: 0 <= i < |pairs| ==> MatchesUnder(pairs[i], ms, flags)) && forall j :: 0 <= j < |ms| ==> IsNamed(pairs, ms[j].key)
    ensures Equal(Object(packed), Object(ms))
  {
    hide NamedKeys, MatchesUnder, IsNamed, Keys;
    AllNamedIff(pairs, ms, flags);
    KeyCount(packed);
  }

  lemma OneBack(c: byte, s: bytes, v: Json, flags: nat, more: seq<Arg>)
    requires Kind(c, v) && c != 0x46 && Storable(v) && (c == 0x69 ==> IsInt(v.n))
    ensures var p := PackValue(c, s, Given(One(c), v, flags) + more);
            p.Some? && p.value.rest == s && p.value.args == more && Equal(p.value.value, v)
  {
    var args := Given(One(c), v, flags) + more;
    StorableIsUnique(v);
    EqualsItself(v);
    if c == 0x6E {
      assert args == more;
    } else {
      assert args[0] == ArgOf(c, StoredAt(c, v)) && args[1..] == more;
    }
  }

  /** Packing with the arguments taken from a value that nothing is left over of gives that value. */
  lemma {:induction false} PackBack(token: byte, s: bytes, asks: seq<Ask>, v: Json, flags: nat, more: seq<Arg>)
    requires ReadShape(token, s, asks, flags).Some? && Matches(ReadShape(token, s, asks, flags).value.shape, v, flags)
    requires var sh := ReadShape(token, s, asks, flags).value.shape; Packable(sh) && Narrow(sh, v)
    requires Storable(v) && Strict(flags) && !ValidateOnly(flags)
    ensures var r := ReadShape(token, s, asks, flags).value;
            var p := PackValue(token, s, Given(r.shape, v, flags) + more);
            p.Some? && p.value.rest == r.rest && p.value.args == more && Equal(p.value.value, v)
    decreases |s|, 1
  {
    if token == LBRACE {
      PairsGrow(s, asks, flags, []);
      assert Rebuilt([], [], v.members);
      MembersBack(s, asks, v.members, flags, [], [], 0, true, more);
    } else if token == LBRACKET {
      ItemsGrow(s, asks, flags, []);
      ElemsBack(s, asks, v.elems, flags, [], [], true, more);
    } else {
      OneBack(token, s, v, flags, more);
    }
  }

  lemma BracedParts(sh: Shape, ms: seq<Member>, flags: nat)
    requires sh.Braced? && Matches(sh, Object(ms), flags) && Packable(sh) && Narrow(sh, Object(ms)) && Storable(Object(ms)) && Strict(flags)
    ensures sh.mark == 0 && UniqueKeys(ms)
    ensures forall i :: 0 <= i < |sh.pairs| ==>
              MatchesUnder(sh.pairs[i], ms, flags) && Packable(sh.pairs[i].shape) && NarrowUnder(sh.pairs[i], ms)
    ensures forall j :: 0 <= j < |ms| ==> IsNamed(sh.pairs, ms[j].key) && Utf8.Valid(ms[j].key) && Storable(ms[j].value)
  {
    hide MatchesUnder, NarrowUnder, IsNamed, Utf8.Valid;
  }

  lemma UnderParts(p: Named, ms: seq<Member>, flags: nat)
    requires MatchesUnder(p, ms, flags) && NarrowUnder(p, ms)
    ensures Find(ms, p.key) < |ms| && Matches(p.shape, ms[Find(ms, p.key)].value, flags) && Narrow(p.shape, ms[Find(ms, p.key)].value)
  {}

  lemma {:induction false} MembersBack(s: bytes, asks: seq<Ask>, ms: seq<Member>, flags: nat, pairs: seq<Named>, packed: seq<Member>, serial: nat, distinct: bool, more: seq<Arg>)
    requires ReadPairs(s, asks, flags, pairs).Some? && Matches(ReadPairs(s, asks, flags, pairs).value.shape, Object(ms), flags)
    requires var sh := ReadPairs(s, asks, flags, pairs).value.shape; sh.Braced? && Packable(sh) && Narrow(sh, Object(ms))
    requires |pairs| <= |ReadPairs(s, asks, flags, pairs).value.shape.pairs|
    requires Storable(Object(ms)) && Strict(flags) && !ValidateOnly(flags) && Rebuilt(packed, pairs, ms)
    ensures var r := ReadPairs(s, asks, flags, pairs).value;
            var p := PackMembers(s, GivenPairs(r.shape.pairs, |pairs|, ms, flags) + more, packed, serial, distinct);
            p.Some? && p.value.rest == r.rest && p.value.args == more && Equal(p.value.value, Object(ms))
    decreases |s|, 0
  {
    hide PackValue, ReadShape, NextToken, Find, SetMember, NamedKeys, Rebuilt, Matches, MatchesUnder, Packable, Narrow, NarrowUnder,
      Storable, Utf8.Valid, Strict, ValidateOnly, Given, Equal, IsNamed;
    var r := ReadPairs(s, asks, flags, pairs).value;
    var all := r.shape.pairs;
    BracedParts(r.shape, ms, flags);
    var args := GivenPairs(all, |pairs|, ms, flags) + more;
    if NextToken(s).token == RBRACE {
      assert args == more;
      RebuiltWhole(packed, pairs, ms, flags);
    } else {
      var Scanned(t2, s2) := NextToken(NextToken(s).rest);
      var key := asks[0].key.value;
      var i := ReadShape(t2, s2, asks[1..], flags).value;
      var p := Named(key, i.shape);
      PairsGrow(i.rest, i.asks, flags, pairs + [p]);
      assert all[|pairs|] == all[..|pairs + [p]|][|pairs|] == p;
      UnderParts(all[|pairs|], ms, flags);
      var v := ms[Find(ms, key)].value;
      var tail := GivenPairs(all, |pairs| + 1, ms, flags);
      assert args[0] == KeyArg(Some(key)) && args[1..] == Given(p.shape, v, flags) + (tail + more);
      PackBack(t2, s2, asks[1..], v, flags, tail + more);
      var w := PackValue(t2, s2, args[1..]).value;
      RebuiltMore(packed, pairs, ms, p, serial, w.value);
      MembersBack(i.rest, i.asks, ms, flags, pairs + [p], SetMember(packed, key, serial, w.value), serial + 1,
                  distinct && w.distinct && Find(packed, key) == |packed|, more);
    }
  }

  lemma {:induction false} ElemsBack(s: bytes, asks: seq<Ask>, es: seq<Json>, flags: nat, items: seq<Shape>, packed: seq<Json>, distinct: bool, more: seq<Arg>)
    requires ReadItems(s, asks, flags, items).Some? && Matches(ReadItems(s, asks, flags, items).value.shape, Array(es), flags)
    requires var sh := ReadItems(s, asks, flags, items).value.shape; sh.Bracketed? && Packable(sh) && Narrow(sh, Array(es))
    requires |items| <= |ReadItems(s, asks, flags, items).value.shape.items|
    requires Storable(Array(es)) && Strict(flags) && !ValidateOnly(flags)
    requires |packed| == |items| && forall i :: 0 <= i < |packed| ==> i < |es| && Equal(packed[i], es[i])
    ensures var r := ReadItems(s, asks, flags, items).value;
            var p := PackElems(s, GivenItems(r.shape.items, |items|, es, flags) + more, packed, distinct);
            p.Some? && p.value.rest == r.rest && p.value.args == more && Equal(p.value.value, Array(es))
    decreases |s|, 0
  {
    hide PackValue, ReadShape, NextToken;
    var r := ReadItems(s, asks, flags, items).value;
    var all := r.shape.items;
    var args := GivenItems(all, |items|, es, flags) + more;
    var Scanned(t, s1) := NextToken(s);
    if t == RBRACKET {
      assert args == more;
    } else {
      var i := ReadShape(t, s1, asks, flags).value;
      ItemsGrow(i.rest, i.asks, flags, items + [i.shape]);
      assert all[|items|] == all[..|items + [i.shape]|][|items|] == i.shape;
      var v, tail := es[|items|], GivenItems(all, |items| + 1, es, flags);
      assert args == Given(i.shape, v, flags) + (tail + more);
      PackBack(t, s1, asks, v, flags, tail + more);
      var w := PackValue(t, s1, args).value;
      ElemsBack(i.rest, i.asks, es, flags, items + [i.shape], packed + [w.value], distinct && w.distinct, more);
    }
  }

  // ---------------------------------------------------------------- whole formats

  /** The shape of a whole format. */
  function ReadAll(format: bytes, asks: seq<Ask>, flags: nat): (r: Option<Read>) {
    if format == [] || format[0] == END then None
    else
      var r := ReadShape(NextToken(format).token, NextToken(format).rest, asks, flags);
      if r.Some? && NextToken(r.value.rest).token == END then r else None
  }

  /** `json_unpack` of a whole format succeeds exactly if it can be read and the value matches its shape, and then it stores
      the named places. */
  lemma UnpackIffMatches(root: Json, format: bytes, asks: seq<Ask>, flags: nat)
    requires UniqueThroughout(root)
    ensures UnpackAll(root, format, asks, flags) == Told(ReadAll(format, asks, flags), root, flags)
  {
    hide UnpackValue, ReadShape, NextToken, Matches;
    UnpackIsMatching(NextToken(format).token, NextToken(format).rest, root, asks, flags);
  }

  /** A strict unpacking can be undone: for numbers within int and formats without `!`, `*` and `F`, packing the same format
      with the same keys and the values that came out gives a value equal to the one that was taken apart. */
  lemma UnpackRoundTrip(root: Json, format: bytes, asks: seq<Ask>, flags: nat)
    requires Storable(root) && Strict(flags) && !ValidateOnly(flags)
    requires UnpackAll(root, format, asks, flags).Some?
    requires var r := ReadAll(format, asks, flags); r.Some? ==> Packable(r.value.shape) && Narrow(r.value.shape, root)
    ensures var r, u := ReadAll(format, asks, flags), UnpackAll(root, format, asks, flags).value;
            && r.Some? && var back := Refill(r.value.shape, u.outs);
            var p := PackAll(format, back.args);
            && back.left == [] && p.Some? && p.value.args == [] && Equal(p.value.value, root)
  {
    hide UnpackValue, ReadShape, NextToken, Matches, PackValue, Refill, Packable, Narrow;
    StorableIsUnique(root);
    UnpackIffMatches(root, format, asks, flags);
    var r := ReadAll(format, asks, flags).value;
    var outs, given := Stored(r.shape, root, flags), Given(r.shape, root, flags);
    RefillIsGiven(r.shape, root, flags, []);
    assert outs + [] == outs && given + [] == given;
    PackBack(NextToken(format).token, NextToken(format).rest, asks, root, flags, []);
  }

  /** A number beyond int is cut to its lower 32 bits on the way, and packing what came out gives another one. */
  lemma WideNumberIsCut()
    ensures var u := UnpackAll(Integer(0x8000_0000), [0x69], [Place(false)], 2);
            && u.Some? && u.value.outs == [IntOut(-0x8000_0000)]
            && var p := PackAll([0x69], [IntArg(-0x8000_0000)]); p.Some? && !Equal(p.value.value, Integer(0x8000_0000))
  {
    assert NextToken([0x69]) == Scanned(0x69, []) && ToInt(0x8000_0000) == -0x8000_0000;
  }

  // ---------------------------------------------------------------- characters that do not matter

  /** The format without spaces, tabs, line feeds, commas and colons. */
  function Dense(s: bytes): (r: bytes) {
    if s == [] then []
    else if s[0] == 0x20 || s[0] == 0x09 || s[0] == 0x0A || s[0] == 0x2C || s[0] == 0x3A then Dense(s[1..])
    else [s[0]] + Dense(s[1..])
  }

  lemma {:induction false} DenseToken(s: bytes)
    ensures NextToken(Dense(s)) == Scanned(NextToken(s).token, Dense(NextToken(s).rest))
  {
    if s != [] && s[0] != END {
      if Ignored(s[0]) {
        DenseToken(s[1..]);
      } else {
        assert Dense(s)[1..] == Dense(s[1..]);
      }
    } else if s != [] {
      assert Dense(s)[0] == END;
    }
  }

  function DensePacked(p: Option<Packed>): Option<Packed> {
    if p.Some? then Some(p.value.(rest := Dense(p.value.rest))) else None
  }

  function DenseRead(r: Option<Read>): Option<Read> {
    if r.Some? then Some(r.value.(rest := Dense(r.value.rest))) else None
  }

  lemma {:induction false} PackValueDense(token: byte, s: bytes, args: seq<Arg>)
    ensures PackValue(token, Dense(s), args) == DensePacked(PackValue(token, s, args))
    decreases |s|, 1
  {
    if token == LBRACE {
      PackMembersDense(s, args, [], 0, true);
    } else if token == LBRACKET {
      PackElemsDense(s, args, [], true);
    }
  }

  lemma {:induction false} PackMembersDense(s: bytes, args: seq<Arg>, ms: seq<Member>, serial: nat, distinct: bool)
    ensures PackMembers(Dense(s), args, ms, serial, distinct) == DensePacked(PackMembers(s, args, ms, serial, distinct))
    decreases |s|, 0
  {
    hide PackValue, NextToken, Dense, SetMember, Find;
    DenseToken(s);
    var Scanned(t, s1) := NextToken(s);
    if t == LOWER_S && args != [] && args[0].KeyArg? && args[0].key.Some? && Utf8.Valid(args[0].key.value) {
      DenseToken(s1);
      var Scanned(t2, s2) := NextToken(s1);
      PackValueDense(t2, s2, args[1..]);
      var v := PackValue(t2, s2, args[1..]);
      if v.Some? {
        var key := args[0].key.value;
        PackMembersDense(v.value.rest, v.value.args, SetMember(ms, key, serial, v.value.value), serial + 1,
                         distinct && v.value.distinct && Find(ms, key) == |ms|);
      }
    }
  }

  lemma {:induction false} PackElemsDense(s: bytes, args: seq<Arg>, es: seq<Json>, distinct: bool)
    ensures PackElems(Dense(s), args, es, distinct) == DensePacked(PackElems(s, args, es, distinct))
    decreases |s|, 0
  {
    hide PackValue, NextToken, Dense;
    DenseToken(s);
    var Scanned(t, s1) := NextToken(s);
    if t != RBRACKET && t != END {
      PackValueDense(t, s1, args);
      var v := PackValue(t, s1, args);
      if v.Some? {
        PackElemsDense(v.value.rest, v.value.args, es + [v.value.value], distinct && v.value.distinct);
      }
    }
  }

  lemma {:induction false} ReadShapeDense(token: byte, s: bytes, asks: seq<Ask>, flags: nat)
    ensures ReadShape(token, Dense(s), asks, flags) == DenseRead(ReadShape(token, s, asks, flags))
    decreases |s|, 1
  {
    if token == LBRACE {
      ReadPairsDense(s, asks, flags, []);
    } else if token == LBRACKET {
      ReadItemsDense(s, asks, flags, []);
    }
  }

  lemma {:induction false} ReadPairsDense(s: bytes, asks: seq<Ask>, flags: nat, pairs: seq<Named>)
    ensures ReadPairs(Dense(s), asks, flags, pairs) == DenseRead(ReadPairs(s, asks, flags, pairs))
    decreases |s|, 0
  {
    hide ReadShape, NextToken, Dense;
    DenseToken(s);
    var Scanned(t, s1) := NextToken(s);
    DenseToken(s1);
    if t == LOWER_S && AsksKey(asks) {
      var Scanned(t2, s2) := NextToken(s1);
      ReadShapeDense(t2, s2, asks[1..], flags);
      var v := ReadShape(t2, s2, asks[1..], flags);
      if v.Some? {
        ReadPairsDense(v.value.rest, v.value.asks, flags, pairs + [Named(asks[0].key.value, v.value.shape)]);
      }
    }
  }

  lemma {:induction false} ReadItemsDense(s: bytes, asks: seq<Ask>, flags: nat, items: seq<Shape>)
    ensures ReadItems(Dense(s), asks, flags, items) == DenseRead(ReadItems(s, asks, flags, items))
    decreases |s|, 0
  {
    hide ReadShape, NextToken, Dense;
    DenseToken(s);
    var Scanned(t, s1) := NextToken(s);
    DenseToken(s1);
    if t != RBRACKET && t != END && MarkOf(t) == 0 {
      ReadShapeDense(t, s1, asks, flags);
      var v := ReadShape(t, s1, asks, flags);
      if v.Some? {
        ReadItemsDense(v.value.rest, v.value.asks, flags, items + [v.value.shape]);
      }
    }
  }

  lemma {:induction false} DenseFirst(s: bytes)
    ensures Dense(s) == [] || Dense(s)[0] == END ==> NextToken(s).token == END
    ensures s == [] || s[0] == END ==> Dense(s) == [] || Dense(s)[0] == END
  {
    if s != [] {
      DenseFirst(s[1..]);
    }
  }

  lemma AtEnd(s: bytes, args: seq<Arg>, asks: seq<Ask>, flags: nat)
    ensures PackValue(END, s, args) == None && ReadShape(END, s, asks, flags) == None
  {}

  /** Spaces, tabs, line feeds, commas and colons do not matter in a format, wherever they stand, for packing and unpacking. */
  lemma DenseFormat(format: bytes, args: seq<Arg>, root: Json, asks: seq<Ask>, flags: nat)
    requires UniqueThroughout(root)
    ensures PackAll(Dense(format), args) == DensePacked(PackAll(format, args))
    ensures var u, w := UnpackAll(root, format, asks, flags), UnpackAll(root, Dense(format), asks, flags);
            (u.Some? <==> w.Some?) && (u.Some? ==> u.value.outs == w.value.outs && u.value.asks == w.value.asks)
  {
    hide PackValue, UnpackValue, ReadShape, NextToken, Matches, Dense;
    UnpackIffMatches(root, format, asks, flags);
    UnpackIffMatches(root, Dense(format), asks, flags);
    var Scanned(t, s) := NextToken(format);
    DenseToken(format);
    DenseFirst(format);
    AtEnd(s, args, asks, flags);
    AtEnd(Dense(s), args, asks, flags);
    PackValueDense(t, s, args);
    ReadShapeDense(t, s, asks, flags);
    if PackValue(t, s, args).Some? {
      DenseToken(PackValue(t, s, args).value.rest);
    }
    if ReadShape(t, s, asks, flags).Some? {
      DenseToken(ReadShape(t, s, asks, flags).value.rest);
    }
  }
}
