/** The format strings of libjansson/pack_unpack.c: building values from arguments and taking them apart. */
module Pack {
  import opened Options
  import opened Utf8
  import opened Values
  import opened Chars = DumpText
  import opened LoadText

  /** JSON_VALIDATE_ONLY. */
  predicate ValidateOnly(flags: nat) { flags % 2 == 1 }

  /** JSON_STRICT. */
  predicate Strict(flags: nat) { flags / 2 % 2 == 1 }

  /** An argument of `json_pack`, labelled with what the caller means it for. */
  datatype Arg =
    | KeyArg(key: Option<bytes>)
    | StrArg(s: Option<bytes>)
    | IntArg(n: int)
    | BoolArg(n: int)
    | RealArg(text: bytes)
    | JsonArg(v: Option<Json>)

  /** An argument of `json_unpack`: a key, or a place to store something in. */
  datatype Ask = AskKey(key: Option<bytes>) | Place(isNull: bool)

  /** What is stored; `NumberOut` stands for the `json_number_value` of an integer or a real. */
  datatype Out = StrOut(s: bytes) | IntOut(n: int) | RealOut(text: bytes) | NumberOut(v: Json) | JsonOut(v: Json)

  // ---------------------------------------------------------------- tokens

  const END: byte := 0
  const STAR: byte := 0x2A
  const LOWER_S: byte := 0x73
  const LOWER_N: byte := 0x6E
  const LOWER_B: byte := 0x62
  const LOWER_I: byte := 0x69
  const UPPER_I: byte := 0x49
  const LOWER_F: byte := 0x66
  const UPPER_F: byte := 0x46
  const LOWER_O: byte := 0x6F
  const UPPER_O: byte := 0x4F
  const BANG: byte := 0x21

  predicate Ignored(c: byte) { c == 0x20 || c == 0x09 || c == 0x0A || c == 0x2C || c == 0x3A }

  datatype Scanned = Scanned(token: byte, rest: bytes)

  /** `next_token`: the end of the format reads as NUL. */
  function NextToken(s: bytes): (r: Scanned)
    ensures r.token != END ==> |r.rest| < |s|
    ensures |r.rest| <= |s|
  {
    if s == [] || s[0] == END then Scanned(END, [])
    else if Ignored(s[0]) then NextToken(s[1..])
    else Scanned(s[0], s[1..])
  }

  /** `int` as `va_arg` fetches it. */
  predicate IsInt(n: int) { -0x8000_0000 <= n < 0x8000_0000 }

  /** The value of a wide number stored in an `int`. */
  function ToInt(n: int): (r: int)
    ensures IsInt(r) && (r - n) % 0x1_0000_0000 == 0
    ensures IsInt(n) ==> r == n
  {
    var m := n % 0x1_0000_0000;
    if m < 0x8000_0000 then m else m - 0x1_0000_0000
  }

  // ---------------------------------------------------------------- packing

  /** A packed value, the format and the arguments that are left, and whether no object named a key twice. */
  datatype Packed = Packed(value: Json, rest: bytes, args: seq<Arg>, distinct: bool)

  /** The cases of `pack` that fetch an argument. A missing argument or one of another kind, which C leaves
      undefined, counts as a failure. */
  function PackArg(token: byte, a: Arg): (r: Option<Json>) {
    match a
    case StrArg(Some(t)) => if token == LOWER_S && Utf8.Valid(t) then Some(String(t)) else None
    case BoolArg(n) => if token == LOWER_B then Some(if n != 0 then True else False) else None
    case IntArg(n) => if (token == LOWER_I && IsInt(n)) || (token == UPPER_I && INT64_MIN <= n <= INT64_MAX) then Some(Integer(n)) else None
    case RealArg(text) => if token == LOWER_F then Some(Real(text)) else None
    case JsonArg(v) => if token == LOWER_O || token == UPPER_O then v else None
    case _ => None
  }

  /** `pack`. */
  function PackValue(token: byte, s: bytes, args: seq<Arg>): (r: Option<Packed>)
    ensures r.Some? ==> |r.value.rest| <= |s| && token != END
    decreases |s|, 1
  {
    if token == LBRACE then PackMembers(s, args, [], 0, true)
    else if token == LBRACKET then PackElems(s, args, [], true)
    else if token == LOWER_N then Some(Packed(Null, s, args, true))
    else if args == [] then None
    else
      var v := PackArg(token, args[0]);
      if v.Some? then Some(Packed(v.value, s, args[1..], true)) else None
  }

  /** The loop of `pack_object`. */
  function PackMembers(s: bytes, args: seq<Arg>, ms: seq<Member>, serial: nat, distinct: bool): (r: Option<Packed>)
    ensures r.Some? ==> |r.value.rest| <= |s|
    decreases |s|, 0
  {
    var Scanned(t, s1) := NextToken(s);
    if t == RBRACE then Some(Packed(Object(ms), s1, args, distinct))
    else if t != LOWER_S || args == [] || !args[0].KeyArg? || args[0].key.None? || !Utf8.Valid(args[0].key.value) then None
    else
      var key := args[0].key.value;
      var Scanned(t2, s2) := NextToken(s1);
      var v := PackValue(t2, s2, args[1..]);
      if v.None? then None
      else
        PackMembers(v.value.rest, v.value.args, SetMember(ms, key, serial, v.value.value), serial + 1,
                    distinct && v.value.distinct && Find(ms, key) == |ms|)
  }

  /** The loop of `pack_array`. */
  function PackElems(s: bytes, args: seq<Arg>, es: seq<Json>, distinct: bool): (r: Option<Packed>)
    ensures r.Some? ==> |r.value.rest| <= |s|
    decreases |s|, 0
  {
    var Scanned(t, s1) := NextToken(s);
    if t == RBRACKET then Some(Packed(Array(es), s1, args, distinct))
    else if t == END then None
    else
      var v := PackValue(t, s1, args);
      if v.None? then None
      else PackElems(v.value.rest, v.value.args, es + [v.value.value], distinct && v.value.distinct)
  }

  /** `json_vpack_ex`. */
  function PackAll(format: bytes, args: seq<Arg>): (r: Option<Packed>) {
    if format == [] || format[0] == END then None
    else
      var Scanned(t, s) := NextToken(format);
      var v := PackValue(t, s, args);
      if v.Some? && NextToken(v.value.rest).token == END then v else None
  }

  // ---------------------------------------------------------------- unpacking

  datatype Unpacked = Unpacked(rest: bytes, asks: seq<Ask>, outs: seq<Out>)

  /** The type a format character asks for, and what it stores; nothing on a mismatch. */
  function Fetch(token: byte, root: Json): (r: Option<Option<Out>>) {
    if token == LOWER_S then if root.String? then Some(Some(StrOut(root.s))) else None
    else if token == LOWER_I then if root.Integer? then Some(Some(IntOut(ToInt(root.n)))) else None
    else if token == UPPER_I then if root.Integer? then Some(Some(IntOut(root.n))) else None
    else if token == LOWER_B then if root.True? || root.False? then Some(Some(IntOut(if root.True? then 1 else 0))) else None
    else if token == LOWER_F then if root.Real? then Some(Some(RealOut(root.text))) else None
    else if token == UPPER_F then if root.Real? || root.Integer? then Some(Some(NumberOut(root))) else None
    else if token == LOWER_O || token == UPPER_O then Some(Some(JsonOut(root)))
    else if token == LOWER_N then if root.Null? then Some(None) else None
    else None
  }

  /** `unpack`. A place that is NULL or missing, which C leaves undefined but for strings, counts as a failure. */
  function UnpackValue(token: byte, s: bytes, root: Json, asks: seq<Ask>, flags: nat): (r: Option<Unpacked>)
    ensures r.Some? ==> |r.value.rest| <= |s| && token != END
    decreases |s|, 1
  {
    if token == LBRACE then
      if root.Object? then UnpackMembers(s, root.members, asks, flags, {}, 0, []) else None
    else if token == LBRACKET then
      if root.Array? then UnpackElems(s, root.elems, asks, flags, 0, 0, []) else None
    else
      var f := Fetch(token, root);
      if f.None? then None
      else if f.value.None? || ValidateOnly(flags) then Some(Unpacked(s, asks, []))
      else if asks == [] || asks[0] != Place(false) then None
      else Some(Unpacked(s, asks[1..], [f.value.value]))
  }

  /** Whether every item has to be unpacked: `!` says so, `*` says not, and else the flag decides. */
  predicate MustExhaust(strict: int, flags: nat) {
    strict == 1 || (strict == 0 && Strict(flags))
  }

  /** The loop of `unpack_object`; `keys` are the keys named so far, `strict` is 1 after `!` and -1 after `*`. */
  function UnpackMembers(s: bytes, ms: seq<Member>, asks: seq<Ask>, flags: nat, keys: set<bytes>, strict: int, outs: seq<Out>): (r: Option<Unpacked>)
    ensures r.Some? ==> |r.value.rest| <= |s|
    decreases |s|, 0
  {
    var Scanned(t, s1) := NextToken(s);
    if t == RBRACE then
      if MustExhaust(strict, flags) && |keys| != |ms| then None else Some(Unpacked(s1, asks, outs))
    else if strict != 0 || t == END then None
    else if t == BANG || t == STAR then UnpackMembers(s1, ms, asks, flags, keys, if t == BANG then 1 else -1, outs)
    else if t != LOWER_S || asks == [] || !asks[0].AskKey? || asks[0].key.None? then None
    else
      var key := asks[0].key.value;
      var Scanned(t2, s2) := NextToken(s1);
      var i := Find(ms, key);
      if i == |ms| then None
      else
        var v := UnpackValue(t2, s2, ms[i].value, asks[1..], flags);
        if v.None? then None
        else UnpackMembers(v.value.rest, ms, v.value.asks, flags, keys + {key}, strict, outs + v.value.outs)
  }

  predicate StartsValue(t: byte) {
    t == LBRACE || t == LBRACKET || t == LOWER_S || t == LOWER_I || t == UPPER_I || t == LOWER_B || t == LOWER_F || t == UPPER_F
    || t == UPPER_O || t == LOWER_O || t == LOWER_N
  }

  /** The loop of `unpack_array`. */
  function UnpackElems(s: bytes, es: seq<Json>, asks: seq<Ask>, flags: nat, i: nat, strict: int, outs: seq<Out>): (r: Option<Unpacked>)
    ensures r.Some? ==> |r.value.rest| <= |s|
    decreases |s|, 0
  {
    var Scanned(t, s1) := NextToken(s);
    if t == RBRACKET then
      if MustExhaust(strict, flags) && i != |es| then None else Some(Unpacked(s1, asks, outs))
    else if strict != 0 || t == END then None
    else if t == BANG || t == STAR then UnpackElems(s1, es, asks, flags, i, if t == BANG then 1 else -1, outs)
    else if !StartsValue(t) || i >= |es| then None
    else
      var v := UnpackValue(t, s1, es[i], asks, flags);
      if v.None? then None else UnpackElems(v.value.rest, es, v.value.asks, flags, i + 1, strict, outs + v.value.outs)
  }

  /** `json_vunpack_ex`. */
  function UnpackAll(root: Json, format: bytes, asks: seq<Ask>, flags: nat): (r: Option<Unpacked>) {
    if format == [] || format[0] == END then None
    else
      var Scanned(t, s) := NextToken(format);
      var v := UnpackValue(t, s, root, asks, flags);
      if v.Some? && NextToken(v.value.rest).token == END then v else None
  }

  // ---------------------------------------------------------------- the round trip

  function AskOf(a: Arg, flags: nat): seq<Ask> {
    if a.KeyArg? then [AskKey(a.key)] else if ValidateOnly(flags) then [] else [Place(false)]
  }

  /** What comes back for one argument; a boolean comes back as 0 or 1. */
  function OutOf(a: Arg, flags: nat): seq<Out> {
    if ValidateOnly(flags) then []
    else
      match a
      case StrArg(Some(t)) => [StrOut(t)]
      case IntArg(n) => [IntOut(n)]
      case BoolArg(n) => [IntOut(if n != 0 then 1 else 0)]
      case RealArg(text) => [RealOut(text)]
      case JsonArg(Some(v)) => [JsonOut(v)]
      case _ => []
  }

  /** The arguments with which `json_unpack` takes apart what `json_pack` built. */
  function Asks(args: seq<Arg>, flags: nat): (asks: seq<Ask>) {
    if args == [] then [] else AskOf(args[0], flags) + Asks(args[1..], flags)
  }

  /** What comes back for all of them. */
  function Outs(args: seq<Arg>, flags: nat): (outs: seq<Out>) {
    if args == [] then [] else OutOf(args[0], flags) + Outs(args[1..], flags)
  }

  lemma {:induction false} AsksOuts(a: seq<Arg>, b: seq<Arg>, flags: nat)
    ensures Asks(a + b, flags) == Asks(a, flags) + Asks(b, flags)
    ensures Outs(a + b, flags) == Outs(a, flags) + Outs(b, flags)
  {
    hide AskOf, OutOf;
    if a == [] {
      assert a + b == b;
    } else {
      AsksOuts(a[1..], b, flags);
      assert (a + b)[1..] == a[1..] + b && (a + b)[0] == a[0];
    }
  }

  /** `used` is what `args` has before `left`. */
  function Used(args: seq<Arg>, left: seq<Arg>): seq<Arg>
    requires |left| <= |args|
  {
    args[..|args| - |left|]
  }

  ghost predicate Suffix(args: seq<Arg>, left: seq<Arg>) {
    |left| <= |args| && args[|args| - |left|..] == left
  }

  lemma SuffixOf(a: seq<Arg>, b: seq<Arg>, c: seq<Arg>, flags: nat)
    requires Suffix(a, b) && Suffix(b, c)
    ensures Suffix(a, c)
    ensures Outs(Used(a, c), flags) == Outs(Used(a, b), flags) + Outs(Used(b, c), flags)
  {
    assert Used(a, c) == Used(a, b) + Used(b, c);
    AsksOuts(Used(a, b), Used(b, c), flags);
    assert a[|a| - |c|..] == b[|b| - |c|..];
  }

  lemma OneUsed(args: seq<Arg>, flags: nat)
    requires args != []
    ensures Suffix(args, args[1..]) && Outs(Used(args, args[1..]), flags) == OutOf(args[0], flags)
    ensures Asks(args, flags) == AskOf(args[0], flags) + Asks(args[1..], flags)
  {
    var u := Used(args, args[1..]);
    assert u == [args[0]] && u[1..] == [];
    assert Outs(u, flags) == OutOf(args[0], flags) + Outs([], flags);
  }

  lemma NoneUsed(args: seq<Arg>, flags: nat)
    ensures Suffix(args, args) && Outs(Used(args, args), flags) == []
  {
    assert Used(args, args) == [];
  }

  /** Packing uses up arguments from the front. */
  lemma {:induction false} PackValueUses(token: byte, s: bytes, args: seq<Arg>)
    requires PackValue(token, s, args).Some?
    ensures Suffix(args, PackValue(token, s, args).value.args)
    decreases |s|, 1
  {
    if token == LBRACE {
      PackMembersUses(s, args, [], 0, true);
    } else if token == LBRACKET {
      PackElemsUses(s, args, [], true);
    }
  }

  lemma {:induction false} PackMembersUses(s: bytes, args: seq<Arg>, ms: seq<Member>, serial: nat, distinct: bool)
    requires PackMembers(s, args, ms, serial, distinct).Some?
    ensures Suffix(args, PackMembers(s, args, ms, serial, distinct).value.args)
    decreases |s|, 0
  {
    var Scanned(t, s1) := NextToken(s);
    if t != RBRACE {
      var Scanned(t2, s2) := NextToken(s1);
      var v := PackValue(t2, s2, args[1..]).value;
      PackValueUses(t2, s2, args[1..]);
      PackMembersUses(v.rest, v.args, SetMember(ms, args[0].key.value, serial, v.value), serial + 1,
                      distinct && v.distinct && Find(ms, args[0].key.value) == |ms|);
      SuffixOf(args, args[1..], v.args, 0);
      SuffixOf(args, v.args, PackMembers(s, args, ms, serial, distinct).value.args, 0);
    }
  }

  lemma {:induction false} PackElemsUses(s: bytes, args: seq<Arg>, es: seq<Json>, distinct: bool)
    requires PackElems(s, args, es, distinct).Some?
    ensures Suffix(args, PackElems(s, args, es, distinct).value.args)
    decreases |s|, 0
  {
    var Scanned(t, s1) := NextToken(s);
    if t != RBRACKET {
      var v := PackValue(t, s1, args).value;
      PackValueUses(t, s1, args);
      PackElemsUses(v.rest, v.args, es + [v.value], distinct && v.distinct);
      SuffixOf(args, v.args, PackElems(s, args, es, distinct).value.args, 0);
    }
  }

  /** With distinct keys members are only ever added behind the others. */
  lemma {:induction false} PackMembersExtend(s: bytes, args: seq<Arg>, ms: seq<Member>, serial: nat, distinct: bool)
    requires PackMembers(s, args, ms, serial, distinct).Some? && PackMembers(s, args, ms, serial, distinct).value.distinct
    requires UniqueKeys(ms)
    ensures distinct
    ensures var v := PackMembers(s, args, ms, serial, distinct).value.value;
            v.Object? && |ms| <= |v.members| && v.members[..|ms|] == ms && UniqueKeys(v.members)
    decreases |s|
  {
    hide NextToken, PackValue, SetMember;
    var Scanned(t, s1) := NextToken(s);
    if t == RBRACE {
      assert ms[..|ms|] == ms;
    } else {
      var Scanned(t2, s2) := NextToken(s1);
      var key := args[0].key.value;
      var v := PackValue(t2, s2, args[1..]).value;
      var ms' := SetMember(ms, key, serial, v.value);
      NewKeyUnique(ms, key, serial, v.value);
      PackMembersExtend(v.rest, v.args, ms', serial + 1, distinct && v.distinct && Find(ms, key) == |ms|);
      assert ms'[..|ms|] == ms;
    }
  }

  lemma NewKeyUnique(ms: seq<Member>, key: bytes, serial: nat, v: Json)
    requires UniqueKeys(ms)
    ensures UniqueKeys(SetMember(ms, key, serial, v))
    ensures Find(ms, key) == |ms| ==>
              && SetMember(ms, key, serial, v) == ms + [Member(key, serial, v)]
              && Keys(ms + [Member(key, serial, v)]) == Keys(ms) + {key}
  {
    hide Find, Keys;
    var i := Find(ms, key);
    var ns := SetMember(ms, key, serial, v);
    if i < |ms| {
      assert forall k :: 0 <= k < |ms| ==> ns[k].key == ms[k].key;
    } else {
      assert forall k :: 0 <= k < |ms| ==> ns[k] == ms[k];
      KeysAppend(ms, Member(key, serial, v));
    }
  }

  lemma {:induction false} KeysAppend(ms: seq<Member>, m: Member)
    ensures Keys(ms + [m]) == Keys(ms) + {m.key}
  {
    if ms == [] {
      assert [] + [m] == [m] && [m][1..] == [];
    } else {
      assert (ms + [m])[1..] == ms[1..] + [m] && (ms + [m])[0] == ms[0];
      KeysAppend(ms[1..], m);
    }
  }

  lemma {:induction false} PackElemsExtend(s: bytes, args: seq<Arg>, es: seq<Json>, distinct: bool)
    requires PackElems(s, args, es, distinct).Some?
    ensures var p := PackElems(s, args, es, distinct).value;
            && (p.distinct ==> distinct) && p.value.Array? && |es| <= |p.value.elems| && p.value.elems[..|es|] == es
    decreases |s|
  {
    var Scanned(t, s1) := NextToken(s);
    if t == RBRACKET {
      assert es[..|es|] == es;
    } else {
      var v := PackValue(t, s1, args).value;
      PackElemsExtend(v.rest, v.args, es + [v.value], distinct && v.distinct);
      assert (es + [v.value])[..|es|] == es;
    }
  }

  lemma UnpackArg(token: byte, s: bytes, args: seq<Arg>, flags: nat)
    requires args != [] && PackArg(token, args[0]).Some? && token != LBRACE && token != LBRACKET && token != LOWER_N
    ensures UnpackValue(token, s, PackArg(token, args[0]).value, Asks(args, flags), flags)
            == Some(Unpacked(s, Asks(args[1..], flags), OutOf(args[0], flags)))
  {
    OneUsed(args, flags);
    assert ValidateOnly(flags) ==> [] + Asks(args[1..], flags) == Asks(args[1..], flags);
    assert !ValidateOnly(flags) ==> ([Place(false)] + Asks(args[1..], flags))[1..] == Asks(args[1..], flags);
  }

  /** Where no object names a key twice, unpacking a packed value with the same format returns the packed arguments. */
  lemma {:induction false} UnpackPacked(token: byte, s: bytes, args: seq<Arg>, flags: nat)
    requires PackValue(token, s, args).Some? && PackValue(token, s, args).value.distinct
    ensures var p := PackValue(token, s, args).value;
            |p.args| <= |args| &&
            UnpackValue(token, s, p.value, Asks(args, flags), flags) == Some(Unpacked(p.rest, Asks(p.args, flags), Outs(Used(args, p.args), flags)))
    decreases |s|, 1
  {
    PackValueUses(token, s, args);
    if token == LBRACE {
      UnpackPackedMembers(s, args, [], 0, true, flags, []);
      assert Keys([]) == {};
      var o := Outs(Used(args, PackValue(token, s, args).value.args), flags);
      assert [] + o == o;
    } else if token == LBRACKET {
      UnpackPackedElems(s, args, [], true, flags, []);
      var o := Outs(Used(args, PackValue(token, s, args).value.args), flags);
      assert [] + o == o;
    } else if token == LOWER_N {
      NoneUsed(args, flags);
    } else {
      UnpackArg(token, s, args, flags);
      OneUsed(args, flags);
    }
  }

  lemma {:induction false} UnpackPackedMembers(s: bytes, args: seq<Arg>, ms: seq<Member>, serial: nat, distinct: bool, flags: nat, outs: seq<Out>)
    requires PackMembers(s, args, ms, serial, distinct).Some? && PackMembers(s, args, ms, serial, distinct).value.distinct
    requires UniqueKeys(ms)
    ensures var p := PackMembers(s, args, ms, serial, distinct).value;
            && |p.args| <= |args| && p.value.Object?
            && UnpackMembers(s, p.value.members, Asks(args, flags), flags, Keys(ms), 0, outs)
               == Some(Unpacked(p.rest, Asks(p.args, flags), outs + Outs(Used(args, p.args), flags)))
    decreases |s|, 0
  {
    hide Asks, Outs, Suffix, Used, UnpackValue, PackValue, UniqueKeys, SetMember, Keys;
    var p := PackMembers(s, args, ms, serial, distinct).value;
    PackMembersUses(s, args, ms, serial, distinct);
    SuffixShorter(args, p.args);
    PackMembersExtend(s, args, ms, serial, distinct);
    var all := p.value.members;
    var Scanned(t, s1) := NextToken(s);
    if t == RBRACE {
      NoneUsed(args, flags);
      KeyCount(ms);
      assert outs + [] == outs;
    } else {
      var Scanned(t2, s2) := NextToken(s1);
      var key := args[0].key.value;
      var v := PackValue(t2, s2, args[1..]).value;
      var ms' := SetMember(ms, key, serial, v.value);
      var distinct' := distinct && v.distinct && Find(ms, key) == |ms|;
      NewKeyUnique(ms, key, serial, v.value);
      PackMembersExtend(v.rest, v.args, ms', serial + 1, distinct');
      assert all[|ms|] == all[..|ms'|][|ms|] == Member(key, serial, v.value);
      FindUnique(all, |ms|);
      PackValueUses(t2, s2, args[1..]);
      UnpackPacked(t2, s2, args[1..], flags);
      UnpackPackedMembers(v.rest, v.args, ms', serial + 1, distinct', flags, outs + Outs(Used(args[1..], v.args), flags));
      KeyAsked(args, flags);
      UsedKey(args, v.args, p.args, flags);
      assert outs + Outs(Used(args[1..], v.args), flags) + Outs(Used(v.args, p.args), flags)
             == outs + (Outs(Used(args[1..], v.args), flags) + Outs(Used(v.args, p.args), flags));
    }
  }

  lemma SuffixShorter(args: seq<Arg>, left: seq<Arg>)
    requires Suffix(args, left)
    ensures |left| <= |args|
  {}

  lemma KeyAsked(args: seq<Arg>, flags: nat)
    requires args != [] && args[0].KeyArg?
    ensures Asks(args, flags) == [AskKey(args[0].key)] + Asks(args[1..], flags)
    ensures Asks(args, flags) != [] && Asks(args, flags)[0] == AskKey(args[0].key) && Asks(args, flags)[1..] == Asks(args[1..], flags)
  {}

  lemma UsedKey(args: seq<Arg>, b: seq<Arg>, c: seq<Arg>, flags: nat)
    requires args != [] && args[0].KeyArg? && Suffix(args[1..], b) && |c| <= |b| && |b| <= |args| && Suffix(args, c)
    ensures |b| <= |args[1..]| && Outs(Used(args, c), flags) == Outs(Used(args[1..], b), flags) + Outs(Used(b, c), flags)
  {
    OneUsed(args, flags);
    assert b[|b| - |c|..] == c by {
      assert args[1..][|args[1..]| - |b|..] == b;
      assert args[|args| - |c|..] == b[|b| - |c|..];
    }
    SuffixOf(args[1..], b, c, flags);
    SuffixOf(args, args[1..], c, flags);
    assert [] + Outs(Used(args[1..], c), flags) == Outs(Used(args[1..], c), flags);
  }

  lemma {:induction false} UnpackPackedElems(s: bytes, args: seq<Arg>, es: seq<Json>, distinct: bool, flags: nat, outs: seq<Out>)
    requires PackElems(s, args, es, distinct).Some? && PackElems(s, args, es, distinct).value.distinct
    ensures var p := PackElems(s, args, es, distinct).value;
            && |p.args| <= |args| && p.value.Array?
            && UnpackElems(s, p.value.elems, Asks(args, flags), flags, |es|, 0, outs)
               == Some(Unpacked(p.rest, Asks(p.args, flags), outs + Outs(Used(args, p.args), flags)))
    decreases |s|, 0
  {
    hide Asks, Outs, Suffix, Used, UnpackValue, PackArg;
    var p := PackElems(s, args, es, distinct).value;
    PackElemsUses(s, args, es, distinct);
    SuffixShorter(args, p.args);
    PackElemsExtend(s, args, es, distinct);
    var Scanned(t, s1) := NextToken(s);
    if t == RBRACKET {
      NoneUsed(args, flags);
      assert outs + [] == outs;
    } else {
      var v := PackValue(t, s1, args).value;
      var es' := es + [v.value];
      PackElemsExtend(v.rest, v.args, es', distinct && v.distinct);
      assert p.value.elems[|es|] == p.value.elems[..|es'|][|es|] == v.value;
      PackStarts(t, s1, args);
      PackValueUses(t, s1, args);
      UnpackPacked(t, s1, args, flags);
      PackElemsUses(v.rest, v.args, es', distinct && v.distinct);
      UnpackPackedElems(v.rest, v.args, es', distinct && v.distinct, flags, outs + Outs(Used(args, v.args), flags));
      SuffixOf(args, v.args, p.args, flags);
      assert outs + Outs(Used(args, v.args), flags) + Outs(Used(v.args, p.args), flags)
             == outs + (Outs(Used(args, v.args), flags) + Outs(Used(v.args, p.args), flags));
    }
  }

  lemma PackStarts(t: byte, s: bytes, args: seq<Arg>)
    requires PackValue(t, s, args).Some?
    ensures StartsValue(t)
  {}

  // ---------------------------------------------------------------- formats that name a key twice

  /** No object of the value that starts with `token` names a key twice. */
  ghost predicate NoKeyTwice(token: byte, s: bytes, args: seq<Arg>)
    decreases |s|, 1
  {
    if token == LBRACE then NoKeyTwiceAmong(s, args, {})
    else if token == LBRACKET then NoKeyTwiceInElems(s, args)
    else true
  }

  /** Nor do the members from here on, beside the keys that were named before. */
  ghost predicate NoKeyTwiceAmong(s: bytes, args: seq<Arg>, named: set<bytes>)
    decreases |s|, 0
  {
    var Scanned(t, s1) := NextToken(s);
    t == LOWER_S && args != [] && args[0].KeyArg? && args[0].key.Some? ==>
      var Scanned(t2, s2) := NextToken(s1);
      var v := PackValue(t2, s2, args[1..]);
      && args[0].key.value !in named && NoKeyTwice(t2, s2, args[1..])
      && (v.Some? ==> NoKeyTwiceAmong(v.value.rest, v.value.args, named + {args[0].key.value}))
  }

  ghost predicate NoKeyTwiceInElems(s: bytes, args: seq<Arg>)
    decreases |s|, 0
  {
    var Scanned(t, s1) := NextToken(s);
    t != RBRACKET && t != END ==>
      var v := PackValue(t, s1, args);
      NoKeyTwice(t, s1, args) && (v.Some? ==> NoKeyTwiceInElems(v.value.rest, v.value.args))
  }

  lemma {:induction false} DistinctIff(token: byte, s: bytes, args: seq<Arg>)
    requires PackValue(token, s, args).Some?
    ensures PackValue(token, s, args).value.distinct <==> NoKeyTwice(token, s, args)
    decreases |s|, 1
  {
    if token == LBRACE {
      DistinctMembersIff(s, args, [], 0, true);
      assert Keys([]) == {};
    } else if token == LBRACKET {
      DistinctElemsIff(s, args, [], true);
    }
  }

  lemma {:induction false} DistinctMembersIff(s: bytes, args: seq<Arg>, ms: seq<Member>, serial: nat, distinct: bool)
    requires PackMembers(s, args, ms, serial, distinct).Some?
    ensures PackMembers(s, args, ms, serial, distinct).value.distinct <==> distinct && NoKeyTwiceAmong(s, args, Keys(ms))
    decreases |s|, 0
  {
    hide PackValue, NoKeyTwice, Keys, SetMember;
    var Scanned(t, s1) := NextToken(s);
    if t != RBRACE {
      var key := args[0].key.value;
      var Scanned(t2, s2) := NextToken(s1);
      var v := PackValue(t2, s2, args[1..]).value;
      DistinctIff(t2, s2, args[1..]);
      KeyKnown(ms, key);
      SetKeys(ms, key, serial, v.value);
      DistinctMembersIff(v.rest, v.args, SetMember(ms, key, serial, v.value), serial + 1, distinct && v.distinct && Find(ms, key) == |ms|);
    }
  }

  lemma KeyKnown(ms: seq<Member>, key: bytes)
    ensures key in Keys(ms) <==> Find(ms, key) < |ms|
  {}

  lemma SetKeys(ms: seq<Member>, key: bytes, serial: nat, v: Json)
    ensures Find(ms, key) == |ms| ==> Keys(SetMember(ms, key, serial, v)) == Keys(ms) + {key}
  {
    hide Keys;
    KeysAppend(ms, Member(key, serial, v));
  }

  lemma {:induction false} DistinctElemsIff(s: bytes, args: seq<Arg>, es: seq<Json>, distinct: bool)
    requires PackElems(s, args, es, distinct).Some?
    ensures PackElems(s, args, es, distinct).value.distinct <==> distinct && NoKeyTwiceInElems(s, args)
    decreases |s|, 0
  {
    hide PackValue, NoKeyTwice;
    var Scanned(t, s1) := NextToken(s);
    if t != RBRACKET {
      var v := PackValue(t, s1, args).value;
      DistinctIff(t, s1, args);
      DistinctElemsIff(v.rest, v.args, es + [v.value], distinct && v.distinct);
    }
  }

  /** A whole format string that names no key of an object twice: what `json_pack` took, `json_unpack` gives back, also
      under JSON_STRICT. */
  lemma PackRoundTrip(format: bytes, args: seq<Arg>, flags: nat)
    requires PackAll(format, args).Some? && PackAll(format, args).value.args == []
    requires NoKeyTwice(NextToken(format).token, NextToken(format).rest, args)
    ensures var u := UnpackAll(PackAll(format, args).value.value, format, Asks(args, flags), flags);
            u.Some? && u.value.asks == [] && u.value.outs == Outs(args, flags)
  {
    var Scanned(t, s) := NextToken(format);
    DistinctIff(t, s, args);
    UnpackPacked(t, s, args, flags);
    assert Used(args, []) == args;
  }

  // ---------------------------------------------------------------- strict unpacking

  /** Where the loop of `unpack_object` stands at the closing brace. */
  datatype Walked = Walked(u: Unpacked, keys: set<bytes>, strict: int)

  /** The loop of `unpack_object` without the check at its end. */
  function WalkMembers(s: bytes, ms: seq<Member>, asks: seq<Ask>, flags: nat, keys: set<bytes>, strict: int, outs: seq<Out>): (r: Option<Walked>)
    decreases |s|
  {
    var Scanned(t, s1) := NextToken(s);
    if t == RBRACE then Some(Walked(Unpacked(s1, asks, outs), keys, strict))
    else if strict != 0 || t == END then None
    else if t == BANG || t == STAR then WalkMembers(s1, ms, asks, flags, keys, if t == BANG then 1 else -1, outs)
    else if t != LOWER_S || asks == [] || !asks[0].AskKey? || asks[0].key.None? then None
    else
      var key := asks[0].key.value;
      var Scanned(t2, s2) := NextToken(s1);
      var i := Find(ms, key);
      if i == |ms| then None
      else
        var v := UnpackValue(t2, s2, ms[i].value, asks[1..], flags);
        if v.None? then None
        else WalkMembers(v.value.rest, ms, v.value.asks, flags, keys + {key}, strict, outs + v.value.outs)
  }

  lemma {:induction false} WalkIsLoop(s: bytes, ms: seq<Member>, asks: seq<Ask>, flags: nat, keys: set<bytes>, strict: int, outs: seq<Out>)
    requires keys <= Keys(ms)
    ensures var w, u := WalkMembers(s, ms, asks, flags, keys, strict, outs), UnpackMembers(s, ms, asks, flags, keys, strict, outs);
            && (w.None? ==> u.None?)
            && (w.Some? ==> w.value.keys <= Keys(ms) && keys <= w.value.keys)
            && (w.Some? ==> u == if MustExhaust(w.value.strict, flags) && |w.value.keys| != |ms| then None else Some(w.value.u))
    decreases |s|
  {
    hide UnpackValue, Keys;
    var Scanned(t, s1) := NextToken(s);
    if t != RBRACE && strict == 0 && t != END {
      if t == BANG || t == STAR {
        WalkIsLoop(s1, ms, asks, flags, keys, if t == BANG then 1 else -1, outs);
      } else if t == LOWER_S && asks != [] && asks[0].AskKey? && asks[0].key.Some? {
        var key := asks[0].key.value;
        var Scanned(t2, s2) := NextToken(s1);
        var i := Find(ms, key);
        if i < |ms| {
          assert ms[i].key in Keys(ms);
          var v := UnpackValue(t2, s2, ms[i].value, asks[1..], flags);
          if v.Some? {
            WalkIsLoop(v.value.rest, ms, v.value.asks, flags, keys + {key}, strict, outs + v.value.outs);
          }
        }
      }
    }
  }

  /** Counting the named keys is enough, although the format may name a key repeatedly: a strict unpacking that gets to
      the closing brace succeeds exactly when every key of the object was named. */
  lemma StrictIffAllNamed(s: bytes, ms: seq<Member>, asks: seq<Ask>, flags: nat)
    requires UniqueKeys(ms)
    ensures var w := WalkMembers(s, ms, asks, flags, {}, 0, []);
            UnpackMembers(s, ms, asks, flags, {}, 0, []).Some? <==>
              w.Some? && (MustExhaust(w.value.strict, flags) ==> forall i :: 0 <= i < |ms| ==> ms[i].key in w.value.keys)
  {
    WalkIsLoop(s, ms, asks, flags, {}, 0, []);
    var w := WalkMembers(s, ms, asks, flags, {}, 0, []);
    if w.Some? {
      KeyCount(ms);
      SameSize(w.value.keys, Keys(ms));
      KeysFrom(ms, w.value.keys);
    }
  }

  lemma SameSize<T>(a: set<T>, b: set<T>)
    requires a <= b
    ensures |a| == |b| <==> a == b
  {
    assert b == a + (b - a) && |b| == |a| + |b - a|;
  }

  lemma KeysFrom(ms: seq<Member>, keys: set<bytes>)
    requires keys <= Keys(ms)
    ensures keys == Keys(ms) <==> forall i :: 0 <= i < |ms| ==> ms[i].key in keys
  {
    if forall i :: 0 <= i < |ms| ==> ms[i].key in keys {
      forall k | k in Keys(ms) ensures k in keys {
        assert ms[Find(ms, k)].key == k;
      }
    }
  }

  // ---------------------------------------------------------------- the scanner

  /** `scanner_t`, with the arguments not fetched yet. */
  class Scanner {
    const format: bytes
    const flags: nat
    var fmt: nat
    var token: byte
    var args: seq<Arg>
    var asks: seq<Ask>
    var outs: seq<Out>

    constructor (format: bytes, flags: nat, args: seq<Arg>, asks: seq<Ask>)
      ensures this.format == format && this.flags == flags && this.args == args && this.asks == asks
      ensures fmt == 0 && outs == [] && Rest() == format
    {
      this.format, this.flags, this.args, this.asks := format, flags, args, asks;
      fmt, token, outs := 0, END, [];
    }

    function Rest(): bytes
      reads this
    {
      if fmt <= |format| then format[fmt..] else []
    }

    /** A character of the format; behind the last one stands NUL, and behind that nothing may be read. */
    function At(t: nat): byte
      requires t <= |format|
    {
      if t < |format| then format[t] else END
    }

    /** There is something to scan, unless the end was the last thing scanned. */
    ghost predicate Ready()
      reads this
    {
      fmt <= |format| + 1 && (token != END ==> fmt <= |format|)
    }

    /** `next_token`: it is never asked to go on behind the NUL. */
    method Next()
      requires fmt <= |format|
      modifies `fmt, `token
      ensures Ready() && token == NextToken(old(Rest())).token
      ensures token != END ==> Rest() == NextToken(old(Rest())).rest
      ensures |Rest()| <= |old(Rest())|
    {
      var t := fmt;
      while t <= |format| && Ignored(At(t))
        invariant fmt <= t <= |format| && NextToken(Rest()) == NextToken(format[t..])
        decreases |format| - t
      {
        assert format[t..][1..] == format[t + 1..];
        t := t + 1;
      }
      assert t < |format| ==> format[t..][0] == format[t] && format[t..][1..] == format[t + 1..];
      token := At(t);
      t := t + 1;
      fmt := t;
    }

    /** `pack`. */
    method Pack() returns (r: Option<Json>)
      requires Ready()
      modifies `fmt, `token, `args
      ensures Done(r, PackValue(old(token), old(Rest()), old(args)))
      decreases |Rest()|, 3
    {
      if token == LBRACE {
        r := PackObject();
      } else if token == LBRACKET {
        r := PackArray();
      } else if token == LOWER_N {
        r := Some(Null);
      } else if args == [] {
        r := None;
      } else {
        r := PackArg(token, args[0]);
        if r.Some? {
          args := args[1..];
        }
      }
    }

    /** What a packing method leaves: on success the format can be scanned on. */
    ghost predicate Done(r: Option<Json>, p: Option<Packed>)
      reads this
    {
      if r.Some? then p.Some? && p.value.value == r.value && fmt <= |format| && Rest() == p.value.rest && args == p.value.args else p.None?
    }

    /** The token at hand is the first one of `s`, the rest of which is still to be scanned. */
    ghost predicate Scanning(s: bytes)
      reads this
    {
      Ready() && token == NextToken(s).token && (token != END ==> Rest() == NextToken(s).rest)
    }

    /** `pack_object`. */
    method PackObject() returns (r: Option<Json>)
      requires fmt <= |format|
      modifies `fmt, `token, `args
      ensures Done(r, PackMembers(old(Rest()), old(args), [], 0, true))
      decreases |Rest()|, 2
    {
      hide PackValue, NextToken, SetMember, Find;
      var ms: seq<Member> := [];
      var serial := 0;
      ghost var s, distinct := Rest(), true;
      ghost var whole := PackMembers(s, args, [], 0, true);
      NextShorter(s);
      Next();
      while token != RBRACE
        invariant Scanning(s) && |s| <= |old(Rest())| && whole == PackMembers(s, args, ms, serial, distinct)
        decreases |s|
      {
        NextShorter(s);
        if token == END || token != LOWER_S {
          return None;
        }
        if args == [] || !args[0].KeyArg? || args[0].key.None? {
          return None;
        }
        var key := args[0].key.value;
        var ok := CheckString(key);
        if !ok {
          return None;
        }
        args := args[1..];
        ghost var s1 := Rest();
        NextShorter(s1);
        Next();
        ghost var p := PackValue(token, NextToken(s1).rest, args);
        NoValueAtEnd(NextToken(s1).rest, Rest(), args);
        var value := Pack();
        if value.None? {
          return None;
        }
        distinct := distinct && p.value.distinct && Find(ms, key) == |ms|;
        ms := SetMember(ms, key, serial, value.value);
        serial := serial + 1;
        s := Rest();
        Next();
      }
      NextShorter(s);
      r := Some(Object(ms));
    }

    /** `pack_array`. */
    method PackArray() returns (r: Option<Json>)
      requires fmt <= |format|
      modifies `fmt, `token, `args
      ensures Done(r, PackElems(old(Rest()), old(args), [], true))
      decreases |Rest()|, 2
    {
      hide PackValue, NextToken;
      var es: seq<Json> := [];
      ghost var s, distinct := Rest(), true;
      ghost var whole := PackElems(s, args, [], true);
      NextShorter(s);
      Next();
      while token != RBRACKET
        invariant Scanning(s) && |s| <= |old(Rest())| && whole == PackElems(s, args, es, distinct)
        decreases |s|
      {
        NextShorter(s);
        if token == END {
          return None;
        }
        ghost var p := PackValue(token, Rest(), args);
        var value := Pack();
        if value.None? {
          return None;
        }
        distinct := distinct && p.value.distinct;
        es := es + [value.value];
        s := Rest();
        Next();
      }
      NextShorter(s);
      r := Some(Array(es));
    }

    // -------------------------------------------------------------- unpacking

    ghost predicate Taken(ok: bool, u: Option<Unpacked>, outs0: seq<Out>)
      reads this
    {
      if ok then u.Some? && fmt <= |format| && Rest() == u.value.rest && asks == u.value.asks && outs == outs0 + u.value.outs else u.None?
    }

    /** `unpack`. */
    method Unpack(root: Json) returns (ok: bool)
      requires Ready()
      modifies `fmt, `token, `asks, `outs
      ensures Taken(ok, UnpackValue(old(token), old(Rest()), root, old(asks), flags), old(outs))
      decreases |Rest()|, 3
    {
      assert outs + [] == outs;
      if token == LBRACE {
        ok := UnpackObject(root);
      } else if token == LBRACKET {
        ok := UnpackArray(root);
      } else {
        var f := Fetch(token, root);
        if f.None? {
          return false;
        }
        if f.value.Some? && !ValidateOnly(flags) {
          if asks == [] || asks[0] != Place(false) {
            return false;
          }
          asks := asks[1..];
          outs := outs + [f.value.value];
        }
        ok := true;
      }
    }

    /** `unpack_object`; the keys named are kept in a set, since one may be named repeatedly. */
    method UnpackObject(root: Json) returns (ok: bool)
      requires fmt <= |format|
      modifies `fmt, `token, `asks, `outs
      ensures Taken(ok, if root.Object? then UnpackMembers(old(Rest()), root.members, old(asks), flags, {}, 0, []) else None, old(outs))
      decreases |Rest()|, 2
    {
      hide UnpackValue, NextToken, Find;
      if !root.Object? {
        return false;
      }
      var keySet: set<bytes> := {};
      var strict := 0;
      ghost var s, got := Rest(), [];
      ghost var whole := UnpackMembers(s, root.members, asks, flags, {}, 0, []);
      NextShorter(s);
      Next();
      while token != RBRACE
        invariant Scanning(s) && |s| <= |old(Rest())| && whole == UnpackMembers(s, root.members, asks, flags, keySet, strict, got)
        invariant outs == old(outs) + got
        decreases |s|
      {
        NextShorter(s);
        if strict != 0 || token == END {
          return false;
        }
        if token == BANG || token == STAR {
          strict := if token == BANG then 1 else -1;
          s := Rest();
          Next();
          continue;
        }
        if token != LOWER_S || asks == [] || !asks[0].AskKey? || asks[0].key.None? {
          return false;
        }
        var key := asks[0].key.value;
        asks := asks[1..];
        ghost var s1 := Rest();
        NextShorter(s1);
        Next();
        var i := Find(root.members, key);
        if i == |root.members| {
          return false;
        }
        ghost var u := UnpackValue(token, NextToken(s1).rest, root.members[i].value, asks, flags);
        NothingAtEnd(NextToken(s1).rest, Rest(), root.members[i].value, asks, flags);
        var done := Unpack(root.members[i].value);
        if !done {
          return false;
        }
        keySet := keySet + {key};
        assert old(outs) + got + u.value.outs == old(outs) + (got + u.value.outs);
        got := got + u.value.outs;
        s := Rest();
        Next();
      }
      NextShorter(s);
      if strict == 0 && Strict(flags) {
        strict := 1;
      }
      ok := !(strict == 1 && |keySet| != |root.members|);
    }

    /** `unpack_array`. */
    method UnpackArray(root: Json) returns (ok: bool)
      requires fmt <= |format|
      modifies `fmt, `token, `asks, `outs
      ensures Taken(ok, if root.Array? then UnpackElems(old(Rest()), root.elems, old(asks), flags, 0, 0, []) else None, old(outs))
      decreases |Rest()|, 2
    {
      hide UnpackValue, NextToken;
      if !root.Array? {
        return false;
      }
      var i := 0;
      var strict := 0;
      ghost var s, got := Rest(), [];
      ghost var whole := UnpackElems(s, root.elems, asks, flags, 0, 0, []);
      NextShorter(s);
      Next();
      while token != RBRACKET
        invariant Scanning(s) && |s| <= |old(Rest())| && whole == UnpackElems(s, root.elems, asks, flags, i, strict, got)
        invariant outs == old(outs) + got
        decreases |s|
      {
        NextShorter(s);
        if strict != 0 || token == END {
          return false;
        }
        if token == BANG || token == STAR {
          strict := if token == BANG then 1 else -1;
          s := Rest();
          Next();
          continue;
        }
        if !StartsValue(token) || i >= |root.elems| {
          return false;
        }
        ghost var u := UnpackValue(token, Rest(), root.elems[i], asks, flags);
        var done := Unpack(root.elems[i]);
        if !done {
          return false;
        }
        assert old(outs) + got + u.value.outs == old(outs) + (got + u.value.outs);
        got := got + u.value.outs;
        s := Rest();
        Next();
        i := i + 1;
      }
      NextShorter(s);
      if strict == 0 && Strict(flags) {
        strict := 1;
      }
      ok := !(strict == 1 && i != |root.elems|);
    }
  }

  lemma NextShorter(s: bytes)
    ensures NextToken(s).token != END ==> |NextToken(s).rest| < |s|
    ensures |NextToken(s).rest| <= |s|
  {}

  /** At the end of the format no value is found, whatever is taken for the rest. */
  lemma NoValueAtEnd(s: bytes, t: bytes, args: seq<Arg>)
    ensures PackValue(END, s, args) == None && PackValue(END, t, args) == None
  {}

  lemma NothingAtEnd(s: bytes, t: bytes, root: Json, asks: seq<Ask>, flags: nat)
    ensures UnpackValue(END, s, root, asks, flags) == None && UnpackValue(END, t, root, asks, flags) == None
  {}

  /** `json_vpack_ex`. */
  method JsonPack(format: bytes, args: seq<Arg>) returns (r: Option<Json>)
    ensures r == match PackAll(format, args) case Some(p) => Some(p.value) case None => None
  {
    if format == [] || format[0] == END {
      return None;
    }
    var s := new Scanner(format, 0, args, []);
    s.Next();
    NoValueAtEnd(NextToken(format).rest, s.Rest(), args);
    r := s.Pack();
    if r.Some? {
      s.Next();
      if s.token != END {
        r := None;
      }
    }
  }

  /** `json_vunpack_ex`: the values stored, if it succeeds. */
  method JsonUnpack(root: Json, flags: nat, format: bytes, asks: seq<Ask>) returns (r: Option<seq<Out>>)
    ensures r == match UnpackAll(root, format, asks, flags) case Some(u) => Some(u.outs) case None => None
  {
    if format == [] || format[0] == END {
      return None;
    }
    var s := new Scanner(format, flags, [], asks);
    s.Next();
    NothingAtEnd(NextToken(format).rest, s.Rest(), root, asks, flags);
    ghost var u := UnpackValue(NextToken(format).token, NextToken(format).rest, root, asks, flags);
    assert u.Some? ==> [] + u.value.outs == u.value.outs;
    var ok := s.Unpack(root);
    if !ok {
      return None;
    }
    s.Next();
    if s.token != END {
      return None;
    }
    r := Some(s.outs);
  }
}
