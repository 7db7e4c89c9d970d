/** Loading undoes dumping for whole documents (libjansson/dump.c against libjansson/load.c). */
module RoundTrip {
  import opened Options
  import opened Utf8
  import opened Values
  import opened Arrange
  import opened DumpText
  import opened LoadText
  import opened StringRoundTrip

  /** A value built from null, booleans, 64-bit integers and valid strings; what the constructors that
      check their arguments can build, reals aside. */
  ghost predicate Document(v: Json) {
    match v
    case Integer(n) => INT64_MIN <= n <= INT64_MAX
    case Real(_) => false
    case String(s) => CString(s) && Valid(s)
    case Array(elems) => forall i :: 0 <= i < |elems| ==> Document(elems[i])
    case Object(ms) => UniqueKeys(ms) && forall i :: 0 <= i < |ms| ==> CString(ms[i].key) && Valid(ms[i].key) && Document(ms[i].value)
    case _ => true
  }

  lemma {:induction false} DocumentIsProper(v: Json)
    requires Document(v)
    ensures Proper(v)
  {
    match v
    case Array(elems) =>
      forall i | 0 <= i < |elems| ensures Proper(elems[i]) { DocumentIsProper(elems[i]); }
    case Object(ms) =>
      forall i | 0 <= i < |ms| ensures Proper(ms[i].value) { DocumentIsProper(ms[i].value); }
    case _ =>
  }

  /** The value loaded from the text of `v`: the same, with serials in the order of the text. */
  ghost function Loaded(v: Json): (r: Json)
    decreases v
  {
    match v
    case Array(elems) => Array(LoadedElems(elems))
    case Object(ms) => Object(LoadedMembers(ms, 0))
    case _ => v
  }

  ghost function LoadedElems(es: seq<Json>): (r: seq<Json>)
    ensures |r| == |es| && forall i :: 0 <= i < |es| ==> r[i] == Loaded(es[i])
    decreases es
  {
    if es == [] then [] else [Loaded(es[0])] + LoadedElems(es[1..])
  }

  ghost function LoadedMembers(ms: seq<Member>, serial: nat): (r: seq<Member>)
    ensures |r| == |ms|
    ensures forall i :: 0 <= i < |ms| ==> r[i] == Member(ms[i].key, serial + i, Loaded(ms[i].value))
    decreases ms
  {
    if ms == [] then [] else
      [Member(ms[0].key, serial, Loaded(ms[0].value))] + LoadedMembers(ms[1..], serial + 1)
  }

  lemma {:induction false} LoadedAlike(v: Json)
    ensures Alike(v, Loaded(v))
  {
    match v
    case Array(elems) =>
      forall i | 0 <= i < |elems| ensures Alike(elems[i], Loaded(elems[i])) { LoadedAlike(elems[i]); }
    case Object(ms) =>
      forall i | 0 <= i < |ms| ensures Alike(ms[i].value, Loaded(ms[i].value)) { LoadedAlike(ms[i].value); }
    case _ =>
  }

  lemma {:induction false} AlikeEqual(v: Json, w: Json)
    requires Proper(v) && Alike(v, w)
    ensures Proper(w) && Equal(v, w)
    decreases v
  {
    match v
    case Array(elems) =>
      forall i | 0 <= i < |elems| ensures Proper(w.elems[i]) && Equal(elems[i], w.elems[i]) { AlikeEqual(elems[i], w.elems[i]); }
    case Object(ms) =>
      forall i | 0 <= i < |ms| ensures Proper(w.members[i].value) && EqualAt(ms[i].key, ms[i].value, w.members) {
        AlikeEqual(ms[i].value, w.members[i].value);
        FindUnique(w.members, i);
      }
    case _ =>
  }

  // ---------------------------------------------------------------- layout

  predicate AllSpaces(ws: bytes) {
    forall i :: 0 <= i < |ws| ==> IsSpace(ws[i])
  }

  lemma IndentIsSpace(flags: nat, depth: nat, space: bool)
    ensures AllSpaces(IndentText(flags, depth, space))
  {}

  /** A structural character, white space before it, and white space after it. */
  lemma PunctScanned(ws: bytes, c: byte, s: bytes, broken: bool)
    requires AllSpaces(ws) && IsPunct(c)
    ensures Lex(ws + [c] + s, broken) == Lexed(Punct(c), s)
    ensures Delimited(ws + [c] + s)
  {
    hide LexString, LexNumber, LexWord;
    SpacesSkipped(ws, [c] + s, broken);
    assert ws + [c] + s == ws + ([c] + s);
    assert ([c] + s)[1..] == s;
  }

  /** The text after an element that is not the last: a comma, and white space that the next scan skips. */
  lemma AfterMore(flags: nat, depth: nat, s: bytes, broken: bool)
    ensures Delimited(After(false, flags, depth) + s)
    ensures var l := Lex(After(false, flags, depth) + s, broken);
            l.token == Punct(COMMA) && Lex(l.rest, broken) == Lex(s, broken)
  {
    var ws := IndentText(flags, depth + 1, true);
    IndentIsSpace(flags, depth + 1, true);
    PunctScanned([], COMMA, ws + s, broken);
    assert After(false, flags, depth) + s == [] + [COMMA] + (ws + s);
    SpacesSkipped(ws, s, broken);
  }

  /** The text after the last element: white space and the closing bracket. */
  lemma AfterLast(flags: nat, depth: nat, close: byte, s: bytes, broken: bool)
    requires IsPunct(close)
    ensures Delimited(After(true, flags, depth) + [close] + s)
    ensures Lex(After(true, flags, depth) + [close] + s, broken) == Lexed(Punct(close), s)
  {
    IndentIsSpace(flags, depth, false);
    PunctScanned(IndentText(flags, depth, false), close, s, broken);
  }

  // ---------------------------------------------------------------- values

  /** Parsing from the next token on. */
  ghost function ParseFrom(s: bytes, broken: bool, flags: nat): Option<Parsed> {
    var l := Lex(s, broken);
    ParseValue(l.token, l.rest, broken, flags)
  }

  lemma {:induction false} ValueRoundTrip(v: Json, flags: nat, depth: nat, rest: bytes, broken: bool, loadFlags: nat)
    requires Document(v) && Delimited(rest)
    ensures ParseFrom(Plain(v, flags, depth) + rest, broken, loadFlags) == Some(Parsed(Loaded(v), rest))
    decreases v
  {
    match v
    case Null => WordRoundTrip(NULL_TEXT, rest, broken);
    case True => WordRoundTrip(TRUE_TEXT, rest, broken);
    case False => WordRoundTrip(FALSE_TEXT, rest, broken);
    case Integer(n) => IntegerRoundTrip(n, rest, broken);
    case String(s) => StringRoundTrip.StringRoundTrip(s, EnsureAscii(flags), rest, broken);
    case Array(elems) => ArrayRoundTrip(elems, flags, depth, rest, broken, loadFlags);
    case Object(ms) => ObjectRoundTrip(ms, flags, depth, rest, broken, loadFlags);
  }

  // ---------------------------------------------------------------- arrays

  /** What `parse_array` does from the first token of an element on. */
  ghost function ParseElemsFrom(s: bytes, broken: bool, flags: nat, acc: seq<Json>): Option<Parsed> {
    var l := Lex(s, broken);
    ParseElems(l.token, l.rest, broken, flags, acc)
  }

  lemma ArrayStart(text: bytes, s: bytes, broken: bool, flags: nat)
    requires Lex(text, broken) == Lexed(Punct(LBRACKET), s)
    ensures Lex(s, broken).token == Punct(RBRACKET) ==> ParseFrom(text, broken, flags) == Some(Parsed(Array([]), Lex(s, broken).rest))
    ensures Lex(s, broken).token !in {Punct(RBRACKET), Eof, Invalid} ==> ParseFrom(text, broken, flags) == ParseElemsFrom(s, broken, flags, [])
  {
    hide Lex, ParseElems;
    assert ParseFrom(text, broken, flags) == ParseArray(s, broken, flags);
    var l := Lex(s, broken);
    assert l.token !in {Punct(RBRACKET), Eof, Invalid} ==> ParseArray(s, broken, flags) == ParseElems(l.token, l.rest, broken, flags, []);
  }

  lemma ElemsStep(text: bytes, v: Json, next: bytes, broken: bool, flags: nat, acc: seq<Json>)
    requires ParseFrom(text, broken, flags) == Some(Parsed(v, next))
    ensures Lex(next, broken).token == Punct(RBRACKET) ==>
              ParseElemsFrom(text, broken, flags, acc) == Some(Parsed(Array(acc + [v]), Lex(next, broken).rest))
    ensures Lex(next, broken).token == Punct(COMMA) && Lex(Lex(next, broken).rest, broken).token != Eof ==>
              ParseElemsFrom(text, broken, flags, acc) == ParseElemsFrom(Lex(next, broken).rest, broken, flags, acc + [v])
    ensures var l := Lex(text, broken); l.token !in {Punct(RBRACKET), Eof, Invalid}
  {
    hide Lex, ParseObject, ParseArray;
  }

  lemma ArrayShape(es: seq<Json>, flags: nat, depth: nat, rest: bytes)
    requires es != []
    ensures Plain(Array(es), flags, depth) + rest ==
            [] + [LBRACKET] + (IndentText(flags, depth + 1, false) + ElemsText(es, flags, depth, rest))
  {
    hide PlainElems, IndentText;
  }

  /** The elements from one on, the closing bracket, and what follows the array. */
  ghost function ElemsText(es: seq<Json>, flags: nat, depth: nat, rest: bytes): bytes {
    PlainElems(es, flags, depth) + [RBRACKET] + rest
  }

  ghost function ElemsNext(es: seq<Json>, flags: nat, depth: nat, rest: bytes): bytes
    requires es != []
  {
    After(|es| == 1, flags, depth) + ElemsText(es[1..], flags, depth, rest)
  }

  lemma ElemsShape(es: seq<Json>, flags: nat, depth: nat, rest: bytes)
    requires es != []
    ensures ElemsText(es, flags, depth, rest) == Plain(es[0], flags, depth + 1) + ElemsNext(es, flags, depth, rest)
  {
    hide Plain, After;
    Regroup(Plain(es[0], flags, depth + 1), After(|es| == 1, flags, depth), [], [], PlainElems(es[1..], flags, depth), [RBRACKET], rest);
    ThreeAndEmpty(Plain(es[0], flags, depth + 1), After(|es| == 1, flags, depth), PlainElems(es[1..], flags, depth));
    EmptyTwice(ElemsText(es[1..], flags, depth, rest));
  }

  lemma ThreeAndEmpty(a: bytes, b: bytes, e: bytes)
    ensures a + b + [] + [] + e == a + b + e
  {
    assert a + b + [] == a + b;
  }

  lemma EmptyTwice(s: bytes)
    ensures [] + ([] + s) == s
  {}

  /** After the last element the array closes. */
  lemma ElemsLast(es: seq<Json>, flags: nat, depth: nat, rest: bytes, broken: bool)
    requires |es| == 1
    ensures Delimited(ElemsNext(es, flags, depth, rest))
    ensures Lex(ElemsNext(es, flags, depth, rest), broken) == Lexed(Punct(RBRACKET), rest)
  {
    hide After, Lex, Delimited;
    AfterLast(flags, depth, RBRACKET, rest, broken);
    assert PlainElems(es[1..], flags, depth) == [];
    assert ElemsNext(es, flags, depth, rest) == After(true, flags, depth) + [RBRACKET] + rest;
  }

  /** After another element a comma follows, and the next scan finds the next element. */
  lemma ElemsMore(es: seq<Json>, flags: nat, depth: nat, rest: bytes, broken: bool)
    requires |es| > 1
    ensures Delimited(ElemsNext(es, flags, depth, rest))
    ensures var l := Lex(ElemsNext(es, flags, depth, rest), broken);
            l.token == Punct(COMMA) && Lex(l.rest, broken) == Lex(ElemsText(es[1..], flags, depth, rest), broken)
  {
    hide After, Lex, Delimited;
    AfterMore(flags, depth, ElemsText(es[1..], flags, depth, rest), broken);
  }

  lemma {:induction false} ArrayRoundTrip(es: seq<Json>, flags: nat, depth: nat, rest: bytes, broken: bool, loadFlags: nat)
    requires Document(Array(es)) && Delimited(rest)
    ensures ParseFrom(Plain(Array(es), flags, depth) + rest, broken, loadFlags) == Some(Parsed(Loaded(Array(es)), rest))
    decreases es, 1
  {
    hide Lex, PlainElems, IndentText, ParseFrom, ParseElemsFrom, Delimited;
    var text := Plain(Array(es), flags, depth) + rest;
    if es == [] {
      PunctScanned([], LBRACKET, [RBRACKET] + rest, broken);
      PunctScanned([], RBRACKET, rest, broken);
      assert text == [] + [LBRACKET] + ([RBRACKET] + rest);
      assert [RBRACKET] + rest == [] + [RBRACKET] + rest;
      ArrayStart(text, [RBRACKET] + rest, broken, loadFlags);
    } else {
      var ws, body := IndentText(flags, depth + 1, false), ElemsText(es, flags, depth, rest);
      IndentIsSpace(flags, depth + 1, false);
      ArrayShape(es, flags, depth, rest);
      PunctScanned([], LBRACKET, ws + body, broken);
      SpacesSkipped(ws, body, broken);
      ArrayStart(text, ws + body, broken, loadFlags);
      ElemsRoundTrip(es, flags, depth, rest, broken, loadFlags, []);
      SameLexElems(ws + body, body, broken, loadFlags, []);
      assert [] + LoadedElems(es) == LoadedElems(es);
    }
  }

  lemma SameLex(s: bytes, t: bytes, broken: bool, flags: nat)
    requires Lex(s, broken) == Lex(t, broken)
    ensures ParseFrom(s, broken, flags) == ParseFrom(t, broken, flags)
  {
    hide Lex;
  }

  lemma SameLexElems(s: bytes, t: bytes, broken: bool, flags: nat, acc: seq<Json>)
    requires Lex(s, broken) == Lex(t, broken)
    ensures ParseElemsFrom(s, broken, flags, acc) == ParseElemsFrom(t, broken, flags, acc)
  {
    hide Lex;
  }

  lemma SameLexMembers(s: bytes, t: bytes, broken: bool, flags: nat, acc: seq<Member>, serial: nat)
    requires Lex(s, broken) == Lex(t, broken)
    ensures ParseMembersFrom(s, broken, flags, acc, serial) == ParseMembersFrom(t, broken, flags, acc, serial)
  {
    hide Lex;
  }

  lemma Associative<T>(a: seq<T>, b: seq<T>, c: seq<T>)
    ensures a + b + c == a + (b + c)
    ensures c == [] ==> a + b == a + (b + c)
  {}

  lemma LoadedElemsStep(es: seq<Json>, acc: seq<Json>)
    requires es != []
    ensures acc + [Loaded(es[0])] + LoadedElems(es[1..]) == acc + LoadedElems(es)
    ensures |es| == 1 ==> acc + [Loaded(es[0])] == acc + LoadedElems(es)
  {
    hide Loaded;
    Associative(acc, [Loaded(es[0])], LoadedElems(es[1..]));
  }

  lemma LoadedMembersStep(ms: seq<Member>, serial: nat, acc: seq<Member>)
    requires ms != []
    ensures acc + [Member(ms[0].key, serial, Loaded(ms[0].value))] + LoadedMembers(ms[1..], serial + 1) == acc + LoadedMembers(ms, serial)
    ensures |ms| == 1 ==> acc + [Member(ms[0].key, serial, Loaded(ms[0].value))] == acc + LoadedMembers(ms, serial)
  {
    hide Loaded;
    Associative(acc, [Member(ms[0].key, serial, Loaded(ms[0].value))], LoadedMembers(ms[1..], serial + 1));
  }

  lemma {:induction false} ElemsRoundTrip(es: seq<Json>, flags: nat, depth: nat, rest: bytes, broken: bool, loadFlags: nat, acc: seq<Json>)
    requires es != [] && (forall i :: 0 <= i < |es| ==> Document(es[i]))
    ensures ParseElemsFrom(ElemsText(es, flags, depth, rest), broken, loadFlags, acc)
            == Some(Parsed(Array(acc + LoadedElems(es)), rest))
    ensures Lex(ElemsText(es, flags, depth, rest), broken).token !in {Punct(RBRACKET), Eof, Invalid}
    decreases es, 0
  {
    hide Lex, Plain, Document, ParseFrom, ParseElemsFrom, ElemsText, ElemsNext, Delimited, Loaded, LoadedElems;
    var next, acc' := ElemsNext(es, flags, depth, rest), acc + [Loaded(es[0])];
    ElemsShape(es, flags, depth, rest);
    if |es| == 1 {
      ElemsLast(es, flags, depth, rest, broken);
    } else {
      ElemsMore(es, flags, depth, rest, broken);
      ElemsRoundTrip(es[1..], flags, depth, rest, broken, loadFlags, acc');
      SameLexElems(Lex(next, broken).rest, ElemsText(es[1..], flags, depth, rest), broken, loadFlags, acc');
    }
    ValueRoundTrip(es[0], flags, depth + 1, next, broken, loadFlags);
    ElemsStep(ElemsText(es, flags, depth, rest), Loaded(es[0]), next, broken, loadFlags, acc);
    LoadedElemsStep(es, acc);
  }

  // ---------------------------------------------------------------- objects

  /** What `parse_object` does from the key of a member on. */
  ghost function ParseMembersFrom(s: bytes, broken: bool, flags: nat, acc: seq<Member>, serial: nat): Option<Parsed> {
    var l := Lex(s, broken);
    if l.token.Str? then ParseMembers(l.token.s, l.rest, broken, flags, acc, serial) else None
  }

  lemma ObjectStart(text: bytes, s: bytes, broken: bool, flags: nat)
    requires Lex(text, broken) == Lexed(Punct(LBRACE), s)
    ensures Lex(s, broken).token == Punct(RBRACE) ==> ParseFrom(text, broken, flags) == Some(Parsed(Object([]), Lex(s, broken).rest))
    ensures Lex(s, broken).token.Str? ==> ParseFrom(text, broken, flags) == ParseMembersFrom(s, broken, flags, [], 0)
  {
    hide Lex, ParseMembers;
    assert ParseFrom(text, broken, flags) == ParseObject(s, broken, flags);
    var l := Lex(s, broken);
    assert l.token.Str? ==> ParseObject(s, broken, flags) == ParseMembers(l.token.s, l.rest, broken, flags, [], 0);
  }

  lemma MembersStep(text: bytes, key: bytes, s1: bytes, s2: bytes, v: Json, next: bytes, broken: bool, flags: nat, acc: seq<Member>, serial: nat)
    requires Lex(text, broken) == Lexed(Str(key), s1) && Find(acc, key) == |acc|
    requires Lex(s1, broken) == Lexed(Punct(COLON), s2) && ParseFrom(s2, broken, flags) == Some(Parsed(v, next))
    ensures Lex(next, broken).token == Punct(RBRACE) ==>
              ParseMembersFrom(text, broken, flags, acc, serial) == Some(Parsed(Object(acc + [Member(key, serial, v)]), Lex(next, broken).rest))
    ensures Lex(next, broken).token == Punct(COMMA) ==>
              ParseMembersFrom(text, broken, flags, acc, serial)
              == ParseMembersFrom(Lex(next, broken).rest, broken, flags, acc + [Member(key, serial, v)], serial + 1)
  {
    hide Lex, ParseValue;
  }

  lemma ObjectShape(ms: seq<Member>, flags: nat, depth: nat, rest: bytes)
    requires ms != []
    ensures Plain(Object(ms), flags, depth) + rest ==
            [] + [LBRACE] + (IndentText(flags, depth + 1, false) + MembersText(ms, flags, depth, rest))
  {
    hide PlainMembers, IndentText;
  }

  /** The members from one on, the closing brace, and what follows the object. */
  ghost function MembersText(ms: seq<Member>, flags: nat, depth: nat, rest: bytes): bytes {
    PlainMembers(ms, flags, depth) + [RBRACE] + rest
  }

  ghost function MembersNext(ms: seq<Member>, flags: nat, depth: nat, rest: bytes): bytes
    requires ms != []
  {
    After(|ms| == 1, flags, depth) + MembersText(ms[1..], flags, depth, rest)
  }

  /** The value of the first member and all that follows. */
  ghost function MemberValueText(ms: seq<Member>, flags: nat, depth: nat, rest: bytes): bytes
    requires ms != []
  {
    Plain(ms[0].value, flags, depth + 1) + MembersNext(ms, flags, depth, rest)
  }

  lemma MembersShape(ms: seq<Member>, flags: nat, depth: nat, rest: bytes)
    requires ms != []
    ensures MembersText(ms, flags, depth, rest) ==
            StringText(ms[0].key, EnsureAscii(flags)).text + (Separator(flags) + MemberValueText(ms, flags, depth, rest))
  {
    hide Plain, After, StringText, Separator;
    Regroup(StringText(ms[0].key, EnsureAscii(flags)).text, Separator(flags), Plain(ms[0].value, flags, depth + 1),
            After(|ms| == 1, flags, depth), PlainMembers(ms[1..], flags, depth), [RBRACE], rest);
  }

  /** After the last member the object closes. */
  lemma MembersLast(ms: seq<Member>, flags: nat, depth: nat, rest: bytes, broken: bool)
    requires |ms| == 1
    ensures Delimited(MembersNext(ms, flags, depth, rest))
    ensures Lex(MembersNext(ms, flags, depth, rest), broken) == Lexed(Punct(RBRACE), rest)
  {
    hide After, Lex, Delimited;
    AfterLast(flags, depth, RBRACE, rest, broken);
    assert PlainMembers(ms[1..], flags, depth) == [];
    assert MembersNext(ms, flags, depth, rest) == After(true, flags, depth) + [RBRACE] + rest;
  }

  /** After another member a comma follows, and the next scan finds the next key. */
  lemma MembersMore(ms: seq<Member>, flags: nat, depth: nat, rest: bytes, broken: bool)
    requires |ms| > 1
    ensures Delimited(MembersNext(ms, flags, depth, rest))
    ensures var l := Lex(MembersNext(ms, flags, depth, rest), broken);
            l.token == Punct(COMMA) && Lex(l.rest, broken) == Lex(MembersText(ms[1..], flags, depth, rest), broken)
  {
    hide After, Lex, Delimited;
    AfterMore(flags, depth, MembersText(ms[1..], flags, depth, rest), broken);
  }

  lemma Regroup(a: bytes, b: bytes, c: bytes, d: bytes, e: bytes, f: bytes, g: bytes)
    ensures a + b + c + d + e + f + g == a + (b + (c + (d + (e + f + g))))
  {
    var s := e + f + g;
    assert a + b + c + d + e + f + g == a + b + c + d + s;
    assert a + b + c + d + s == a + b + c + (d + s);
    assert a + b + c + (d + s) == a + b + (c + (d + s));
  }

  lemma {:induction false} ObjectRoundTrip(ms: seq<Member>, flags: nat, depth: nat, rest: bytes, broken: bool, loadFlags: nat)
    requires Document(Object(ms)) && Delimited(rest)
    ensures ParseFrom(Plain(Object(ms), flags, depth) + rest, broken, loadFlags) == Some(Parsed(Loaded(Object(ms)), rest))
    decreases ms, 1
  {
    hide Lex, PlainMembers, IndentText, ParseFrom, ParseMembersFrom, Delimited;
    var text := Plain(Object(ms), flags, depth) + rest;
    if ms == [] {
      PunctScanned([], LBRACE, [RBRACE] + rest, broken);
      PunctScanned([], RBRACE, rest, broken);
      assert text == [] + [LBRACE] + ([RBRACE] + rest);
      assert [RBRACE] + rest == [] + [RBRACE] + rest;
      ObjectStart(text, [RBRACE] + rest, broken, loadFlags);
    } else {
      var ws, body := IndentText(flags, depth + 1, false), MembersText(ms, flags, depth, rest);
      IndentIsSpace(flags, depth + 1, false);
      ObjectShape(ms, flags, depth, rest);
      PunctScanned([], LBRACE, ws + body, broken);
      SpacesSkipped(ws, body, broken);
      ObjectStart(text, ws + body, broken, loadFlags);
      MembersRoundTrip(ms, flags, depth, rest, broken, loadFlags, [], 0);
      SameLexMembers(ws + body, body, broken, loadFlags, [], 0);
      assert [] + LoadedMembers(ms, 0) == LoadedMembers(ms, 0);
    }
  }

  lemma {:induction false} MembersRoundTrip(ms: seq<Member>, flags: nat, depth: nat, rest: bytes, broken: bool, loadFlags: nat,
                                            acc: seq<Member>, serial: nat)
    requires ms != [] && Document(Object(ms))
    requires forall i :: 0 <= i < |ms| ==> Find(acc, ms[i].key) == |acc|
    ensures ParseMembersFrom(MembersText(ms, flags, depth, rest), broken, loadFlags, acc, serial)
            == Some(Parsed(Object(acc + LoadedMembers(ms, serial)), rest))
    ensures Lex(MembersText(ms, flags, depth, rest), broken).token.Str?
    decreases ms, 0
  {
    hide Lex, Plain, StringText, Separator, Document, ParseFrom, ParseMembersFrom, Valid, CString,
      MembersText, MembersNext, MemberValueText, Delimited, EnsureAscii, Loaded, LoadedMembers;
    var next, valueText := MembersNext(ms, flags, depth, rest), MemberValueText(ms, flags, depth, rest);
    var m := Member(ms[0].key, serial, Loaded(ms[0].value));
    var colon := Separator(flags) + valueText;
    DocumentMembers(ms);
    MembersShape(ms, flags, depth, rest);
    StringRoundTrip.StringRoundTrip(ms[0].key, EnsureAscii(flags), colon, broken);
    SeparatorScanned(flags, valueText, broken);
    if |ms| == 1 {
      MembersLast(ms, flags, depth, rest, broken);
    } else {
      MembersMore(ms, flags, depth, rest, broken);
      FindAppendedAll(acc, m, ms);
      MembersRoundTrip(ms[1..], flags, depth, rest, broken, loadFlags, acc + [m], serial + 1);
      SameLexMembers(Lex(next, broken).rest, MembersText(ms[1..], flags, depth, rest), broken, loadFlags, acc + [m], serial + 1);
    }
    MemberValueRoundTrip(ms, flags, depth, rest, broken, loadFlags);
    SameLex(Lex(colon, broken).rest, valueText, broken, loadFlags);
    MembersStep(MembersText(ms, flags, depth, rest), ms[0].key, colon, Lex(colon, broken).rest, m.value, next, broken, loadFlags, acc, serial);
    LoadedMembersStep(ms, serial, acc);
  }

  lemma {:induction false} MemberValueRoundTrip(ms: seq<Member>, flags: nat, depth: nat, rest: bytes, broken: bool, loadFlags: nat)
    requires ms != [] && Document(ms[0].value) && Delimited(MembersNext(ms, flags, depth, rest))
    ensures ParseFrom(MemberValueText(ms, flags, depth, rest), broken, loadFlags)
            == Some(Parsed(Loaded(ms[0].value), MembersNext(ms, flags, depth, rest)))
    decreases ms, -1
  {
    hide ParseFrom, Plain, MembersNext, Delimited, Document, Loaded;
    ValueRoundTrip(ms[0].value, flags, depth + 1, MembersNext(ms, flags, depth, rest), broken, loadFlags);
  }

  lemma DocumentMembers(ms: seq<Member>)
    requires Document(Object(ms)) && ms != []
    ensures CString(ms[0].key) && Valid(ms[0].key) && Document(ms[0].value) && Document(Object(ms[1..]))
    ensures forall i :: 0 < i < |ms| ==> ms[i].key != ms[0].key
  {}

  lemma FindAppendedAll(acc: seq<Member>, m: Member, ms: seq<Member>)
    requires ms != [] && forall i :: 0 <= i < |ms| ==> Find(acc, ms[i].key) == |acc|
    requires forall i :: 0 < i < |ms| ==> ms[i].key != m.key
    ensures forall i :: 0 <= i < |ms[1..]| ==> Find(acc + [m], ms[1..][i].key) == |acc| + 1
  {
    forall i | 0 <= i < |ms[1..]| ensures Find(acc + [m], ms[1..][i].key) == |acc| + 1 {
      FindAppended(acc, m, ms[i + 1].key);
    }
  }

  lemma FindAppended(acc: seq<Member>, m: Member, key: bytes)
    requires Find(acc, key) == |acc| && m.key != key
    ensures Find(acc + [m], key) == |acc| + 1
  {
    assert forall i :: 0 <= i < |acc| ==> (acc + [m])[i] == acc[i];
  }

  /** The colon, and the white space before the value. */
  lemma SeparatorScanned(flags: nat, s: bytes, broken: bool)
    ensures var l := Lex(Separator(flags) + s, broken); l.token == Punct(COLON) && Lex(l.rest, broken) == Lex(s, broken)
  {
    var ws := if Compact(flags) then [] else [SPACE];
    assert Separator(flags) + s == [] + [COLON] + (ws + s);
    PunctScanned([], COLON, ws + s, broken);
    SpacesSkipped(ws, s, broken);
  }

  // ---------------------------------------------------------------- the text is UTF-8

  predicate IsAscii(s: bytes) {
    forall i :: 0 <= i < |s| ==> s[i] < 0x80
  }

  lemma {:induction false} AsciiIsValid(s: bytes)
    requires IsAscii(s)
    ensures Valid(s)
  {
    if s != [] {
      AsciiIsValid(s[1..]);
    }
  }

  lemma EscapeIsAscii(cp: int)
    requires 0 <= cp <= 0x10FFFF
    ensures IsAscii(Escape(cp))
  {
    assert forall n: nat | n < 0x10000 :: IsAscii(UnicodeEscape(n));
  }

  lemma {:induction false} EscapeAllValid(s: bytes, ascii: bool)
    requires Valid(s)
    ensures Valid(EscapeAll(s, ascii))
    decreases |s|
  {
    hide Encode, Escape, NeedsEscape;
    if s != [] {
      EncodeOfNext(s);
      var Char(cp, n) := Next(s).value;
      EscapeAllValid(s[n..], ascii);
      var p := if NeedsEscape(cp, ascii) then Escape(cp) else s[..n];
      if NeedsEscape(cp, ascii) {
        EscapeIsAscii(cp);
        AsciiIsValid(p);
      } else {
        FirstCharValid(s);
      }
      ValidConcat(p, EscapeAll(s[n..], ascii));
    }
  }

  lemma FirstCharValid(s: bytes)
    requires Next(s).Some?
    ensures Valid(s[..Next(s).value.size])
  {
    EncodeOfNext(s);
    EncodeIsValidIffScalar(Next(s).value.cp);
  }

  lemma ValidThree(a: bytes, b: bytes, c: bytes)
    requires Valid(a) && Valid(b) && Valid(c)
    ensures Valid(a + b + c)
  {
    ValidConcat(a, b);
    ValidConcat(a + b, c);
  }

  lemma StringTextValid(s: bytes, ascii: bool)
    requires Valid(s)
    ensures Valid(StringText(s, ascii).text)
  {
    hide Valid, EscapeAll;
    StringBodyIff([], s, ascii);
    EscapeAllValid(s, ascii);
    AsciiIsValid([QUOTE]);
    ValidThree([QUOTE], EscapeAll(s, ascii), [QUOTE]);
    assert StringText(s, ascii).text == [QUOTE] + EscapeAll(s, ascii) + [QUOTE];
  }

  lemma {:induction false} DecimalIsAscii(n: int)
    ensures IsAscii(IntegerText(n))
  {
    DecimalDigits(if n < 0 then -n else n);
  }

  lemma LayoutValid(flags: nat, depth: nat)
    ensures forall space :: Valid(IndentText(flags, depth, space))
    ensures forall last :: Valid(After(last, flags, depth))
    ensures Valid(Separator(flags))
    ensures Valid([LBRACKET]) && Valid([RBRACKET]) && Valid([LBRACE]) && Valid([RBRACE])
  {
    hide Valid;
    forall space ensures Valid(IndentText(flags, depth, space)) {
      AsciiIsValid(IndentText(flags, depth, space));
    }
    forall last ensures Valid(After(last, flags, depth)) {
      AsciiIsValid(After(last, flags, depth));
    }
    AsciiIsValid(Separator(flags));
    AsciiIsValid([LBRACKET]);
    AsciiIsValid([RBRACKET]);
    AsciiIsValid([LBRACE]);
    AsciiIsValid([RBRACE]);
  }

  lemma {:induction false} PlainValid(v: Json, flags: nat, depth: nat)
    requires Document(v)
    ensures Valid(Plain(v, flags, depth))
    decreases v
  {
    hide Valid, IndentText, After;
    match v
    case Null => AsciiIsValid(NULL_TEXT);
    case True => AsciiIsValid(TRUE_TEXT);
    case False => AsciiIsValid(FALSE_TEXT);
    case Integer(n) =>
      DecimalIsAscii(n);
      AsciiIsValid(IntegerText(n));
    case String(s) => StringTextValid(s, EnsureAscii(flags));
    case Array(es) =>
      LayoutValid(flags, depth + 1);
      PlainElemsValid(es, flags, depth);
      ValidThree([LBRACKET], IndentText(flags, depth + 1, false), PlainElems(es, flags, depth));
      ValidConcat([LBRACKET] + IndentText(flags, depth + 1, false) + PlainElems(es, flags, depth), [RBRACKET]);
      ValidConcat([LBRACKET], [RBRACKET]);
      assert [LBRACKET] + [RBRACKET] == [LBRACKET, RBRACKET];
    case Object(ms) =>
      LayoutValid(flags, depth + 1);
      PlainMembersValid(ms, flags, depth);
      ValidThree([LBRACE], IndentText(flags, depth + 1, false), PlainMembers(ms, flags, depth));
      ValidConcat([LBRACE] + IndentText(flags, depth + 1, false) + PlainMembers(ms, flags, depth), [RBRACE]);
      ValidConcat([LBRACE], [RBRACE]);
      assert [LBRACE] + [RBRACE] == [LBRACE, RBRACE];
  }

  lemma {:induction false} PlainElemsValid(es: seq<Json>, flags: nat, depth: nat)
    requires forall i :: 0 <= i < |es| ==> Document(es[i])
    ensures Valid(PlainElems(es, flags, depth))
    decreases es
  {
    hide After, Plain;
    if es != [] {
      LayoutValid(flags, depth);
      PlainValid(es[0], flags, depth + 1);
      PlainElemsValid(es[1..], flags, depth);
      ValidThree(Plain(es[0], flags, depth + 1), After(|es| == 1, flags, depth), PlainElems(es[1..], flags, depth));
    }
  }

  lemma {:induction false} PlainMembersValid(ms: seq<Member>, flags: nat, depth: nat)
    requires forall i :: 0 <= i < |ms| ==> Valid(ms[i].key) && Document(ms[i].value)
    ensures Valid(PlainMembers(ms, flags, depth))
    decreases ms
  {
    hide After, Plain, StringText, Separator, Document;
    if ms != [] {
      LayoutValid(flags, depth);
      StringTextValid(ms[0].key, EnsureAscii(flags));
      PlainValid(ms[0].value, flags, depth + 1);
      PlainMembersValid(ms[1..], flags, depth);
      var head := StringText(ms[0].key, EnsureAscii(flags)).text + Separator(flags) + Plain(ms[0].value, flags, depth + 1);
      ValidThree(StringText(ms[0].key, EnsureAscii(flags)).text, Separator(flags), Plain(ms[0].value, flags, depth + 1));
      ValidThree(head, After(|ms| == 1, flags, depth), PlainMembers(ms[1..], flags, depth));
    }
  }

  // ---------------------------------------------------------------- documents

  lemma {:induction false} ValidPrefixOfValid(s: bytes)
    requires Valid(s)
    ensures ValidPrefix(s) == |s|
    decreases |s|
  {
    hide Next;
    if s != [] {
      ValidPrefixOfValid(s[Next(s).value.size..]);
    }
  }

  lemma {:induction false} ArrangedIsDocument(v: Json, flags: nat)
    requires Document(v)
    ensures Document(Arranged(v, flags))
    decreases v
  {
    match v
    case Array(elems) =>
      forall i | 0 <= i < |elems| ensures Document(Arranged(elems[i], flags)) { ArrangedIsDocument(elems[i], flags); }
    case Object(ms) =>
      var ps := ArrangedMembers(ms, flags);
      var r := Ordered(flags, ps);
      OrderedKeepsUnique(flags, ps);
      forall i | 0 <= i < |r| ensures CString(r[i].key) && Valid(r[i].key) && Document(r[i].value) {
        assert r[i] in ps;
        var k :| 0 <= k < |ps| && ps[k] == r[i];
        ArrangedIsDocument(ms[k].value, flags);
      }
    case _ =>
  }

  /** The value that loading finds equals the one dumped. */
  lemma LoadedEqual(v: Json, flags: nat)
    requires Document(v)
    ensures Equal(v, Loaded(Arranged(v, flags)))
  {
    hide Equal, Arranged, Loaded, Document, Proper, Alike;
    var w := Arranged(v, flags);
    DocumentIsProper(v);
    ArrangedEqual(v, flags);
    LoadedAlike(w);
    AlikeEqual(w, Loaded(w));
    EqualTransitive(v, w, Loaded(w));
  }

  /** Loading the text of an array or object succeeds, under every dump flag and every load flag, and
      gives a `json_equal` value whose members stand in the order of the text. */
  lemma DocumentRoundTrip(v: Json, flags: nat, loadFlags: nat)
    requires Document(v) && (v.Array? || v.Object?)
    ensures Load(Dumps(v, flags), loadFlags) == Some(Loaded(Arranged(v, flags)))
    ensures Equal(v, Loaded(Arranged(v, flags)))
  {
    hide Plain, Document, Equal, Lex, ParseValue, Loaded, Valid;
    var w, text := Arranged(v, flags), Dumps(v, flags);
    LoadedEqual(v, flags);
    ArrangedIsDocument(v, flags);
    PlainValid(w, flags, 0);
    ValidPrefixOfValid(text);
    assert text[..|text|] == text && text + [] == text;
    ValueRoundTrip(w, flags, 0, [], false, loadFlags);
    FirstToken(w, flags, false);
    EndOfInput();
  }

  lemma EndOfInput()
    ensures Lex([], false) == Lexed(Eof, [])
  {}

  lemma FirstToken(w: Json, flags: nat, broken: bool)
    requires w.Array? || w.Object?
    ensures Lex(Plain(w, flags, 0), broken).token == Punct(if w.Array? then LBRACKET else LBRACE)
  {
    hide LexString, LexNumber, LexWord, PlainElems, PlainMembers, IndentText;
  }

  /** JSON_SORT_KEYS is canonical: two documents print alike exactly when they are `json_equal`. */
  lemma SortedTextIsCanonical(v: Json, w: Json, flags: nat)
    requires Document(v) && Document(w) && SortKeys(flags)
    ensures Dumps(v, flags) == Dumps(w, flags) <==> Equal(v, w)
  {
    hide Plain, Document, Equal, Lex, ParseFrom, Loaded, Arranged, Proper;
    DocumentIsProper(v);
    DocumentIsProper(w);
    if Equal(v, w) {
      SortedAlike(v, w, flags);
      PlainAlike(Arranged(v, flags), Arranged(w, flags), flags, 0);
    }
    if Dumps(v, flags) == Dumps(w, flags) {
      LoadedEqual(v, flags);
      LoadedEqual(w, flags);
      ArrangedIsDocument(v, flags);
      ArrangedIsDocument(w, flags);
      ValueRoundTrip(Arranged(v, flags), flags, 0, [], false, 0);
      ValueRoundTrip(Arranged(w, flags), flags, 0, [], false, 0);
      ArrangedEqual(w, flags);
      LoadedAlike(Arranged(w, flags));
      AlikeEqual(Arranged(w, flags), Loaded(Arranged(w, flags)));
      EqualSymmetric(w, Loaded(Arranged(w, flags)));
      EqualTransitive(v, Loaded(Arranged(w, flags)), w);
    }
  }
}
