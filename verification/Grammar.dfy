/** The texts that libjansson/load.c accepts, as a grammar: that of RFC 8259, where a NUL byte may follow a number or a name
    and any four letters or digits may follow a backslash and u. Each text is given by the tree of its parts. */
module Grammar {
  import opened Options
  import opened Utf8
  import opened Values
  import opened DumpText
  import opened LoadText
  import opened StringRoundTrip
  import opened RoundTrip
  import opened Reload
  import opened StrictStrings
  import opened StrictNumbers
  import Rfc8259

  // ---------------------------------------------------------------- the parts of a text

  /** A number or a name, with a NUL byte after it or not; the raw text between quotes; an array or object with the white space
      in it if it is empty. */
  datatype Node =
    | Scalar(text: bytes, nul: bool)
    | Quoted(raw: bytes)
    | Brackets(space: bytes, items: seq<Item>)
    | Braces(space: bytes, pairs: seq<Pair>)

  datatype Item = Item(before: bytes, node: Node, behind: bytes)

  datatype Pair = Pair(before: bytes, key: bytes, behindKey: bytes, beforeValue: bytes, node: Node, behind: bytes)

  function NodeText(n: Node): (t: bytes)
    decreases n
  {
    match n
    case Scalar(text, nul) => if nul then text + [0] else text
    case Quoted(raw) => [Rfc8259.QUOTATION_MARK] + raw + [Rfc8259.QUOTATION_MARK]
    case Brackets(space, items) => [Rfc8259.BEGIN_ARRAY] + (if items == [] then space else ItemsText(items)) + [Rfc8259.END_ARRAY]
    case Braces(space, pairs) => [Rfc8259.BEGIN_OBJECT] + (if pairs == [] then space else PairsText(pairs)) + [Rfc8259.END_OBJECT]
  }

  function ItemsText(items: seq<Item>): (t: bytes)
    decreases items
  {
    if items == [] then []
    else
      var i := items[0];
      i.before + NodeText(i.node) + i.behind + if |items| == 1 then [] else [Rfc8259.VALUE_SEPARATOR] + ItemsText(items[1..])
  }

  function PairsText(pairs: seq<Pair>): (t: bytes)
    decreases pairs
  {
    if pairs == [] then []
    else
      var p := pairs[0];
      p.before + [Rfc8259.QUOTATION_MARK] + p.key + [Rfc8259.QUOTATION_MARK] + p.behindKey + [Rfc8259.NAME_SEPARATOR] + p.beforeValue + NodeText(p.node) + p.behind
      + if |pairs| == 1 then [] else [Rfc8259.VALUE_SEPARATOR] + PairsText(pairs[1..])
  }

  predicate IsName(text: bytes) {
    text == Rfc8259.FALSE_NAME || text == Rfc8259.NULL_NAME || text == Rfc8259.TRUE_NAME
  }

  /** The rules of the grammar. */
  ghost predicate Formed(n: Node)
    decreases n
  {
    match n
    case Scalar(text, _) => IsName(text) || Rfc8259Number(text)
    case Quoted(raw) => Scanned(raw)
    case Brackets(space, items) => Rfc8259.Ws(space) && ItemsFormed(items)
    case Braces(space, pairs) => Rfc8259.Ws(space) && PairsFormed(pairs)
  }

  ghost predicate ItemsFormed(items: seq<Item>)
    decreases items
  {
    items == [] || (Rfc8259.Ws(items[0].before) && Rfc8259.Ws(items[0].behind) && Formed(items[0].node) && ItemsFormed(items[1..]))
  }

  ghost predicate PairsFormed(pairs: seq<Pair>)
    decreases pairs
  {
    pairs == [] ||
      var p := pairs[0];
      && Rfc8259.Ws(p.before) && Rfc8259.Ws(p.behindKey) && Rfc8259.Ws(p.beforeValue) && Rfc8259.Ws(p.behind)
      && Scanned(p.key) && Formed(p.node) && PairsFormed(pairs[1..])
  }

  // ---------------------------------------------------------------- what a text means

  ghost function ScalarValue(text: bytes): (v: Option<Json>) {
    if text == Rfc8259.NULL_NAME then Some(Null)
    else if text == Rfc8259.TRUE_NAME then Some(True)
    else if text == Rfc8259.FALSE_NAME then Some(False)
    else
      match NumberToken(text)
      case Int(n) => Some(Integer(n))
      case RealTok(t) => Some(Real(t))
      case _ => None
  }

  /** The text of a literal: the one that the standard gives it, and only for what is none what decoding makes of it. */
  ghost function TextOf(raw: bytes): (d: Decoded)
    ensures d == Unescape(raw)
  {
    if Rfc8259Chars(raw) then
      StrictDecoding(raw);
      Outcome(Strict(raw))
    else Unescape(raw)
  }

  /** The value of a text: an integer must fit 64 bits, surrogates come in pairs, and no character is NUL. Of the members
      with one key the last wins, unless they are rejected. */
  ghost function Meaning(n: Node, flags: nat): (v: Option<Json>)
    decreases n
  {
    match n
    case Scalar(text, _) => ScalarValue(text)
    case Quoted(raw) => if TextOf(raw).Done? then Some(String(TextOf(raw).s)) else None
    case Brackets(_, items) =>
      var es := ItemsMeaning(items, flags, []);
      if es.Some? then Some(Array(es.value)) else None
    case Braces(_, pairs) =>
      var ms := PairsMeaning(pairs, flags, [], 0);
      if ms.Some? then Some(Object(ms.value)) else None
  }

  ghost function ItemsMeaning(items: seq<Item>, flags: nat, es: seq<Json>): (r: Option<seq<Json>>)
    decreases items
  {
    if items == [] then Some(es)
    else
      var v := Meaning(items[0].node, flags);
      if v.Some? then ItemsMeaning(items[1..], flags, es + [v.value]) else None
  }

  ghost function PairsMeaning(pairs: seq<Pair>, flags: nat, ms: seq<Member>, serial: nat): (r: Option<seq<Member>>)
    decreases pairs
  {
    if pairs == [] then Some(ms)
    else
      var k, v := TextOf(pairs[0].key), Meaning(pairs[0].node, flags);
      if k.Done? && v.Some? && !(RejectDuplicates(flags) && Find(ms, k.s) < |ms|)
      then PairsMeaning(pairs[1..], flags, SetMember(ms, k.s, serial, v.value), serial + 1)
      else None
  }

  // ---------------------------------------------------------------- tokens and their texts

  lemma {:induction false} LeadingSpaces(s: bytes, broken: bool) returns (ws: bytes, t: bytes)
    ensures s == ws + t && Rfc8259.Ws(ws) && (t != [] ==> !IsSpace(t[0])) && Lex(s, broken) == Lex(t, broken)
    decreases |s|
  {
    hide Lex;
    if s != [] && IsSpace(s[0]) {
      ws, t := LeadingSpaces(s[1..], broken);
      SpaceSkipped(s, broken);
      ws := [s[0]] + ws;
      assert s == [s[0]] + s[1..];
    } else {
      ws, t := [], s;
    }
  }

  lemma SpaceSkipped(s: bytes, broken: bool)
    requires s != [] && IsSpace(s[0])
    ensures Lex(s, broken) == Lex(s[1..], broken)
  {
    hide LexString, LexNumber, LexWord;
  }

  lemma PunctText(s: bytes, broken: bool, c: byte) returns (ws: bytes)
    requires Lex(s, broken).token == Punct(c)
    ensures Rfc8259.Ws(ws) && s == ws + [c] + Lex(s, broken).rest && IsPunct(c)
  {
    hide LexString, LexNumber, WordToken;
    var t;
    ws, t := LeadingSpaces(s, broken);
    StringNotPunct(t);
    NumberNotPunct(t);
    WordNotPunct(t);
    assert t == [t[0]] + t[1..];
  }

  lemma StringNotPunct(t: bytes)
    ensures t != [] ==> !LexString(t[1..]).token.Punct? && LexString(t[1..]).token != Eof
  {}

  lemma NumberNotPunct(t: bytes)
    ensures t != [] && (IsDigit(t[0]) || t[0] == MINUS) ==> LexNumber(t).token.Invalid? || LexNumber(t).token.Int? || LexNumber(t).token.RealTok?
  {
    hide IntPart, FracPart, ExpPart, StrToInt;
  }

  lemma WordNotPunct(t: bytes)
    ensures t != [] && IsAlpha(t[0]) ==> LexWord(t).token in {Invalid, TrueTok, FalseTok, NullTok}
  {}

  lemma LiteralText(s: bytes, broken: bool) returns (ws: bytes, raw: bytes)
    requires Lex(s, broken).token.Str?
    ensures Rfc8259.Ws(ws) && Scanned(raw) && Unescape(raw) == Done(Lex(s, broken).token.s)
    ensures s == ws + ([QUOTE] + raw + [QUOTE]) + Lex(s, broken).rest
  {
    hide LexNumber, WordToken, RawLength, Unescape;
    var t;
    ws, t := LeadingSpaces(s, broken);
    NumberNotPunct(t);
    WordNotPunct(t);
    var u := t[1..];
    var n := RawLength(u).value;
    raw := u[..n];
    ScannedFront(u);
    assert t == [QUOTE] + raw + [QUOTE] + u[n + 1..];
  }

  lemma EofText(s: bytes, broken: bool)
    requires Lex(s, broken).token == Eof
    ensures Rfc8259.Ws(s) && !broken
  {
    hide LexString, LexNumber, WordToken;
    var ws, t := LeadingSpaces(s, broken);
    StringNotPunct(t);
    NumberNotPunct(t);
    WordNotPunct(t);
    assert ws + [] == ws;
  }

  /** A token that is a number or a name. */
  predicate IsScalar(t: Token) {
    t.Int? || t.RealTok? || t == TrueTok || t == FalseTok || t == NullTok
  }

  ghost function TokenValue(t: Token): Json {
    match t
    case Int(n) => Integer(n)
    case RealTok(text) => Real(text)
    case TrueTok => True
    case FalseTok => False
    case _ => Null
  }

  lemma AfterUnget(s: bytes, n: nat)
    requires n <= |s|
    ensures var nul := n < |s| && s[n] == 0; s == (if nul then s[..n] + [0] else s[..n]) + Unget(s[n..])
  {
    assert n < |s| ==> s[n..] == [s[n]] + s[n + 1..] && s[n..][0] == s[n];
  }

  lemma NumberText(t: bytes) returns (n: Node)
    requires t != [] && (IsDigit(t[0]) || t[0] == MINUS) && LexNumber(t).token != Invalid
    ensures n.Scalar? && Formed(n) && t == NodeText(n) + LexNumber(t).rest && ScalarValue(n.text) == Some(TokenValue(LexNumber(t).token))
  {
    hide LexNumber, Rfc8259Number, NumberToken, Unget, Longest;
    NumberIffGrammar(t);
    var k: nat :| k <= |t| && Longest(t, k) && NumberToken(t[..k]) != Invalid;
    n := Scalar(t[..k], k < |t| && t[k] == 0);
    AfterUnget(t, k);
    LongestNumber(t, k);
    NumberValue(t[..k]);
  }

  lemma LongestNumber(t: bytes, k: nat)
    requires Longest(t, k)
    ensures k <= |t| && Rfc8259Number(t[..k])
  {}

  lemma NumberValue(text: bytes)
    requires Rfc8259Number(text) && NumberToken(text) != Invalid
    ensures !IsName(text) && ScalarValue(text) == Some(TokenValue(NumberToken(text)))
  {
    hide Rfc8259Number, IsInteger;
    NumberStarts(text);
  }

  lemma NumberStarts(text: bytes)
    requires Rfc8259Number(text)
    ensures text != [] && (IsDigit(text[0]) || text[0] == MINUS)
  {
    var j, k := NumberIsScan(text);
    assert text[Sign(text)..][0] == text[Sign(text)];
  }

  lemma WordText(t: bytes) returns (n: Node)
    requires t != [] && IsAlpha(t[0]) && LexWord(t).token != Invalid
    ensures n.Scalar? && Formed(n) && t == NodeText(n) + LexWord(t).rest && ScalarValue(n.text) == Some(TokenValue(LexWord(t).token))
  {
    hide WordToken, Rfc8259Number, NumberToken, Unget;
    var k := LetterCount(t);
    n := Scalar(t[..k], k < |t| && t[k] == 0);
    AfterUnget(t, k);
    NameValue(t[..k]);
  }

  lemma ScalarText(s: bytes, broken: bool) returns (ws: bytes, n: Node)
    requires IsScalar(Lex(s, broken).token)
    ensures Rfc8259.Ws(ws) && n.Scalar? && Formed(n) && ScalarValue(n.text) == Some(TokenValue(Lex(s, broken).token))
    ensures s == ws + NodeText(n) + Lex(s, broken).rest
  {
    hide LexNumber, LexString, LexWord, Formed, ScalarValue, NodeText;
    var t;
    ws, t := LeadingSpaces(s, broken);
    StringNoScalar(t);
    if IsDigit(t[0]) || t[0] == MINUS {
      n := NumberText(t);
    } else {
      n := WordText(t);
    }
  }

  lemma StringNoScalar(t: bytes)
    ensures t != [] ==> !IsScalar(LexString(t[1..]).token)
  {}

  lemma NameValue(text: bytes)
    requires WordToken(text) != Invalid
    ensures IsName(text) && ScalarValue(text) == Some(TokenValue(WordToken(text)))
  {}

  // ---------------------------------------------------------------- what is accepted is a text

  /** An accepted value has a text: white space, its parts, and what is left. */
  lemma {:induction false} ParsedText(s: bytes, broken: bool, flags: nat) returns (ws: bytes, n: Node)
    requires ParseFrom(s, broken, flags).Some?
    ensures var p := ParseFrom(s, broken, flags).value;
            Rfc8259.Ws(ws) && Formed(n) && Meaning(n, flags) == Some(p.value) && s == ws + NodeText(n) + p.rest
    decreases |s|, 0
  {
    hide Lex, ParseArray, ParseObject, Unescape, Scanned, ScalarValue, Rfc8259.Ws;
    var t := Lex(s, broken).token;
    if IsScalar(t) {
      ws, n := ScalarText(s, broken);
    } else if t.Str? {
      var raw;
      ws, raw := LiteralText(s, broken);
      n := Quoted(raw);
    } else if t == Punct(LBRACKET) {
      ws := PunctText(s, broken, LBRACKET);
      ShorterAfter(s, ws, LBRACKET, broken);
      n := ArrayNode(Lex(s, broken).rest, broken, flags);
      Joins(s, ws, [LBRACKET], Lex(s, broken).rest, NodeText(n), ParseFrom(s, broken, flags).value.rest);
    } else {
      ws := PunctText(s, broken, LBRACE);
      ShorterAfter(s, ws, LBRACE, broken);
      n := ObjectNode(Lex(s, broken).rest, broken, flags);
      Joins(s, ws, [LBRACE], Lex(s, broken).rest, NodeText(n), ParseFrom(s, broken, flags).value.rest);
    }
  }

  lemma ShorterAfter(s: bytes, ws: bytes, c: byte, broken: bool)
    requires s == ws + [c] + Lex(s, broken).rest
    ensures |Lex(s, broken).rest| < |s|
  {}

  lemma Joins(s: bytes, a: bytes, b: bytes, c: bytes, d: bytes, e: bytes)
    requires s == a + b + c && b + c == d + e
    ensures s == a + d + e
  {
    assert a + b + c == a + (b + c);
    assert a + (d + e) == a + d + e;
  }

  lemma {:induction false} ArrayNode(s: bytes, broken: bool, flags: nat) returns (n: Node)
    requires ParseArray(s, broken, flags).Some?
    ensures var p := ParseArray(s, broken, flags).value;
            n.Brackets? && Formed(n) && Meaning(n, flags) == Some(p.value) && [LBRACKET] + s == NodeText(n) + p.rest
    decreases |s|, 2
  {
    hide Lex, ParseElems, Rfc8259.Ws, ItemsText, ItemsFormed, ItemsMeaning;
    var rest := ParseArray(s, broken, flags).value.rest;
    NoItems(flags);
    if Lex(s, broken).token == Punct(RBRACKET) {
      var ws := PunctText(s, broken, RBRACKET);
      n := Brackets(ws, []);
      Enclosed(LBRACKET, ws, RBRACKET, rest);
    } else {
      var items := ItemsOf(s, broken, flags, []);
      SpacesNothing();
      n := Brackets([], items);
      Enclosed(LBRACKET, ItemsText(items), RBRACKET, rest);
    }
  }

  lemma NoItems(flags: nat)
    ensures ItemsFormed([]) && ItemsMeaning([], flags, []) == Some([]) && PairsFormed([]) && PairsMeaning([], flags, [], 0) == Some([])
  {}

  lemma SpacesNothing()
    ensures Rfc8259.Ws([])
  {}

  lemma Enclosed(open: byte, body: bytes, close: byte, rest: bytes)
    ensures [open] + (body + [close] + rest) == [open] + body + [close] + rest
  {}

  lemma {:induction false} ItemsOf(s: bytes, broken: bool, flags: nat, es: seq<Json>) returns (items: seq<Item>)
    requires ParseElemsFrom(s, broken, flags, es).Some?
    ensures var p := ParseElemsFrom(s, broken, flags, es).value;
            && items != [] && ItemsFormed(items) && p.value.Array? && ItemsMeaning(items, flags, es) == Some(p.value.elems)
            && s == ItemsText(items) + [RBRACKET] + p.rest
    decreases |s|, 1
  {
    hide Lex, Rfc8259.Ws, ParseValue, NodeText, Formed, Meaning, ItemsText, ItemsFormed, ItemsMeaning, ParseElemsFrom, ParseFrom;
    ElemsSplit(s, broken, flags, es);
    var ws, n := ParsedText(s, broken, flags);
    var v := ParseFrom(s, broken, flags).value;
    var l := Lex(v.rest, broken);
    if l.token == Punct(RBRACKET) {
      var behind := PunctText(v.rest, broken, RBRACKET);
      items := [Item(ws, n, behind)];
      OneItem(ws, n, behind, flags, es);
      LastPart(s, ws, NodeText(n), behind, RBRACKET, l.rest);
    } else {
      var behind := PunctText(v.rest, broken, COMMA);
      LeftShorter(s, ws, NodeText(n), v.rest, behind, l.rest);
      var tail := ItemsOf(l.rest, broken, flags, es + [v.value]);
      items := [Item(ws, n, behind)] + tail;
      MoreItems(ws, n, behind, tail, flags, es);
      NextPart(s, ws, NodeText(n), behind, ItemsText(tail), RBRACKET, ParseElemsFrom(s, broken, flags, es).value.rest);
    }
  }

  /** How `parse_array` goes on after an element. */
  lemma ElemsSplit(s: bytes, broken: bool, flags: nat, es: seq<Json>)
    requires ParseElemsFrom(s, broken, flags, es).Some?
    ensures ParseFrom(s, broken, flags).Some?
    ensures var v := ParseFrom(s, broken, flags).value;
            var l := Lex(v.rest, broken);
            && (l.token == Punct(RBRACKET) || l.token == Punct(COMMA))
            && (l.token == Punct(RBRACKET) ==> ParseElemsFrom(s, broken, flags, es) == Some(Parsed(Array(es + [v.value]), l.rest)))
            && (l.token == Punct(COMMA) ==> ParseElemsFrom(s, broken, flags, es) == ParseElemsFrom(l.rest, broken, flags, es + [v.value]))
  {
    hide Lex, ParseValue;
  }

  lemma OneItem(ws: bytes, n: Node, behind: bytes, flags: nat, es: seq<Json>)
    requires Rfc8259.Ws(ws) && Rfc8259.Ws(behind) && Formed(n) && Meaning(n, flags).Some?
    ensures var items := [Item(ws, n, behind)];
            && ItemsFormed(items) && ItemsMeaning(items, flags, es) == Some(es + [Meaning(n, flags).value])
            && ItemsText(items) == ws + NodeText(n) + behind
  {
    hide Rfc8259.Ws, NodeText, Formed, Meaning;
    var items := [Item(ws, n, behind)];
    assert items[1..] == [];
    assert ws + NodeText(n) + behind + [] == ws + NodeText(n) + behind;
  }

  lemma MoreItems(ws: bytes, n: Node, behind: bytes, tail: seq<Item>, flags: nat, es: seq<Json>)
    requires Rfc8259.Ws(ws) && Rfc8259.Ws(behind) && Formed(n) && Meaning(n, flags).Some? && tail != [] && ItemsFormed(tail)
    ensures var items := [Item(ws, n, behind)] + tail;
            && ItemsFormed(items) && ItemsMeaning(items, flags, es) == ItemsMeaning(tail, flags, es + [Meaning(n, flags).value])
            && ItemsText(items) == ws + NodeText(n) + behind + ([COMMA] + ItemsText(tail))
  {
    hide Rfc8259.Ws, NodeText, Formed, Meaning;
    var items := [Item(ws, n, behind)] + tail;
    assert items[1..] == tail;
  }

  lemma LastPart(s: bytes, ws: bytes, text: bytes, behind: bytes, close: byte, rest: bytes)
    requires s == ws + text + (behind + [close] + rest)
    ensures s == ws + text + behind + [close] + rest
  {}

  lemma LeftShorter(s: bytes, ws: bytes, text: bytes, next: bytes, behind: bytes, rest: bytes)
    requires s == ws + text + next && next == behind + [COMMA] + rest
    ensures |rest| < |s|
  {}

  lemma NextPart(s: bytes, ws: bytes, text: bytes, behind: bytes, tail: bytes, close: byte, rest: bytes)
    requires s == ws + text + (behind + [COMMA] + (tail + [close] + rest))
    ensures s == ws + text + behind + ([COMMA] + tail) + [close] + rest
  {
    assert behind + [COMMA] + (tail + [close] + rest) == behind + ([COMMA] + tail) + [close] + rest;
  }

  lemma {:induction false} ObjectNode(s: bytes, broken: bool, flags: nat) returns (n: Node)
    requires ParseObject(s, broken, flags).Some?
    ensures var p := ParseObject(s, broken, flags).value;
            n.Braces? && Formed(n) && Meaning(n, flags) == Some(p.value) && [LBRACE] + s == NodeText(n) + p.rest
    decreases |s|, 2
  {
    hide Lex, ParseMembers, Rfc8259.Ws, PairsText, PairsFormed, PairsMeaning;
    var rest := ParseObject(s, broken, flags).value.rest;
    NoItems(flags);
    if Lex(s, broken).token == Punct(RBRACE) {
      var ws := PunctText(s, broken, RBRACE);
      n := Braces(ws, []);
      Enclosed(LBRACE, ws, RBRACE, rest);
    } else {
      var pairs := PairsOf(s, broken, flags, [], 0);
      SpacesNothing();
      n := Braces([], pairs);
      Enclosed(LBRACE, PairsText(pairs), RBRACE, rest);
    }
  }

  /** How `parse_object` goes on from a key on. */
  lemma MembersSplit(s: bytes, broken: bool, flags: nat, ms: seq<Member>, serial: nat)
    requires ParseMembersFrom(s, broken, flags, ms, serial).Some?
    ensures Lex(s, broken).token.Str? && Lex(Lex(s, broken).rest, broken).token == Punct(COLON)
    ensures var key := Lex(s, broken).token.s;
            var s2 := Lex(Lex(s, broken).rest, broken).rest;
            && !(RejectDuplicates(flags) && Find(ms, key) < |ms|)
            && ParseFrom(s2, broken, flags).Some?
            && var v := ParseFrom(s2, broken, flags).value;
               var l := Lex(v.rest, broken);
               var ms' := SetMember(ms, key, serial, v.value);
               && (l.token == Punct(RBRACE) || l.token == Punct(COMMA))
               && (l.token == Punct(RBRACE) ==> ParseMembersFrom(s, broken, flags, ms, serial) == Some(Parsed(Object(ms'), l.rest)))
               && (l.token == Punct(COMMA) ==>
                     ParseMembersFrom(s, broken, flags, ms, serial) == ParseMembersFrom(l.rest, broken, flags, ms', serial + 1))
  {
    hide Lex, ParseValue, SetMember, Find;
  }

  lemma {:induction false} PairsOf(s: bytes, broken: bool, flags: nat, ms: seq<Member>, serial: nat) returns (pairs: seq<Pair>)
    requires ParseMembersFrom(s, broken, flags, ms, serial).Some?
    ensures var p := ParseMembersFrom(s, broken, flags, ms, serial).value;
            && pairs != [] && PairsFormed(pairs) && p.value.Object? && PairsMeaning(pairs, flags, ms, serial) == Some(p.value.members)
            && s == PairsText(pairs) + [RBRACE] + p.rest
    decreases |s|, 1
  {
    hide Lex, Rfc8259.Ws, ParseValue, NodeText, Formed, Meaning, PairsText, PairsFormed, PairsMeaning, ParseMembersFrom, ParseFrom, Scanned,
      Unescape, SetMember, Find;
    MembersSplit(s, broken, flags, ms, serial);
    var before, key := LiteralText(s, broken);
    var s1 := Lex(s, broken).rest;
    var behindKey := PunctText(s1, broken, COLON);
    var s2 := Lex(s1, broken).rest;
    ShorterTwice(s, before, key, s1, behindKey, s2);
    var beforeValue, n := ParsedText(s2, broken, flags);
    var v := ParseFrom(s2, broken, flags).value;
    var l := Lex(v.rest, broken);
    var head := before + [QUOTE] + key + [QUOTE] + behindKey + [COLON];
    if l.token == Punct(RBRACE) {
      var behind := PunctText(v.rest, broken, RBRACE);
      var p := Pair(before, key, behindKey, beforeValue, n, behind);
      pairs := [p];
      OnePair(p, flags, ms, serial);
      LastPart(s, head + beforeValue, NodeText(n), behind, RBRACE, l.rest) by {
        HeadJoins(s, before, key, s1, behindKey, s2, beforeValue, NodeText(n), v.rest);
      }
    } else {
      var behind := PunctText(v.rest, broken, COMMA);
      var p := Pair(before, key, behindKey, beforeValue, n, behind);
      HeadJoins(s, before, key, s1, behindKey, s2, beforeValue, NodeText(n), v.rest);
      LeftShorter(s, head + beforeValue, NodeText(n), v.rest, behind, l.rest);
      var tail := PairsOf(l.rest, broken, flags, SetMember(ms, Lex(s, broken).token.s, serial, v.value), serial + 1);
      pairs := [p] + tail;
      MorePairs(p, tail, flags, ms, serial);
      NextPart(s, head + beforeValue, NodeText(n), behind, PairsText(tail), RBRACE, ParseMembersFrom(s, broken, flags, ms, serial).value.rest);
    }
  }

  lemma ShorterTwice(s: bytes, before: bytes, key: bytes, s1: bytes, behindKey: bytes, s2: bytes)
    requires s == before + ([QUOTE] + key + [QUOTE]) + s1 && s1 == behindKey + [COLON] + s2
    ensures |s2| < |s|
  {}

  lemma HeadJoins(s: bytes, before: bytes, key: bytes, s1: bytes, behindKey: bytes, s2: bytes, beforeValue: bytes, text: bytes, rest: bytes)
    requires s == before + ([QUOTE] + key + [QUOTE]) + s1 && s1 == behindKey + [COLON] + s2 && s2 == beforeValue + text + rest
    ensures s == before + [QUOTE] + key + [QUOTE] + behindKey + [COLON] + beforeValue + text + rest
  {
    assert before + ([QUOTE] + key + [QUOTE]) + s1 == before + [QUOTE] + key + [QUOTE] + s1;
    var k := before + [QUOTE] + key + [QUOTE];
    assert k + (behindKey + [COLON] + s2) == k + behindKey + [COLON] + s2;
    var h := k + behindKey + [COLON];
    assert h + (beforeValue + text + rest) == h + beforeValue + text + rest;
  }

  ghost predicate PairFormed(p: Pair) {
    && Rfc8259.Ws(p.before) && Rfc8259.Ws(p.behindKey) && Rfc8259.Ws(p.beforeValue) && Rfc8259.Ws(p.behind)
    && Scanned(p.key) && Formed(p.node)
  }

  ghost predicate PairMeans(p: Pair, flags: nat, ms: seq<Member>) {
    Unescape(p.key).Done? && Meaning(p.node, flags).Some? && !(RejectDuplicates(flags) && Find(ms, Unescape(p.key).s) < |ms|)
  }

  lemma OnePair(p: Pair, flags: nat, ms: seq<Member>, serial: nat)
    requires PairFormed(p) && PairMeans(p, flags, ms)
    ensures PairsFormed([p]) && PairsMeaning([p], flags, ms, serial) == Some(SetMember(ms, Unescape(p.key).s, serial, Meaning(p.node, flags).value))
    ensures PairsText([p]) == p.before + [QUOTE] + p.key + [QUOTE] + p.behindKey + [COLON] + p.beforeValue + NodeText(p.node) + p.behind
  {
    hide Rfc8259.Ws, NodeText, Formed, Meaning, Scanned, Unescape, SetMember, Find;
    assert [p][1..] == [];
    var t := p.before + [QUOTE] + p.key + [QUOTE] + p.behindKey + [COLON] + p.beforeValue + NodeText(p.node) + p.behind;
    assert t + [] == t;
  }

  lemma MorePairs(p: Pair, tail: seq<Pair>, flags: nat, ms: seq<Member>, serial: nat)
    requires PairFormed(p) && PairMeans(p, flags, ms) && tail != [] && PairsFormed(tail)
    ensures var pairs := [p] + tail;
            && PairsFormed(pairs)
            && PairsMeaning(pairs, flags, ms, serial)
               == PairsMeaning(tail, flags, SetMember(ms, Unescape(p.key).s, serial, Meaning(p.node, flags).value), serial + 1)
            && PairsText(pairs) == p.before + [QUOTE] + p.key + [QUOTE] + p.behindKey + [COLON] + p.beforeValue + NodeText(p.node) + p.behind
                                   + ([COMMA] + PairsText(tail))
  {
    hide Rfc8259.Ws, NodeText, Formed, Meaning, Scanned, Unescape, SetMember, Find;
    var pairs := [p] + tail;
    assert pairs[1..] == tail;
  }

  // ---------------------------------------------------------------- every text is accepted

  /** What may follow a number or a name in a text: white space, a structural character, the end, or NUL. */
  predicate Ends(more: bytes) {
    Delimited(more) || more[0] == 0
  }

  lemma NumberLexed(text: bytes, more: bytes)
    requires Rfc8259Number(text) && Ends(more)
    ensures var s := text + more;
            s != [] && (IsDigit(s[0]) || s[0] == MINUS) && LexNumber(s) == Lexed(NumberToken(text), Unget(more))
  {
    hide Rfc8259Number, NumberToken, Unget, LexNumber, Scan, Longest;
    var s, n := text + more, |text|;
    var j, k := NumberIsScan(text);
    NumberStarts(text);
    NothingContinues(s, text, more, j, k);
    ScanLocal(text, s, j, k, n);
    ScanIsLongest(s, j, k, n);
    assert s[0] == text[0] && s[..n] == text && s[n..] == more;
    NumberTaken(s, n);
  }

  lemma NothingContinues(s: bytes, text: bytes, more: bytes, j: nat, k: nat)
    requires s == text + more && Ends(more)
    ensures SameFront(text, s, |text|) && Stops(s, j, k, |text|)
  {
    assert more != [] ==> s[|text|] == more[0];
  }

  lemma NameLexed(text: bytes, more: bytes)
    requires IsName(text) && Ends(more)
    ensures var s := text + more;
            s != [] && IsAlpha(s[0]) && LexWord(s) == Lexed(WordToken(text), Unget(more))
  {
    LetterCountIs(text, more);
    var s := text + more;
    assert s[0] == text[0] && s[..|text|] == text && s[|text|..] == more;
  }

  lemma ScalarLexed(text: bytes, more: bytes, broken: bool)
    requires (IsName(text) || Rfc8259Number(text)) && Ends(more)
    ensures var l := Lex(text + more, broken);
            && (ScalarValue(text).Some? ==> l.rest == Unget(more) && IsScalar(l.token) && ScalarValue(text) == Some(TokenValue(l.token)))
            && (ScalarValue(text).None? ==> l.token == Invalid)
  {
    hide Rfc8259Number, NumberToken, LexNumber, LexWord, LexString, Unget, Ends;
    if IsName(text) {
      NameLexed(text, more);
      NameToken(text);
    } else {
      NumberLexed(text, more);
      NumberKind(text);
    }
  }

  lemma NameToken(text: bytes)
    requires IsName(text)
    ensures WordToken(text) in {TrueTok, FalseTok, NullTok} && ScalarValue(text) == Some(TokenValue(WordToken(text)))
  {}

  lemma NumberKind(text: bytes)
    ensures NumberToken(text).Int? || NumberToken(text).RealTok? || NumberToken(text) == Invalid
  {
    hide IsInteger;
  }

  /** What parsing finds at the front of a text: its value, or no value. */
  ghost function Expected(v: Option<Json>, rest: bytes): Option<Parsed> {
    if v.Some? then Some(Parsed(v.value, rest)) else None
  }

  /** A text does not begin like the end of an array. */
  predicate Begins(t: Token) {
    t != Punct(RBRACKET) && t != Punct(RBRACE) && t != Eof
  }

  lemma ScalarParsed(n: Node, flags: nat, rest: bytes, broken: bool)
    requires n.Scalar? && Formed(n) && (n.nul || Delimited(rest))
    ensures ParseFrom(NodeText(n) + rest, broken, flags) == Expected(Meaning(n, flags), rest)
    ensures Begins(Lex(NodeText(n) + rest, broken).token)
  {
    hide Lex, Rfc8259Number, ScalarValue, IsName;
    var more := if n.nul then [0] + rest else rest;
    assert NodeText(n) + rest == n.text + more;
    assert n.nul ==> ([0] + rest)[1..] == rest;
    ScalarLexed(n.text, more, broken);
    NotNul(rest);
  }

  lemma NotNul(rest: bytes)
    ensures Delimited(rest) ==> Unget(rest) == rest
    ensures Unget([0] + rest) == rest
  {
    assert ([0] + rest)[1..] == rest;
  }

  lemma QuotedLexed(raw: bytes, rest: bytes, broken: bool)
    requires Scanned(raw)
    ensures var l := Lex([QUOTE] + raw + [QUOTE] + rest, broken);
            if Unescape(raw).Done? then l == Lexed(Str(Unescape(raw).s), rest) else l.token == Invalid || l.token == Abort
  {
    hide RawLength, Unescape, LexNumber, LexWord;
    var s := [QUOTE] + raw + [QUOTE] + rest;
    var t := s[1..];
    assert t == raw + [QUOTE] + rest;
    RawLengthBefore(raw, rest);
    assert t[..|raw|] == raw && t[|raw| + 1..] == rest;
  }

  lemma {:induction false} RawLengthBefore(raw: bytes, rest: bytes)
    requires Scanned(raw)
    ensures RawLength(raw + [QUOTE] + rest) == Some(|raw|)
    decreases |raw|
  {
    var t := raw + [QUOTE] + rest;
    if raw != [] {
      ScannedStep(raw);
      var k := StepSize(raw);
      RawLengthBefore(raw[k..], rest);
      assert t[k..] == raw[k..] + [QUOTE] + rest;
      assert t[0] == raw[0] && (|raw| > 1 ==> t[1] == raw[1]);
    }
  }

  /** The text of a value is parsed to its value, if it has one, and what follows is left. */
  lemma {:induction false} NodeParsed(n: Node, flags: nat, rest: bytes, broken: bool)
    requires Formed(n) && (n.Scalar? ==> n.nul || Delimited(rest))
    ensures ParseFrom(NodeText(n) + rest, broken, flags) == Expected(Meaning(n, flags), rest)
    ensures Begins(Lex(NodeText(n) + rest, broken).token)
    decreases n, 2
  {
    match n
    case Scalar(_, _) => ScalarParsed(n, flags, rest, broken);
    case Quoted(raw) => QuotedParsed(raw, flags, rest, broken);
    case Brackets(_, _) => BracketsParsed(n, flags, rest, broken);
    case Braces(_, _) => BracesParsed(n, flags, rest, broken);
  }

  lemma QuotedParsed(raw: bytes, flags: nat, rest: bytes, broken: bool)
    requires Scanned(raw)
    ensures ParseFrom(NodeText(Quoted(raw)) + rest, broken, flags) == Expected(Meaning(Quoted(raw), flags), rest)
    ensures Begins(Lex(NodeText(Quoted(raw)) + rest, broken).token)
  {
    hide Lex, Unescape, Scanned;
    QuotedLexed(raw, rest, broken);
  }

  /** A structural character with white space before it, and one with white space behind it. */
  lemma PunctRead(ws: bytes, c: byte, s: bytes, broken: bool)
    requires Rfc8259.Ws(ws) && IsPunct(c)
    ensures Lex(ws + [c] + s, broken) == Lexed(Punct(c), s) && Delimited(ws + [c] + s)
  {
    PunctScanned(ws, c, s, broken);
  }

  lemma {:induction false} BracketsParsed(n: Node, flags: nat, rest: bytes, broken: bool)
    requires n.Brackets? && Formed(n)
    ensures ParseFrom(NodeText(n) + rest, broken, flags) == Expected(Meaning(n, flags), rest)
    ensures Begins(Lex(NodeText(n) + rest, broken).token)
    decreases n, 1
  {
    hide Lex, Rfc8259.Ws, ItemsText, ItemsFormed, ItemsMeaning, ParseFrom, ParseElemsFrom;
    var body := if n.items == [] then n.space else ItemsText(n.items);
    var s := body + [RBRACKET] + rest;
    NoItems(flags);
    Opened(LBRACKET, body, RBRACKET, rest);
    PunctReadFirst(LBRACKET, s, broken);
    ArrayBegins(s, broken, flags);
    if n.items == [] {
      PunctRead(n.space, RBRACKET, rest, broken);
    } else {
      ItemsParsed(n.items, flags, [], rest, broken);
    }
  }

  lemma PunctReadFirst(c: byte, s: bytes, broken: bool)
    requires IsPunct(c)
    ensures Lex([c] + s, broken) == Lexed(Punct(c), s)
  {
    PunctScanned([], c, s, broken);
    assert [] + [c] + s == [c] + s;
  }

  lemma ArrayBegins(s: bytes, broken: bool, flags: nat)
    requires Lex([LBRACKET] + s, broken) == Lexed(Punct(LBRACKET), s)
    ensures var l := Lex(s, broken);
            ParseFrom([LBRACKET] + s, broken, flags)
            == if l.token == Punct(RBRACKET) then Some(Parsed(Array([]), l.rest))
               else if l.token == Eof then None
               else ParseElemsFrom(s, broken, flags, [])
  {
    hide Lex, ParseElems;
    assert ParseFrom([LBRACKET] + s, broken, flags) == ParseArray(s, broken, flags);
    var l := Lex(s, broken);
    InvalidElems(l.rest, broken, flags);
    assert l.token !in {Punct(RBRACKET), Eof, Invalid} ==> ParseArray(s, broken, flags) == ParseElems(l.token, l.rest, broken, flags, []);
  }

  lemma InvalidElems(s: bytes, broken: bool, flags: nat)
    ensures ParseElems(Invalid, s, broken, flags, []) == None
  {}

  lemma ObjectBegins(s: bytes, broken: bool, flags: nat)
    requires Lex([LBRACE] + s, broken) == Lexed(Punct(LBRACE), s)
    ensures var l := Lex(s, broken);
            ParseFrom([LBRACE] + s, broken, flags)
            == if l.token == Punct(RBRACE) then Some(Parsed(Object([]), l.rest)) else ParseMembersFrom(s, broken, flags, [], 0)
  {
    hide Lex, ParseMembers;
    assert ParseFrom([LBRACE] + s, broken, flags) == ParseObject(s, broken, flags);
    var l := Lex(s, broken);
    assert l.token.Str? ==> ParseObject(s, broken, flags) == ParseMembers(l.token.s, l.rest, broken, flags, [], 0);
  }

  lemma Opened(open: byte, body: bytes, close: byte, rest: bytes)
    ensures [open] + body + [close] + rest == [open] + (body + [close] + rest)
  {}

  ghost function ArrayOf(es: Option<seq<Json>>): Option<Json> {
    if es.Some? then Some(Array(es.value)) else None
  }

  ghost function ObjectOf(ms: Option<seq<Member>>): Option<Json> {
    if ms.Some? then Some(Object(ms.value)) else None
  }

  /** One turn of the loop of `parse_array`. */
  lemma ItemStep(text: bytes, next: bytes, v: Option<Json>, broken: bool, flags: nat, es: seq<Json>)
    requires ParseFrom(text, broken, flags) == Expected(v, next)
    ensures v.None? ==> ParseElemsFrom(text, broken, flags, es) == None
    ensures v.Some? && Lex(next, broken).token == Punct(RBRACKET) ==>
              ParseElemsFrom(text, broken, flags, es) == Some(Parsed(Array(es + [v.value]), Lex(next, broken).rest))
    ensures v.Some? && Lex(next, broken).token == Punct(COMMA) && Lex(Lex(next, broken).rest, broken).token != Eof ==>
              ParseElemsFrom(text, broken, flags, es) == ParseElemsFrom(Lex(next, broken).rest, broken, flags, es + [v.value])
  {
    hide Lex, ParseValue;
  }

  lemma {:induction false} ItemsParsed(items: seq<Item>, flags: nat, es: seq<Json>, rest: bytes, broken: bool)
    requires items != [] && ItemsFormed(items)
    ensures ParseElemsFrom(ItemsText(items) + [RBRACKET] + rest, broken, flags, es)
            == Expected(ArrayOf(ItemsMeaning(items, flags, es)), rest)
    ensures Begins(Lex(ItemsText(items) + [RBRACKET] + rest, broken).token)
    decreases items
  {
    hide Lex, Rfc8259.Ws, NodeText, Formed, Meaning, ItemsText, ParseFrom, ParseElemsFrom, Delimited;
    var i := items[0];
    var v := Meaning(i.node, flags);
    var text := ItemsText(items) + [RBRACKET] + rest;
    var tail := ItemsText(items[1..]) + [RBRACKET] + rest;
    var next := if |items| == 1 then i.behind + [RBRACKET] + rest else i.behind + [COMMA] + tail;
    ItemsShape(items, rest);
    PunctRead(i.behind, if |items| == 1 then RBRACKET else COMMA, if |items| == 1 then rest else tail, broken);
    NodeParsed(i.node, flags, next, broken);
    Skipping(i.before, NodeText(i.node) + next, broken, flags);
    if |items| > 1 && v.Some? {
      ItemsParsed(items[1..], flags, es + [v.value], rest, broken);
    }
    ItemStep(text, next, v, broken, flags, es);
  }

  lemma ItemsUnfold(items: seq<Item>)
    requires items != []
    ensures var i := items[0];
            ItemsText(items) == i.before + NodeText(i.node) + i.behind + if |items| == 1 then [] else [COMMA] + ItemsText(items[1..])
  {
    hide NodeText;
  }

  /** What follows a value: its white space, and the end of the container or a comma and the rest. */
  lemma Following(behind: bytes, t: bytes, u: bytes, close: byte, rest: bytes)
    ensures t == [] ==> behind + (t + [close] + rest) == behind + [close] + rest
    ensures t == [COMMA] + u ==> behind + (t + [close] + rest) == behind + [COMMA] + (u + [close] + rest)
  {
    assert [] + [close] == [close];
    assert behind + ([COMMA] + u + [close] + rest) == behind + [COMMA] + (u + [close] + rest);
  }

  lemma FiveParts(a: bytes, b: bytes, c: bytes, t: bytes, rest: bytes)
    ensures a + b + c + t + [RBRACKET] + rest == a + (b + (c + (t + [RBRACKET] + rest)))
  {
    var g := t + [RBRACKET] + rest;
    assert c + t + [RBRACKET] + rest == c + g;
    assert b + c + t + [RBRACKET] + rest == b + (c + g);
  }

  lemma ItemsShape(items: seq<Item>, rest: bytes)
    requires items != []
    ensures var i := items[0];
            var tail := ItemsText(items[1..]) + [RBRACKET] + rest;
            ItemsText(items) + [RBRACKET] + rest
            == i.before + (NodeText(i.node) + if |items| == 1 then i.behind + [RBRACKET] + rest else i.behind + [COMMA] + tail)
  {
    hide NodeText, ItemsText;
    var i := items[0];
    var t := if |items| == 1 then [] else [COMMA] + ItemsText(items[1..]);
    ItemsUnfold(items);
    FiveParts(i.before, NodeText(i.node), i.behind, t, rest);
    Following(i.behind, t, ItemsText(items[1..]), RBRACKET, rest);
  }

  lemma {:induction false} BracesParsed(n: Node, flags: nat, rest: bytes, broken: bool)
    requires n.Braces? && Formed(n)
    ensures ParseFrom(NodeText(n) + rest, broken, flags) == Expected(Meaning(n, flags), rest)
    ensures Begins(Lex(NodeText(n) + rest, broken).token)
    decreases n, 1
  {
    hide Lex, Rfc8259.Ws, PairsText, PairsFormed, PairsMeaning, ParseFrom, ParseMembersFrom;
    var body := if n.pairs == [] then n.space else PairsText(n.pairs);
    var s := body + [RBRACE] + rest;
    NoItems(flags);
    Opened(LBRACE, body, RBRACE, rest);
    PunctReadFirst(LBRACE, s, broken);
    ObjectBegins(s, broken, flags);
    if n.pairs == [] {
      PunctRead(n.space, RBRACE, rest, broken);
    } else {
      PairsParsed(n.pairs, flags, [], 0, rest, broken);
    }
  }

  /** One turn of the loop of `parse_object`, whether the key is new or not. */
  lemma PairStep(text: bytes, s1: bytes, s2: bytes, v: Option<Json>, next: bytes, broken: bool, flags: nat, ms: seq<Member>, serial: nat)
    requires Lex(text, broken).token.Str? ==> Lex(text, broken).rest == s1
    requires Lex(s1, broken) == Lexed(Punct(COLON), s2) && ParseFrom(s2, broken, flags) == Expected(v, next)
    ensures var t := Lex(text, broken).token;
            var r := ParseMembersFrom(text, broken, flags, ms, serial);
            if !t.Str? || v.None? || (RejectDuplicates(flags) && Find(ms, t.s) < |ms|) then r == None
            else
              var l, ms' := Lex(next, broken), SetMember(ms, t.s, serial, v.value);
              && (l.token == Punct(RBRACE) ==> r == Some(Parsed(Object(ms'), l.rest)))
              && (l.token == Punct(COMMA) ==> r == ParseMembersFrom(l.rest, broken, flags, ms', serial + 1))
  {
    hide Lex, ParseValue, SetMember, Find;
  }

  lemma {:induction false} PairsParsed(pairs: seq<Pair>, flags: nat, ms: seq<Member>, serial: nat, rest: bytes, broken: bool)
    requires pairs != [] && PairsFormed(pairs)
    ensures ParseMembersFrom(PairsText(pairs) + [RBRACE] + rest, broken, flags, ms, serial)
            == Expected(ObjectOf(PairsMeaning(pairs, flags, ms, serial)), rest)
    ensures Lex(PairsText(pairs) + [RBRACE] + rest, broken).token != Punct(RBRACE)
    decreases pairs
  {
    hide Lex, Rfc8259.Ws, NodeText, Formed, Meaning, PairsText, ParseFrom, ParseMembersFrom, Delimited, Unescape, Scanned, SetMember, Find;
    var p := pairs[0];
    var k, v := Unescape(p.key), Meaning(p.node, flags);
    var text := PairsText(pairs) + [RBRACE] + rest;
    var tail := PairsText(pairs[1..]) + [RBRACE] + rest;
    var next := if |pairs| == 1 then p.behind + [RBRACE] + rest else p.behind + [COMMA] + tail;
    var s2 := p.beforeValue + (NodeText(p.node) + next);
    var s1 := p.behindKey + [COLON] + s2;
    var quoted := [QUOTE] + p.key + [QUOTE] + s1;
    PairsShape(pairs, rest);
    PunctRead(p.behind, if |pairs| == 1 then RBRACE else COMMA, if |pairs| == 1 then rest else tail, broken);
    NodeParsed(p.node, flags, next, broken);
    Skipping(p.beforeValue, NodeText(p.node) + next, broken, flags);
    PunctRead(p.behindKey, COLON, s2, broken);
    QuotedLexed(p.key, s1, broken);
    Skipping(p.before, quoted, broken, flags);
    if |pairs| > 1 && k.Done? && v.Some? {
      PairsParsed(pairs[1..], flags, SetMember(ms, k.s, serial, v.value), serial + 1, rest, broken);
    }
    PairStep(text, s1, s2, v, next, broken, flags, ms, serial);
  }

  lemma Skipping(ws: bytes, s: bytes, broken: bool, flags: nat)
    requires Rfc8259.Ws(ws)
    ensures Lex(ws + s, broken) == Lex(s, broken) && ParseFrom(ws + s, broken, flags) == ParseFrom(s, broken, flags)
  {
    hide Lex;
    SpacesSkipped(ws, s, broken);
    SameLex(ws + s, s, broken, flags);
  }

  lemma PairsUnfold(pairs: seq<Pair>)
    requires pairs != []
    ensures var p := pairs[0];
            PairsText(pairs) == p.before + [QUOTE] + p.key + [QUOTE] + p.behindKey + [COLON] + p.beforeValue + NodeText(p.node) + p.behind
                                + if |pairs| == 1 then [] else [COMMA] + PairsText(pairs[1..])
  {
    hide NodeText;
  }

  lemma PairsShape(pairs: seq<Pair>, rest: bytes)
    requires pairs != []
    ensures var p := pairs[0];
            var tail := PairsText(pairs[1..]) + [RBRACE] + rest;
            var next := if |pairs| == 1 then p.behind + [RBRACE] + rest else p.behind + [COMMA] + tail;
            PairsText(pairs) + [RBRACE] + rest
            == p.before + ([QUOTE] + p.key + [QUOTE] + (p.behindKey + [COLON] + (p.beforeValue + (NodeText(p.node) + next))))
  {
    hide NodeText, PairsText;
    var p := pairs[0];
    var t := if |pairs| == 1 then [] else [COMMA] + PairsText(pairs[1..]);
    PairsUnfold(pairs);
    Following(p.behind, t, PairsText(pairs[1..]), RBRACE, rest);
    EightParts(p.before, p.key, p.behindKey, p.beforeValue, NodeText(p.node), p.behind, t, rest);
  }

  lemma EightParts(a: bytes, b: bytes, c: bytes, d: bytes, e: bytes, f: bytes, t: bytes, rest: bytes)
    ensures a + [QUOTE] + b + [QUOTE] + c + [COLON] + d + e + f + t + [RBRACE] + rest
            == a + ([QUOTE] + b + [QUOTE] + (c + [COLON] + (d + (e + (f + (t + [RBRACE] + rest))))))
  {
    var g := f + (t + [RBRACE] + rest);
    assert f + t + [RBRACE] + rest == g;
    var h := d + (e + g);
    assert d + e + f + t + [RBRACE] + rest == h;
    var i := c + [COLON] + h;
    assert c + [COLON] + d + e + f + t + [RBRACE] + rest == i;
    var k := [QUOTE] + b + [QUOTE] + i;
    assert [QUOTE] + b + [QUOTE] + c + [COLON] + d + e + f + t + [RBRACE] + rest == k;
  }

  // ---------------------------------------------------------------- documents

  /** White space, an array or object, white space. */
  ghost predicate IsDocument(s: bytes, before: bytes, n: Node, behind: bytes) {
    Opens(s, before, n, behind) && Rfc8259.Ws(behind)
  }

  lemma ContainerFirst(n: Node, rest: bytes, broken: bool)
    requires n.Brackets? || n.Braces?
    ensures Lex(NodeText(n) + rest, broken).token == Punct(if n.Brackets? then LBRACKET else LBRACE)
  {
    hide Lex;
    var c := if n.Brackets? then LBRACKET else LBRACE;
    var t := NodeText(n) + rest;
    assert t[0] == c && t == [c] + t[1..];
    PunctReadFirst(c, t[1..], broken);
  }

  lemma EndReached(behind: bytes)
    requires Rfc8259.Ws(behind)
    ensures Lex(behind, false).token == Eof
  {
    SpacesSkipped(behind, [], false);
    assert behind + [] == behind;
  }

  /** A document whose bytes are UTF-8 loads to its value, and does not load if it has none. */
  lemma DocumentLoads(s: bytes, before: bytes, n: Node, behind: bytes, flags: nat)
    requires IsDocument(s, before, n, behind) && Valid(s)
    ensures Load(s, flags) == Meaning(n, flags)
  {
    hide Lex, LoadText.ParseValue, Formed, Meaning, NodeText, Rfc8259.Ws, Valid, ValidPrefix;
    ValidPrefixOfValid(s);
    assert s[..|s|] == s && s == before + (NodeText(n) + behind);
    Skipping(before, NodeText(n) + behind, false, flags);
    NodeParsed(n, flags, behind, false);
    ContainerFirst(n, behind, false);
    EndReached(behind);
  }

  lemma ValueOfContainer(n: Node, flags: nat)
    requires Meaning(n, flags).Some? && (Meaning(n, flags).value.Array? || Meaning(n, flags).value.Object?)
    ensures n.Brackets? || n.Braces?
  {}

  lemma TopIsContainer(s: bytes, broken: bool, flags: nat)
    requires Lex(s, broken).token == Punct(LBRACKET) || Lex(s, broken).token == Punct(LBRACE)
    ensures var p := ParseFrom(s, broken, flags);
            p.Some? ==> p.value.value.Array? || p.value.value.Object?
  {
    hide Lex;
    var l := Lex(s, broken);
    if ParseFrom(s, broken, flags).Some? {
      if l.token == Punct(LBRACE) {
        ObjectValue(l.rest, broken, flags);
      } else {
        ArrayValue(l.rest, broken, flags);
      }
    }
  }

  /** What loads is a document. */
  lemma LoadedIsDocument(s: bytes, flags: nat) returns (before: bytes, n: Node, behind: bytes)
    requires Load(s, flags).Some? && !DisableEofCheck(flags)
    ensures IsDocument(s, before, n, behind) && Valid(s) && Meaning(n, flags) == Load(s, flags)
  {
    hide Lex, LoadText.ParseValue, Formed, Meaning, NodeText, Rfc8259.Ws, Valid;
    var k := ValidPrefix(s);
    var t := s[..k];
    before, n := ParsedText(t, k < |s|, flags);
    TopIsContainer(t, k < |s|, flags);
    ValueOfContainer(n, flags);
    behind := ParseFrom(t, k < |s|, flags).value.rest;
    EofText(behind, k < |s|);
    ValidPrefixIsValid(s);
    assert t == s;
  }

  /** White space and an array or object at the start, whatever follows. */
  ghost predicate Opens(s: bytes, before: bytes, n: Node, rest: bytes) {
    Rfc8259.Ws(before) && Formed(n) && (n.Brackets? || n.Braces?) && s == before + NodeText(n) + rest
  }

  lemma {:induction false} ValidPrefixCovers(s: bytes, t: bytes)
    requires Valid(s)
    ensures ValidPrefix(s + t) >= |s|
    decreases |s|
  {
    hide Next;
    if s != [] {
      var n := Next(s).value.size;
      NextPrefix(s, t);
      ValidPrefixCovers(s[n..], t);
      assert (s + t)[n..] == s[n..] + t;
    }
  }

  lemma ThreeCut(a: bytes, b: bytes, c: bytes, k: nat)
    requires |a| + |b| <= k <= |a + b + c|
    ensures (a + b + c)[..k] == a + (b + c[..k - |a| - |b|])
  {}

  /** Without the end-of-file check a document is loaded from the start of the input, whose rest is not looked at. */
  lemma OpeningLoads(s: bytes, before: bytes, n: Node, rest: bytes, flags: nat)
    requires Opens(s, before, n, rest) && Valid(before + NodeText(n)) && DisableEofCheck(flags)
    ensures Load(s, flags) == Meaning(n, flags)
  {
    hide Lex, LoadText.ParseValue, Formed, Meaning, NodeText, Rfc8259.Ws, Valid, ValidPrefix;
    ValidPrefixCovers(before + NodeText(n), rest);
    var k := ValidPrefix(s);
    var tail := rest[..k - |before| - |NodeText(n)|];
    ThreeCut(before, NodeText(n), rest, k);
    Skipping(before, NodeText(n) + tail, k < |s|, flags);
    NodeParsed(n, flags, tail, k < |s|);
    ContainerFirst(n, tail, k < |s|);
  }

  lemma ContainerEnd(n: Node)
    requires n.Brackets? || n.Braces?
    ensures |NodeText(n)| > 1 && NodeText(n)[|NodeText(n)| - 1] < 0x80
  {}

  lemma ValidUpTo(a: bytes, b: bytes, c: bytes)
    requires Valid(a + b + c) && b != [] && b[|b| - 1] < 0x80
    ensures Valid(a + b)
  {
    var s, i := a + b + c, |a| + |b| - 1;
    ValidSplit(s, i);
    assert a + b == s[..i] + [s[i]];
    NextOfAscii([s[i]]);
    ValidConcat(s[..i], [s[i]]);
  }

  lemma LoadedOpens(s: bytes, flags: nat) returns (before: bytes, n: Node, rest: bytes)
    requires Load(s, flags).Some? && DisableEofCheck(flags)
    ensures Opens(s, before, n, rest) && Valid(before + NodeText(n)) && Meaning(n, flags) == Load(s, flags)
  {
    hide Lex, LoadText.ParseValue, Formed, Meaning, NodeText, Rfc8259.Ws, Valid;
    var k := ValidPrefix(s);
    var t := s[..k];
    before, n := ParsedText(t, k < |s|, flags);
    TopIsContainer(t, k < |s|, flags);
    ValueOfContainer(n, flags);
    var tail := ParseFrom(t, k < |s|, flags).value.rest;
    rest := tail + s[k..];
    ValidPrefixIsValid(s);
    ContainerEnd(n);
    ValidUpTo(before, NodeText(n), tail);
    Resumed(s, k, before + NodeText(n), tail);
  }

  lemma Resumed(s: bytes, k: nat, a: bytes, b: bytes)
    requires k <= |s| && s[..k] == a + b
    ensures s == a + (b + s[k..])
  {
    assert s == s[..k] + s[k..];
  }

  /** A document, all of whose bytes are UTF-8, is the whole input, or its start without the end-of-file check. */
  ghost predicate Accepted(s: bytes, before: bytes, n: Node, behind: bytes, flags: nat) {
    && Opens(s, before, n, behind)
    && if DisableEofCheck(flags) then Valid(before + NodeText(n)) else Rfc8259.Ws(behind) && Valid(s)
  }

  /** Exactly what is a document of the grammar whose bytes are UTF-8 and which has a value loads, and to that value. */
  lemma LoadIffGrammar(s: bytes, flags: nat, v: Json)
    ensures Load(s, flags) == Some(v) <==>
              exists before, n, behind :: Accepted(s, before, n, behind, flags) && Meaning(n, flags) == Some(v)
  {
    hide Load, Meaning, Valid, Formed, Rfc8259.Ws, NodeText;
    if Load(s, flags) == Some(v) {
      var before, n, behind;
      if DisableEofCheck(flags) {
        before, n, behind := LoadedOpens(s, flags);
      } else {
        before, n, behind := LoadedIsDocument(s, flags);
      }
      assert Accepted(s, before, n, behind, flags);
    }
    if before, n, behind :| Accepted(s, before, n, behind, flags) && Meaning(n, flags) == Some(v) {
      if DisableEofCheck(flags) {
        OpeningLoads(s, before, n, behind, flags);
      } else {
        DocumentLoads(s, before, n, behind, flags);
      }
    }
  }

  // ---------------------------------------------------------------- the standard

  /** The grammar of RFC 8259 as it stands: no NUL byte after anything, and hexadecimal digits in escapes. */
  ghost predicate Standard(n: Node)
    decreases n
  {
    match n
    case Scalar(text, nul) => !nul && (IsName(text) || Rfc8259Number(text))
    case Quoted(raw) => Rfc8259Chars(raw)
    case Brackets(space, items) => Rfc8259.Ws(space) && forall i :: 0 <= i < |items| ==>
      Rfc8259.Ws(items[i].before) && Rfc8259.Ws(items[i].behind) && Standard(items[i].node)
    case Braces(space, pairs) => Rfc8259.Ws(space) && forall i :: 0 <= i < |pairs| ==>
      && Rfc8259.Ws(pairs[i].before) && Rfc8259.Ws(pairs[i].behindKey) && Rfc8259.Ws(pairs[i].beforeValue) && Rfc8259.Ws(pairs[i].behind)
      && Rfc8259Chars(pairs[i].key) && Standard(pairs[i].node)
  }

  /** No NUL byte after a number or a name, and a hexadecimal digit wherever one belongs. */
  ghost predicate Exact(n: Node)
    decreases n
  {
    match n
    case Scalar(_, nul) => !nul
    case Quoted(raw) => HexEverywhere(raw)
    case Brackets(_, items) => forall i :: 0 <= i < |items| ==> Exact(items[i].node)
    case Braces(_, pairs) => forall i :: 0 <= i < |pairs| ==> HexEverywhere(pairs[i].key) && Exact(pairs[i].node)
  }

  lemma {:induction false} ItemsFormedAll(items: seq<Item>)
    ensures ItemsFormed(items) <==> forall i :: 0 <= i < |items| ==>
              Rfc8259.Ws(items[i].before) && Rfc8259.Ws(items[i].behind) && Formed(items[i].node)
    decreases items
  {
    hide Rfc8259.Ws, Formed;
    if items != [] {
      ItemsFormedAll(items[1..]);
      assert forall i :: 0 < i < |items| ==> items[i] == items[1..][i - 1];
    }
  }

  lemma {:induction false} PairsFormedAll(pairs: seq<Pair>)
    ensures PairsFormed(pairs) <==> forall i :: 0 <= i < |pairs| ==> PairFormed(pairs[i])
    decreases pairs
  {
    hide Rfc8259.Ws, Formed, Scanned;
    if pairs != [] {
      PairsFormedAll(pairs[1..]);
      assert forall i :: 0 < i < |pairs| ==> pairs[i] == pairs[1..][i - 1];
    }
  }

  /** The chars of a literal are what the first pass lets pass, with real digits. */
  lemma CharsIff(raw: bytes)
    ensures Rfc8259Chars(raw) <==> Scanned(raw) && HexEverywhere(raw)
  {
    hide Rfc8259Chars, HexEverywhere;
    if Rfc8259Chars(raw) {
      var s := raw + [QUOTE];
      assert s[..|raw|] == raw && s[|raw|] == QUOTE;
      LiteralScanned(s, |raw|);
    }
    if Scanned(raw) {
      GrammarIffHex(raw);
    }
  }

  /** The texts of the standard are those of the grammar that use neither of its two liberties. */
  lemma {:induction false} StandardIffExact(n: Node)
    ensures Standard(n) <==> Formed(n) && Exact(n)
    decreases n
  {
    hide Rfc8259.Ws, Rfc8259Chars, HexEverywhere, Scanned, ItemsFormed, PairsFormed;
    match n
    case Scalar(_, _) =>
    case Quoted(raw) => CharsIff(raw);
    case Brackets(_, items) =>
      ItemsFormedAll(items);
      forall i | 0 <= i < |items| ensures Standard(items[i].node) <==> Formed(items[i].node) && Exact(items[i].node) {
        StandardIffExact(items[i].node);
      }
    case Braces(_, pairs) =>
      PairsFormedAll(pairs);
      forall i | 0 <= i < |pairs|
        ensures Rfc8259Chars(pairs[i].key) <==> Scanned(pairs[i].key) && HexEverywhere(pairs[i].key)
        ensures Standard(pairs[i].node) <==> Formed(pairs[i].node) && Exact(pairs[i].node)
      {
        CharsIff(pairs[i].key);
        StandardIffExact(pairs[i].node);
      }
  }

  /** A text of RFC 8259 with an array or object at the top loads to its value, and fails to load exactly if it has none:
      for an integer beyond 64 bits, an unpaired surrogate, a NUL character or a key that is rejected. */
  lemma StandardLoads(s: bytes, before: bytes, n: Node, behind: bytes, flags: nat)
    requires Rfc8259.Ws(before) && Rfc8259.Ws(behind) && Standard(n) && (n.Brackets? || n.Braces?)
    requires s == before + NodeText(n) + behind && Valid(s)
    ensures Load(s, flags) == Meaning(n, flags)
  {
    hide Rfc8259.Ws, Standard, Formed, Exact, NodeText, Load, Meaning, Valid;
    StandardIffExact(n);
    DocumentLoads(s, before, n, behind, flags);
  }
}
