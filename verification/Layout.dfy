/** How the flags of `do_dump` lay out a text: every layout comes from the text without white space by one pass that knows
    brackets, commas and colons, and taking the white space out again gives that text. */
module Layout {
  import opened Options
  import opened Utf8
  import opened Values
  import opened Arrange
  import opened DumpText
  import opened StringRoundTrip
  import opened RoundTrip
  import opened StrictStrings
  import opened Printed
  import Rfc8259

  // ---------------------------------------------------------------- one pass over a text

  /** A line break and the indentation of `depth`, if the flags indent at all. */
  function Line(flags: nat, depth: nat): (r: bytes) {
    var width := flags % 32;
    if width == 0 then [] else [0x0A] + seq(width * depth, _ => 0x20)
  }

  /** JSON_COMPACT. */
  predicate Tight(flags: nat) { flags / 32 % 2 == 1 }

  /** What follows a comma on `depth`, and a colon. */
  function BehindComma(flags: nat, depth: nat): bytes {
    if flags % 32 > 0 then Line(flags, depth) else if Tight(flags) then [] else [0x20]
  }

  function BehindColon(flags: nat): bytes {
    if Tight(flags) then [] else [0x20]
  }

  predicate Opens(c: byte) { c == Rfc8259.BEGIN_ARRAY || c == Rfc8259.BEGIN_OBJECT }

  predicate Closes(c: byte) { c == Rfc8259.END_ARRAY || c == Rfc8259.END_OBJECT }

  /** How far a literal reaches after its opening quotation mark. */
  function LiteralRest(s: bytes): (n: nat)
    ensures n <= |s|
    decreases |s|
  {
    if s == [] then 0
    else if s[0] == Rfc8259.QUOTATION_MARK then 1
    else if s[0] == Rfc8259.ESCAPE && |s| >= 2 then 2 + LiteralRest(s[2..])
    else 1 + LiteralRest(s[1..])
  }

  /** The text `s`, which begins within `depth` brackets, with the line breaks and spaces that the flags ask for: after an opening
      and before a closing bracket unless nothing is between them, after commas and after colons. */
  function LaidOut(s: bytes, flags: nat, depth: nat): (r: bytes)
    decreases |s|
  {
    if s == [] then []
    else if s[0] == Rfc8259.QUOTATION_MARK then
      var n := 1 + LiteralRest(s[1..]);
      s[..n] + LaidOut(s[n..], flags, depth)
    else if Opens(s[0]) then
      if |s| >= 2 && Closes(s[1]) then s[..2] + LaidOut(s[2..], flags, depth)
      else [s[0]] + (Line(flags, depth + 1) + LaidOut(s[1..], flags, depth + 1))
    else if Closes(s[0]) then
      var outside := if depth > 0 then depth - 1 else 0;
      Line(flags, outside) + ([s[0]] + LaidOut(s[1..], flags, outside))
    else if s[0] == Rfc8259.VALUE_SEPARATOR then [s[0]] + (BehindComma(flags, depth) + LaidOut(s[1..], flags, depth))
    else if s[0] == Rfc8259.NAME_SEPARATOR then [s[0]] + (BehindColon(flags) + LaidOut(s[1..], flags, depth))
    else [s[0]] + LaidOut(s[1..], flags, depth)
  }

  /** The text without the white space outside its literals. */
  function Squeezed(s: bytes): (r: bytes)
    decreases |s|
  {
    if s == [] then []
    else if s[0] == Rfc8259.QUOTATION_MARK then
      var n := 1 + LiteralRest(s[1..]);
      s[..n] + Squeezed(s[n..])
    else if Rfc8259.IsWs(s[0]) then Squeezed(s[1..])
    else [s[0]] + Squeezed(s[1..])
  }

  /** The same flags, but JSON_COMPACT and no indentation. */
  function Bare(flags: nat): (r: nat)
    ensures r % 32 == 0 && r / 32 % 2 == 1 && r / 64 == flags / 64
  {
    BareBits(flags / 64);
    flags / 64 * 64 + 32
  }

  lemma BareBits(q: nat)
    ensures (q * 64 + 32) % 32 == 0 && (q * 64 + 32) / 32 % 2 == 1 && (q * 64 + 32) / 64 == q
  {
    assert (q * 64 + 32) / 32 == 2 * q + 1;
  }

  // ---------------------------------------------------------------- literals and other runs

  lemma AfterEscape(raw: bytes)
    requires Rfc8259Chars(raw) && raw != [] && raw[0] == Rfc8259.ESCAPE
    ensures |raw| >= 2 && Rfc8259Chars(raw[2..])
  {
    if HexEscape(raw) && Rfc8259Chars(raw[6..]) {
      var t := raw[2..];
      assert t[4..] == raw[6..];
      assert t[3..][1..] == t[4..] && t[2..][1..] == t[3..] && t[1..][1..] == t[2..];
      assert Rfc8259Chars(t[3..]);
      assert Rfc8259Chars(t[2..]);
      assert Rfc8259Chars(t[1..]);
    }
  }

  lemma {:induction false} LiteralEnds(raw: bytes, rest: bytes)
    requires Rfc8259Chars(raw)
    ensures LiteralRest(raw + [Rfc8259.QUOTATION_MARK] + rest) == |raw| + 1
    decreases |raw|
  {
    var s := raw + [Rfc8259.QUOTATION_MARK] + rest;
    if raw == [] {
    } else if raw[0] == Rfc8259.ESCAPE {
      AfterEscape(raw);
      LiteralEnds(raw[2..], rest);
      assert s[2..] == raw[2..] + [Rfc8259.QUOTATION_MARK] + rest;
    } else {
      LiteralEnds(raw[1..], rest);
      assert s[1..] == raw[1..] + [Rfc8259.QUOTATION_MARK] + rest;
    }
  }

  lemma LiteralLaidOut(raw: bytes, rest: bytes, flags: nat, depth: nat)
    requires Rfc8259Chars(raw)
    ensures var lit := [Rfc8259.QUOTATION_MARK] + raw + [Rfc8259.QUOTATION_MARK];
            LaidOut(lit + rest, flags, depth) == lit + LaidOut(rest, flags, depth) && Squeezed(lit + rest) == lit + Squeezed(rest)
  {
    hide Rfc8259Chars;
    var lit := [Rfc8259.QUOTATION_MARK] + raw + [Rfc8259.QUOTATION_MARK];
    var s := lit + rest;
    LiteralEnds(raw, rest);
    assert s[1..] == raw + [Rfc8259.QUOTATION_MARK] + rest;
    assert s[..|lit|] == lit && s[|lit|..] == rest;
  }

  /** What neither pass touches. */
  predicate Untouched(c: byte) {
    !Opens(c) && !Closes(c) && !Rfc8259.IsWs(c)
    && c != Rfc8259.QUOTATION_MARK && c != Rfc8259.VALUE_SEPARATOR && c != Rfc8259.NAME_SEPARATOR
  }

  lemma UntouchedLaidOut(c: byte, rest: bytes, flags: nat, depth: nat)
    requires Untouched(c)
    ensures LaidOut([c] + rest, flags, depth) == [c] + LaidOut(rest, flags, depth) && Squeezed([c] + rest) == [c] + Squeezed(rest)
  {
    assert ([c] + rest)[1..] == rest;
  }

  lemma {:induction false} RunLaidOut(t: bytes, rest: bytes, flags: nat, depth: nat)
    requires forall i :: 0 <= i < |t| ==> Untouched(t[i])
    ensures LaidOut(t + rest, flags, depth) == t + LaidOut(rest, flags, depth) && Squeezed(t + rest) == t + Squeezed(rest)
    decreases |t|
  {
    hide LaidOut, Squeezed, Untouched;
    if t == [] {
      assert t + rest == rest;
    } else {
      RunLaidOut(t[1..], rest, flags, depth);
      UntouchedLaidOut(t[0], t[1..] + rest, flags, depth);
      assert t + rest == [t[0]] + (t[1..] + rest);
      assert t == [t[0]] + t[1..];
    }
  }

  lemma {:induction false} SpacesSqueezed(ws: bytes, rest: bytes)
    requires Rfc8259.Ws(ws)
    ensures Squeezed(ws + rest) == Squeezed(rest)
    decreases |ws|
  {
    if ws == [] {
      assert ws + rest == rest;
    } else {
      SpacesSqueezed(ws[1..], rest);
      assert (ws + rest)[1..] == ws[1..] + rest;
    }
  }

  // ---------------------------------------------------------------- brackets, commas and colons

  lemma OpenLaidOut(c: byte, rest: bytes, flags: nat, depth: nat)
    requires Opens(c) && rest != [] && !Closes(rest[0])
    ensures LaidOut([c] + rest, flags, depth) == [c] + (Line(flags, depth + 1) + LaidOut(rest, flags, depth + 1))
  {
    var s := [c] + rest;
    assert s[1..] == rest && s[1] == rest[0];
  }

  lemma EmptyLaidOut(o: byte, c: byte, rest: bytes, flags: nat, depth: nat)
    requires Opens(o) && Closes(c)
    ensures LaidOut([o, c] + rest, flags, depth) == [o, c] + LaidOut(rest, flags, depth)
  {
    var s := [o, c] + rest;
    assert s[..2] == [o, c] && s[2..] == rest;
  }

  lemma CloseLaidOut(c: byte, rest: bytes, flags: nat, depth: nat)
    requires Closes(c)
    ensures LaidOut([c] + rest, flags, depth + 1) == Line(flags, depth) + ([c] + LaidOut(rest, flags, depth))
  {
    assert ([c] + rest)[1..] == rest;
  }

  lemma CommaLaidOut(rest: bytes, flags: nat, depth: nat)
    ensures LaidOut([COMMA] + rest, flags, depth) == [COMMA] + (BehindComma(flags, depth) + LaidOut(rest, flags, depth))
  {
    assert ([COMMA] + rest)[1..] == rest;
  }

  lemma ColonLaidOut(rest: bytes, flags: nat, depth: nat)
    ensures LaidOut([COLON] + rest, flags, depth) == [COLON] + (BehindColon(flags) + LaidOut(rest, flags, depth))
  {
    assert ([COLON] + rest)[1..] == rest;
  }

  lemma MarkSqueezed(c: byte, rest: bytes)
    requires c != Rfc8259.QUOTATION_MARK && !Rfc8259.IsWs(c)
    ensures Squeezed([c] + rest) == [c] + Squeezed(rest)
  {
    assert ([c] + rest)[1..] == rest;
  }

  /** What the printer puts in is what the pass puts in. */
  lemma LayoutMatches(flags: nat, depth: nat)
    ensures IndentText(flags, depth, false) == Line(flags, depth)
    ensures IndentText(flags, depth, true) == BehindComma(flags, depth)
    ensures Separator(flags) == [COLON] + BehindColon(flags)
  {
    if Indent(flags) > 0 {
      var a, b := Spaces(Indent(flags) * depth), seq(Indent(flags) * depth, _ => 0x20);
      assert forall i :: 0 <= i < |a| ==> a[i] == b[i];
      assert a == b;
    }
  }

  lemma LayoutIsWs(flags: nat, depth: nat)
    ensures Rfc8259.Ws(Line(flags, depth)) && Rfc8259.Ws(BehindComma(flags, depth)) && Rfc8259.Ws(BehindColon(flags))
  {}

  lemma BareLayout(flags: nat, depth: nat)
    ensures Line(Bare(flags), depth) == [] && BehindComma(Bare(flags), depth) == [] && BehindColon(Bare(flags)) == []
    ensures EnsureAscii(Bare(flags)) == EnsureAscii(flags) && SortKeys(Bare(flags)) == SortKeys(flags)
    ensures PreserveOrder(Bare(flags)) == PreserveOrder(flags)
  {
    hide Bare;
    Bits(flags / 64, flags);
    Bits(Bare(flags) / 64, Bare(flags));
  }

  lemma Bits(q: nat, flags: nat)
    requires q == flags / 64
    ensures EnsureAscii(flags) == (q % 2 == 1) && SortKeys(flags) == (q / 2 % 2 == 1) && PreserveOrder(flags) == (q / 4 % 2 == 1)
  {}

  // ---------------------------------------------------------------- values

  lemma NumberUntouched(n: int)
    ensures forall i :: 0 <= i < |IntegerText(n)| ==> Untouched(IntegerText(n)[i])
  {
    DecimalDigits(if n < 0 then -n else n);
  }

  lemma StringLaidOut(s: bytes, rest: bytes, flags: nat, depth: nat)
    requires Valid(s)
    ensures StringText(s, EnsureAscii(Bare(flags))).text == StringText(s, EnsureAscii(flags)).text
    ensures var t := StringText(s, EnsureAscii(flags)).text;
            && t != [] && t[0] == Rfc8259.QUOTATION_MARK
            && LaidOut(t + rest, flags, depth) == t + LaidOut(rest, flags, depth) && Squeezed(t + rest) == t + Squeezed(rest)
  {
    hide LaidOut, Squeezed, EscapeAll, Valid, StringBody, EnsureAscii, Bare;
    BareLayout(flags, depth);
    var raw := EscapeAll(s, EnsureAscii(flags));
    StringBodyIff([], s, EnsureAscii(flags));
    assert StringText(s, EnsureAscii(flags)).text == [QUOTE] + raw + [QUOTE];
    EscapeAllChars(s, EnsureAscii(flags));
    LiteralLaidOut(raw, rest, flags, depth);
  }

  lemma LeafLaidOut(v: Json, flags: nat, depth: nat, d: nat, rest: bytes)
    requires Document(v) && !v.Array? && !v.Object?
    ensures var t := Plain(v, flags, depth);
            && Plain(v, Bare(flags), d) == t && t != [] && !Closes(t[0])
            && LaidOut(t + rest, flags, depth) == t + LaidOut(rest, flags, depth) && Squeezed(t + rest) == t + Squeezed(rest)
  {
    hide LaidOut, Squeezed, StringText, EnsureAscii, Bare, Decimal;
    match v
    case Integer(n) =>
      NumberUntouched(n);
      RunLaidOut(IntegerText(n), rest, flags, depth);
      assert Untouched(IntegerText(n)[0]);
    case String(s) => StringLaidOut(s, rest, flags, depth);
    case _ => RunLaidOut(Plain(v, flags, depth), rest, flags, depth);
  }

  lemma ContainerFirst(v: Json, flags: nat, depth: nat)
    requires v.Array? || v.Object?
    ensures Plain(v, flags, depth) != [] && Opens(Plain(v, flags, depth)[0])
  {
    hide PlainElems, PlainMembers, IndentText;
  }

  lemma FirstOpens(v: Json, flags: nat, depth: nat)
    requires Document(v)
    ensures Plain(v, Bare(flags), depth) != [] && !Closes(Plain(v, Bare(flags), depth)[0])
  {
    hide Plain, Document, Bare;
    if v.Array? || v.Object? {
      ContainerFirst(v, Bare(flags), depth);
    } else {
      LeafLaidOut(v, flags, depth, depth, []);
    }
  }

  /** The text without white space, laid out, is the text with the flags. */
  lemma {:induction false} ValueLaidOut(v: Json, flags: nat, depth: nat, d: nat, rest: bytes)
    requires Document(v)
    ensures LaidOut(Plain(v, Bare(flags), d) + rest, flags, depth) == Plain(v, flags, depth) + LaidOut(rest, flags, depth)
    decreases v, 1
  {
    hide LaidOut, Bare, Line, IndentText, PlainElems, PlainMembers;
    BareLayout(flags, d + 1);
    LayoutMatches(Bare(flags), d + 1);
    LayoutMatches(flags, depth + 1);
    match v
    case Array(elems) =>
      if elems == [] {
        EmptyLaidOut(LBRACKET, RBRACKET, rest, flags, depth);
      } else {
        var body := PlainElems(elems, Bare(flags), d) + [RBRACKET] + rest;
        ElemsLaidOut(elems, flags, depth, d, rest);
        OpenLaidOut(LBRACKET, body, flags, depth);
        assert Plain(v, Bare(flags), d) + rest == [LBRACKET] + body;
        Joins(LBRACKET, Line(flags, depth + 1), PlainElems(elems, flags, depth), RBRACKET, LaidOut(rest, flags, depth));
      }
    case Object(members) =>
      if members == [] {
        EmptyLaidOut(LBRACE, RBRACE, rest, flags, depth);
      } else {
        var body := PlainMembers(members, Bare(flags), d) + [RBRACE] + rest;
        MembersLaidOut(members, flags, depth, d, rest);
        OpenLaidOut(LBRACE, body, flags, depth);
        assert Plain(v, Bare(flags), d) + rest == [LBRACE] + body;
        Joins(LBRACE, Line(flags, depth + 1), PlainMembers(members, flags, depth), RBRACE, LaidOut(rest, flags, depth));
      }
    case _ => LeafLaidOut(v, flags, depth, d, rest);
  }

  lemma Joins(o: byte, a: bytes, b: bytes, c: byte, e: bytes)
    ensures [o] + (a + (b + [c] + e)) == [o] + a + b + [c] + e
  {}

  lemma JoinsLast(p: bytes, a: bytes, c: byte, e: bytes)
    ensures p + (a + ([c] + e)) == p + a + [] + [c] + e
  {}

  lemma JoinsMore(p: bytes, k: bytes, a: bytes, q: bytes, c: byte, e: bytes)
    ensures p + (k + (a + (q + [c] + e))) == p + (k + a) + q + [c] + e
  {
    assert p + (k + a) + q + [c] + e == p + (k + a) + (q + [c] + e);
    assert k + (a + (q + [c] + e)) == k + a + (q + [c] + e);
  }

  lemma ElemsUnfold(es: seq<Json>, flags: nat, depth: nat)
    requires es != []
    ensures |es| == 1 ==> PlainElems(es, flags, depth) == Plain(es[0], flags, depth + 1) + IndentText(flags, depth, false) + []
    ensures |es| > 1 ==> PlainElems(es, flags, depth)
                         == Plain(es[0], flags, depth + 1) + ([COMMA] + IndentText(flags, depth + 1, true)) + PlainElems(es[1..], flags, depth)
  {
    hide Plain, IndentText;
  }

  lemma {:induction false} ElemsLaidOut(es: seq<Json>, flags: nat, depth: nat, d: nat, rest: bytes)
    requires es != [] && forall i :: 0 <= i < |es| ==> Document(es[i])
    ensures LaidOut(PlainElems(es, Bare(flags), d) + [RBRACKET] + rest, flags, depth + 1)
            == PlainElems(es, flags, depth) + [RBRACKET] + LaidOut(rest, flags, depth)
    ensures PlainElems(es, Bare(flags), d) != [] && !Closes(PlainElems(es, Bare(flags), d)[0])
    decreases es, 0
  {
    hide LaidOut, Bare, Line, BehindComma, IndentText, Plain, PlainElems, Document;
    BareLayout(flags, d);
    BareLayout(flags, d + 1);
    LayoutMatches(Bare(flags), d);
    LayoutMatches(Bare(flags), d + 1);
    LayoutMatches(flags, depth);
    LayoutMatches(flags, depth + 1);
    ElemsUnfold(es, Bare(flags), d);
    ElemsUnfold(es, flags, depth);
    FirstOpens(es[0], flags, d + 1);
    var p := Plain(es[0], Bare(flags), d + 1);
    if |es| == 1 {
      ValueLaidOut(es[0], flags, depth + 1, d + 1, [RBRACKET] + rest);
      CloseLaidOut(RBRACKET, rest, flags, depth);
      assert PlainElems(es, Bare(flags), d) + [RBRACKET] + rest == p + ([RBRACKET] + rest);
      JoinsLast(Plain(es[0], flags, depth + 1), Line(flags, depth), RBRACKET, LaidOut(rest, flags, depth));
    } else {
      var tail := PlainElems(es[1..], Bare(flags), d) + [RBRACKET] + rest;
      ElemsLaidOut(es[1..], flags, depth, d, rest);
      CommaLaidOut(tail, flags, depth + 1);
      ValueLaidOut(es[0], flags, depth + 1, d + 1, [COMMA] + tail);
      assert PlainElems(es, Bare(flags), d) + [RBRACKET] + rest == p + ([COMMA] + tail);
      JoinsMore(Plain(es[0], flags, depth + 1), [COMMA], BehindComma(flags, depth + 1), PlainElems(es[1..], flags, depth), RBRACKET,
                LaidOut(rest, flags, depth));
    }
  }

  lemma MembersUnfold(ms: seq<Member>, flags: nat, depth: nat)
    requires ms != []
    ensures var k := StringText(ms[0].key, EnsureAscii(flags)).text + Separator(flags) + Plain(ms[0].value, flags, depth + 1);
            && (|ms| == 1 ==> PlainMembers(ms, flags, depth) == k + IndentText(flags, depth, false) + [])
            && (|ms| > 1 ==> PlainMembers(ms, flags, depth)
                             == k + ([COMMA] + IndentText(flags, depth + 1, true)) + PlainMembers(ms[1..], flags, depth))
  {
    hide Plain, IndentText, StringText, Separator;
  }

  /** A key, its colon and its value. */
  lemma {:induction false} PairLaidOut(m: Member, flags: nat, depth: nat, d: nat, rest: bytes)
    requires Valid(m.key) && Document(m.value)
    ensures var bare := StringText(m.key, EnsureAscii(Bare(flags))).text + Separator(Bare(flags)) + Plain(m.value, Bare(flags), d);
            && LaidOut(bare + rest, flags, depth)
               == StringText(m.key, EnsureAscii(flags)).text + Separator(flags) + Plain(m.value, flags, depth) + LaidOut(rest, flags, depth)
            && bare != [] && !Closes(bare[0])
    decreases m, 2
  {
    hide LaidOut, Bare, Plain, Document, StringText, Valid, Separator, EnsureAscii, BehindColon;
    var key, value := StringText(m.key, EnsureAscii(flags)).text, Plain(m.value, Bare(flags), d);
    BareLayout(flags, d);
    LayoutMatches(Bare(flags), d);
    LayoutMatches(flags, depth);
    StringLaidOut(m.key, [COLON] + (value + rest), flags, depth);
    ColonLaidOut(value + rest, flags, depth);
    ValueLaidOut(m.value, flags, depth, d, rest);
    assert Separator(Bare(flags)) == [COLON];
    assert key + [COLON] + value + rest == key + ([COLON] + (value + rest));
    var w, r := Plain(m.value, flags, depth), LaidOut(rest, flags, depth);
    assert key + ([COLON] + (BehindColon(flags) + (w + r))) == key + ([COLON] + BehindColon(flags)) + w + r;
  }

  lemma {:induction false} MembersLaidOut(ms: seq<Member>, flags: nat, depth: nat, d: nat, rest: bytes)
    requires ms != [] && forall i :: 0 <= i < |ms| ==> Valid(ms[i].key) && Document(ms[i].value)
    ensures LaidOut(PlainMembers(ms, Bare(flags), d) + [RBRACE] + rest, flags, depth + 1)
            == PlainMembers(ms, flags, depth) + [RBRACE] + LaidOut(rest, flags, depth)
    ensures PlainMembers(ms, Bare(flags), d) != [] && !Closes(PlainMembers(ms, Bare(flags), d)[0])
    decreases ms, 0
  {
    hide LaidOut, Bare, Line, BehindComma, IndentText, Plain, PlainMembers, Document, Valid, StringText, Separator, EnsureAscii;
    BareLayout(flags, d);
    BareLayout(flags, d + 1);
    LayoutMatches(Bare(flags), d);
    LayoutMatches(Bare(flags), d + 1);
    LayoutMatches(flags, depth);
    LayoutMatches(flags, depth + 1);
    MembersUnfold(ms, Bare(flags), d);
    MembersUnfold(ms, flags, depth);
    var p := StringText(ms[0].key, EnsureAscii(Bare(flags))).text + Separator(Bare(flags)) + Plain(ms[0].value, Bare(flags), d + 1);
    var q := StringText(ms[0].key, EnsureAscii(flags)).text + Separator(flags) + Plain(ms[0].value, flags, depth + 1);
    if |ms| == 1 {
      PairLaidOut(ms[0], flags, depth + 1, d + 1, [RBRACE] + rest);
      CloseLaidOut(RBRACE, rest, flags, depth);
      assert PlainMembers(ms, Bare(flags), d) + [RBRACE] + rest == p + ([RBRACE] + rest);
      JoinsLast(q, Line(flags, depth), RBRACE, LaidOut(rest, flags, depth));
    } else {
      var tail := PlainMembers(ms[1..], Bare(flags), d) + [RBRACE] + rest;
      MembersLaidOut(ms[1..], flags, depth, d, rest);
      CommaLaidOut(tail, flags, depth + 1);
      PairLaidOut(ms[0], flags, depth + 1, d + 1, [COMMA] + tail);
      assert PlainMembers(ms, Bare(flags), d) + [RBRACE] + rest == p + ([COMMA] + tail);
      JoinsMore(q, [COMMA], BehindComma(flags, depth + 1), PlainMembers(ms[1..], flags, depth), RBRACE, LaidOut(rest, flags, depth));
    }
  }

  // ---------------------------------------------------------------- taking the white space out

  lemma {:induction false} ValueSqueezed(v: Json, flags: nat, depth: nat, d: nat, rest: bytes)
    requires Document(v)
    ensures Squeezed(Plain(v, flags, depth) + rest) == Plain(v, Bare(flags), d) + Squeezed(rest)
    decreases v, 1
  {
    hide Squeezed, Bare, Line, IndentText, PlainElems, PlainMembers;
    BareLayout(flags, d + 1);
    LayoutMatches(Bare(flags), d + 1);
    LayoutMatches(flags, depth + 1);
    LayoutIsWs(flags, depth + 1);
    match v
    case Array(elems) =>
      if elems == [] {
        EmptySqueezed(LBRACKET, RBRACKET, rest);
      } else {
        var body := PlainElems(elems, flags, depth) + [RBRACKET] + rest;
        ElemsSqueezed(elems, flags, depth, d, rest);
        BodySqueezed(LBRACKET, Line(flags, depth + 1), body);
        assert Plain(v, flags, depth) + rest == [LBRACKET] + (Line(flags, depth + 1) + body);
        Joins(LBRACKET, [], PlainElems(elems, Bare(flags), d), RBRACKET, Squeezed(rest));
      }
    case Object(members) =>
      if members == [] {
        EmptySqueezed(LBRACE, RBRACE, rest);
      } else {
        var body := PlainMembers(members, flags, depth) + [RBRACE] + rest;
        MembersSqueezed(members, flags, depth, d, rest);
        BodySqueezed(LBRACE, Line(flags, depth + 1), body);
        assert Plain(v, flags, depth) + rest == [LBRACE] + (Line(flags, depth + 1) + body);
        Joins(LBRACE, [], PlainMembers(members, Bare(flags), d), RBRACE, Squeezed(rest));
      }
    case _ => LeafLaidOut(v, flags, depth, d, rest);
  }

  lemma EmptySqueezed(o: byte, c: byte, rest: bytes)
    requires Opens(o) && Closes(c)
    ensures Squeezed([o, c] + rest) == [o, c] + Squeezed(rest)
  {
    MarkSqueezed(o, [c] + rest);
    MarkSqueezed(c, rest);
    assert [o, c] + rest == [o] + ([c] + rest);
  }

  lemma BodySqueezed(o: byte, ws: bytes, body: bytes)
    requires Opens(o) && Rfc8259.Ws(ws)
    ensures Squeezed([o] + (ws + body)) == [o] + ([] + Squeezed(body))
  {
    hide Squeezed;
    MarkSqueezed(o, ws + body);
    SpacesSqueezed(ws, body);
  }

  /** White space and a mark, and white space behind it. */
  lemma MarkedSqueezed(before: bytes, c: byte, behind: bytes, rest: bytes)
    requires Rfc8259.Ws(before) && Rfc8259.Ws(behind) && c != Rfc8259.QUOTATION_MARK && !Rfc8259.IsWs(c)
    ensures Squeezed(before + ([c] + (behind + rest))) == [c] + Squeezed(rest)
  {
    hide Squeezed;
    SpacesSqueezed(before, [c] + (behind + rest));
    MarkSqueezed(c, behind + rest);
    SpacesSqueezed(behind, rest);
  }

  lemma {:induction false} ElemsSqueezed(es: seq<Json>, flags: nat, depth: nat, d: nat, rest: bytes)
    requires es != [] && forall i :: 0 <= i < |es| ==> Document(es[i])
    ensures Squeezed(PlainElems(es, flags, depth) + [RBRACKET] + rest) == PlainElems(es, Bare(flags), d) + [RBRACKET] + Squeezed(rest)
    decreases es, 0
  {
    hide Squeezed, Bare, Line, BehindComma, IndentText, Plain, PlainElems, Document;
    BareLayout(flags, d);
    BareLayout(flags, d + 1);
    LayoutMatches(Bare(flags), d);
    LayoutMatches(Bare(flags), d + 1);
    LayoutMatches(flags, depth);
    LayoutMatches(flags, depth + 1);
    LayoutIsWs(flags, depth);
    LayoutIsWs(flags, depth + 1);
    ElemsUnfold(es, Bare(flags), d);
    ElemsUnfold(es, flags, depth);
    var p, q := Plain(es[0], flags, depth + 1), Plain(es[0], Bare(flags), d + 1);
    NoWs();
    if |es| == 1 {
      var next := Line(flags, depth) + ([RBRACKET] + ([] + rest));
      ValueSqueezed(es[0], flags, depth + 1, d + 1, next);
      MarkedSqueezed(Line(flags, depth), RBRACKET, [], rest);
      assert PlainElems(es, flags, depth) + [RBRACKET] + rest == p + next;
      JoinsLast(q, [], RBRACKET, Squeezed(rest));
    } else {
      var tail := PlainElems(es[1..], flags, depth) + [RBRACKET] + rest;
      var next := [] + ([COMMA] + (BehindComma(flags, depth + 1) + tail));
      ElemsSqueezed(es[1..], flags, depth, d, rest);
      MarkedSqueezed([], COMMA, BehindComma(flags, depth + 1), tail);
      ValueSqueezed(es[0], flags, depth + 1, d + 1, next);
      JoinsMore(p, [COMMA], BehindComma(flags, depth + 1), PlainElems(es[1..], flags, depth), RBRACKET, rest);
      JoinsMore(q, [COMMA], [], PlainElems(es[1..], Bare(flags), d), RBRACKET, Squeezed(rest));
      assert next == [COMMA] + (BehindComma(flags, depth + 1) + tail) && [COMMA] + [] == [COMMA];
      assert [] + (PlainElems(es[1..], Bare(flags), d) + [RBRACKET] + Squeezed(rest)) == Squeezed(tail);
    }
  }

  lemma NoWs()
    ensures Rfc8259.Ws([])
  {}

  lemma {:induction false} PairSqueezed(m: Member, flags: nat, depth: nat, d: nat, rest: bytes)
    requires Valid(m.key) && Document(m.value)
    ensures Squeezed(StringText(m.key, EnsureAscii(flags)).text + Separator(flags) + Plain(m.value, flags, depth) + rest)
            == StringText(m.key, EnsureAscii(Bare(flags))).text + Separator(Bare(flags)) + Plain(m.value, Bare(flags), d) + Squeezed(rest)
    decreases m, 2
  {
    hide Squeezed, Bare, Plain, Document, StringText, Valid, Separator, EnsureAscii, BehindColon;
    var key, value := StringText(m.key, EnsureAscii(flags)).text, Plain(m.value, flags, depth);
    BareLayout(flags, d);
    LayoutMatches(Bare(flags), d);
    LayoutMatches(flags, depth);
    LayoutIsWs(flags, depth);
    assert Separator(Bare(flags)) == [COLON];
    NoWs();
    var next := [] + ([COLON] + (BehindColon(flags) + (value + rest)));
    StringLaidOut(m.key, next, flags, depth);
    MarkedSqueezed([], COLON, BehindColon(flags), value + rest);
    ValueSqueezed(m.value, flags, depth, d, rest);
    assert key + ([COLON] + BehindColon(flags)) + value + rest == key + next;
    var w, r := Plain(m.value, Bare(flags), d), Squeezed(rest);
    assert key + ([COLON] + (w + r)) == key + [COLON] + w + r;
  }

  lemma {:induction false} MembersSqueezed(ms: seq<Member>, flags: nat, depth: nat, d: nat, rest: bytes)
    requires ms != [] && forall i :: 0 <= i < |ms| ==> Valid(ms[i].key) && Document(ms[i].value)
    ensures Squeezed(PlainMembers(ms, flags, depth) + [RBRACE] + rest) == PlainMembers(ms, Bare(flags), d) + [RBRACE] + Squeezed(rest)
    decreases ms, 0
  {
    hide Squeezed, Bare, Line, BehindComma, IndentText, Plain, PlainMembers, Document, Valid, StringText, Separator, EnsureAscii;
    BareLayout(flags, d);
    BareLayout(flags, d + 1);
    LayoutMatches(Bare(flags), d);
    LayoutMatches(Bare(flags), d + 1);
    LayoutMatches(flags, depth);
    LayoutMatches(flags, depth + 1);
    LayoutIsWs(flags, depth);
    LayoutIsWs(flags, depth + 1);
    MembersUnfold(ms, Bare(flags), d);
    MembersUnfold(ms, flags, depth);
    NoWs();
    var p := StringText(ms[0].key, EnsureAscii(flags)).text + Separator(flags) + Plain(ms[0].value, flags, depth + 1);
    var q := StringText(ms[0].key, EnsureAscii(Bare(flags))).text + Separator(Bare(flags)) + Plain(ms[0].value, Bare(flags), d + 1);
    if |ms| == 1 {
      var next := Line(flags, depth) + ([RBRACE] + ([] + rest));
      PairSqueezed(ms[0], flags, depth + 1, d + 1, next);
      MarkedSqueezed(Line(flags, depth), RBRACE, [], rest);
      assert PlainMembers(ms, flags, depth) + [RBRACE] + rest == p + next;
      JoinsLast(q, [], RBRACE, Squeezed(rest));
    } else {
      var tail := PlainMembers(ms[1..], flags, depth) + [RBRACE] + rest;
      var next := [] + ([COMMA] + (BehindComma(flags, depth + 1) + tail));
      MembersSqueezed(ms[1..], flags, depth, d, rest);
      MarkedSqueezed([], COMMA, BehindComma(flags, depth + 1), tail);
      PairSqueezed(ms[0], flags, depth + 1, d + 1, next);
      JoinsMore(p, [COMMA], BehindComma(flags, depth + 1), PlainMembers(ms[1..], flags, depth), RBRACE, rest);
      JoinsMore(q, [COMMA], [], PlainMembers(ms[1..], Bare(flags), d), RBRACE, Squeezed(rest));
      assert next == [COMMA] + (BehindComma(flags, depth + 1) + tail) && [COMMA] + [] == [COMMA];
      assert [] + (PlainMembers(ms[1..], Bare(flags), d) + [RBRACE] + Squeezed(rest)) == Squeezed(tail);
    }
  }

  // ---------------------------------------------------------------- documents

  lemma {:induction false} ArrangedAsBare(v: Json, flags: nat)
    ensures Arranged(v, Bare(flags)) == Arranged(v, flags)
    decreases v
  {
    hide Bare, SortKeys, PreserveOrder, SortMembers;
    BareLayout(flags, 0);
    match v
    case Array(elems) =>
      forall i | 0 <= i < |elems| ensures Arranged(elems[i], Bare(flags)) == Arranged(elems[i], flags) {
        ArrangedAsBare(elems[i], flags);
      }
      assert ArrangedElems(elems, Bare(flags)) == ArrangedElems(elems, flags);
    case Object(ms) =>
      forall i | 0 <= i < |ms| ensures Arranged(ms[i].value, Bare(flags)) == Arranged(ms[i].value, flags) {
        ArrangedAsBare(ms[i].value, flags);
      }
      assert ArrangedMembers(ms, Bare(flags)) == ArrangedMembers(ms, flags);
    case _ =>
  }

  /** JSON_INDENT and JSON_COMPACT lay a text out and change nothing else: taking the white space outside the literals out of a
      document's text gives its text without white space, and laying that out gives the text back. */
  lemma LayoutRoundTrip(v: Json, flags: nat)
    requires Document(v)
    ensures LaidOut(Dumps(v, Bare(flags)), flags, 0) == Dumps(v, flags)
    ensures Squeezed(Dumps(v, flags)) == Dumps(v, Bare(flags))
  {
    hide LaidOut, Squeezed, Plain, Document, Arranged, Bare;
    var w := Arranged(v, flags);
    ArrangedIsDocument(v, flags);
    ArrangedAsBare(v, flags);
    ValueLaidOut(w, flags, 0, 0, []);
    ValueSqueezed(w, flags, 0, 0, []);
    NothingLaidOut(flags);
    assert Plain(w, Bare(flags), 0) + [] == Plain(w, Bare(flags), 0) && Plain(w, flags, 0) + [] == Plain(w, flags, 0);
  }

  lemma NothingLaidOut(flags: nat)
    ensures LaidOut([], flags, 0) == [] && Squeezed([]) == []
  {}
}
