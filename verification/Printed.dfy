/** What the text of a document looks like: the order of its keys, its strings and its numbers. */
module Printed {
  import opened Options
  import opened Utf8
  import opened Values
  import opened Arrange
  import opened DumpText
  import opened LoadText
  import opened StringRoundTrip
  import opened RoundTrip
  import opened StrictStrings
  import opened StrictNumbers
  import Rfc8259

  // ---------------------------------------------------------------- JSON_SORT_KEYS

  /** The keys of every object stand in the order of their bytes. */
  ghost predicate KeysAscend(v: Json) {
    match v
    case Array(elems) => forall i :: 0 <= i < |elems| ==> KeysAscend(elems[i])
    case Object(ms) =>
      && (forall i, j :: 0 <= i < j < |ms| ==> Lexicographic(ms[i].key, ms[j].key))
      && forall i :: 0 <= i < |ms| ==> KeysAscend(ms[i].value)
    case _ => true
  }

  lemma {:induction false} ArrangedAscends(v: Json, flags: nat)
    requires Document(v) && SortKeys(flags)
    ensures KeysAscend(Arranged(v, flags))
    decreases v
  {
    hide Lexicographic, StrLess;
    match v
    case Array(elems) =>
      forall i | 0 <= i < |elems| ensures KeysAscend(Arranged(elems[i], flags)) {
        ArrangedAscends(elems[i], flags);
      }
    case Object(ms) =>
      var ps := ArrangedMembers(ms, flags);
      var r := SortMembers(ByKey, ps);
      SortSorts(ByKey, ps);
      forall i, j | 0 <= i < j < |r| ensures Lexicographic(r[i].key, r[j].key) {
        assert Precedes(ByKey, r[i], r[j]);
        StrLessIff(r[i].key, r[j].key);
      }
      forall i | 0 <= i < |r| ensures KeysAscend(r[i].value) {
        assert r[i] in r;
        var k := SourceOf(ms, r[i], flags);
        ArrangedAscends(ms[k].value, flags);
      }
    case _ =>
  }

  lemma {:induction false} LoadedAscends(v: Json)
    requires KeysAscend(v)
    ensures KeysAscend(Loaded(v))
    decreases v
  {
    hide Lexicographic;
    match v
    case Array(elems) =>
      forall i | 0 <= i < |elems| ensures KeysAscend(Loaded(elems[i])) {
        LoadedAscends(elems[i]);
      }
    case Object(ms) =>
      forall i | 0 <= i < |ms| ensures KeysAscend(Loaded(ms[i].value)) {
        LoadedAscends(ms[i].value);
      }
    case _ =>
  }

  /** JSON_SORT_KEYS, bit 0x80, writes the members of every object in the order of the bytes of their keys: loading, which keeps the order
      of the text, finds them so. */
  lemma SortedTextAscends(v: Json, flags: nat, loadFlags: nat)
    requires Document(v) && (v.Array? || v.Object?) && flags / 0x80 % 2 == 1
    ensures Load(Dumps(v, flags), loadFlags).Some? && KeysAscend(Load(Dumps(v, flags), loadFlags).value)
  {
    hide Document, KeysAscend, Arranged, Loaded, Load, Dumps, Equal;
    DocumentRoundTrip(v, flags, loadFlags);
    ArrangedAscends(v, flags);
    LoadedAscends(Arranged(v, flags));
  }

  // ---------------------------------------------------------------- JSON_ENSURE_ASCII

  lemma {:induction false} EscapeAllAscii(s: bytes)
    requires Valid(s)
    ensures IsAscii(EscapeAll(s, true))
    decreases |s|
  {
    hide Escape, Encode, Next;
    if s != [] {
      EncodeOfNext(s);
      var Char(cp, n) := Next(s).value;
      EscapeAllAscii(s[n..]);
      if NeedsEscape(cp, true) {
        EscapeIsAscii(cp);
      } else {
        SmallIsAscii(cp);
      }
    }
  }

  lemma SmallIsAscii(cp: int)
    requires 0 <= cp < 0x80
    ensures Encode(cp).Some? && IsAscii(Encode(cp).value)
  {}

  lemma StringTextAscii(s: bytes)
    requires Valid(s)
    ensures IsAscii(StringText(s, true).text)
  {
    hide EscapeAll, StringBody, Valid;
    StringBodyIff([], s, true);
    EscapeAllAscii(s);
  }

  lemma LayoutAscii(flags: nat, depth: nat)
    ensures IsAscii(IndentText(flags, depth, true)) && IsAscii(IndentText(flags, depth, false)) && IsAscii(Separator(flags))
    ensures IsAscii(After(true, flags, depth)) && IsAscii(After(false, flags, depth))
  {}

  lemma Joined5(a: bytes, b: bytes, c: bytes, d: bytes, e: bytes)
    requires IsAscii(a) && IsAscii(b) && IsAscii(c) && IsAscii(d) && IsAscii(e)
    ensures IsAscii(a + b + c + d + e)
  {}

  lemma NamesAscii()
    ensures IsAscii(NULL_TEXT) && IsAscii(TRUE_TEXT) && IsAscii(FALSE_TEXT)
  {}

  lemma BracketsAscii(open: byte, indent: bytes, body: bytes, close: byte)
    requires open < 0x80 && close < 0x80 && IsAscii(indent) && IsAscii(body)
    ensures IsAscii([open, close]) && IsAscii([open] + indent + body + [close])
  {}

  /** Under JSON_ENSURE_ASCII the whole text is ASCII, strings and keys alike. */
  lemma {:induction false} PlainAscii(v: Json, flags: nat, depth: nat)
    requires Document(v) && EnsureAscii(flags)
    ensures IsAscii(Plain(v, flags, depth))
    decreases v
  {
    hide EnsureAscii, IndentText, Valid, StringText, IntegerText, IsAscii, CString;
    NamesAscii();
    match v
    case Integer(n) => DecimalIsAscii(n);
    case String(s) => StringTextAscii(s);
    case Array(elems) =>
      LayoutAscii(flags, depth + 1);
      PlainElemsAscii(elems, flags, depth);
      BracketsAscii(LBRACKET, IndentText(flags, depth + 1, false), PlainElems(elems, flags, depth), RBRACKET);
    case Object(members) =>
      LayoutAscii(flags, depth + 1);
      PlainMembersAscii(members, flags, depth);
      BracketsAscii(LBRACE, IndentText(flags, depth + 1, false), PlainMembers(members, flags, depth), RBRACE);
    case _ =>
  }

  lemma {:induction false} PlainElemsAscii(es: seq<Json>, flags: nat, depth: nat)
    requires (forall i :: 0 <= i < |es| ==> Document(es[i])) && EnsureAscii(flags)
    ensures IsAscii(PlainElems(es, flags, depth))
    decreases es
  {
    hide EnsureAscii, Plain, Document;
    if es != [] {
      PlainAscii(es[0], flags, depth + 1);
      LayoutAscii(flags, depth);
      PlainElemsAscii(es[1..], flags, depth);
    }
  }

  lemma {:induction false} PlainMembersAscii(ms: seq<Member>, flags: nat, depth: nat)
    requires (forall i :: 0 <= i < |ms| ==> Valid(ms[i].key) && Document(ms[i].value)) && EnsureAscii(flags)
    ensures IsAscii(PlainMembers(ms, flags, depth))
    decreases ms
  {
    hide EnsureAscii, Plain, StringText, Document, Valid, IsAscii, After, Separator;
    if ms == [] {
      NothingIsAscii();
    } else {
      StringTextAscii(ms[0].key);
      PlainAscii(ms[0].value, flags, depth + 1);
      LayoutAscii(flags, depth);
      PlainMembersAscii(ms[1..], flags, depth);
      Joined5(StringText(ms[0].key, true).text, Separator(flags), Plain(ms[0].value, flags, depth + 1),
              After(|ms| == 1, flags, depth), PlainMembers(ms[1..], flags, depth));
    }
  }

  lemma NothingIsAscii()
    ensures IsAscii([])
  {}

  /** JSON_ENSURE_ASCII, bit 0x40, makes the text of every document ASCII. */
  lemma AsciiText(v: Json, flags: nat)
    requires Document(v) && flags / 0x40 % 2 == 1
    ensures IsAscii(Dumps(v, flags))
  {
    hide Document, Arranged, Plain;
    ArrangedIsDocument(v, flags);
    PlainAscii(Arranged(v, flags), flags, 0);
  }

  /** A character stands in the text as it is exactly if it is neither quotation mark nor reverse solidus nor a control
      character, and ASCII unless the flag is clear. */
  lemma StandsIff(s: bytes, ascii: bool)
    requires Valid(s) && s != []
    ensures Next(s).Some? && var Char(cp, n) := Next(s).value;
            Valid(s[n..]) &&
            (EscapeAll(s, ascii) == s[..n] + EscapeAll(s[n..], ascii) <==>
              cp != 0x22 && cp != 0x5C && cp >= 0x20 && (cp < 0x80 || !ascii))
  {
    hide Encode;
    EncodeOfNext(s);
    var Char(cp, n) := Next(s).value;
    var rest := EscapeAll(s[n..], ascii);
    if NeedsEscape(cp, ascii) {
      EscapeIsLonger(cp);
      assert |Escape(cp) + rest| > |s[..n] + rest|;
    }
  }

  lemma EscapeIsLonger(cp: int)
    requires IsScalar(cp)
    ensures Encode(cp).Some? && (cp < 0x80 ==> |Encode(cp).value| == 1 && |Escape(cp)| >= 2) && |Encode(cp).value| <= 4
    ensures cp >= 0x80 ==> |Escape(cp)| >= 6
  {}

  // ---------------------------------------------------------------- no literal is shorter

  lemma HexEscapeFront(p: bytes, q: bytes)
    requires HexEscape(p)
    ensures HexEscape(p + q)
  {}

  lemma {:induction false} CharsConcat(p: bytes, q: bytes)
    requires Rfc8259Chars(p) && Rfc8259Chars(q)
    ensures Rfc8259Chars(p + q)
    decreases |p|
  {
    hide HexEscape;
    var s := p + q;
    if HexEscape(p) {
      HexEscapeSize(p);
    }
    if p == [] {
      assert s == q;
    } else if Rfc8259.Unescaped(p[0]) {
      CharsConcat(p[1..], q);
      assert s[1..] == p[1..] + q;
    } else if |p| >= 2 && Rfc8259.EscapedChar(p[1]).Some? {
      NoHexEscape(p);
      CharsConcat(p[2..], q);
      assert s[2..] == p[2..] + q;
    } else {
      HexEscapeFront(p, q);
      CharsConcat(p[6..], q);
      assert s[6..] == p[6..] + q;
    }
  }

  lemma NoHexEscape(p: bytes)
    requires |p| >= 2 && Rfc8259.EscapedChar(p[1]).Some?
    ensures !HexEscape(p)
  {}

  lemma HexEscapeSize(p: bytes)
    requires HexEscape(p)
    ensures |p| >= 6 && p[0] == Rfc8259.ESCAPE
  {}

  lemma UnicodeEscapeChars(n: nat)
    requires n < 0x10000
    ensures Rfc8259Chars(UnicodeEscape(n))
  {
    assert HexEscape(UnicodeEscape(n)) && UnicodeEscape(n)[6..] == [];
  }

  lemma EscapeChars(cp: int)
    requires 0 <= cp <= 0x10FFFF
    ensures Rfc8259Chars(Escape(cp))
  {
    hide UnicodeEscape;
    if cp in {BACKSLASH, QUOTE, 0x08, 0x0C, 0x0A, 0x0D, 0x09} {
      assert Escape(cp)[2..] == [];
    } else if cp < 0x10000 {
      UnicodeEscapeChars(cp);
    } else {
      UnicodeEscapeChars(0xD800 + (cp - 0x10000) / 0x400);
      UnicodeEscapeChars(0xDC00 + (cp - 0x10000) % 0x400);
      CharsConcat(UnicodeEscape(0xD800 + (cp - 0x10000) / 0x400), UnicodeEscape(0xDC00 + (cp - 0x10000) % 0x400));
    }
  }

  lemma {:induction false} PlainChars(p: bytes)
    requires forall i :: 0 <= i < |p| ==> IsPlainByte(p[i])
    ensures Rfc8259Chars(p)
    decreases |p|
  {
    if p != [] {
      PlainChars(p[1..]);
    }
  }

  lemma {:induction false} EscapeAllChars(s: bytes, ascii: bool)
    requires Valid(s)
    ensures Rfc8259Chars(EscapeAll(s, ascii))
    decreases |s|
  {
    hide Escape, Encode, Next, NeedsEscape, Rfc8259Chars;
    if s == [] {
      EmptyLiteral();
    } else {
      EncodeOfNext(s);
      var Char(cp, n) := Next(s).value;
      EscapeAllChars(s[n..], ascii);
      if NeedsEscape(cp, ascii) {
        EscapeChars(cp);
      } else {
        EncodingIsPlain(cp, ascii);
        PlainChars(s[..n]);
      }
      CharsConcat(if NeedsEscape(cp, ascii) then Escape(cp) else s[..n], EscapeAll(s[n..], ascii));
    }
  }

  /** What `dump_string` puts between the quotation marks is a literal of the standard for the string. */
  lemma PrintedLiteral(s: bytes, ascii: bool)
    requires Valid(s) && CString(s)
    ensures Strict(EscapeAll(s, ascii)) == Some(s)
  {
    hide Valid, CString, EscapeAll, Rfc8259Chars, Units, Joined, Unescape;
    EscapeAllChars(s, ascii);
    EscapeAllScanned(s, ascii, []);
    var raw := EscapeAll(s, ascii);
    assert raw + [] == raw && s + [] == s;
    StrictDecoding(raw);
    EmptyLiteral();
  }

  /** One piece of a literal: a byte that stands for itself, one of the eight two-character escapes, or an escape or a pair of
      them for the character `cp`. */
  lemma LiteralPiece(raw: bytes) returns (k: nat, piece: bytes, cp: int)
    requires raw != [] && Strict(raw).Some?
    ensures 0 < k <= |raw| && Strict(raw[k..]).Some? && Strict(raw).value == piece + Strict(raw[k..]).value
    ensures
      || (k == 1 && piece == [raw[0]] && Rfc8259.Unescaped(raw[0]))
      || (k == 2 && |piece| == 1 && piece[0] in {0x22, 0x5C, 0x2F, 0x08, 0x0C, 0x0A, 0x0D, 0x09})
      || (k == 6 && IsScalar(cp) && cp < 0x10000 && Encode(cp) == Some(piece))
      || (k == 12 && IsScalar(cp) && cp >= 0x10000 && Encode(cp) == Some(piece))
  {
    hide Encode, Joined;
    cp := 0;
    assert Rfc8259Chars(raw);
    if raw[0] != Rfc8259.ESCAPE {
      k, piece := 1, [raw[0]];
      JoinedPlain(raw[0], Units(raw[1..]));
    } else if raw[1] != Rfc8259.HEX_MARK {
      k, piece := 2, [Rfc8259.EscapedChar(raw[1]).value];
      JoinedPlain(piece[0], Units(raw[2..]));
    } else {
      k, piece, cp := EscapePiece(raw);
    }
  }

  lemma EscapePiece(raw: bytes) returns (k: nat, piece: bytes, cp: int)
    requires Strict(raw).Some? && StartsEscapeU(raw)
    ensures 0 < k <= |raw| && Strict(raw[k..]).Some? && Strict(raw).value == piece + Strict(raw[k..]).value
    ensures
      || (k == 6 && IsScalar(cp) && cp < 0x10000 && Encode(cp) == Some(piece))
      || (k == 12 && IsScalar(cp) && cp >= 0x10000 && Encode(cp) == Some(piece))
  {
    hide Rfc8259Chars, Units, DecodeHex, Joined, Encode;
    var n := UnitOfEscape(raw);
    var rest := raw[6..];
    JoinedCode(n, Units(rest));
    ScalarEncodes(n);
    if IsHighSurrogate(n) {
      if rest == [] {
        EmptyLiteral();
      } else if !StartsEscapeU(rest) {
        var c := UnitOfOther(rest);
      } else {
        var m := UnitOfEscape(rest);
        assert rest[6..] == raw[12..];
        JoinedPair(n, m, Units(raw[12..]));
        k, cp := 12, 0x10000 + (n - 0xD800) * 0x400 + (m - 0xDC00);
        ScalarEncodes(cp);
        piece := Bytes(cp);
      }
    } else {
      k, piece, cp := 6, Bytes(n), n;
    }
  }

  lemma ScalarEncodes(cp: int)
    ensures IsScalar(cp) <==> 0 <= cp <= 0x10FFFF && !(0xD800 <= cp <= 0xDFFF)
    ensures IsScalar(cp) ==> Encode(cp).Some?
  {}

  /** What a byte costs without JSON_ENSURE_ASCII. */
  function Cost(b: byte): nat {
    if b in {0x22, 0x5C, 0x08, 0x0C, 0x0A, 0x0D, 0x09} then 2 else if b < 0x20 then 6 else 1
  }

  function TotalCost(s: bytes): nat {
    if s == [] then 0 else Cost(s[0]) + TotalCost(s[1..])
  }

  lemma {:induction false} CostConcat(a: bytes, b: bytes)
    ensures TotalCost(a + b) == TotalCost(a) + TotalCost(b)
    decreases |a|
  {
    if a == [] {
      assert a + b == b;
    } else {
      CostConcat(a[1..], b);
      assert (a + b)[1..] == a[1..] + b;
    }
  }

  lemma {:induction false} PlainCost(p: bytes)
    requires forall i :: 0 <= i < |p| ==> IsPlainByte(p[i])
    ensures TotalCost(p) == |p|
    decreases |p|
  {
    if p != [] {
      PlainCost(p[1..]);
    }
  }

  lemma OneCost(c: byte)
    ensures TotalCost([c]) == Cost(c)
  {
    assert [c][1..] == [];
  }

  lemma CharCost(cp: int)
    requires IsScalar(cp)
    ensures Encode(cp).Some? && TotalCost(Encode(cp).value) == if NeedsEscape(cp, false) then |Escape(cp)| else |Encode(cp).value|
    ensures TotalCost(Encode(cp).value) <= 6
  {
    hide TotalCost;
    if NeedsEscape(cp, false) {
      OneCost(cp);
    } else {
      EncodingIsPlain(cp, false);
      PlainCost(Encode(cp).value);
    }
  }

  lemma {:induction false} EscapeAllCost(s: bytes)
    requires Valid(s)
    ensures |EscapeAll(s, false)| == TotalCost(s)
    decreases |s|
  {
    hide Escape, Encode, Next, NeedsEscape;
    if s != [] {
      EncodeOfNext(s);
      var Char(cp, n) := Next(s).value;
      EscapeAllCost(s[n..]);
      CharCost(cp);
      CostConcat(s[..n], s[n..]);
      assert s == s[..n] + s[n..];
    }
  }

  lemma {:induction false} EscapeAllConcat(a: bytes, b: bytes, ascii: bool)
    requires Valid(a) && Valid(b)
    ensures Valid(a + b) && EscapeAll(a + b, ascii) == EscapeAll(a, ascii) + EscapeAll(b, ascii)
    decreases |a|
  {
    hide Escape, Encode, Next, NeedsEscape, EscapeAll;
    ValidConcat(a, b);
    if a == [] {
      assert a + b == b;
      NothingEscaped(ascii);
    } else {
      EscapeAllStep(a, ascii);
      EscapeAllStep(a + b, ascii);
      NextPrefix(a, b);
      var Char(cp, n) := Next(a).value;
      EscapeAllConcat(a[n..], b, ascii);
      assert (a + b)[n..] == a[n..] + b && (a + b)[..n] == a[..n];
      var p := if NeedsEscape(cp, ascii) then Escape(cp) else a[..n];
      assert p + (EscapeAll(a[n..], ascii) + EscapeAll(b, ascii)) == p + EscapeAll(a[n..], ascii) + EscapeAll(b, ascii);
    }
  }

  lemma NothingEscaped(ascii: bool)
    ensures EscapeAll([], ascii) == []
  {}

  lemma EscapeAllStep(s: bytes, ascii: bool)
    requires Valid(s) && s != []
    ensures Next(s).Some? && 0 < Next(s).value.size <= |s| && 0 <= Next(s).value.cp <= 0x10FFFF && Valid(s[Next(s).value.size..])
    ensures var Char(cp, n) := Next(s).value;
            EscapeAll(s, ascii) == (if NeedsEscape(cp, ascii) then Escape(cp) else s[..n]) + EscapeAll(s[n..], ascii)
  {
    hide Escape, Encode, NeedsEscape;
    EncodeOfNext(s);
  }

  lemma OneCharacter(cp: int)
    requires IsScalar(cp)
    ensures Encode(cp).Some? && Valid(Encode(cp).value)
    ensures |EscapeAll(Encode(cp).value, true)| == if NeedsEscape(cp, true) then |Escape(cp)| else |Encode(cp).value|
    ensures |EscapeAll(Encode(cp).value, true)| <= if cp < 0x10000 then 6 else 12
  {
    var e := Encode(cp).value;
    NextOfEncode(cp, []);
    assert e + [] == e && e[|e|..] == [];
  }

  /** What printing a string takes, given in pieces that may cut a character only where its bytes may stand alone. */
  ghost function Printing(s: bytes, ascii: bool): nat {
    if !ascii then TotalCost(s) else if Valid(s) then |EscapeAll(s, true)| else 0
  }

  lemma PrintingConcat(a: bytes, b: bytes, ascii: bool)
    requires ascii ==> Valid(a) && Valid(b)
    ensures Printing(a + b, ascii) == Printing(a, ascii) + Printing(b, ascii) && (ascii ==> Valid(a + b))
  {
    hide EscapeAll, TotalCost;
    CostConcat(a, b);
    if ascii {
      EscapeAllConcat(a, b, true);
    }
  }

  lemma PrintingByte(c: byte, ascii: bool)
    requires ascii ==> c < 0x80
    ensures Rfc8259.Unescaped(c) ==> Printing([c], ascii) == 1
    ensures c in {0x22, 0x5C, 0x2F, 0x08, 0x0C, 0x0A, 0x0D, 0x09} ==> Printing([c], ascii) <= 2
    ensures ascii ==> Valid([c])
  {
    hide EscapeAll, TotalCost;
    OneCost(c);
    if ascii {
      OneCharacter(c);
      assert Encode(c).value == [c];
    }
  }

  lemma {:induction false} PrintingIsShort(raw: bytes, ascii: bool)
    requires Strict(raw).Some? && (ascii ==> IsAscii(raw))
    ensures Printing(Strict(raw).value, ascii) <= |raw| && (ascii ==> Valid(Strict(raw).value))
    decreases |raw|
  {
    hide Strict, Printing, Encode, Valid;
    if raw == [] {
      NothingPrinted(ascii);
    } else {
      var k, piece, cp := LiteralPiece(raw);
      PrintingIsShort(raw[k..], ascii);
      if k <= 2 {
        assert piece == [piece[0]];
        PrintingByte(piece[0], ascii);
      } else {
        PrintingCharacter(cp, ascii);
      }
      PrintingConcat(piece, Strict(raw[k..]).value, ascii);
    }
  }

  lemma PrintingCharacter(cp: int, ascii: bool)
    requires IsScalar(cp)
    ensures Encode(cp).Some? && (ascii ==> Valid(Encode(cp).value))
    ensures Printing(Encode(cp).value, ascii) <= if cp < 0x10000 then 6 else 12
  {
    hide Encode, Escape, EscapeAll, TotalCost;
    CharCost(cp);
    OneCharacter(cp);
  }

  lemma NothingPrinted(ascii: bool)
    ensures Strict([]) == Some([]) && Printing([], ascii) == 0 && Valid([])
  {}

  /** No literal of the standard for a string is shorter than the one that `dump_string` writes; under JSON_ENSURE_ASCII none
      that is ASCII. */
  lemma NoShorterLiteral(s: bytes, raw: bytes, ascii: bool)
    requires Valid(s) && CString(s) && Strict(raw) == Some(s) && (ascii ==> IsAscii(raw))
    ensures Strict(EscapeAll(s, ascii)) == Some(s) && (ascii ==> IsAscii(EscapeAll(s, ascii)))
    ensures |EscapeAll(s, ascii)| <= |raw|
  {
    hide Strict, Valid, CString, EscapeAll, TotalCost;
    PrintedLiteral(s, ascii);
    PrintingIsShort(raw, ascii);
    if ascii {
      EscapeAllAscii(s);
    } else {
      EscapeAllCost(s);
    }
  }

  // ---------------------------------------------------------------- the only numeral

  /** Without a leading zero there is one row of digits for every number. */
  lemma {:induction false} OnlyDecimal(s: bytes)
    requires Rfc8259.Digits(s) && (s[0] != Rfc8259.ZERO || |s| == 1)
    ensures (forall i :: 0 <= i < |s| ==> IsDigit(s[i])) && s == Decimal(DigitsValue(s))
    decreases |s|
  {
    var front := s[..|s| - 1];
    if front == [] {
      assert DigitsValue(front) == 0;
    } else {
      assert front[0] == s[0] && Rfc8259.Digits(front);
      OnlyDecimal(front);
      PositiveValue(front);
      assert s == front + [s[|s| - 1]];
    }
  }

  lemma {:induction false} PositiveValue(s: bytes)
    requires (forall i :: 0 <= i < |s| ==> IsDigit(s[i])) && s != [] && s[0] != Rfc8259.ZERO
    ensures DigitsValue(s) > 0
    decreases |s|
  {
    if |s| > 1 {
      PositiveValue(s[..|s| - 1]);
    }
  }

  /** The text of an integer is the only numeral of the standard for it, but for zero with a minus sign. */
  lemma OnlyNumeral(t: bytes)
    requires IsInteger(t)
    ensures t == IntegerText(IntegerValue(t)) || (IntegerValue(t) == 0 && t == [Rfc8259.MINUS_SIGN, Rfc8259.ZERO])
  {
    hide Decimal, DigitsValue, Rfc8259.Numeral, IntegerText;
    var i: nat :| Cut(t, i, |t|, |t|);
    var digits := t[i..];
    assert t[i..|t|] == digits;
    IntegerDigits(t);
    OnlyDecimal(digits);
    assert t[0..] == t && digits != [] && (i == 0 ==> Rfc8259.Digit(digits[0]));
    NoDigits();
    NumeralIsValue(0, [], digits);
    assert [] + digits == digits;
    SignedNumeral(t, i, DigitsValue(digits));
  }

  lemma SignedNumeral(t: bytes, i: nat, m: nat)
    requires i <= |t| && t[i..] == Decimal(m) && (i == 0 || (i == 1 && t[0] == Rfc8259.MINUS_SIGN))
    ensures var n := if i == 1 then 0 - m else m;
            t == IntegerText(n) || (n == 0 && t == [Rfc8259.MINUS_SIGN, Rfc8259.ZERO])
  {
    hide Decimal;
    ZeroText();
    if i == 1 {
      assert t == [Rfc8259.MINUS_SIGN] + t[1..];
    } else {
      assert t[0..] == t;
    }
  }

  lemma ZeroText()
    ensures Decimal(0) == [Rfc8259.ZERO]
  {}

  lemma SignedText(n: int)
    ensures var a: nat := if n < 0 then -n else n;
            var t := IntegerText(n);
            && t != [] && Decimal(a) != [] && (forall i :: 0 <= i < |Decimal(a)| ==> IsDigit(Decimal(a)[i])) && Integral(Decimal(a))
            && (n < 0 ==> t == [Rfc8259.MINUS_SIGN] + Decimal(a) && t[1..] == Decimal(a)) && (n >= 0 ==> t == Decimal(a))
            && IsInteger(t)
  {
    hide Decimal;
    var a: nat := if n < 0 then -n else n;
    var t, digits := IntegerText(n), Decimal(a);
    DecimalDigits(a);
    if digits[0] == Rfc8259.ZERO {
      OneDigit(digits);
    }
    assert n < 0 ==> t[1..|t|] == digits;
    assert n >= 0 ==> t[0..|t|] == digits;
    assert Cut(t, if n < 0 then 1 else 0, |t|, |t|);
  }

  lemma OneDigit(s: bytes)
    requires s != [] && s[0] == Rfc8259.ZERO && |s| == 1
    ensures s == [Rfc8259.ZERO]
  {}

  /** And it is one. */
  lemma NumeralOf(n: int)
    ensures IsInteger(IntegerText(n)) && IntegerValue(IntegerText(n)) == n
  {
    hide Decimal, IntegerText, IsInteger, Integral, DigitsValue, Rfc8259.Numeral;
    var a: nat := if n < 0 then -n else n;
    var digits := Decimal(a);
    SignedText(n);
    DecimalDigits(a);
    NoDigits();
    NumeralIsValue(0, [], digits);
    assert [] + digits == digits && IsDigit(digits[0]);
  }
}
