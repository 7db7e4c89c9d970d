/** The text `do_dump` produces for a tree (libjansson/dump.c). */
module DumpText {
  import opened Options
  import opened Utf8
  import opened Values
  import opened Arrange

  const QUOTE: byte := 0x22
  const BACKSLASH: byte := 0x5C
  const COMMA: byte := 0x2C
  const COLON: byte := 0x3A
  const LBRACKET: byte := 0x5B
  const RBRACKET: byte := 0x5D
  const LBRACE: byte := 0x7B
  const RBRACE: byte := 0x7D
  const SPACE: byte := 0x20
  const NEWLINE: byte := 0x0A
  const MINUS: byte := 0x2D
  const LETTER_U: byte := 0x75

  const NULL_TEXT: bytes := [0x6E, 0x75, 0x6C, 0x6C]
  const TRUE_TEXT: bytes := [0x74, 0x72, 0x75, 0x65]
  const FALSE_TEXT: bytes := [0x66, 0x61, 0x6C, 0x73, 0x65]

  // ---------------------------------------------------------------- numbers

  /** `%lld` of a number that is not negative. */
  function Decimal(n: nat): (r: bytes)
    ensures r != []
  {
    if n < 10 then [0x30 + n] else Decimal(n / 10) + [0x30 + n % 10]
  }

  function IntegerText(n: int): (r: bytes) {
    if n < 0 then [MINUS] + Decimal(-n) else Decimal(n)
  }

  /** One digit of `%x`, which writes letters in lower case. */
  function HexDigit(d: nat): (c: byte)
    requires d < 16
    ensures 0x30 <= c <= 0x39 || 0x61 <= c <= 0x66
  {
    if d < 10 then 0x30 + d else 0x61 + d - 10
  }

  /** `%04x`. */
  function Hex4(n: nat): (r: bytes)
    requires n < 0x10000
    ensures |r| == 4
  {
    [HexDigit(n / 0x1000), HexDigit(n / 0x100 % 16), HexDigit(n / 16 % 16), HexDigit(n % 16)]
  }

  // ---------------------------------------------------------------- strings

  predicate NeedsEscape(cp: int, ascii: bool) {
    cp == BACKSLASH || cp == QUOTE || cp < 0x20 || (ascii && cp > 0x7F)
  }

  function UnicodeEscape(n: nat): (r: bytes)
    requires n < 0x10000
  {
    [BACKSLASH, LETTER_U] + Hex4(n)
  }

  /** The escape for a code point: short, \uXXXX, or a UTF-16 surrogate pair. */
  function Escape(cp: int): (r: bytes)
    requires 0 <= cp <= 0x10FFFF
  {
    if cp == BACKSLASH then [BACKSLASH, BACKSLASH]
    else if cp == QUOTE then [BACKSLASH, QUOTE]
    else if cp == 0x08 then [BACKSLASH, 0x62]
    else if cp == 0x0C then [BACKSLASH, 0x66]
    else if cp == 0x0A then [BACKSLASH, 0x6E]
    else if cp == 0x0D then [BACKSLASH, 0x72]
    else if cp == 0x09 then [BACKSLASH, 0x74]
    else if cp < 0x10000 then UnicodeEscape(cp)
    else UnicodeEscape(0xD800 + (cp - 0x10000) / 0x400) + UnicodeEscape(0xDC00 + (cp - 0x10000) % 0x400)
  }

  /** What a printer has emitted, and whether it succeeded. */
  datatype Emitted = Emitted(ok: bool, text: bytes)

  /** The loop of `dump_string`: `run` holds the bytes between `str` and `pos`, not yet emitted. */
  function StringBody(run: bytes, s: bytes, ascii: bool): (r: Emitted)
    decreases |s|
  {
    if s == [] then Emitted(true, run + [QUOTE])
    else if Next(s).None? then Emitted(false, [])
    else
      EncodeOfNext(s);
      var Char(cp, n) := Next(s).value;
      if NeedsEscape(cp, ascii) then
        var rest := StringBody([], s[n..], ascii);
        Emitted(rest.ok, run + Escape(cp) + rest.text)
      else
        StringBody(run + s[..n], s[n..], ascii)
  }

  function StringText(s: bytes, ascii: bool): Emitted {
    var body := StringBody([], s, ascii);
    Emitted(body.ok, [QUOTE] + body.text)
  }

  /** The escaped form of a valid string, character by character. */
  function EscapeAll(s: bytes, ascii: bool): (r: bytes)
    requires Valid(s)
    decreases |s|
  {
    if s == [] then [] else
      EncodeOfNext(s);
      var Char(cp, n) := Next(s).value;
      (if NeedsEscape(cp, ascii) then Escape(cp) else s[..n]) + EscapeAll(s[n..], ascii)
  }

  /** `dump_string` succeeds exactly on valid UTF-8, and then it emits the escaped string. */
  lemma {:induction false} StringBodyIff(run: bytes, s: bytes, ascii: bool)
    ensures StringBody(run, s, ascii).ok <==> Valid(s)
    ensures Valid(s) ==> StringBody(run, s, ascii).text == run + EscapeAll(s, ascii) + [QUOTE]
    decreases |s|
  {
    hide Next, Encode, Escape;
    if s != [] && Next(s).Some? {
      EncodeOfNext(s);
      var Char(cp, n) := Next(s).value;
      if NeedsEscape(cp, ascii) {
        StringBodyIff([], s[n..], ascii);
      } else {
        StringBodyIff(run + s[..n], s[n..], ascii);
      }
    }
  }

  // ---------------------------------------------------------------- layout

  function Spaces(n: nat): (r: bytes)
    ensures |r| == n && forall i :: 0 <= i < n ==> r[i] == SPACE
  {
    if n == 0 then [] else [SPACE] + Spaces(n - 1)
  }

  /** `dump_indent`. */
  function IndentText(flags: nat, depth: nat, space: bool): (r: bytes) {
    if Indent(flags) > 0 then [NEWLINE] + Spaces(Indent(flags) * depth)
    else if space && !Compact(flags) then [SPACE]
    else []
  }

  function Separator(flags: nat): bytes {
    if Compact(flags) then [COLON] else [COLON, SPACE]
  }

  // ---------------------------------------------------------------- values

  /** The text of a tree whose members are already in the order in which they are visited. */
  function Plain(v: Json, flags: nat, depth: nat): (r: bytes)
    decreases v
  {
    match v
    case Null => NULL_TEXT
    case True => TRUE_TEXT
    case False => FALSE_TEXT
    case Integer(n) => IntegerText(n)
    case Real(text) => text
    case String(s) => StringText(s, EnsureAscii(flags)).text
    case Array(elems) =>
      if elems == [] then [LBRACKET, RBRACKET]
      else [LBRACKET] + IndentText(flags, depth + 1, false) + PlainElems(elems, flags, depth) + [RBRACKET]
    case Object(members) =>
      if members == [] then [LBRACE, RBRACE]
      else [LBRACE] + IndentText(flags, depth + 1, false) + PlainMembers(members, flags, depth) + [RBRACE]
  }

  /** What follows an element: a comma before the next one, or the line break before the closing bracket. */
  function After(last: bool, flags: nat, depth: nat): bytes {
    if last then IndentText(flags, depth, false) else [COMMA] + IndentText(flags, depth + 1, true)
  }

  function PlainElems(es: seq<Json>, flags: nat, depth: nat): (r: bytes)
    decreases es
  {
    if es == [] then [] else
      Plain(es[0], flags, depth + 1) + After(|es| == 1, flags, depth) + PlainElems(es[1..], flags, depth)
  }

  function PlainMembers(ms: seq<Member>, flags: nat, depth: nat): (r: bytes)
    decreases ms
  {
    if ms == [] then [] else
      StringText(ms[0].key, EnsureAscii(flags)).text + Separator(flags)
      + Plain(ms[0].value, flags, depth + 1) + After(|ms| == 1, flags, depth) + PlainMembers(ms[1..], flags, depth)
  }

  /** `json_dumps` of a tree without cycles. */
  function Dumps(v: Json, flags: nat): (r: bytes) {
    Plain(Arranged(v, flags), flags, 0)
  }

  /** Serials do not show in the text. */
  lemma {:induction false} PlainAlike(v: Json, w: Json, flags: nat, depth: nat)
    requires Alike(v, w)
    ensures Plain(v, flags, depth) == Plain(w, flags, depth)
    decreases v
  {
    match v
    case Array(elems) => PlainElemsAlike(elems, w.elems, flags, depth);
    case Object(members) => PlainMembersAlike(members, w.members, flags, depth);
    case _ =>
  }

  lemma {:induction false} PlainElemsAlike(es: seq<Json>, fs: seq<Json>, flags: nat, depth: nat)
    requires |es| == |fs| && forall i :: 0 <= i < |es| ==> Alike(es[i], fs[i])
    ensures PlainElems(es, flags, depth) == PlainElems(fs, flags, depth)
    decreases es
  {
    if es != [] {
      PlainAlike(es[0], fs[0], flags, depth + 1);
      PlainElemsAlike(es[1..], fs[1..], flags, depth);
    }
  }

  lemma {:induction false} PlainMembersAlike(ms: seq<Member>, ns: seq<Member>, flags: nat, depth: nat)
    requires |ms| == |ns| && forall i :: 0 <= i < |ms| ==> ms[i].key == ns[i].key && Alike(ms[i].value, ns[i].value)
    ensures PlainMembers(ms, flags, depth) == PlainMembers(ns, flags, depth)
    decreases ms
  {
    if ms != [] {
      PlainAlike(ms[0].value, ns[0].value, flags, depth + 1);
      PlainMembersAlike(ms[1..], ns[1..], flags, depth);
    }
  }
}
