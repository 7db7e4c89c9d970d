/** What the lexer and the parser of libjansson/load.c compute, as functions of the unread input. */
module LoadText {
  import opened Options
  import opened Utf8
  import opened Values
  import opened Chars = DumpText

  const SLASH: byte := 0x2F
  const DOT: byte := 0x2E
  const PLUS: byte := 0x2B

  /** `Abort` stands for the failure of `assert(0)` in `decode_unicode_escape`. */
  datatype Token =
    | Invalid
    | Abort
    | Eof
    | Punct(c: byte)
    | Str(s: bytes)
    | Int(n: int)
    | RealTok(text: bytes)
    | TrueTok
    | FalseTok
    | NullTok

  datatype Lexed = Lexed(token: Token, rest: bytes)

  predicate IsDigit(c: byte) { 0x30 <= c <= 0x39 }

  predicate IsUpper(c: byte) { 0x41 <= c <= 0x5A }

  predicate IsLower(c: byte) { 0x61 <= c <= 0x7A }

  predicate IsAlpha(c: byte) { IsUpper(c) || IsLower(c) }

  predicate IsSpace(c: byte) { c == 0x20 || c == 0x09 || c == 0x0A || c == 0x0D }

  predicate IsPunct(c: byte) {
    c == LBRACE || c == RBRACE || c == LBRACKET || c == RBRACKET || c == COLON || c == COMMA
  }

  // ---------------------------------------------------------------- strings

  /** `"`, `\`, `/`, `b`, `f`, `n`, `r` and `t`: what may follow a backslash besides `u`. */
  predicate IsShortEscape(c: byte) {
    c == QUOTE || c == BACKSLASH || c == SLASH || c == 0x62 || c == 0x66 || c == 0x6E || c == 0x72 || c == 0x74
  }

  /** First pass of `lex_scan_string`: how many bytes stand before the closing quote. The four bytes after
      `\u` are not looked at, since `l_isxdigit` is true of every byte. */
  function RawLength(s: bytes): (r: Option<nat>)
    ensures r.Some? ==> r.value < |s| && s[r.value] == QUOTE
    decreases |s|
  {
    if s == [] then None
    else if s[0] == QUOTE then Some(0)
    else if s[0] <= 0x1F then None
    else if s[0] == BACKSLASH then
      if |s| >= 6 && s[1] == LETTER_U then Plus(6, RawLength(s[6..]))
      else if |s| >= 2 && IsShortEscape(s[1]) then Plus(2, RawLength(s[2..]))
      else None
    else Plus(1, RawLength(s[1..]))
  }

  function Plus(n: nat, r: Option<nat>): Option<nat> {
    if r.Some? then Some(n + r.value) else None
  }

  /** One character of `decode_unicode_escape`: a digit or any ASCII letter. */
  function HexValue(c: byte): (r: Option<nat>) {
    if IsDigit(c) then Some(c - 0x30)
    else if IsLower(c) then Some(c - 0x61 + 10)
    else if IsUpper(c) then Some(c - 0x41 + 10)
    else None
  }

  /** `decode_unicode_escape` on the four bytes after `\u`; nothing when its `assert(0)` fails. */
  function DecodeHex(s: bytes): (r: Option<nat>)
    requires |s| == 4
  {
    var a, b, c, d := HexValue(s[0]), HexValue(s[1]), HexValue(s[2]), HexValue(s[3]);
    if a.Some? && b.Some? && c.Some? && d.Some? then
      Some(((a.value * 16 + b.value) * 16 + c.value) * 16 + d.value)
    else None
  }

  datatype Decoded = Done(s: bytes) | Bad | Aborted

  function Prepend(p: bytes, d: Decoded): Decoded {
    if d.Done? then Done(p + d.s) else d
  }

  function ShortEscape(c: byte): byte {
    if c == 0x62 then 0x08
    else if c == 0x66 then 0x0C
    else if c == 0x6E then 0x0A
    else if c == 0x72 then 0x0D
    else if c == 0x74 then 0x09
    else c
  }

  predicate IsHighSurrogate(n: int) { 0xD800 <= n <= 0xDBFF }

  predicate IsLowSurrogate(n: int) { 0xDC00 <= n <= 0xDFFF }

  predicate StartsEscapeU(s: bytes) {
    |s| >= 6 && s[0] == BACKSLASH && s[1] == LETTER_U
  }

  /** The code point at the front of `s`, which starts with `\u`, and the number of bytes it takes. */
  datatype Point = Point(cp: int, size: nat) | BadPoint | AbortedPoint

  function UnescapePoint(s: bytes): (r: Point)
    requires StartsEscapeU(s)
    ensures r.Point? ==> (r.size == 6 || r.size == 12) && r.size <= |s| && IsScalar(r.cp) && r.cp != 0
  {
    var high := DecodeHex(s[2..6]);
    if high.None? then AbortedPoint
    else if IsHighSurrogate(high.value) then
      if StartsEscapeU(s[6..]) then
        var low := DecodeHex(s[8..12]);
        if low.None? then AbortedPoint
        else if IsLowSurrogate(low.value) then Point((high.value - 0xD800) * 0x400 + (low.value - 0xDC00) + 0x10000, 12)
        else BadPoint
      else BadPoint
    else if IsLowSurrogate(high.value) then BadPoint
    else if high.value == 0 then BadPoint
    else Point(high.value, 6)
  }

  /** Second pass of `lex_scan_string`: the bytes that the raw text between the quotes stands for. */
  function Unescape(s: bytes): (r: Decoded)
    decreases |s|
  {
    if s == [] then Done([])
    else if s[0] != BACKSLASH then Prepend([s[0]], Unescape(s[1..]))
    else if StartsEscapeU(s) then
      var p := UnescapePoint(s);
      if p.BadPoint? then Bad
      else if p.AbortedPoint? then Aborted
      else Prepend(Encode(p.cp).value, Unescape(s[p.size..]))
    else if |s| >= 2 then Prepend([ShortEscape(s[1])], Unescape(s[2..]))
    else Bad
  }

  /** `lex_scan_string`, after the opening quote. */
  function LexString(s: bytes): (r: Lexed)
    ensures |r.rest| <= |s|
  {
    var n := RawLength(s);
    if n.None? then Lexed(Invalid, [])
    else
      match Unescape(s[..n.value])
      case Done(t) => Lexed(Str(t), s[n.value + 1..])
      case Bad => Lexed(Invalid, s[n.value + 1..])
      case Aborted => Lexed(Abort, s[n.value + 1..])
  }

  // ---------------------------------------------------------------- numbers and words

  function DigitCount(s: bytes): (n: nat)
    ensures n <= |s|
    ensures forall i :: 0 <= i < n ==> IsDigit(s[i])
    ensures n < |s| ==> !IsDigit(s[n])
  {
    if s == [] || !IsDigit(s[0]) then 0 else 1 + DigitCount(s[1..])
  }

  function LetterCount(s: bytes): (n: nat)
    ensures n <= |s|
    ensures forall i :: 0 <= i < n ==> IsAlpha(s[i])
    ensures n < |s| ==> !IsAlpha(s[n])
  {
    if s == [] || !IsAlpha(s[0]) then 0 else 1 + LetterCount(s[1..])
  }

  function DigitValue(c: byte): (d: nat)
    requires IsDigit(c)
  {
    c - 0x30
  }

  /** The value of a string of digits, read left to right. */
  function DigitsValue(s: bytes): (n: nat)
    requires forall i :: 0 <= i < |s| ==> IsDigit(s[i])
  {
    if s == [] then 0 else DigitsValue(s[..|s| - 1]) * 10 + DigitValue(s[|s| - 1])
  }

  /** `strtoll` with its range check. */
  function StrToInt(negative: bool, digits: bytes): (r: Option<int>)
    requires forall i :: 0 <= i < |digits| ==> IsDigit(digits[i])
  {
    var m: int := DigitsValue(digits);
    var n := if negative then -m else m;
    if INT64_MIN <= n <= INT64_MAX then Some(n) else None
  }

  /** Putting back one character: a NUL byte is lost, since the buffer takes it for its own end. */
  function Unget(s: bytes): (r: bytes)
    ensures |r| <= |s|
  {
    if s != [] && s[0] == 0 then s[1..] else s
  }

  predicate IsExponent(c: byte) { c == 0x65 || c == 0x45 }

  /** Length of the integer part after the sign, or nothing if there is none or it has a leading zero. */
  function IntPart(s: bytes): (r: Option<nat>)
    ensures r.Some? ==> 1 <= r.value <= |s| && forall i :: 0 <= i < r.value ==> IsDigit(s[i])
  {
    if s == [] || !IsDigit(s[0]) then None
    else if s[0] == 0x30 then if |s| > 1 && IsDigit(s[1]) then None else Some(1)
    else Some(DigitCount(s))
  }

  /** Length of a fraction, 0 if there is none. */
  function FracPart(s: bytes): (r: Option<nat>)
    ensures r.Some? ==> r.value <= |s|
  {
    if s == [] || s[0] != DOT then Some(0)
    else if DigitCount(s[1..]) == 0 then None
    else Some(1 + DigitCount(s[1..]))
  }

  /** Length of an exponent, 0 if there is none. */
  function ExpPart(s: bytes): (r: Option<nat>)
    ensures r.Some? ==> r.value <= |s|
  {
    if s == [] || !IsExponent(s[0]) then Some(0)
    else
      var sign := if |s| > 1 && (s[1] == PLUS || s[1] == MINUS) then 1 else 0;
      if DigitCount(s[1 + sign..]) == 0 then None else Some(1 + sign + DigitCount(s[1 + sign..]))
  }

  /** `lex_scan_number` on input that starts with a digit or a minus sign. */
  function LexNumber(s: bytes): (r: Lexed)
    requires s != [] && (IsDigit(s[0]) || s[0] == MINUS)
    ensures |r.rest| < |s|
  {
    var m := if s[0] == MINUS then 1 else 0;
    var i := IntPart(s[m..]);
    if i.None? then Lexed(Invalid, [])
    else
      var j := m + i.value;
      if j == |s| || (s[j] != DOT && !IsExponent(s[j])) then
        var n := StrToInt(m == 1, s[m..j]);
        if n.Some? then Lexed(Int(n.value), Unget(s[j..])) else Lexed(Invalid, Unget(s[j..]))
      else
        var f := FracPart(s[j..]);
        if f.None? then Lexed(Invalid, [])
        else
          var e := ExpPart(s[j + f.value..]);
          if e.None? then Lexed(Invalid, [])
          else Lexed(RealTok(s[..j + f.value + e.value]), Unget(s[j + f.value + e.value..]))
  }

  function WordToken(word: bytes): Token {
    if word == TRUE_TEXT then TrueTok
    else if word == FALSE_TEXT then FalseTok
    else if word == NULL_TEXT then NullTok
    else Invalid
  }

  function LexWord(s: bytes): (r: Lexed)
    requires s != [] && IsAlpha(s[0])
    ensures |r.rest| < |s|
  {
    var n := LetterCount(s);
    Lexed(WordToken(s[..n]), Unget(s[n..]))
  }

  // ---------------------------------------------------------------- tokens

  /** `lex_scan` on the unread bytes `s`; `broken` tells whether undecodable input follows them. */
  function Lex(s: bytes, broken: bool): (r: Lexed)
    ensures r.token != Eof && (broken ==> r.token != Invalid) ==> |r.rest| < |s|
    ensures |r.rest| <= |s|
  {
    if s == [] then Lexed(if broken then Invalid else Eof, [])
    else if IsSpace(s[0]) then Lex(s[1..], broken)
    else if IsPunct(s[0]) then Lexed(Punct(s[0]), s[1..])
    else if s[0] == QUOTE then LexString(s[1..])
    else if IsDigit(s[0]) || s[0] == MINUS then LexNumber(s)
    else if IsAlpha(s[0]) then LexWord(s)
    else Lexed(Invalid, [])
  }

  // ---------------------------------------------------------------- parsing

  /** JSON_REJECT_DUPLICATES. */
  predicate RejectDuplicates(flags: nat) { flags % 2 == 1 }

  /** JSON_DISABLE_EOF_CHECK. */
  predicate DisableEofCheck(flags: nat) { flags / 2 % 2 == 1 }

  datatype Parsed = Parsed(value: Json, rest: bytes)

  /** `json_object_set_nocheck`: a key that is there keeps its place and its serial and gets the new value. */
  function SetMember(ms: seq<Member>, key: bytes, serial: nat, value: Json): (r: seq<Member>) {
    var i := Find(ms, key);
    if i < |ms| then ms[i := ms[i].(value := value)] else ms + [Member(key, serial, value)]
  }

  function ParseValue(token: Token, s: bytes, broken: bool, flags: nat): (r: Option<Parsed>)
    ensures r.Some? ==> |r.value.rest| <= |s|
    decreases |s|, 2
  {
    match token
    case Str(t) => Some(Parsed(String(t), s))
    case Int(n) => Some(Parsed(Integer(n), s))
    case RealTok(text) => Some(Parsed(Real(text), s))
    case TrueTok => Some(Parsed(True, s))
    case FalseTok => Some(Parsed(False, s))
    case NullTok => Some(Parsed(Null, s))
    case Punct(c) =>
      if c == LBRACE then ParseObject(s, broken, flags)
      else if c == LBRACKET then ParseArray(s, broken, flags)
      else None
    case _ => None
  }

  function ParseObject(s: bytes, broken: bool, flags: nat): (r: Option<Parsed>)
    ensures r.Some? ==> |r.value.rest| <= |s|
    decreases |s|, 1
  {
    var Lexed(t, s1) := Lex(s, broken);
    if t == Punct(RBRACE) then Some(Parsed(Object([]), s1))
    else if t.Str? then ParseMembers(t.s, s1, broken, flags, [], 0)
    else None
  }

  /** The loop of `parse_object`, from the key of a member on; `serial` counts the members set so far. */
  function ParseMembers(key: bytes, s: bytes, broken: bool, flags: nat, ms: seq<Member>, serial: nat): (r: Option<Parsed>)
    ensures r.Some? ==> |r.value.rest| <= |s|
    decreases |s|, 0
  {
    if RejectDuplicates(flags) && Find(ms, key) < |ms| then None
    else
      var Lexed(t, s1) := Lex(s, broken);
      if t != Punct(COLON) then None
      else
        var Lexed(t2, s2) := Lex(s1, broken);
        var v := ParseValue(t2, s2, broken, flags);
        if v.None? then None
        else
          var ms' := SetMember(ms, key, serial, v.value.value);
          var Lexed(t3, s3) := Lex(v.value.rest, broken);
          if t3 == Punct(RBRACE) then Some(Parsed(Object(ms'), s3))
          else if t3 == Punct(COMMA) then
            var Lexed(t4, s4) := Lex(s3, broken);
            if t4.Str? then ParseMembers(t4.s, s4, broken, flags, ms', serial + 1) else None
          else None
  }

  function ParseArray(s: bytes, broken: bool, flags: nat): (r: Option<Parsed>)
    ensures r.Some? ==> |r.value.rest| <= |s|
    decreases |s|, 1
  {
    var Lexed(t, s1) := Lex(s, broken);
    if t == Punct(RBRACKET) then Some(Parsed(Array([]), s1))
    else if t == Eof || t == Invalid then None
    else ParseElems(t, s1, broken, flags, [])
  }

  /** The loop of `parse_array`, from the first token of an element on. */
  function ParseElems(token: Token, s: bytes, broken: bool, flags: nat, es: seq<Json>): (r: Option<Parsed>)
    ensures r.Some? ==> |r.value.rest| <= |s|
    decreases |s|, 3
  {
    var v := ParseValue(token, s, broken, flags);
    if v.None? then None
    else
      var Lexed(t, s1) := Lex(v.value.rest, broken);
      if t == Punct(RBRACKET) then Some(Parsed(Array(es + [v.value.value]), s1))
      else if t == Punct(COMMA) then
        var Lexed(t2, s2) := Lex(s1, broken);
        if t2 == Eof then None else ParseElems(t2, s2, broken, flags, es + [v.value.value])
      else None
  }

  /** `parse_json`: the top level is an array or an object, followed by nothing unless the flag says so. */
  function ParseDocument(s: bytes, broken: bool, flags: nat): (r: Option<Json>) {
    var Lexed(t, s1) := Lex(s, broken);
    if t != Punct(LBRACKET) && t != Punct(LBRACE) then None
    else
      var v := ParseValue(t, s1, broken, flags);
      if v.None? then None
      else if DisableEofCheck(flags) then Some(v.value.value)
      else if Lex(v.value.rest, broken).token == Eof then Some(v.value.value)
      else None
  }

  /** The stream hands out the longest valid prefix of the input; then it reports the end or an error. */
  function ValidPrefix(s: bytes): (n: nat)
    ensures n <= |s|
    decreases |s|
  {
    if s == [] || Next(s).None? then 0 else Next(s).value.size + ValidPrefix(s[Next(s).value.size..])
  }

  /** `json_loadb`. */
  function Load(input: bytes, flags: nat): (r: Option<Json>) {
    var n := ValidPrefix(input);
    ParseDocument(input[..n], n < |input|, flags)
  }
}
