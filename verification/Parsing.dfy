/** The stream, the lexer and the parser of libjansson/load.c with their fields, proved against LoadText. */
module Parsing {
  import opened Options
  import opened Utf8
  import opened Values
  import opened Chars = DumpText
  import opened LoadText
  import opened StringRoundTrip

  const STREAM_STATE_OK := 0
  const STREAM_STATE_EOF := -1
  const STREAM_STATE_ERROR := -2

  // ---------------------------------------------------------------- text positions

  /** How many line feeds. */
  ghost function Lines(s: bytes): (n: nat) {
    if s == [] then 0 else Lines(s[..|s| - 1]) + if s[|s| - 1] == NEWLINE then 1 else 0
  }

  /** How many bytes after the last line feed can start a character. */
  ghost function Column(s: bytes): (n: nat) {
    if s == [] || s[|s| - 1] == NEWLINE then 0
    else Column(s[..|s| - 1]) + if CheckFirst(s[|s| - 1]) != 0 then 1 else 0
  }

  lemma CountsOfAppend(s: bytes, b: byte)
    ensures Lines(s + [b]) == Lines(s) + if b == NEWLINE then 1 else 0
    ensures Column(s + [b]) == if b == NEWLINE then 0 else Column(s) + if CheckFirst(b) != 0 then 1 else 0
  {
    assert (s + [b])[..|s|] == s;
  }

  lemma {:induction false} ColumnOfContinuations(s: bytes, t: bytes)
    requires forall i :: 0 <= i < |t| ==> IsContinuation(t[i])
    ensures Column(s + t) == Column(s) && Lines(s + t) == Lines(s)
  {
    if t == [] {
      assert s + t == s;
    } else {
      var u := t[..|t| - 1];
      ColumnOfContinuations(s, u);
      CountsOfAppend(s + u, t[|t| - 1]);
      assert s + u + [t[|t| - 1]] == s + t;
    }
  }

  /** One whole character that is not a line feed is one column. */
  lemma ColumnOfCharacter(s: bytes, c: bytes)
    requires Next(c).Some? && Next(c).value.size == |c| && c != [NEWLINE]
    ensures Column(s + c) == Column(s) + 1
  {
    TailContinues(c);
    CountsOfAppend(s, c[0]);
    ColumnOfContinuations(s + [c[0]], c[1..]);
    assert s + [c[0]] + c[1..] == s + c;
  }

  lemma {:induction false} AccumulateContinues(s: bytes, i: nat, value: int)
    requires i <= |s| && Accumulate(s, i, value).Some?
    ensures forall k :: i <= k < |s| ==> IsContinuation(s[k])
    decreases |s| - i
  {
    if i < |s| {
      AccumulateContinues(s, i + 1, value * 64 + s[i] % 64);
    }
  }

  lemma TailContinues(c: bytes)
    requires Next(c).Some? && Next(c).value.size == |c|
    ensures CheckFirst(c[0]) == |c| && forall k :: 1 <= k < |c| ==> IsContinuation(c[k])
  {
    if |c| > 1 {
      assert c[..|c|] == c;
      AccumulateContinues(c, 1, FirstBits(c[0], |c|));
    }
  }

  /** On valid text without a line feed, columns are code points. */
  lemma {:induction false} ColumnIsCodePoints(s: bytes, t: bytes)
    requires Valid(t) && NEWLINE !in t
    ensures Column(s + t) == Column(s) + |DecodeAll(t)|
    decreases |t|
  {
    hide Column, Full, CheckFirst;
    if t == [] {
      assert s + t == s;
    } else {
      var n := Next(t).value.size;
      var c := t[..n];
      NextPrefixAlone(t);
      assert c[0] == t[0];
      assert t == c + t[n..];
      ColumnOfCharacter(s, c);
      ColumnIsCodePoints(s + c, t[n..]);
      AppendTwo(s, c, t[n..]);
    }
  }

  lemma AppendTwo(s: bytes, c: bytes, t: bytes)
    ensures s + c + t == s + (c + t)
  {}

  lemma NextPrefixAlone(t: bytes)
    requires Next(t).Some?
    ensures var n := Next(t).value.size; Next(t[..n]) == Next(t)
  {
    var n := Next(t).value.size;
    assert t[..n][..n] == t[..n];
  }

  // ---------------------------------------------------------------- valid prefixes

  /** What the stream still has to hand out of `s`. */
  ghost function Readable(s: bytes): bytes { s[..ValidPrefix(s)] }

  ghost predicate Undecodable(s: bytes) { ValidPrefix(s) < |s| }

  lemma ReadableStep(s: bytes)
    requires Next(s).Some?
    ensures var n := Next(s).value.size;
            Readable(s) == s[..n] + Readable(s[n..]) && (Undecodable(s) <==> Undecodable(s[n..]))
  {}

  lemma ReadableStuck(s: bytes)
    requires Next(s).None?
    ensures Readable(s) == [] && (Undecodable(s) <==> s != [])
  {}

  /** Too few bytes, or a byte that does not continue, make a sequence undecodable. */
  lemma CutSequence(s: bytes, read: bytes)
    requires s != [] && |read| == CheckFirst(s[0]) && |read| >= 2
    requires forall k :: 0 <= k < |read| ==> read[k] == if k < |s| then s[k] else 0xFF
    ensures Full(read).Some? <==> Next(s).Some?
    ensures Next(s).Some? ==> Next(s).value.size == |read| <= |s| && s[..|read|] == read
    ensures Full(read).Some? ==> forall k :: 1 <= k < |read| ==> IsContinuation(read[k])
  {
    if Full(read).Some? {
      AccumulateContinues(read, 1, FirstBits(read[0], |read|));
      assert |s| < |read| ==> !IsContinuation(read[|s|]);
    }
    if |read| <= |s| {
      assert s[..|read|] == read;
    }
  }

  // ---------------------------------------------------------------- the counters

  /** The bytes that are not NUL. */
  ghost function Kept(s: bytes): (r: bytes) {
    if s == [] then [] else Kept(s[..|s| - 1]) + if s[|s| - 1] == 0 then [] else [s[|s| - 1]]
  }

  lemma {:induction false} KeptOfBoth(s: bytes, t: bytes)
    ensures Kept(s + t) == Kept(s) + Kept(t)
  {
    if t == [] {
      assert s + t == s;
    } else {
      KeptOfBoth(s, t[..|t| - 1]);
      assert (s + t)[..|s + t| - 1] == s + t[..|t| - 1];
    }
  }

  lemma KeptOfOne(b: byte)
    ensures Kept([b]) == if b == 0 then [] else [b]
  {
    assert [b][..0] == [];
  }

  lemma {:induction false} KeptClean(s: bytes)
    requires 0 !in s
    ensures Kept(s) == s
  {
    if s != [] {
      KeptClean(s[..|s| - 1]);
      assert s == s[..|s| - 1] + [s[|s| - 1]];
    }
  }

  lemma KeptMoved(s: bytes, b: byte, t: bytes)
    ensures Kept(s + [b]) + Kept(t) == Kept(s) + Kept([b] + t)
    ensures b == 0 ==> Kept(s + [b]) == Kept(s)
  {
    hide Kept;
    KeptOfBoth(s, [b]);
    KeptOfBoth([b], t);
    KeptOfOne(b);
  }

  /** The counters describe the consumed prefix, and what is neither consumed nor unread was lost, which only NUL can be. */
  ghost predicate Account(data: bytes, consumed: bytes, lost: nat, unread: bytes, position: int, line: int, column: int) {
    && position == |consumed|
    && line == 1 + Lines(consumed)
    && column == Column(consumed)
    && |consumed| + lost + |unread| == ValidPrefix(data)
    && (lost == 0 ==> consumed + unread == Readable(data))
    && (lost > 0 ==> 0 in Readable(data))
    && Kept(consumed) + Kept(unread) == Kept(Readable(data))
  }

  lemma AccountGet(data: bytes, consumed: bytes, lost: nat, unread: bytes, position: int, line: int, column: int)
    requires Account(data, consumed, lost, unread, position, line, column) && unread != []
    ensures var c := unread[0];
            Account(data, consumed + [c], lost, unread[1..], position + 1, line + if c == NEWLINE then 1 else 0,
                    if c == NEWLINE then 0 else column + if CheckFirst(c) != 0 then 1 else 0)
  {
    hide Kept;
    CountsOfAppend(consumed, unread[0]);
    KeptMoved(consumed, unread[0], unread[1..]);
    assert [unread[0]] + unread[1..] == unread;
    assert consumed + [unread[0]] + unread[1..] == consumed + unread;
  }

  lemma AccountUnget(data: bytes, before: bytes, c: byte, lost: nat, unread: bytes, position: int, line: int, column: int)
    requires Account(data, before + [c], lost, unread, position, line, column)
    ensures var column' := if c == NEWLINE then Column(before) else column - if CheckFirst(c) != 0 then 1 else 0;
            Account(data, before, lost + if c == 0 then 1 else 0, Unget([c] + unread), position - 1,
                    line - if c == NEWLINE then 1 else 0, column')
  {
    hide Kept;
    CountsOfAppend(before, c);
    KeptMoved(before, c, unread);
    assert before + ([c] + unread) == before + [c] + unread;
    assert lost == 0 ==> Readable(data)[|before|] == c;
    assert ([c] + unread)[1..] == unread;
  }

  // ---------------------------------------------------------------- the buffer

  /** One character, which has no NUL in it unless it is one, and a NUL after it. */
  ghost predicate OneCharacter(b: bytes, n: nat) {
    && n < |b| && b[n] == 0
    && (n > 0 ==> b[0] == 0 ==> n == 1)
    && (forall k :: 1 <= k < n ==> IsContinuation(b[k]))
  }

  /** Of the character in `b[..n]` the bytes from `p` on are unread, then comes `rest`. */
  ghost predicate Holds(b: bytes, p: nat, n: nat, unread: bytes, rest: bytes) {
    p <= n < |b| && OneCharacter(b, n) && unread == if b[p] == 0 then rest else b[p..n] + rest
  }

  lemma HoldsBounds(b: bytes, p: nat, n: nat, unread: bytes, rest: bytes)
    requires Holds(b, p, n, unread, rest)
    ensures p <= n < |b|
  {}

  lemma FirstByte(s: bytes)
    ensures s == [] ==> Next(s).None?
    ensures s != [] && s[0] < 0x80 ==> CheckFirst(s[0]) == 1 && Next(s).Some? && Next(s).value.size == 1
    ensures s != [] && s[0] >= 0x80 ==> CheckFirst(s[0]) != 1 && (CheckFirst(s[0]) == 0 ==> Next(s).None?)
  {}

  lemma Front(b: bytes, p: nat, n: nat, unread: bytes, rest: bytes)
    requires Holds(b, p, n, unread, rest) && b[p] != 0
    ensures p < n && OneCharacter(b, n) && unread == b[p..n] + rest
  {}

  lemma Take(b: bytes, p: nat, n: nat, unread: bytes, rest: bytes)
    requires p < n && OneCharacter(b, n) && unread == b[p..n] + rest
    ensures unread != [] && b[p] == unread[0] && Holds(b, p + 1, n, unread[1..], rest)
  {
    assert b[p..n] == [b[p]] + b[p + 1..n];
    assert unread[1..] == b[p + 1..n] + rest;
    assert p + 1 == n ==> unread[1..] == rest;
  }

  lemma CountsNothing(b: byte)
    ensures IsContinuation(b) ==> b != NEWLINE && CheckFirst(b) == 0
  {}

  lemma CachedByte(b: bytes, p: nat, n: nat, unread: bytes, rest: bytes)
    requires Holds(b, p, n, unread, rest) && b[p] != 0 && p > 0
    ensures p < n && unread != [] && unread[0] == b[p] && IsContinuation(b[p])
  {}

  lemma PutBack(b: bytes, p: nat, n: nat, unread: bytes, rest: bytes)
    requires Holds(b, p + 1, n, unread, rest)
    ensures Holds(b, p, n, Unget([b[p]] + unread), rest)
  {
    UngetCons(b[p], unread);
    if b[p] != 0 {
      assert b[p..n] == [b[p]] + b[p + 1..n];
      assert p + 1 == n ==> b[p..n] == [b[p]];
      assert [b[p]] + b[p + 1..n] + rest == [b[p]] + (b[p + 1..n] + rest);
    }
  }

  /** Putting back undoes getting for every byte but NUL. */
  lemma UngetCons(c: byte, s: bytes)
    ensures Unget([c] + s) == if c == 0 then s else [c] + s
    ensures Unget([c] + s) == [c] + s <==> c != 0
  {
    assert ([c] + s)[1..] == s;
  }

  // ---------------------------------------------------------------- strings

  /** `l_isxdigit`, as the macro is written. */
  predicate IsXDigit(c: int) {
    0x30 <= c <= 0x39 || 0x41 <= c || c <= 0x46 || 0x61 <= c || c <= 0x66
  }

  /** How many bytes the first pass steps over at once, 0 where it stops. */
  function RawStep(s: bytes): (n: nat)
    requires s != []
    ensures n > 0 ==> RawLength(s) == (if n <= |s| then Plus(n, RawLength(s[n..])) else None)
    ensures n == 0 <==> s[0] == QUOTE || s[0] <= 0x1F || (s[0] == BACKSLASH && !(|s| >= 2 && (s[1] == LETTER_U || IsShortEscape(s[1]))))
    ensures n == 0 && s[0] != QUOTE ==> RawLength(s) == None
  {
    if s[0] == QUOTE || s[0] <= 0x1F then 0
    else if s[0] != BACKSLASH then 1
    else if |s| < 2 then 0
    else if s[1] == LETTER_U then 6
    else if IsShortEscape(s[1]) then 2
    else 0
  }

  function Min(a: nat, b: nat): nat { if a <= b then a else b }

  lemma StepOver(s: bytes, n: nat)
    requires 1 <= n < |s| && RawStep(s[n..]) > 0
    ensures var k := Min(n + RawStep(s[n..]), |s|);
            Plus(n - 1, RawLength(s[n..])) == Plus(k - 1, RawLength(s[k..]))
  {
    assert forall k :: n <= k <= |s| ==> s[n..][k - n..] == s[k..];
  }

  lemma RawOfNothing(s: bytes)
    ensures RawLength(s[|s|..]) == None
  {}

  lemma RawAtQuote(s: bytes)
    ensures s != [] && s[0] == QUOTE ==> RawLength(s) == Some(0)
  {}

  /** Scanned text up to its closing quote: every escape in it is whole, so the second pass cannot run over the quote. */
  ghost predicate Scanned(w: bytes) {
    w != [] && RawLength(w) == Some(|w| - 1)
  }

  lemma ScannedStep(w: bytes)
    requires Scanned(w)
    ensures |w| == 1 <==> w[0] == QUOTE
    ensures |w| > 1 ==> var k := RawStep(w); 1 <= k < |w| && Scanned(w[k..])
  {}

  /** The value of hexadecimal digits, read left to right. */
  function HexFold(s: bytes): (r: Option<nat>) {
    if s == [] then Some(0)
    else
      var a, d := HexFold(s[..|s| - 1]), HexValue(s[|s| - 1]);
      if a.Some? && d.Some? then Some(a.value * 16 + d.value) else None
  }

  lemma HexFoldIsDecodeHex(s: bytes)
    requires |s| == 4
    ensures HexFold(s) == DecodeHex(s)
  {
    var a, b, c := s[..3], s[..2], s[..1];
    assert a[..2] == b && b[..1] == c && c[..0] == [];
    assert HexFold(c) == HexValue(s[0]);
    assert HexFold(b) == if HexValue(s[0]).Some? && HexValue(s[1]).Some? then Some(HexValue(s[0]).value * 16 + HexValue(s[1]).value) else None;
  }

  lemma {:induction false} HexFoldStuck(s: bytes, i: nat)
    requires i < |s| && HexValue(s[i]) == None
    ensures HexFold(s) == None
  {
    if i < |s| - 1 {
      HexFoldStuck(s[..|s| - 1], i);
    }
  }

  /** Whether a second escape follows the first can be told from two bytes. */
  lemma SecondEscape(w: bytes)
    requires Scanned(w)
    ensures w[0] == BACKSLASH ==> |w| > 1
    ensures w[0] == BACKSLASH && w[1] == LETTER_U ==> |w| > 6 && Scanned(w[6..])
    ensures StartsEscapeU(w[..|w| - 1]) <==> w[0] == BACKSLASH && w[1] == LETTER_U
  {
    hide RawLength;
    ScannedStep(w);
  }

  lemma ScannedPrefix(t: bytes)
    requires RawLength(t).Some? && RawLength(t[..RawLength(t).value + 1]) == RawLength(t)
    ensures Scanned(t[..RawLength(t).value + 1])
  {}

  /** A string that decodes has no NUL byte in its text. */
  lemma {:induction false} StringTextClean(t: bytes)
    requires RawLength(t).Some? && Unescape(t[..RawLength(t).value]).Done?
    ensures 0 !in t[..RawLength(t).value + 1]
    decreases |t|
  {
    hide DecodeHex, Encode, RawLength, Unescape;
    var n := RawLength(t).value;
    if n > 0 {
      var k := TextStep(t);
      StringTextClean(t[k..]);
      assert t[..n + 1] == t[..k] + t[k..][..n - k + 1];
    } else {
      EmptyText(t);
    }
  }

  lemma EmptyText(t: bytes)
    requires RawLength(t) == Some(0)
    ensures t != [] && t[..1] == [QUOTE]
  {}

  lemma TextStep(t: bytes) returns (k: nat)
    requires RawLength(t).Some? && RawLength(t).value > 0 && Unescape(t[..RawLength(t).value]).Done?
    ensures 0 < k <= RawLength(t).value && RawLength(t[k..]) == Some(RawLength(t).value - k)
    ensures Unescape(t[k..][..RawLength(t).value - k]).Done? && 0 !in t[..k]
  {
    hide DecodeHex, Encode, RawLength, Unescape, UnescapePoint;
    var n := RawLength(t).value;
    RawWhole(t);
    if t[0] != BACKSLASH || t[1] != LETTER_U {
      k := if t[0] != BACKSLASH then 1 else 2;
      CharText(t[..n]);
      assert t[..n][k..] == t[k..][..n - k];
    } else {
      k := PointText(t, n);
    }
  }

  lemma CharText(raw: bytes)
    requires raw != [] && Unescape(raw).Done? && (raw[0] == BACKSLASH ==> |raw| >= 2 && raw[1] != LETTER_U)
    ensures Unescape(raw[if raw[0] != BACKSLASH then 1 else 2..]).Done?
  {}

  lemma PointDone(raw: bytes)
    requires StartsEscapeU(raw) && Unescape(raw).Done?
    ensures UnescapePoint(raw).Point? && Unescape(raw[UnescapePoint(raw).size..]).Done?
  {}

  lemma PointParts(raw: bytes)
    requires StartsEscapeU(raw) && UnescapePoint(raw).Point?
    ensures DecodeHex(raw[2..6]).Some?
    ensures UnescapePoint(raw).size == 12 ==> StartsEscapeU(raw[6..]) && DecodeHex(raw[8..12]).Some?
  {
    hide DecodeHex;
  }

  lemma PointText(t: bytes, n: nat) returns (k: nat)
    requires n <= |t| && RawLength(t) == Some(n) && Unescape(t[..n]).Done? && StartsEscapeU(t) && n >= 6 && RawLength(t[6..]) == Some(n - 6)
    ensures 0 < k <= n && RawLength(t[k..]) == Some(n - k) && Unescape(t[k..][..n - k]).Done? && 0 !in t[..k]
  {
    hide DecodeHex, Encode, RawLength, Unescape, UnescapePoint;
    var raw := t[..n];
    PointDone(raw);
    PointParts(raw);
    k := UnescapePoint(raw).size;
    HexClean(raw[2..6]);
    assert raw[k..] == t[k..][..n - k];
    if k == 12 {
      assert raw[6..][0] == t[6] && raw[6..][1] == t[7] && t[6..][0] == t[6] && t[6..][1] == t[7];
      RawWhole(t[6..]);
      assert t[6..][6..] == t[12..];
      HexClean(raw[8..12]);
      assert t[..12] == t[..2] + raw[2..6] + t[6..8] + raw[8..12];
    } else {
      assert t[..6] == t[..2] + raw[2..6];
    }
  }

  lemma HexClean(h: bytes)
    requires |h| == 4 && DecodeHex(h).Some?
    ensures 0 !in h
  {}

  /** The steps of the first pass do not run over the closing quote. */
  lemma RawWhole(t: bytes)
    requires RawLength(t).Some? && RawLength(t).value > 0
    ensures var n := RawLength(t).value;
            && t[0] > 0x1F && t[0] != QUOTE
            && (t[0] == BACKSLASH ==> n >= 2 && |t| >= 2 && (t[1] == LETTER_U || IsShortEscape(t[1])) && (t[1] == LETTER_U ==> n >= 6))
            && var k := if t[0] != BACKSLASH then 1 else if t[1] == LETTER_U then 6 else 2;
               RawLength(t[k..]) == Some(n - k)
  {
    hide RawLength;
    RawAtQuote(t);
    var k := RawStep(t);
  }

  lemma TokenSlices(s: bytes, r: nat)
    requires r + 2 <= |s|
    ensures s[..r + 2][1..] == s[1..][..r + 1] && s[..r + 2][1..r + 1] == s[1..][..r] && s[r + 2..] == s[1..][r + 1..]
  {}

  lemma QuotedClean(s: bytes, r: nat)
    requires r + 2 <= |s| && s[0] == QUOTE && 0 !in s[1..][..r + 1]
    ensures 0 !in s[..r + 2]
  {
    assert s[..r + 2] == [s[0]] + s[1..][..r + 1];
  }

  /** A token that a value may begin with. */
  predicate Live(t: Token) {
    t != Invalid && t != Abort
  }

  lemma MoreDigits(s: bytes, k: nat)
    requires k < |s| && IsDigit(s[k])
    ensures DigitCount(s[k..]) == 1 + DigitCount(s[k + 1..])
  {
    assert s[k..][1..] == s[k + 1..];
  }

  lemma NoMoreDigits(s: bytes, k: nat)
    requires k <= |s|
    ensures k == |s| || !IsDigit(s[k]) <==> DigitCount(s[k..]) == 0
  {}

  /** The length of sign and integer part, where there is an integer part. */
  ghost function IntegerEnd(s: bytes): Option<nat>
    requires s != []
  {
    var m := if s[0] == MINUS then 1 else 0;
    Plus(m, IntPart(s[m..]))
  }

  ghost predicate IntegerEnds(s: bytes, n: nat) {
    s != [] && IntegerEnd(s) == Some(n) && n <= |s| && (n == |s| || (s[n] != DOT && !IsExponent(s[n])))
  }

  ghost predicate RealStarts(s: bytes, n: nat) {
    s != [] && IntegerEnd(s) == Some(n) && n < |s| && (s[n] == DOT || IsExponent(s[n]))
  }

  lemma LexInteger(s: bytes, n: nat)
    requires IntegerEnds(s, n)
    ensures 1 <= n <= |s| && (IsDigit(s[0]) || s[0] == MINUS)
    ensures var digits := if s[..n][0] == MINUS then s[..n][1..] else s[..n];
            && (forall k :: 0 <= k < |digits| ==> IsDigit(digits[k]))
            && var value := StrToInt(s[..n][0] == MINUS, digits);
               LexNumber(s) == Lexed(if value.Some? then Int(value.value) else Invalid, Unget(s[n..]))
  {
    hide StrToInt;
    var m := if s[0] == MINUS then 1 else 0;
    assert s[..n][1..] == s[1..n];
    assert m == 0 ==> s[m..n] == s[..n];
  }

  lemma LexReal(s: bytes, n: nat)
    requires RealStarts(s, n)
    ensures IsDigit(s[0]) || s[0] == MINUS
    ensures var f := FracPart(s[n..]);
            && (f.None? ==> LexNumber(s).token == Invalid)
            && (f.Some? ==>
                  var k := n + f.value;
                  var e := ExpPart(s[k..]);
                  && (e.None? ==> LexNumber(s).token == Invalid)
                  && (e.Some? ==> LexNumber(s) == Lexed(RealTok(s[..k + e.value]), Unget(s[k + e.value..]))))
  {
    hide FracPart, ExpPart, StrToInt, Unget, IntPart, DigitCount;
    var m := if s[0] == MINUS then 1 else 0;
    assert IntPart(s[m..]) == Some(n - m);
  }

  lemma IntegerClean(text: bytes, digits: bytes)
    requires text != [] && digits == if text[0] == MINUS then text[1..] else text
    requires forall k :: 0 <= k < |digits| ==> IsDigit(digits[k])
    ensures 0 !in text
  {
    assert text[0] == MINUS ==> text == [MINUS] + text[1..];
  }

  lemma DigitsClean(s: bytes)
    ensures 0 !in s[..DigitCount(s)]
  {}

  lemma FracClean(s: bytes)
    requires FracPart(s).Some?
    ensures 0 !in s[..FracPart(s).value]
  {
    var n := FracPart(s).value;
    if n > 0 {
      DigitsClean(s[1..]);
      assert s[..n] == [s[0]] + s[1..][..n - 1];
    }
  }

  lemma ExpClean(s: bytes)
    requires ExpPart(s).Some?
    ensures 0 !in s[..ExpPart(s).value]
  {
    var n := ExpPart(s).value;
    if n > 0 {
      var d := if |s| > 1 && (s[1] == PLUS || s[1] == MINUS) then 2 else 1;
      DigitsClean(s[d..]);
      assert s[..n] == s[..d] + s[d..][..n - d];
    }
  }

  /** The text of a real has no NUL byte. */
  lemma RealClean(s: bytes, j: nat, k: nat, n: nat)
    requires RealStarts(s, j) && FracPart(s[j..]) == Some(k - j) && j <= k <= n <= |s| && ExpPart(s[k..]) == Some(n - k)
    ensures 0 !in s[..n]
  {
    hide FracPart, ExpPart;
    var m := if s[0] == MINUS then 1 else 0;
    FracClean(s[j..]);
    ExpClean(s[k..]);
    IntegerTextClean(s, m, j);
    assert s[..n] == s[..j] + s[j..][..k - j] + s[k..][..n - k];
  }

  lemma IntegerTextClean(s: bytes, m: nat, j: nat)
    requires s != [] && m <= 1 && (m == 1 ==> s[0] == MINUS) && IntPart(s[m..]).Some? && j == m + IntPart(s[m..]).value
    ensures j <= |s| && 0 !in s[..j]
  {
    var t := s[m..];
    assert forall i :: m <= i < j ==> s[i] == t[i - m] && IsDigit(t[i - m]);
  }

  lemma WordClean(s: bytes)
    ensures 0 !in s[..LetterCount(s)]
  {}

  lemma MoreLetters(s: bytes, k: nat)
    requires k < |s| && IsAlpha(s[k])
    ensures LetterCount(s[k..]) == 1 + LetterCount(s[k + 1..])
  {
    assert s[k..][1..] == s[k + 1..];
  }

  lemma NoMoreLetters(s: bytes, k: nat)
    requires k <= |s|
    ensures k == |s| || !IsAlpha(s[k]) <==> LetterCount(s[k..]) == 0
  {}

  /** The bytes written so far and what is still to be decoded make up the whole. */
  ghost predicate Decoding(all: Decoded, done: bytes, w: bytes) {
    Scanned(w) && all == Prepend(done, Unescape(w[..|w| - 1]))
  }

  lemma DecodingScanned(all: Decoded, done: bytes, w: bytes)
    requires Decoding(all, done, w)
    ensures Scanned(w) && w != [] && (w[0] == BACKSLASH ==> |w| > 1)
  {
    SecondEscape(w);
  }

  lemma DecodingStart(w: bytes)
    requires Scanned(w)
    ensures Decoding(Unescape(w[..|w| - 1]), [], w)
  {
    var d := Unescape(w[..|w| - 1]);
    assert d.Done? ==> [] + d.s == d.s;
  }

  lemma DecodingEnd(all: Decoded, done: bytes, w: bytes)
    requires Decoding(all, done, w) && w[0] == QUOTE
    ensures all == Done(done)
  {
    assert w[..|w| - 1] == [];
    assert done + [] == done;
  }

  lemma DecodingEscape(all: Decoded, done: bytes, w: bytes)
    requires Decoding(all, done, w) && w[0] == BACKSLASH && w[1] == LETTER_U
    ensures var point := UnescapePoint(w[..|w| - 1]);
            match point
            case BadPoint => all == Bad
            case AbortedPoint => all == Aborted
            case Point(cp, size) => Decoding(all, done + Encode(cp).value, w[size..]) && |w[size..]| == |w| - size
  {
    hide UnescapePoint, Scanned, Unescape;
    DecodingScanned(all, done, w);
    UnescapeEscape(w);
    var point := UnescapePoint(w[..|w| - 1]);
    if point.Point? {
      assert w[..|w| - 1][point.size..] == w[point.size..][..|w| - point.size - 1];
      PrependAll(done, Encode(point.cp).value, Unescape(w[..|w| - 1][point.size..]));
    }
  }

  lemma DecodingShort(all: Decoded, done: bytes, w: bytes)
    requires Decoding(all, done, w) && w[0] != QUOTE && !(w[0] == BACKSLASH && w[1] == LETTER_U)
    ensures if w[0] == BACKSLASH then |w| > 2 && Decoding(all, done + [ShortEscape(w[1])], w[2..])
            else |w| > 1 && Decoding(all, done + [w[0]], w[1..])
  {
    hide Scanned, Unescape;
    UnescapeShort(w);
    var k := if w[0] == BACKSLASH then 2 else 1;
    assert w[..|w| - 1][k..] == w[k..][..|w| - k - 1];
    PrependAll(done, if w[0] == BACKSLASH then [ShortEscape(w[1])] else [w[0]], Unescape(w[..|w| - 1][k..]));
  }

  lemma UnescapeEscape(w: bytes)
    requires Scanned(w) && w[0] == BACKSLASH && w[1] == LETTER_U
    ensures var u := w[..|w| - 1];
            && StartsEscapeU(u)
            && Unescape(u) == (match UnescapePoint(u)
                               case BadPoint => Bad
                               case AbortedPoint => Aborted
                               case Point(cp, size) => Prepend(Encode(cp).value, Unescape(u[size..])))
    ensures UnescapePoint(w[..|w| - 1]).Point? ==> Scanned(w[UnescapePoint(w[..|w| - 1]).size..])
  {
    hide RawLength, DecodeHex;
    SecondEscape(w);
    SecondEscape(w[6..]);
    assert w[..|w| - 1][6..] == w[6..][..|w| - 7];
    assert |w| > 12 ==> w[6..][6..] == w[12..];
  }

  lemma UnescapeShort(w: bytes)
    requires Scanned(w) && w[0] != QUOTE && !(w[0] == BACKSLASH && w[1] == LETTER_U)
    ensures var u := w[..|w| - 1];
            if w[0] != BACKSLASH then |w| > 1 && Scanned(w[1..]) && Unescape(u) == Prepend([w[0]], Unescape(u[1..]))
            else |w| > 2 && Scanned(w[2..]) && IsShortEscape(w[1]) && Unescape(u) == Prepend([ShortEscape(w[1])], Unescape(u[2..]))
  {
    hide RawLength;
    ScannedStep(w);
  }

  // ---------------------------------------------------------------- the parser

  ghost predicate Agrees(r: Option<Json>, rest: bytes, spec: Option<Parsed>) {
    if r.Some? then spec == Some(Parsed(r.value, rest)) else spec == None
  }

  lemma InvalidIsNoValue(broken: bool, flags: nat)
    ensures forall s :: ParseValue(Invalid, s, broken, flags) == None
    ensures forall s, es :: ParseElems(Invalid, s, broken, flags, es) == None
  {}

  lemma {:induction false} EofIsEnd(s: bytes, broken: bool)
    requires Lex(s, broken).token == Eof
    ensures Lex(s, broken).rest == [] && !broken
    decreases |s|
  {
    if s != [] && IsSpace(s[0]) {
      EofIsEnd(s[1..], broken);
    }
  }

  lemma AccountClean(data: bytes, consumed: bytes, lost: nat, unread: bytes, position: int, line: int, column: int)
    requires Account(data, consumed, lost, unread, position, line, column) && 0 !in data
    ensures 0 <= position <= |data| && line == 1 + Lines(data[..position]) && column == Column(data[..position])
    ensures unread == [] ==> position == ValidPrefix(data)
  {
    hide ValidPrefix, Lines, Column;
    assert forall b :: b in Readable(data) ==> b in data;
    assert (consumed + unread)[..position] == consumed;
    assert data[..ValidPrefix(data)][..position] == data[..position];
  }

  /** No NUL byte has come in. */
  ghost predicate Unsullied(before: bytes, after: bytes) {
    0 !in before ==> 0 !in after
  }

  /** Once everything is read, no NUL among it, the counters are those of the input without its NUL bytes. */
  lemma AccountComplete(data: bytes, consumed: bytes, lost: nat, position: int, line: int, column: int)
    requires Account(data, consumed, lost, [], position, line, column) && 0 !in consumed && ValidPrefix(data) == |data|
    ensures position == |Kept(data)| && line == 1 + Lines(Kept(data)) && column == Column(Kept(data))
  {
    hide ValidPrefix, Lines, Column;
    KeptClean(consumed);
    KeptClean([]);
    assert data[..|data|] == data;
    assert Readable(data) == data;
    assert consumed + [] == consumed;
  }

  lemma AppendOne(a: bytes, more: bytes, b: byte)
    ensures a + more + [b] == a + (more + [b])
  {}

  lemma Regroup(head: bytes, ws: bytes, s: bytes)
    requires s != []
    ensures head + ws + [s[0]] == head + (ws + [s[0]])
    ensures ws + s == ws + [s[0]] + s[1..]
  {}

  /** Unread input bounds the recursion; an invalid token ends it. */
  ghost function Measure(token: Token, unread: bytes): (n: nat) {
    if token == Invalid then 0 else |unread| + 1
  }

  // ---------------------------------------------------------------- the lexer

  /** `stream_t` over a memory buffer, with the saved text and the token of `lex_t`. */
  class Lexer {
    const data: bytes
    var pos: nat

    const buffer: array<byte>
    var bufferPos: nat
    var state: int
    var line: int
    var column: int
    var lastColumn: int
    var position: int

    var saved: bytes
    var token: Token

    /** How many bytes of `buffer` hold the current character. */
    ghost var fill: nat
    /** What `Get` will still hand out. */
    ghost var unread: bytes
    /** The bytes handed out and not put back. */
    ghost var consumed: bytes
    /** How many NUL bytes were put back and thereby lost. */
    ghost var lost: nat

    ghost predicate Broken() { Undecodable(data) }

    ghost function EndCode(): int { if Broken() then STREAM_STATE_ERROR else STREAM_STATE_EOF }

    ghost predicate Valid()
      reads `pos, `bufferPos, `state, `line, `column, `position, `fill, `unread, `consumed, `lost, buffer
    {
      && buffer.Length == 5 && pos <= |data|
      && (state == STREAM_STATE_OK || (state == EndCode() && unread == []))
      && (state == STREAM_STATE_OK ==>
            && Holds(buffer[..], bufferPos, fill, unread, Readable(data[pos..]))
            && (Undecodable(data[pos..]) <==> Broken()))
      && Account(data, consumed, lost, unread, position, line, column)
    }

    /** `c` was the last byte handed out. */
    ghost predicate CanUnget(c: int)
      reads `bufferPos, `state, `lastColumn, `consumed, buffer
    {
      && state == STREAM_STATE_OK && 0 < bufferPos < buffer.Length && buffer[bufferPos - 1] as int == c
      && consumed != [] && consumed[|consumed| - 1] as int == c
      && (c == NEWLINE as int ==> lastColumn == Column(consumed[..|consumed| - 1]))
    }

    constructor (input: bytes)
      ensures Valid() && fresh(buffer) && data == input
      ensures consumed == [] && lost == 0 && unread == Readable(input)
    {
      data := input;
      buffer := new byte[5](_ => 0);
      pos, bufferPos, state, line, column, lastColumn, position := 0, 0, STREAM_STATE_OK, 1, 0, 0, 0;
      saved, token := [], Invalid;
      fill, unread, consumed, lost := 0, Readable(input), [], 0;
      new;
      assert data[0..] == data;
      assert [] + Kept(Readable(input)) == Kept(Readable(input));
    }

    /** `buffer_get`. */
    method Fetch() returns (c: int)
      requires pos <= |data|
      modifies `pos
      ensures old(pos) < |data| ==> c == data[old(pos)] as int && pos == old(pos) + 1
      ensures old(pos) >= |data| ==> c == -1 && pos == old(pos)
    {
      if pos >= |data| {
        return -1;
      }
      c := data[pos];
      pos := pos + 1;
    }

    /** The rest of a multi-byte sequence; the end of the input reads as 0xFF. */
    method FetchTail(count: nat)
      requires 2 <= count <= 4 && buffer.Length == 5 && 0 < pos <= |data| && buffer[0] == data[pos - 1]
      modifies `pos, buffer
      ensures buffer[0] == old(buffer[0])
      ensures var s := data[old(pos) - 1..];
              && (forall k :: 0 <= k < count ==> buffer[k] == if k < |s| then s[k] else 0xFF)
              && pos == if count <= |s| then old(pos) - 1 + count else |data|
    {
      var i := 1;
      ghost var start := pos - 1;
      while i < count
        invariant 1 <= i <= count
        invariant pos == if start + i <= |data| then start + i else |data|
        invariant forall k :: 0 <= k < i ==> buffer[k] == if start + k < |data| then data[start + k] else 0xFF
      {
        var c := Fetch();
        buffer[i] := if c == -1 then 0xFF else c;
        i := i + 1;
      }
    }

    /** The multi-byte case of `stream_get`: read the whole sequence and check it. */
    method ReadSequence(count: nat, ghost rest: bytes) returns (ok: bool)
      requires buffer.Length == 5 && 0 < pos <= |data| && rest == data[pos - 1..] && buffer[0] == rest[0]
      requires count == CheckFirst(rest[0]) && count >= 2
      modifies `pos, buffer
      ensures pos <= |data|
      ensures ok <==> Next(rest).Some?
      ensures ok ==> Next(rest).value.size == count && pos == old(pos) - 1 + count && buffer[..count] == rest[..count]
      ensures ok ==> forall k :: 1 <= k < count ==> IsContinuation(buffer[k])
    {
      hide Full, Next;
      FetchTail(count);
      var full := CheckFull(buffer[..count]);
      CutSequence(rest, buffer[..count]);
      ok := full.Some?;
      assert ok ==> forall k :: 0 <= k < count ==> buffer[k] == buffer[..count][k];
    }

    /** The first half of `stream_get`: bring the next character into the empty buffer. */
    method Refill() returns (failed: bool)
      requires Valid() && state == STREAM_STATE_OK && buffer[bufferPos] == 0
      modifies `pos, `bufferPos, `state, `fill, buffer
      ensures pos <= |data|
      ensures failed <==> unread == []
      ensures failed ==> state == EndCode()
      ensures !failed ==>
                && state == STREAM_STATE_OK && bufferPos == 0 && 0 < fill < 5 && OneCharacter(buffer[..], fill)
                && unread == buffer[..fill] + Readable(data[pos..]) && (Undecodable(data[pos..]) <==> Broken())
    {
      hide Account, Full, Next, ValidPrefix;
      ghost var rest := data[pos..];
      var c := Fetch();
      if c == -1 {
        ReadableStuck(rest);
        state := STREAM_STATE_EOF;
        return true;
      }
      buffer[0] := c;
      bufferPos := 0;
      var count := CheckFirst(c);
      FirstByte(rest);
      if 0x80 <= c {
        var ok := false;
        if count != 0 {
          ok := ReadSequence(count, rest);
        }
        if !ok {
          ReadableStuck(rest);
          state := STREAM_STATE_ERROR;
          return true;
        }
      }
      buffer[count] := 0;
      fill := count;
      assert data[pos..] == rest[count..];
      assert buffer[..fill] == rest[..count];
      ReadableStep(rest);
      return false;
    }

    /** The counters of `stream_get`. */
    method Count(c: byte)
      requires Account(data, consumed, lost, unread, position, line, column) && unread != [] && unread[0] == c
      modifies `line, `column, `lastColumn, `position, `consumed, `unread
      ensures consumed == old(consumed) + [c] && unread == old(unread)[1..]
      ensures Account(data, consumed, lost, unread, position, line, column)
      ensures c == NEWLINE ==> lastColumn == Column(old(consumed))
    {
      AccountGet(data, consumed, lost, unread, position, line, column);
      position := position + 1;
      if c == NEWLINE {
        line := line + 1;
        lastColumn := column;
        column := 0;
      } else if CheckFirst(c) != 0 {
        column := column + 1;
      }
      consumed := consumed + [c];
      unread := unread[1..];
    }

    /** The counters of `stream_unget`. */
    method Uncount(c: byte, ghost before: bytes)
      requires Account(data, consumed, lost, unread, position, line, column) && consumed == before + [c]
      requires c == NEWLINE ==> lastColumn == Column(before)
      modifies `line, `column, `position, `consumed, `lost, `unread
      ensures consumed == before && lost == old(lost) + (if c == 0 then 1 else 0) && unread == Unget([c] + old(unread))
      ensures Account(data, consumed, lost, unread, position, line, column)
    {
      AccountUnget(data, before, c, lost, unread, position, line, column);
      position := position - 1;
      if c == NEWLINE {
        line := line - 1;
        column := lastColumn;
      } else if CheckFirst(c) != 0 {
        column := column - 1;
      }
      consumed := before;
      lost := lost + if c == 0 then 1 else 0;
      unread := Unget([c] + unread);
    }

    /** `stream_get`. */
    method Get() returns (c: int)
      requires Valid()
      modifies `pos, `bufferPos, `state, `line, `column, `lastColumn, `position, `fill, `consumed, `unread, buffer
      ensures Valid()
      ensures old(unread) == [] ==> c == EndCode() && unread == [] && consumed == old(consumed)
      ensures old(unread) != [] ==>
                && c == old(unread)[0] as int && unread == old(unread)[1..]
                && consumed == old(consumed) + [old(unread)[0]] && CanUnget(c)
    {
      hide Account, Readable, Undecodable, Column, OneCharacter, Holds, Broken, Next, CheckFirst;
      if state != STREAM_STATE_OK {
        return state;
      }
      HoldsBounds(buffer[..], bufferPos, fill, unread, Readable(data[pos..]));
      if buffer[bufferPos] == 0 {
        var failed := Refill();
        if failed {
          return state;
        }
      } else {
        Front(buffer[..], bufferPos, fill, unread, Readable(data[pos..]));
      }
      Take(buffer[..], bufferPos, fill, unread, Readable(data[pos..]));
      c := buffer[bufferPos];
      bufferPos := bufferPos + 1;
      Count(c);
      assert consumed[..|consumed| - 1] == old(consumed);
    }

    /** `stream_unget`: the last byte is unread again, except that a NUL is lost. */
    method UngetChar(c: int)
      requires Valid() && (c == EndCode() || CanUnget(c))
      modifies `line, `column, `position, `bufferPos, `consumed, `lost, `unread
      ensures Valid()
      ensures c == EndCode() ==> unread == old(unread) && consumed == old(consumed) && lost == old(lost)
      ensures c != EndCode() ==>
                && consumed == old(consumed[..|consumed| - 1])
                && unread == Unget([c as byte] + old(unread))
                && lost == old(lost) + if c == 0 then 1 else 0
    {
      hide Account, Readable, Undecodable, Column, Holds, Unget, CheckFirst, OneCharacter;
      if c == STREAM_STATE_EOF || c == STREAM_STATE_ERROR {
        return;
      }
      PutBack(buffer[..], bufferPos - 1, fill, unread, Readable(data[pos..]));
      ghost var before := consumed[..|consumed| - 1];
      assert before + [c as byte] == consumed;
      Uncount(c, before);
      bufferPos := bufferPos - 1;
      assert buffer[bufferPos] as int == c;
    }

    // -------------------------------------------------------------- tokens

    /** Of the token text `s`, the bytes up to and including number `n` were handed out and saved; `c` is the
        last of them, or the end code when `s` has no byte number `n`. Before the token stood `head`. */
    ghost predicate Reading(head: bytes, s: bytes, n: nat, c: int)
      reads `pos, `bufferPos, `state, `line, `column, `lastColumn, `position, `fill, `unread, `consumed, `lost, `saved, buffer
    {
      && Valid() && n <= |s|
      && c == (if n < |s| then s[n] as int else EndCode())
      && unread == (if n < |s| then s[n + 1..] else [])
      && saved == (if n < |s| then s[..n + 1] else s)
      && consumed == head + saved
      && (n < |s| ==> CanUnget(c))
    }

    /** `lex_save`. */
    method Save(c: byte)
      modifies `saved
      ensures saved == old(saved) + [c]
    {
      saved := saved + [c];
    }

    /** `lex_get_save`. */
    method GetSave(ghost head: bytes, ghost s: bytes, ghost n: nat, last: int) returns (c: int)
      requires Reading(head, s, n, last)
      modifies `pos, `bufferPos, `state, `line, `column, `lastColumn, `position, `fill, `consumed, `unread, `saved, buffer
      ensures Reading(head, s, if n < |s| then n + 1 else n, c)
    {
      hide Account, Holds, Readable, Undecodable, Column, Broken;
      c := Get();
      if c != STREAM_STATE_EOF && c != STREAM_STATE_ERROR {
        assert old(unread) != [];
        Save(c);
        assert s[..n + 1] + [s[n + 1]] == s[..n + 2];
        assert s[n + 1..][1..] == s[n + 2..];
      }
    }

    /** `lex_unget_unsave`. */
    method UngetUnsave(ghost head: bytes, ghost s: bytes, ghost n: nat, c: int)
      requires Reading(head, s, n, c)
      modifies `line, `column, `position, `bufferPos, `consumed, `lost, `unread, `saved
      ensures Valid() && saved == s[..n] && consumed == head + saved && unread == Unget(s[n..])
    {
      hide Account, Holds, Readable, Undecodable, Column;
      if c != STREAM_STATE_EOF && c != STREAM_STATE_ERROR {
        UngetChar(c);
        var d := saved[|saved| - 1];
        saved := saved[..|saved| - 1];
        assert c == d as int;
        assert [s[n]] + s[n + 1..] == s[n..];
      }
    }

    // -------------------------------------------------------------- strings

    /** An escape sequence in the first loop of `lex_scan_string`, from the backslash on. */
    method ScanEscape(ghost head: bytes, ghost s: bytes, ghost n: nat, last: int) returns (ok: bool, c: int)
      requires Reading(head, s, n, last) && n < |s| && s[n] == BACKSLASH
      modifies `pos, `bufferPos, `state, `line, `column, `lastColumn, `position, `fill, `consumed, `unread, `saved, buffer
      ensures Valid() && consumed == head + saved
      ensures ok <==> RawStep(s[n..]) > 0
      ensures ok ==> Reading(head, s, Min(n + RawStep(s[n..]), |s|), c)
    {
      hide Reading, Valid, RawLength;
      c := GetSave(head, s, n, last);
      Bytes(head, s, n + 1, c);
      if c == LETTER_U as int {
        c := GetSave(head, s, n + 1, c);
        var i := 0;
        while i < 4
          invariant 0 <= i <= 4 && Reading(head, s, Min(n + 2 + i, |s|), c)
        {
          if !IsXDigit(c) {
            return false, c;
          }
          Bytes(head, s, Min(n + 2 + i, |s|), c);
          c := GetSave(head, s, Min(n + 2 + i, |s|), c);
          i := i + 1;
        }
        Bytes(head, s, Min(n + 6, |s|), c);
        ok := true;
      } else if c == QUOTE as int || c == BACKSLASH as int || c == SLASH as int || c == 0x62 || c == 0x66 || c == 0x6E
                || c == 0x72 || c == 0x74 {
        c := GetSave(head, s, n + 1, c);
        Bytes(head, s, n + 2, c);
        ok := true;
      } else {
        ok := false;
      }
    }

    /** The first loop of `lex_scan_string`: read up to the closing quote. */
    method ScanRaw(ghost head: bytes, ghost s: bytes) returns (ok: bool)
      requires Reading(head, s, 0, QUOTE as int) && s != []
      modifies `pos, `bufferPos, `state, `line, `column, `lastColumn, `position, `fill, `consumed, `unread, `saved, `lost, buffer
      ensures Valid() && consumed == head + saved
      ensures ok <==> RawLength(s[1..]).Some?
      ensures ok ==> Reading(head, s, 1 + RawLength(s[1..]).value, QUOTE as int)
    {
      hide Reading, Valid, RawLength;
      ghost var n := 1;
      ghost var t := s[1..];
      var c := GetSave(head, s, 0, QUOTE as int);
      while c != QUOTE as int
        invariant 1 <= n <= |s| && Reading(head, s, n, c)
        invariant RawLength(s[1..]) == Plus(n - 1, RawLength(s[n..]))
        decreases |s| - n
      {
        Bytes(head, s, n, c);
        if c == STREAM_STATE_ERROR || c == STREAM_STATE_EOF {
          RawOfNothing(s);
          return false;
        } else if c <= 0x1F {
          UngetUnsave(head, s, n, c);
          assert RawStep(s[n..]) == 0;
          return false;
        } else if c == BACKSLASH as int {
          ok, c := ScanEscape(head, s, n, c);
          if !ok {
            return false;
          }
        } else {
          c := GetSave(head, s, n, c);
        }
        StepOver(s, n);
        n := Min(n + RawStep(s[n..]), |s|);
      }
      Bytes(head, s, n, c);
      RawAtQuote(s[n..]);
      ok := true;
    }

    /** What `Reading` says about the byte at hand. */
    lemma Bytes(head: bytes, s: bytes, n: nat, c: int)
      requires Reading(head, s, n, c)
      ensures Valid() && consumed == head + saved && n <= |s|
      ensures c < 0 <==> n == |s|
      ensures c < 0 <==> c == STREAM_STATE_EOF || c == STREAM_STATE_ERROR
      ensures n < |s| ==> c == s[n] as int
    {}

    /** `decode_unicode_escape` on the saved text from the `u` on; nothing where its `assert(0)` fails. */
    method DecodeUnicodeEscape(p: nat) returns (r: Option<nat>)
      requires p + 5 <= |saved| && saved[p] == LETTER_U
      ensures r == DecodeHex(saved[p + 1..p + 5])
    {
      var value: nat := 0;
      var i := 1;
      ghost var hex := saved[p + 1..p + 5];
      while i <= 4
        invariant 1 <= i <= 5
        invariant HexFold(hex[..i - 1]) == Some(value)
      {
        var c := saved[p + i];
        value := value * 16;
        assert hex[..i][..i - 1] == hex[..i - 1] && hex[..i][i - 1] == c;
        if IsDigit(c) {
          value := value + c - 0x30;
        } else if IsLower(c) {
          value := value + c - 0x61 + 10;
        } else if IsUpper(c) {
          value := value + c - 0x41 + 10;
        } else {
          HexFoldStuck(hex, i - 1);
          HexFoldIsDecodeHex(hex);
          return None;
        }
        i := i + 1;
      }
      assert hex[..4] == hex;
      HexFoldIsDecodeHex(hex);
      return Some(value);
    }

    /** The branches on a `\u` escape in the second loop of `lex_scan_string`. */
    method ScanPoint(p: nat) returns (r: Point)
      requires p + 1 < |saved| && Scanned(saved[p..]) && saved[p] == BACKSLASH && saved[p + 1] == LETTER_U
      ensures StartsEscapeU(saved[p..|saved| - 1]) && r == UnescapePoint(saved[p..|saved| - 1])
    {
      hide RawLength, DecodeHex, Scanned;
      ghost var w := saved[p..];
      ghost var u := saved[p..|saved| - 1];
      assert w[..|w| - 1] == u;
      SecondEscape(w);
      SecondEscape(w[6..]);
      assert w[6..][..|w| - 7] == u[6..];
      assert saved[p + 2..p + 6] == u[2..6];
      var value := DecodeUnicodeEscape(p + 1);
      if value.None? {
        return AbortedPoint;
      }
      var high := value.value;
      var q := p + 6;
      if 0xD800 <= high && high <= 0xDBFF {
        if saved[q] == BACKSLASH && saved[q + 1] == LETTER_U {
          var value2 := DecodeUnicodeEscape(q + 1);
          assert saved[q + 2..q + 6] == u[8..12];
          if value2.None? {
            return AbortedPoint;
          }
          var low := value2.value;
          if 0xDC00 <= low && low <= 0xDFFF {
            return Point((high - 0xD800) * 0x400 + (low - 0xDC00) + 0x10000, 12);
          }
          return BadPoint;
        }
        return BadPoint;
      } else if 0xDC00 <= high && high <= 0xDFFF {
        return BadPoint;
      } else if high == 0 {
        return BadPoint;
      }
      return Point(high, 6);
    }

    /** `memcpy` of `size` bytes into `t`. */
    static method Copy(out: array<byte>, size: nat, t: array<byte>, n: nat)
      requires size <= out.Length && n + size <= t.Length && out != t
      modifies t
      ensures t[..n + size] == old(t[..n]) + out[..size]
    {
      var i := 0;
      while i < size
        invariant i <= size
        invariant forall k :: 0 <= k < n ==> t[k] == old(t[k])
        invariant forall k :: 0 <= k < i ==> t[n + k] == out[k]
      {
        t[n + i] := out[i];
        i := i + 1;
      }
    }

    /** The second loop of `lex_scan_string`: `t` has room, since what is written never gets ahead of what is read. */
    method Decode() returns (r: Decoded)
      requires |saved| >= 2 && Scanned(saved[1..])
      ensures r == Unescape(saved[1..|saved| - 1])
    {
      hide RawLength, UnescapePoint, Scanned, Unescape, Decoding, Encode;
      var t := new byte[|saved| + 1];
      var out := new byte[4];
      var n: nat, p: nat := 0, 1;
      ghost var all := Unescape(saved[1..][..|saved| - 2]);
      DecodingStart(saved[1..]);
      assert saved[1..][..|saved| - 2] == saved[1..|saved| - 1];
      while saved[p] != QUOTE
        invariant 1 <= p < |saved| && n <= p - 1
        invariant Decoding(all, t[..n], saved[p..])
        decreases |saved| - p
      {
        ghost var w := saved[p..];
        DecodingScanned(all, t[..n], w);
        if saved[p] == BACKSLASH && saved[p + 1] == LETTER_U {
          DecodingEscape(all, t[..n], w);
          assert w[..|w| - 1] == saved[p..|saved| - 1];
          var point := ScanPoint(p);
          if point.BadPoint? {
            return Bad;
          } else if point.AbortedPoint? {
            return Aborted;
          }
          var result, size := EncodeInto(point.cp, out);
          Copy(out, size, t, n);
          assert w[point.size..] == saved[p + point.size..];
          n, p := n + size, p + point.size;
        } else {
          DecodingShort(all, t[..n], w);
          if saved[p] == BACKSLASH {
            t[n] := ShortEscape(saved[p + 1]);
            p := p + 2;
          } else {
            t[n] := saved[p];
            p := p + 1;
          }
          assert t[..n + 1] == t[..n] + [t[n]];
          n := n + 1;
        }
      }
      DecodingEnd(all, t[..n], saved[p..]);
      t[n] := 0;
      r := Done(t[..n]);
    }

    /** `lex_scan_string`. */
    method ScanString(ghost head: bytes, ghost s: bytes)
      requires Reading(head, s, 0, QUOTE as int) && s != []
      modifies this, buffer
      ensures Valid() && consumed == head + saved
      ensures token == LexString(s[1..]).token
      ensures token != Invalid ==> unread == LexString(s[1..]).rest
      ensures Live(token) ==> 0 !in saved
    {
      hide Valid, RawLength, Unescape, Scanned;
      var ok := ScanRaw(head, s);
      if !ok {
        token := Invalid;
        return;
      }
      ghost var t := s[1..];
      ghost var r := RawLength(t).value;
      TokenSlices(s, r);
      RawLengthLocal(t);
      ScannedPrefix(t);
      var d := Decode();
      token := match d case Done(u) => Str(u) case Bad => Invalid case Aborted => Abort;
      if Live(token) {
        StringTextClean(t);
        QuotedClean(s, r);
      }
    }

    // -------------------------------------------------------------- numbers and words

    /** The loop that eats up digits. */
    method ScanDigits(ghost head: bytes, ghost s: bytes, ghost n: nat, last: int) returns (c: int)
      requires Reading(head, s, n, last)
      modifies `pos, `bufferPos, `state, `line, `column, `lastColumn, `position, `fill, `consumed, `unread, `saved, buffer
      ensures n <= |s| && Reading(head, s, n + DigitCount(s[n..]), c)
    {
      hide Reading, Valid, DigitCount;
      c := last;
      ghost var k := n;
      Bytes(head, s, n, c);
      while 0x30 <= c && c <= 0x39
        invariant n <= k <= |s| && Reading(head, s, k, c)
        invariant DigitCount(s[n..]) == k - n + DigitCount(s[k..])
        decreases |s| - k
      {
        Bytes(head, s, k, c);
        MoreDigits(s, k);
        c := GetSave(head, s, k, c);
        k := k + 1;
        Bytes(head, s, k, c);
      }
      Bytes(head, s, k, c);
      NoMoreDigits(s, k);
    }

    method ScanLetters(ghost head: bytes, ghost s: bytes, ghost n: nat, last: int) returns (c: int)
      requires Reading(head, s, n, last)
      modifies `pos, `bufferPos, `state, `line, `column, `lastColumn, `position, `fill, `consumed, `unread, `saved, buffer
      ensures n <= |s| && Reading(head, s, n + LetterCount(s[n..]), c)
    {
      hide Reading, Valid, LetterCount;
      c := last;
      ghost var k := n;
      Bytes(head, s, n, c);
      while (0x41 <= c && c <= 0x5A) || (0x61 <= c && c <= 0x7A)
        invariant n <= k <= |s| && Reading(head, s, k, c)
        invariant LetterCount(s[n..]) == k - n + LetterCount(s[k..])
        decreases |s| - k
      {
        Bytes(head, s, k, c);
        MoreLetters(s, k);
        c := GetSave(head, s, k, c);
        k := k + 1;
        Bytes(head, s, k, c);
      }
      Bytes(head, s, k, c);
      NoMoreLetters(s, k);
    }

    /** The byte after the decimal point is saved only once it is known to be a digit. */
    method ScanDot(ghost head: bytes, ghost s: bytes, ghost n: nat, last: int) returns (ok: bool, c: int)
      requires Reading(head, s, n, last) && n < |s|
      modifies `pos, `bufferPos, `state, `line, `column, `lastColumn, `position, `fill, `consumed, `unread, `saved, `lost, buffer
      ensures Valid() && consumed == head + saved
      ensures ok <==> n + 1 < |s| && IsDigit(s[n + 1])
      ensures ok ==> Reading(head, s, n + 1, c)
    {
      hide Account, Holds, Readable, Undecodable, Column;
      c := Get();
      if !(0x30 <= c && c <= 0x39) {
        assert (consumed[..|consumed| - 1] == head + saved) || c < 0;
        UngetChar(c);
        return false, c;
      }
      Save(c);
      assert s[n + 1..][1..] == s[n + 2..] && s[..n + 1] + [s[n + 1]] == s[..n + 2];
      ok := true;
    }

    /** The fraction in `lex_scan_number`, if there is one. */
    method ScanFraction(ghost head: bytes, ghost s: bytes, ghost n: nat, last: int) returns (ok: bool, c: int)
      requires Reading(head, s, n, last)
      modifies `pos, `bufferPos, `state, `line, `column, `lastColumn, `position, `fill, `consumed, `unread, `saved, `lost, buffer
      ensures Valid() && n <= |s| && consumed == head + saved
      ensures ok <==> FracPart(s[n..]).Some?
      ensures ok ==> Reading(head, s, n + FracPart(s[n..]).value, c)
    {
      hide Reading, Valid, DigitCount;
      c := last;
      Bytes(head, s, n, c);
      if c == DOT as int {
        assert s[n..][1..] == s[n + 1..];
        NoMoreDigits(s, n + 1);
        ok, c := ScanDot(head, s, n, c);
        if !ok {
          return;
        }
        MoreDigits(s, n + 1);
        c := GetSave(head, s, n + 1, c);
        c := ScanDigits(head, s, n + 2, c);
        Bytes(head, s, n + 2 + DigitCount(s[n + 2..]), c);
      }
      ok := true;
    }

    /** The exponent in `lex_scan_number`, if there is one. */
    method ScanExponent(ghost head: bytes, ghost s: bytes, ghost n: nat, last: int) returns (ok: bool, c: int)
      requires Reading(head, s, n, last)
      modifies `pos, `bufferPos, `state, `line, `column, `lastColumn, `position, `fill, `consumed, `unread, `saved, `lost, buffer
      ensures Valid() && n <= |s| && consumed == head + saved
      ensures ok <==> ExpPart(s[n..]).Some?
      ensures ok ==> Reading(head, s, n + ExpPart(s[n..]).value, c)
    {
      hide Reading, Valid, DigitCount, Broken, EndCode;
      c := last;
      Bytes(head, s, n, c);
      if c == 0x45 || c == 0x65 {
        c := GetSave(head, s, n, c);
        ghost var k := n + 1;
        Bytes(head, s, k, c);
        if c == PLUS as int || c == MINUS as int {
          c := GetSave(head, s, k, c);
          k := k + 1;
          Bytes(head, s, k, c);
        }
        assert s[n..][k - n..] == s[k..];
        NoMoreDigits(s, k);
        if !(0x30 <= c && c <= 0x39) {
          UngetUnsave(head, s, k, c);
          return false, c;
        }
        MoreDigits(s, k);
        c := GetSave(head, s, k, c);
        c := ScanDigits(head, s, k + 1, c);
        Bytes(head, s, k + 1 + DigitCount(s[k + 1..]), c);
      }
      ok := true;
    }

    /** The integer part in `lex_scan_number`. */
    method ScanInteger(ghost head: bytes, ghost s: bytes, ghost n: nat, last: int) returns (ok: bool, c: int)
      requires Reading(head, s, n, last)
      modifies `pos, `bufferPos, `state, `line, `column, `lastColumn, `position, `fill, `consumed, `unread, `saved, `lost, buffer
      ensures Valid() && n <= |s| && consumed == head + saved
      ensures ok <==> IntPart(s[n..]).Some?
      ensures ok ==> Reading(head, s, n + IntPart(s[n..]).value, c)
    {
      hide Reading, Valid, DigitCount;
      c := last;
      Bytes(head, s, n, c);
      if c == 0x30 {
        c := GetSave(head, s, n, c);
        Bytes(head, s, n + 1, c);
        if 0x30 <= c && c <= 0x39 {
          UngetUnsave(head, s, n + 1, c);
          return false, c;
        }
      } else if 0x30 <= c && c <= 0x39 {
        MoreDigits(s, n);
        c := GetSave(head, s, n, c);
        c := ScanDigits(head, s, n + 1, c);
        Bytes(head, s, n + DigitCount(s[n..]), c);
      } else {
        UngetUnsave(head, s, n, c);
        return false, c;
      }
      ok := true;
    }

    /** An integer: `strtoll` on the saved text. */
    method FinishInteger(ghost head: bytes, ghost s: bytes, ghost n: nat, c: int)
      requires Reading(head, s, n, c) && IntegerEnds(s, n)
      modifies this, buffer
      ensures Valid() && consumed == head + saved
      ensures token == LexNumber(s).token
      ensures token != Invalid ==> unread == LexNumber(s).rest
      ensures token != Invalid ==> 0 !in saved
    {
      hide *;
      LexInteger(s, n);
      UngetUnsave(head, s, n, c);
      var negative := saved[0] == MINUS;
      var digits := if negative then saved[1..] else saved;
      IntegerClean(saved, digits);
      var value := StrToInt(negative, digits);
      token := if value.Some? then Int(value.value) else Invalid;
    }

    /** The rest of a real number: `jsonp_strtod` is not modelled, the token carries its text. */
    method FinishReal(ghost head: bytes, ghost s: bytes, ghost n: nat, last: int)
      requires Reading(head, s, n, last) && RealStarts(s, n)
      modifies this, buffer
      ensures Valid() && consumed == head + saved
      ensures token == LexNumber(s).token
      ensures token != Invalid ==> unread == LexNumber(s).rest
      ensures token != Invalid ==> 0 !in saved
    {
      hide *;
      LexReal(s, n);
      token := Invalid;
      var ok, c := ScanFraction(head, s, n, last);
      if !ok {
        return;
      }
      ghost var k := n + FracPart(s[n..]).value;
      ghost var f := k;
      ok, c := ScanExponent(head, s, k, c);
      if !ok {
        return;
      }
      k := k + ExpPart(s[k..]).value;
      Bytes(head, s, k, c);
      UngetUnsave(head, s, k, c);
      token := RealTok(saved);
      RealClean(s, n, f, k);
    }

    /** `lex_scan_number`. */
    method ScanNumber(ghost head: bytes, ghost s: bytes, first: int)
      requires Reading(head, s, 0, first) && s != [] && (IsDigit(s[0]) || s[0] == MINUS)
      modifies this, buffer
      ensures Valid() && consumed == head + saved
      ensures token == LexNumber(s).token
      ensures token != Invalid ==> unread == LexNumber(s).rest
      ensures token != Invalid ==> 0 !in saved
    {
      hide Reading, Valid, IntPart, FracPart, ExpPart, StrToInt, EndCode, Broken;
      token := Invalid;
      var c := first;
      Bytes(head, s, 0, c);
      ghost var m: nat := 0;
      if c == MINUS as int {
        c := GetSave(head, s, 0, c);
        m := 1;
      }
      var ok;
      ok, c := ScanInteger(head, s, m, c);
      if !ok {
        return;
      }
      ghost var n := m + IntPart(s[m..]).value;
      Bytes(head, s, n, c);
      if c != DOT as int && c != 0x45 && c != 0x65 {
        FinishInteger(head, s, n, c);
      } else {
        FinishReal(head, s, n, c);
      }
    }

    // -------------------------------------------------------------- tokens

    method SaveNext() returns (ghost b: byte)
      requires Valid() && state == STREAM_STATE_OK && 0 < bufferPos < buffer.Length && buffer[bufferPos] != 0
      modifies `bufferPos, `position, `consumed, `unread, `saved
      ensures Valid() && 0 < bufferPos < buffer.Length && |unread| < |old(unread)|
      ensures consumed == old(consumed) + [b] && saved == old(saved) + [b]
    {
      hide Account, Readable, Undecodable, OneCharacter, Column, Lines, Holds, Broken, CheckFirst;
      b := buffer[bufferPos];
      HoldsBounds(buffer[..], bufferPos, fill, unread, Readable(data[pos..]));
      CachedByte(buffer[..], bufferPos, fill, unread, Readable(data[pos..]));
      Front(buffer[..], bufferPos, fill, unread, Readable(data[pos..]));
      Take(buffer[..], bufferPos, fill, unread, Readable(data[pos..]));
      CountsNothing(b);
      AccountGet(data, consumed, lost, unread, position, line, column);
      Save(buffer[bufferPos]);
      bufferPos := bufferPos + 1;
      position := position + 1;
      consumed := consumed + [b];
      unread := unread[1..];
    }

    /** `lex_save_cached`: the rest of the current character; its bytes count neither as lines nor as columns. */
    method SaveCached(ghost c: int) returns (ghost more: bytes)
      requires Valid() && CanUnget(c)
      modifies `bufferPos, `position, `consumed, `unread, `saved
      ensures Valid() && consumed == old(consumed) + more && saved == old(saved) + more
    {
      hide Account, Holds, Readable, Undecodable, OneCharacter, Column;
      more := [];
      HoldsBounds(buffer[..], bufferPos, fill, unread, Readable(data[pos..]));
      while buffer[bufferPos] != 0
        invariant Valid() && state == STREAM_STATE_OK && 0 < bufferPos < buffer.Length
        invariant consumed == old(consumed) + more && saved == old(saved) + more
        decreases |unread|
      {
        ghost var b := SaveNext();
        AppendOne(old(consumed), more, b);
        AppendOne(old(saved), more, b);
        more := more + [b];
      }
    }

    /** Like `Reading`, before the first byte of the token is saved. */
    ghost predicate Got(head: bytes, s: bytes, c: int)
      reads `pos, `bufferPos, `state, `line, `column, `lastColumn, `position, `fill, `unread, `consumed, `lost, `saved, buffer
    {
      && Valid() && saved == []
      && c == (if s != [] then s[0] as int else EndCode())
      && unread == (if s != [] then s[1..] else [])
      && consumed == head + (if s != [] then [s[0]] else [])
      && (s != [] ==> CanUnget(c))
    }

    method GetFirst(ghost head: bytes, ghost s: bytes) returns (c: int)
      requires Valid() && saved == [] && head == consumed && s == unread
      modifies `pos, `bufferPos, `state, `line, `column, `lastColumn, `position, `fill, `consumed, `unread, buffer
      ensures Got(head, s, c)
    {
      hide Account, Holds, Readable, Undecodable, Column;
      c := Get();
    }

    lemma Skipped(head: bytes, ws: bytes, s: bytes, c: int)
      requires Got(head + ws, s, c)
      ensures Valid() && saved == [] && (c < 0 <==> s == []) && (s != [] ==> c == s[0] as int)
      ensures s != [] ==> head + (ws + [s[0]]) == consumed && s[1..] == unread && ws + s == ws + [s[0]] + s[1..]
    {
      hide Valid, CanUnget, Broken;
      if s != [] {
        Regroup(head, ws, s);
      }
    }

    /** Skip white space: `ws` is what is skipped, `s` what was unread after it. */
    method SkipSpaces() returns (c: int, ghost ws: bytes, ghost s: bytes)
      requires Valid() && saved == []
      modifies `pos, `bufferPos, `state, `line, `column, `lastColumn, `position, `fill, `consumed, `unread, buffer
      ensures Got(old(consumed) + ws, s, c) && old(unread) == ws + s
      ensures (forall i :: 0 <= i < |ws| ==> IsSpace(ws[i])) && (s != [] ==> !IsSpace(s[0]))
    {
      hide Valid, Got;
      ws, s := [], unread;
      ghost var head := consumed;
      assert head + [] == consumed;
      c := GetFirst(head + ws, s);
      Skipped(head, ws, s, c);
      while c == 0x20 || c == 0x09 || c == 0x0A || c == 0x0D
        invariant Got(head + ws, s, c) && old(unread) == ws + s
        invariant forall i :: 0 <= i < |ws| ==> IsSpace(ws[i])
        invariant Valid() && saved == [] && (c < 0 <==> s == []) && (s != [] ==> c == s[0] as int)
        decreases |s|
      {
        Skipped(head, ws, s, c);
        ws, s := ws + [s[0]], s[1..];
        c := GetFirst(head + ws, s);
        Skipped(head, ws, s, c);
      }
    }

    /** `lex_scan`: the saved text is the text of the token. */
    method Scan() returns (ghost ws: bytes)
      requires Valid()
      modifies this, buffer
      ensures Valid()
      ensures token == Lex(old(unread), Broken()).token
      ensures token != Invalid ==> unread == Lex(old(unread), Broken()).rest
      ensures token != Invalid ==> |unread| <= |old(unread)| && (token != Eof ==> |unread| < |old(unread)|)
      ensures consumed == old(consumed) + ws + saved
      ensures forall i :: 0 <= i < |ws| ==> IsSpace(ws[i])
      ensures Live(token) ==> Unsullied(old(consumed), consumed)
    {
      hide Valid, CanUnget, LexString, LexNumber, LexWord, Undecodable;
      saved := [];
      var c;
      ghost var s;
      c, ws, s := SkipSpaces();
      SpacesSkipped(ws, s, Broken());
      if c == STREAM_STATE_EOF {
        token := Eof;
        return;
      }
      if c == STREAM_STATE_ERROR {
        token := Invalid;
        return;
      }
      Save(c);
      ghost var head := old(consumed) + ws;
      assert Reading(head, s, 0, c) && CanUnget(c);
      if c == LBRACE as int || c == RBRACE as int || c == LBRACKET as int || c == RBRACKET as int || c == COLON as int || c == COMMA as int {
        token := Punct(c);
      } else if c == QUOTE as int {
        ScanString(head, s);
      } else if (0x30 <= c && c <= 0x39) || c == MINUS as int {
        ScanNumber(head, s, c);
      } else if (0x41 <= c && c <= 0x5A) || (0x61 <= c && c <= 0x7A) {
        ScanWord(head, s, c);
      } else {
        ghost var more := SaveCached(c);
        assert head + [s[0]] + more == head + ([s[0]] + more);
        token := Invalid;
      }
    }

    /** Names: the whole run of letters is read before it is compared. */
    method ScanWord(ghost head: bytes, ghost s: bytes, first: int)
      requires Reading(head, s, 0, first) && s != [] && IsAlpha(s[0])
      modifies this, buffer
      ensures Valid() && consumed == head + saved
      ensures token == LexWord(s).token
      ensures token != Invalid ==> unread == LexWord(s).rest
      ensures 0 !in saved
    {
      hide Reading, Valid, LetterCount, WordToken;
      var c := GetSave(head, s, 0, first);
      c := ScanLetters(head, s, 1, c);
      assert s[0..] == s;
      MoreLetters(s, 0);
      ghost var n := LetterCount(s);
      Bytes(head, s, n, c);
      UngetUnsave(head, s, n, c);
      token := WordToken(saved);
      WordClean(s);
    }

    // -------------------------------------------------------------- parsing

    /** `parse_value`. */
    method ParseValue(flags: nat) returns (r: Option<Json>)
      requires Valid()
      modifies this, buffer
      ensures Valid() && Agrees(r, unread, LoadText.ParseValue(old(token), old(unread), Broken(), flags))
      ensures r.Some? ==> |unread| <= |old(unread)| && Live(old(token)) && Unsullied(old(consumed), consumed)
      decreases Measure(token, unread), 2
    {
      hide Valid, Broken, LoadText.ParseObject, LoadText.ParseArray;
      match token
      case Str(t) => r := Some(String(t));
      case Int(n) => r := Some(Integer(n));
      case RealTok(text) => r := Some(Real(text));
      case TrueTok => r := Some(True);
      case FalseTok => r := Some(False);
      case NullTok => r := Some(Null);
      case Punct(c) =>
        if c == LBRACE {
          r := ParseObject(flags);
        } else if c == LBRACKET {
          r := ParseArray(flags);
        } else {
          r := None;
        }
      case _ => r := None;
    }

    /** `parse_object`. */
    method ParseObject(flags: nat) returns (r: Option<Json>)
      requires Valid()
      modifies this, buffer
      ensures Valid() && Agrees(r, unread, LoadText.ParseObject(old(unread), Broken(), flags))
      ensures r.Some? ==> |unread| <= |old(unread)| && Unsullied(old(consumed), consumed)
      decreases |unread| + 1, 1
    {
      hide Valid, Lex, LoadText.ParseValue, SetMember, Broken, Find;
      InvalidIsNoValue(Broken(), flags);
      ghost var spec := LoadText.ParseObject(unread, Broken(), flags);
      ghost var limit := |unread|;
      var ms: seq<Member> := [];
      var serial := 0;
      ghost var ws := Scan();
      if token == Punct(RBRACE) {
        return Some(Object(ms));
      }
      while true
        invariant Valid() && spec == (if token.Str? then ParseMembers(token.s, unread, Broken(), flags, ms, serial) else None)
        invariant token.Str? ==> |unread| < limit && Unsullied(old(consumed), consumed)
        decreases if token.Str? then |unread| + 1 else 0
      {
        if !token.Str? {
          return None;
        }
        var key := token.s;
        if RejectDuplicates(flags) && Find(ms, key) < |ms| {
          return None;
        }
        ws := Scan();
        if token != Punct(COLON) {
          return None;
        }
        ws := Scan();
        var value := ParseValue(flags);
        if value.None? {
          return None;
        }
        ms := SetMember(ms, key, serial, value.value);
        serial := serial + 1;
        ws := Scan();
        if token != Punct(COMMA) {
          break;
        }
        ws := Scan();
      }
      r := if token == Punct(RBRACE) then Some(Object(ms)) else None;
    }

    /** `parse_array`. */
    method ParseArray(flags: nat) returns (r: Option<Json>)
      requires Valid()
      modifies this, buffer
      ensures Valid() && Agrees(r, unread, LoadText.ParseArray(old(unread), Broken(), flags))
      ensures r.Some? ==> |unread| <= |old(unread)| && Unsullied(old(consumed), consumed)
      decreases |unread| + 1, 1
    {
      hide Valid, Lex, LoadText.ParseValue, Broken;
      InvalidIsNoValue(Broken(), flags);
      ghost var spec := LoadText.ParseArray(unread, Broken(), flags);
      ghost var limit := |unread|;
      var es: seq<Json> := [];
      ghost var ws := Scan();
      if token == Punct(RBRACKET) {
        return Some(Array(es));
      }
      while token != Eof
        invariant Valid() && spec == (if token == Eof || token == Invalid then None else ParseElems(token, unread, Broken(), flags, es))
        invariant token != Invalid ==> |unread| <= limit && (token != Eof ==> |unread| < limit)
        invariant Live(token) ==> Unsullied(old(consumed), consumed)
        decreases if token == Invalid then 0 else |unread| + 1
      {
        var elem := ParseValue(flags);
        if elem.None? {
          return None;
        }
        es := es + [elem.value];
        ws := Scan();
        if token != Punct(COMMA) {
          break;
        }
        ws := Scan();
      }
      r := if token == Punct(RBRACKET) then Some(Array(es)) else None;
    }

    /** `parse_json`. */
    method ParseJson(flags: nat) returns (r: Option<Json>)
      requires Valid()
      modifies this, buffer
      ensures Valid() && r == ParseDocument(old(unread), Broken(), flags)
      ensures r.Some? ==> Unsullied(old(consumed), consumed)
      ensures r.Some? && !DisableEofCheck(flags) ==> unread == [] && !Broken()
    {
      hide Valid, Lex, LoadText.ParseValue, Broken;
      ghost var ws := Scan();
      if token != Punct(LBRACKET) && token != Punct(LBRACE) {
        return None;
      }
      r := ParseValue(flags);
      if r.None? {
        return None;
      }
      if !DisableEofCheck(flags) {
        ghost var last := unread;
        ws := Scan();
        if token != Eof {
          r := None;
        } else {
          EofIsEnd(last, Broken());
        }
      }
    }
  }

  /** `json_loadb`: the document, and how far the stream was read when it was complete. */
  method LoadBuffer(input: bytes, flags: nat) returns (r: Option<Json>, position: int, line: int, column: int)
    ensures r == Load(input, flags)
    ensures 0 !in input ==>
              && 0 <= position <= |input|
              && line == 1 + Lines(input[..position])
              && column == Column(input[..position])
    ensures r.Some? && !DisableEofCheck(flags) ==>
              && position == |Kept(input)|
              && line == 1 + Lines(Kept(input))
              && column == Column(Kept(input))
  {
    hide ParseDocument, Account, Lines, Column, ValidPrefix, Holds;
    var lexer := new Lexer(input);
    r := lexer.ParseJson(flags);
    position, line, column := lexer.position, lexer.line, lexer.column;
    if 0 !in input {
      AccountClean(input, lexer.consumed, lexer.lost, lexer.unread, position, line, column);
    }
    if r.Some? && !DisableEofCheck(flags) {
      AccountComplete(input, lexer.consumed, lexer.lost, position, line, column);
    }
  }

  lemma OneThenNul(rest: bytes, broken: bool)
    ensures Lex([0x31, 0] + rest, broken) == Lexed(Int(1), rest)
  {
    var s: bytes := [0x31, 0] + rest;
    assert s[0..] == s && s[..1] == [0x31] && s[1..] == [0] + rest;
    DigitCountIs([0x31], [0] + rest);
    assert [0x31] + ([0] + rest) == s;
    assert DigitsValue([]) == 0;
    assert [0x31][..0] == [];
    UngetCons(0, rest);
  }

  lemma {:induction false} AsciiIsReadable(s: bytes)
    requires forall i :: 0 <= i < |s| ==> s[i] < 0x80
    ensures ValidPrefix(s) == |s|
  {
    if s != [] {
      AsciiIsReadable(s[1..]);
    }
  }

  /** A NUL byte after a number is lost, so `[1`, NUL, `]` is accepted, which RFC 8259 does not allow. */
  lemma NulAfterNumberIsLost()
    ensures Load([LBRACKET, 0x31, 0, RBRACKET], 0) == Some(Array([Integer(1)]))
  {
    hide ValidPrefix, LexNumber;
    var s: bytes := [LBRACKET, 0x31, 0, RBRACKET];
    AsciiIsReadable(s);
    assert s[..4] == s && s[1..] == [0x31, 0] + [RBRACKET];
    OneThenNul([RBRACKET], false);
    assert Lex(s, false) == Lexed(Punct(LBRACKET), s[1..]);
    assert Lex([RBRACKET], false) == Lexed(Punct(RBRACKET), []);
    assert ParseElems(Int(1), [RBRACKET], false, 0, []) == Some(Parsed(Array([] + [Integer(1)]), []));
    assert [] + [Integer(1)] == [Integer(1)] && Lex(s[1..], false) == Lexed(Int(1), [RBRACKET]);
    assert ParseArray(s[1..], false, 0) == ParseElems(Int(1), [RBRACKET], false, 0, []);
    assert ParseArray(s[1..], false, 0) == Some(Parsed(Array([Integer(1)]), []));
    assert Lex([], false).token == Eof;
  }
}
