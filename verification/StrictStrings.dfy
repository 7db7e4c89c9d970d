/** Strings as section 7 of RFC 8259 defines them, against what `lex_scan_string` accepts: the library takes any letter for
    a hexadecimal digit and aborts on other bytes, so the two agree exactly where the digits are digits. */
module StrictStrings {
  import opened Options
  import opened Utf8
  import opened Values
  import opened DumpText
  import opened LoadText
  import opened Reload
  import opened StringRoundTrip
  import Rfc8259

  // ---------------------------------------------------------------- the grammar of RFC 8259

  /** `%x75 4HEXDIG` after the escape character. */
  predicate HexEscape(s: bytes) {
    && |s| >= 6 && s[0] == Rfc8259.ESCAPE && s[1] == Rfc8259.HEX_MARK
    && Rfc8259.HexDig(s[2]) && Rfc8259.HexDig(s[3]) && Rfc8259.HexDig(s[4]) && Rfc8259.HexDig(s[5])
  }

  /** `*char`. */
  predicate Rfc8259Chars(s: bytes) {
    || s == []
    || (Rfc8259.Unescaped(s[0]) && Rfc8259Chars(s[1..]))
    || (|s| >= 2 && s[0] == Rfc8259.ESCAPE && Rfc8259.EscapedChar(s[1]).Some? && Rfc8259Chars(s[2..]))
    || (HexEscape(s) && Rfc8259Chars(s[6..]))
  }

  /** What a char stands for: itself, or a UTF-16 code unit. */
  datatype Unit = Itself(c: byte) | Code(n: nat)

  function Units(s: bytes): (us: seq<Unit>)
    requires Rfc8259Chars(s)
  {
    if s == [] then []
    else if s[0] != Rfc8259.ESCAPE then [Itself(s[0])] + Units(s[1..])
    else if s[1] == Rfc8259.HEX_MARK then
      [Code(Rfc8259.HexDigNumber(s[2]) * 0x1000 + Rfc8259.HexDigNumber(s[3]) * 0x100 + Rfc8259.HexDigNumber(s[4]) * 0x10 + Rfc8259.HexDigNumber(s[5]))] + Units(s[6..])
    else [Itself(Rfc8259.EscapedChar(s[1]).value)] + Units(s[2..])
  }

  /** The text of the code units, if surrogates come in pairs and no character is NUL. */
  function Joined(us: seq<Unit>): (t: Option<bytes>) {
    if us == [] then Some([])
    else if us[0].Itself? then Attach([us[0].c], Joined(us[1..]))
    else
      var n := us[0].n;
      if 0xD800 <= n <= 0xDBFF then
        if |us| > 1 && us[1].Code? && 0xDC00 <= us[1].n <= 0xDFFF
        then Attach(Bytes(0x10000 + (n - 0xD800) * 0x400 + (us[1].n - 0xDC00)), Joined(us[2..]))
        else None
      else if 0xDC00 <= n <= 0xDFFF || n == 0 then None
      else Attach(Bytes(n), Joined(us[1..]))
  }

  function Attach(p: bytes, t: Option<bytes>): Option<bytes> {
    if t.Some? then Some(p + t.value) else None
  }

  function Bytes(cp: nat): bytes {
    if Encode(cp).Some? then Encode(cp).value else []
  }

  /** The text that a string literal stands for. */
  function Strict(raw: bytes): (t: Option<bytes>) {
    if Rfc8259Chars(raw) then Joined(Units(raw)) else None
  }

  // ---------------------------------------------------------------- where escapes stand

  /** How many bytes the first pass takes in one step. */
  function StepSize(s: bytes): (n: nat)
    requires s != []
    ensures n > 0
  {
    if s[0] != BACKSLASH then 1 else if |s| >= 2 && s[1] == LETTER_U then 6 else 2
  }

  /** Stepping over `s` from its start gets to `p`. */
  predicate Boundary(s: bytes, p: nat) {
    p == 0 || (s != [] && StepSize(s) <= p && StepSize(s) <= |s| && Boundary(s[StepSize(s)..], p - StepSize(s)))
  }

  ghost predicate HexAt(s: bytes, p: nat) {
    p <= |s| && StartsEscapeU(s[p..]) ==> HexEscape(s[p..])
  }

  /** After every `\u` of the raw text stand four hexadecimal digits. */
  ghost predicate HexEverywhere(raw: bytes) {
    forall p: nat :: p <= |raw| && Boundary(raw, p) ==> HexAt(raw, p)
  }

  /** What the first pass of `lex_scan_string` lets pass. */
  predicate Scanned(raw: bytes) {
    RawLength(raw + [QUOTE]) == Some(|raw|)
  }

  lemma ScannedStep(raw: bytes)
    requires Scanned(raw) && raw != []
    ensures StepSize(raw) <= |raw| && Scanned(raw[StepSize(raw)..])
    ensures raw[0] > 0x1F && raw[0] != QUOTE
    ensures raw[0] == BACKSLASH ==> |raw| >= 2 && (StartsEscapeU(raw) || IsShortEscape(raw[1])) && (raw[1] == LETTER_U <==> StartsEscapeU(raw))
  {
    var t, k := raw + [QUOTE], StepSize(raw);
    assert t[0] == raw[0] && (|raw| >= 2 ==> t[1] == raw[1]);
    assert k <= |raw| ==> t[k..] == raw[k..] + [QUOTE];
    assert |raw| == 1 ==> t[1] == QUOTE;
  }

  lemma BoundaryStep(raw: bytes, p: nat)
    requires raw != [] && StepSize(raw) <= |raw|
    ensures Boundary(raw[StepSize(raw)..], p) <==> Boundary(raw, p + StepSize(raw))
    ensures p > 0 && Boundary(raw, p) ==> p >= StepSize(raw)
  {}

  lemma HexStep(raw: bytes)
    requires Scanned(raw) && raw != []
    ensures StepSize(raw) <= |raw| && (HexEverywhere(raw) <==> HexAt(raw, 0) && HexEverywhere(raw[StepSize(raw)..]))
  {
    hide HexAt, Boundary, StepSize, Scanned;
    ScannedStep(raw);
    BoundaryStart(raw);
    var k := StepSize(raw);
    var t := raw[k..];
    forall p: nat | p <= |t| ensures (Boundary(t, p) <==> Boundary(raw, p + k)) && (HexAt(t, p) <==> HexAt(raw, p + k)) {
      BoundaryStep(raw, p);
      HexShift(raw, k, p);
    }
    forall p: nat | p <= |raw| && Boundary(raw, p) && p > 0 ensures p >= k {
      BoundaryStep(raw, p);
    }
    if HexEverywhere(raw) {
      forall p: nat | p <= |t| && Boundary(t, p) ensures HexAt(t, p) {
        assert HexAt(raw, p + k);
      }
    }
    if HexAt(raw, 0) && HexEverywhere(t) {
      forall p: nat | p <= |raw| && Boundary(raw, p) ensures HexAt(raw, p) {
        if p > 0 {
          assert HexAt(t, p - k);
        }
      }
    }
  }

  lemma HexShift(raw: bytes, k: nat, p: nat)
    requires k + p <= |raw|
    ensures HexAt(raw[k..], p) <==> HexAt(raw, p + k)
  {
    assert raw[k..][p..] == raw[p + k..];
  }

  lemma BoundaryStart(raw: bytes)
    ensures Boundary(raw, 0)
  {}

  lemma HexAtStart(raw: bytes)
    ensures HexAt(raw, 0) <==> (StartsEscapeU(raw) ==> HexEscape(raw))
  {
    assert raw[0..] == raw;
  }

  /** Of the strings that the first pass lets pass, those of the grammar are the ones with real digits. */
  lemma {:induction false} GrammarIffHex(raw: bytes)
    requires Scanned(raw)
    ensures Rfc8259Chars(raw) <==> HexEverywhere(raw)
    decreases |raw|
  {
    hide HexEverywhere, HexAt, Scanned;
    if raw == [] {
      NoEscapes();
    } else {
      HexStep(raw);
      ScannedStep(raw);
      HexAtStart(raw);
      GrammarIffHex(raw[StepSize(raw)..]);
    }
  }

  lemma NoEscapes()
    ensures HexEverywhere([])
  {}

  function Outcome(t: Option<bytes>): Decoded {
    if t.Some? then Done(t.value) else Bad
  }

  lemma HexDecodes(s: bytes)
    requires HexEscape(s)
    ensures DecodeHex(s[2..6]) == Some(Rfc8259.HexDigNumber(s[2]) * 0x1000 + Rfc8259.HexDigNumber(s[3]) * 0x100 + Rfc8259.HexDigNumber(s[4]) * 0x10 + Rfc8259.HexDigNumber(s[5]))
  {
    var h := s[2..6];
    assert h[0] == s[2] && h[1] == s[3] && h[2] == s[4] && h[3] == s[5];
  }

  /** The first unit of an escape is what `decode_unicode_escape` makes of it. */
  lemma UnitOfEscape(raw: bytes) returns (n: nat)
    requires Rfc8259Chars(raw) && StartsEscapeU(raw)
    ensures Rfc8259Chars(raw[6..]) && Units(raw) == [Code(n)] + Units(raw[6..]) && DecodeHex(raw[2..6]) == Some(n) && n < 0x1_0000
  {
    assert HexEscape(raw);
    HexDecodes(raw);
    n := DecodeHex(raw[2..6]).value;
  }

  lemma UnitOfOther(raw: bytes) returns (c: byte)
    requires Rfc8259Chars(raw) && raw != [] && !StartsEscapeU(raw)
    ensures var k := StepSize(raw);
            && k <= 2 && k <= |raw| && Rfc8259Chars(raw[k..]) && Units(raw) == [Itself(c)] + Units(raw[k..])
            && Unescape(raw) == Prepend([c], Unescape(raw[k..]))
  {
    c := if raw[0] != BACKSLASH then raw[0] else ShortEscape(raw[1]);
  }

  lemma OutcomeAfter(p: bytes, t: Option<bytes>)
    ensures Outcome(Attach(p, t)) == Prepend(p, Outcome(t))
  {}

  /** On a literal of the grammar the library computes the text that the literal stands for, or refuses it for an
      unpaired surrogate or a NUL. */
  lemma {:induction false} StrictDecoding(raw: bytes)
    requires Rfc8259Chars(raw)
    ensures Unescape(raw) == Outcome(Strict(raw))
    decreases |raw|, 2
  {
    hide Rfc8259Chars, Units, DecodeHex;
    if raw == [] {
      EmptyLiteral();
    } else if !StartsEscapeU(raw) {
      var c := UnitOfOther(raw);
      var k := StepSize(raw);
      StrictDecoding(raw[k..]);
      JoinedPlain(c, Units(raw[k..]));
      OutcomeAfter([c], Strict(raw[k..]));
    } else {
      EscapeDecoding(raw);
    }
  }

  lemma EmptyLiteral()
    ensures Rfc8259Chars([]) && Units([]) == [] && Strict([]) == Some([]) && Unescape([]) == Done([])
  {}

  lemma JoinedPlain(c: byte, us: seq<Unit>)
    ensures Joined([Itself(c)] + us) == Attach([c], Joined(us))
  {
    assert ([Itself(c)] + us)[1..] == us;
  }

  lemma JoinedCode(n: nat, us: seq<Unit>)
    ensures 0xDC00 <= n <= 0xDFFF || n == 0 ==> Joined([Code(n)] + us) == None
    ensures !(0xD800 <= n <= 0xDFFF) && n != 0 ==> Joined([Code(n)] + us) == Attach(Bytes(n), Joined(us))
    ensures 0xD800 <= n <= 0xDBFF && (us == [] || us[0].Itself? || !(0xDC00 <= us[0].n <= 0xDFFF)) ==> Joined([Code(n)] + us) == None
  {
    assert ([Code(n)] + us)[1..] == us;
  }

  lemma JoinedPair(n: nat, m: nat, us: seq<Unit>)
    requires 0xD800 <= n <= 0xDBFF && 0xDC00 <= m <= 0xDFFF
    ensures Joined([Code(n)] + ([Code(m)] + us)) == Attach(Bytes(0x10000 + (n - 0xD800) * 0x400 + (m - 0xDC00)), Joined(us))
  {
    var all := [Code(n)] + ([Code(m)] + us);
    assert all[2..] == us;
  }

  lemma {:induction false} EscapeDecoding(raw: bytes)
    requires Rfc8259Chars(raw) && StartsEscapeU(raw)
    ensures Unescape(raw) == Outcome(Strict(raw))
    decreases |raw|, 1
  {
    hide Rfc8259Chars, Units, DecodeHex, Joined, Outcome;
    var n := UnitOfEscape(raw);
    var rest := raw[6..];
    JoinedCode(n, Units(rest));
    if IsHighSurrogate(n) {
      PairDecoding(raw, n);
    } else if IsLowSurrogate(n) || n == 0 {
      NoText();
    } else {
      StrictDecoding(rest);
      OutcomeAfter(Bytes(n), Strict(rest));
    }
  }

  lemma NoText()
    ensures Outcome(None) == Bad
  {}

  lemma {:induction false} PairDecoding(raw: bytes, n: nat)
    requires Rfc8259Chars(raw) && StartsEscapeU(raw) && IsHighSurrogate(n) && DecodeHex(raw[2..6]) == Some(n)
    requires Rfc8259Chars(raw[6..]) && Units(raw) == [Code(n)] + Units(raw[6..])
    ensures Unescape(raw) == Outcome(Strict(raw))
    decreases |raw|, 0
  {
    hide Rfc8259Chars, Units, DecodeHex, Joined, Outcome;
    var rest := raw[6..];
    JoinedCode(n, Units(rest));
    NoText();
    if StartsEscapeU(rest) {
      var m := UnitOfEscape(rest);
      assert rest[2..6] == raw[8..12] && rest[6..] == raw[12..];
      if IsLowSurrogate(m) {
        JoinedPair(n, m, Units(raw[12..]));
        StrictDecoding(raw[12..]);
        OutcomeAfter(Bytes(0x10000 + (n - 0xD800) * 0x400 + (m - 0xDC00)), Strict(raw[12..]));
      }
    } else if rest != [] {
      var c := UnitOfOther(rest);
    } else {
      EmptyLiteral();
    }
  }

  /** Exactly when library and standard agree on what the first pass lets pass: where all digits are hexadecimal, and
      where the library refuses the string for another reason before. */
  lemma AgreesIffHex(raw: bytes)
    requires Scanned(raw)
    ensures Unescape(raw) == Outcome(Strict(raw)) <==> HexEverywhere(raw) || Unescape(raw) == Bad
    ensures Unescape(raw).Done? ==> (Strict(raw) == Some(Unescape(raw).s) <==> HexEverywhere(raw))
  {
    hide Unescape, Units, Joined, Rfc8259Chars, HexEverywhere, Scanned;
    GrammarIffHex(raw);
    if HexEverywhere(raw) {
      StrictDecoding(raw);
    }
  }

  // ---------------------------------------------------------------- where the assert fails

  /** The escape at `p` has a character that is neither a digit nor a letter. */
  predicate Undecodable(raw: bytes, p: nat) {
    && p <= |raw| && StartsEscapeU(raw[p..])
    && exists i :: 2 <= i < 6 && !IsDigit(raw[p..][i]) && !IsAlpha(raw[p..][i])
  }

  /** An escape begins at `i`. */
  predicate EscapeAt(raw: bytes, i: int) {
    0 <= i <= |raw| && Boundary(raw, i) && StartsEscapeU(raw[i..])
  }

  /** Its code unit, if all its characters are letters or digits. */
  function CodeAt(raw: bytes, i: int): (n: Option<nat>) {
    if EscapeAt(raw, i) then DecodeHex(raw[i..][2..6]) else None
  }

  predicate HighAt(raw: bytes, i: int) {
    CodeAt(raw, i).Some? && IsHighSurrogate(CodeAt(raw, i).value)
  }

  predicate LowAt(raw: bytes, i: int) {
    CodeAt(raw, i).Some? && IsLowSurrogate(CodeAt(raw, i).value)
  }

  /** The escape at `i` has letters or digits and is not NUL; a high surrogate has a low one behind it, unless the text ends
      there at `p`, and a low surrogate a high one before it. */
  predicate InPlace(raw: bytes, i: nat, p: nat) {
    && CodeAt(raw, i).Some? && CodeAt(raw, i).value != 0
    && (HighAt(raw, i) ==> i + 6 == p || LowAt(raw, i + 6))
    && (LowAt(raw, i) ==> HighAt(raw, i - 6))
  }

  /** All escapes before `p` are in place. */
  ghost predicate InPlaceUpTo(raw: bytes, p: nat) {
    forall i: nat :: i < p && EscapeAt(raw, i) ==> InPlace(raw, i, p)
  }

  lemma UndecodableStart(raw: bytes)
    requires StartsEscapeU(raw)
    ensures Undecodable(raw, 0) <==> DecodeHex(raw[2..6]).None?
  {
    var h := raw[2..6];
    assert raw[0..] == raw;
    assert h[0] == raw[2] && h[1] == raw[3] && h[2] == raw[4] && h[3] == raw[5];
    if DecodeHex(h).None? {
      var i := if HexValue(h[0]).None? then 2 else if HexValue(h[1]).None? then 3 else if HexValue(h[2]).None? then 4 else 5;
      assert !IsDigit(raw[0..][i]) && !IsAlpha(raw[0..][i]);
    }
  }

  lemma UndecodableShift(raw: bytes, k: nat, p: nat)
    requires k + p <= |raw|
    ensures Undecodable(raw[k..], p) <==> Undecodable(raw, k + p)
  {
    assert raw[k..][p..] == raw[k + p..];
  }

  function CharOf(s: bytes): byte
    requires s != []
  {
    if s[0] != BACKSLASH || |s| < 2 then s[0] else ShortEscape(s[1])
  }

  /** Decoding runs into the failing assert at the escape `p`. */
  ghost predicate Blamed(raw: bytes, p: nat) {
    p <= |raw| && Boundary(raw, p) && Undecodable(raw, p) && InPlaceUpTo(raw, p)
  }

  /** The first `k` bytes are a complete character. */
  ghost predicate Complete(raw: bytes, k: nat) {
    && 0 < k <= |raw|
    && (forall j: nat :: j <= |raw| - k ==> SameBoundary(raw, k, j))
    && (forall i: nat :: i < k && EscapeAt(raw, i) ==> InPlace(raw, i, 0))
    && (forall i: nat :: i < k && HighAt(raw, i) ==> i + 6 < k)
  }

  predicate SameBoundary(raw: bytes, k: nat, j: nat)
    requires k <= |raw|
  {
    Boundary(raw[k..], j) <==> Boundary(raw, k + j)
  }

  lemma CodeShift(raw: bytes, k: nat, j: int)
    requires Complete(raw, k) && j <= |raw| - k
    ensures 0 <= j ==> (EscapeAt(raw[k..], j) <==> EscapeAt(raw, k + j)) && CodeAt(raw[k..], j) == CodeAt(raw, k + j)
    ensures HighAt(raw[k..], j) ==> j >= 0
    ensures -6 <= j < 0 ==> !HighAt(raw, k + j)
  {
    hide Boundary;
    if 0 <= j {
      assert SameBoundary(raw, k, j);
      assert raw[k..][j..] == raw[k + j..];
    }
  }

  lemma InPlaceShift(raw: bytes, k: nat, j: nat, p: nat)
    requires Complete(raw, k) && j <= |raw| - k && EscapeAt(raw[k..], j)
    ensures InPlace(raw[k..], j, p) <==> InPlace(raw, k + j, k + p)
  {
    hide Boundary, Complete, EscapeAt, CodeAt;
    EscapeInside(raw[k..], j);
    CodeShift(raw, k, j);
    CodeShift(raw, k, j + 6);
    CodeShift(raw, k, j - 6);
  }

  lemma EscapeInside(raw: bytes, j: nat)
    requires EscapeAt(raw, j)
    ensures j + 6 <= |raw|
  {}

  lemma InPlaceUpToShift(raw: bytes, k: nat, p: nat)
    requires Complete(raw, k) && p <= |raw| - k
    ensures InPlaceUpTo(raw[k..], p) <==> InPlaceUpTo(raw, k + p)
  {
    hide EscapeAt, CodeAt, Boundary, InPlace, Complete;
    if InPlaceUpTo(raw[k..], p) {
      forall i: nat | i < k + p && EscapeAt(raw, i) ensures InPlace(raw, i, k + p) {
        if i < k {
          CompleteInPlace(raw, k, i, k + p);
        } else {
          CodeShift(raw, k, i - k);
          InPlaceShift(raw, k, i - k, p);
        }
      }
    }
    if InPlaceUpTo(raw, k + p) {
      forall j: nat | j < p && EscapeAt(raw[k..], j) ensures InPlace(raw[k..], j, p) {
        CodeShift(raw, k, j);
        assert EscapeAt(raw, k + j);
        InPlaceShift(raw, k, j, p);
      }
    }
  }

  lemma CompleteInPlace(raw: bytes, k: nat, i: nat, p: nat)
    requires Complete(raw, k) && i < k && EscapeAt(raw, i)
    ensures InPlace(raw, i, p)
  {}

  /** One complete character further on. */
  lemma BlamedShift(raw: bytes, k: nat, p: nat)
    requires Complete(raw, k) && p <= |raw| - k
    ensures Blamed(raw[k..], p) <==> Blamed(raw, k + p)
  {
    hide Undecodable, Boundary, InPlaceUpTo, EscapeAt, InPlace, HighAt;
    UndecodableShift(raw, k, p);
    InPlaceUpToShift(raw, k, p);
    assert SameBoundary(raw, k, p);
  }

  lemma PrependAborted(p: bytes, d: Decoded)
    ensures Prepend(p, d) == Aborted <==> d == Aborted
  {}

  lemma CharComplete(raw: bytes)
    requires Scanned(raw) && raw != [] && !StartsEscapeU(raw)
    ensures var k := StepSize(raw);
            Complete(raw, k) && (Unescape(raw) == Aborted <==> Unescape(raw[k..]) == Aborted)
  {
    ScannedStep(raw);
    var k := StepSize(raw);
    BoundariesAfter(raw);
    PrependAborted([CharOf(raw)], Unescape(raw[k..]));
  }

  /** Beside the start no boundary lies within the first step. */
  lemma BoundariesAfter(raw: bytes)
    requires raw != [] && StepSize(raw) <= |raw|
    ensures forall j: nat :: j <= |raw| - StepSize(raw) ==> SameBoundary(raw, StepSize(raw), j)
    ensures forall i: nat :: i < StepSize(raw) && EscapeAt(raw, i) ==> i == 0 && StartsEscapeU(raw)
  {
    hide StepSize;
    var k := StepSize(raw);
    forall j: nat | j <= |raw| - k ensures SameBoundary(raw, k, j) {
      BoundaryStep(raw, j);
    }
    forall i: nat | i < k && EscapeAt(raw, i) ensures i == 0 && StartsEscapeU(raw) {
      BoundaryStep(raw, i);
      assert raw[0..] == raw;
    }
  }

  lemma FirstCode(raw: bytes)
    requires StartsEscapeU(raw)
    ensures EscapeAt(raw, 0) && CodeAt(raw, 0) == DecodeHex(raw[2..6])
    ensures StartsEscapeU(raw[6..]) ==> EscapeAt(raw, 6) && CodeAt(raw, 6) == DecodeHex(raw[8..12])
    ensures !StartsEscapeU(raw[6..]) ==> !EscapeAt(raw, 6) && CodeAt(raw, 6) == None
  {
    hide DecodeHex;
    assert raw[0..] == raw;
    BoundaryStep(raw, 0);
    if |raw| >= 12 {
      assert raw[6..][2..6] == raw[8..12];
    }
  }

  lemma PointComplete(raw: bytes)
    requires StartsEscapeU(raw) && UnescapePoint(raw).Point?
    ensures var k := UnescapePoint(raw).size;
            Complete(raw, k) && (Unescape(raw) == Aborted <==> Unescape(raw[k..]) == Aborted)
  {
    hide DecodeHex, CodeAt, EscapeAt, Boundary;
    var Point(cp, k) := UnescapePoint(raw);
    FirstCode(raw);
    BoundariesAfter(raw);
    HighIsEscape(raw);
    if k == 12 {
      PairBoundaries(raw);
    }
    PrependAborted(Encode(cp).value, Unescape(raw[k..]));
  }

  lemma HighIsEscape(raw: bytes)
    ensures forall i: int :: HighAt(raw, i) ==> EscapeAt(raw, i)
  {}

  lemma PairBoundaries(raw: bytes)
    requires StartsEscapeU(raw) && StartsEscapeU(raw[6..])
    ensures forall j: nat :: j <= |raw| - 12 ==> SameBoundary(raw, 12, j)
    ensures forall i: nat :: i < 12 && EscapeAt(raw, i) ==> i == 0 || i == 6
  {
    hide Boundary;
    assert raw[6..][6..] == raw[12..];
    forall j: nat | j <= |raw| - 12 ensures SameBoundary(raw, 12, j) {
      BoundaryStep(raw[6..], j);
      BoundaryStep(raw, 6 + j);
    }
    forall i: nat | i < 12 && EscapeAt(raw, i) ensures i == 0 || i == 6 {
      BoundaryStep(raw, i);
      if i > 6 {
        BoundaryStep(raw, i - 6);
        BoundaryStep(raw[6..], i - 6);
      }
    }
  }

  lemma ScannedPoint(raw: bytes)
    requires Scanned(raw) && StartsEscapeU(raw)
    ensures Scanned(raw[6..]) && (StartsEscapeU(raw[6..]) ==> Scanned(raw[12..]))
  {
    ScannedStep(raw);
    if StartsEscapeU(raw[6..]) {
      assert raw[6..][6..] == raw[12..];
      ScannedStep(raw[6..]);
    }
  }

  /** How far the first character reaches, if it can be decoded. */
  function CharSize(raw: bytes): (k: nat)
    requires raw != []
  {
    if !StartsEscapeU(raw) then StepSize(raw) else if UnescapePoint(raw).Point? then UnescapePoint(raw).size else 0
  }

  lemma CharStep(raw: bytes)
    requires Scanned(raw) && raw != [] && CharSize(raw) > 0
    ensures var k := CharSize(raw);
            Complete(raw, k) && Scanned(raw[k..]) && (Unescape(raw) == Aborted <==> Unescape(raw[k..]) == Aborted)
  {
    hide Scanned, Complete, Unescape, DecodeHex;
    if !StartsEscapeU(raw) {
      ScannedStep(raw);
      CharComplete(raw);
    } else {
      ScannedPoint(raw);
      PointComplete(raw);
    }
  }

  lemma CompleteSize(raw: bytes, k: nat)
    requires Complete(raw, k)
    ensures 0 < k <= |raw|
  {}

  lemma NothingAborts()
    ensures Unescape([]) == Done([]) && forall p: nat :: !Blamed([], p)
  {}

  lemma BlamedThere(raw: bytes, p: nat)
    requires Blamed(raw, p)
    ensures p <= |raw|
  {}

  /** Where decoding aborts, some escape is to blame. */
  lemma {:induction false} AbortedBlames(raw: bytes) returns (p: nat)
    requires Scanned(raw) && Unescape(raw) == Aborted
    ensures Blamed(raw, p)
    decreases |raw|
  {
    hide Scanned, Blamed, Unescape, Complete, CharSize;
    NothingAborts();
    var k := CharSize(raw);
    if k > 0 {
      CharStep(raw);
      CompleteSize(raw, k);
      p := AbortedBlames(raw[k..]);
      BlamedThere(raw[k..], p);
      BlamedShift(raw, k, p);
      p := k + p;
    } else {
      p := PointBlamed(raw);
    }
  }

  lemma PointBlamed(raw: bytes) returns (p: nat)
    requires raw != [] && CharSize(raw) == 0 && Unescape(raw) == Aborted
    ensures Blamed(raw, p)
  {
    hide DecodeHex, Boundary, EscapeAt, CodeAt, Undecodable;
    FirstCode(raw);
    BoundariesAfter(raw);
    assert UnescapePoint(raw).AbortedPoint?;
    if DecodeHex(raw[2..6]).None? {
      p := 0;
      UndecodableStart(raw);
      BoundaryStart(raw);
    } else {
      p := 6;
      assert raw[6..][2..6] == raw[8..12];
      UndecodableStart(raw[6..]);
      UndecodableShift(raw, 6, 0);
      EscapeBoundary(raw, 6);
      assert InPlace(raw, 0, 6);
    }
  }

  lemma EscapeBoundary(raw: bytes, i: nat)
    requires EscapeAt(raw, i)
    ensures i <= |raw| && Boundary(raw, i)
  {}

  /** Where an escape is to blame, decoding aborts. */
  lemma {:induction false} BlamedAborts(raw: bytes, p: nat)
    requires Scanned(raw) && Blamed(raw, p)
    ensures Unescape(raw) == Aborted
    decreases |raw|
  {
    hide Scanned, Blamed, Unescape, Complete, CharSize;
    NothingAborts();
    var k := CharSize(raw);
    if k > 0 {
      CharStep(raw);
      CompleteSize(raw, k);
      BlamedThere(raw, p);
      BlamedBehind(raw, k, p);
      BlamedShift(raw, k, p - k);
      BlamedAborts(raw[k..], p - k);
    } else {
      BlamedPoint(raw, p);
    }
  }

  /** No escape within a complete character is to blame. */
  lemma BlamedBehind(raw: bytes, k: nat, p: nat)
    requires Complete(raw, k) && Blamed(raw, p)
    ensures k <= p
  {
    hide Boundary, DecodeHex;
    if p < k {
      assert EscapeAt(raw, p);
      assert InPlace(raw, p, 0);
      UndecodableShift(raw, p, 0);
      UndecodableStart(raw[p..]);
    }
  }

  /** A point that cannot be decoded is to blame itself, or it is not in place. */
  lemma BlamedPoint(raw: bytes, p: nat)
    requires raw != [] && CharSize(raw) == 0 && Blamed(raw, p)
    ensures Unescape(raw) == Aborted
  {
    hide DecodeHex, Boundary, EscapeAt, CodeAt, Undecodable;
    FirstCode(raw);
    if p == 0 {
      UndecodableStart(raw);
    } else {
      assert InPlace(raw, 0, p);
      assert !HighAt(raw, 0 - 6) by {
        NothingBefore(raw);
      }
      if p == 6 {
        UndecodableThere(raw, 6);
        assert raw[6..][2..6] == raw[8..12];
        UndecodableStart(raw[6..]);
        UndecodableShift(raw, 6, 0);
      }
    }
  }

  lemma NothingBefore(raw: bytes)
    ensures !HighAt(raw, -6)
  {}

  lemma UndecodableThere(raw: bytes, p: nat)
    requires Undecodable(raw, p)
    ensures p <= |raw| && StartsEscapeU(raw[p..])
  {}

  /** Decoding aborts exactly if some escape has a character that is neither digit nor letter, and in all escapes before it
      are letters or digits, no NUL, and surrogates in pairs, but for a high one that this escape should complete. */
  lemma AbortedIff(raw: bytes)
    requires Scanned(raw)
    ensures Unescape(raw) == Aborted <==> exists p: nat :: Blamed(raw, p)
  {
    hide Scanned, Blamed, Unescape;
    if Unescape(raw) == Aborted {
      var p := AbortedBlames(raw);
    }
    if p: nat :| Blamed(raw, p) {
      BlamedAborts(raw, p);
    }
  }

  // ---------------------------------------------------------------- tokens

  /** A literal of RFC 8259 stands at the front, its closing quote at `n`, and its text is `t`. */
  predicate Literal(s: bytes, n: nat, t: bytes) {
    n < |s| && s[n] == QUOTE && Strict(s[..n]) == Some(t)
  }

  lemma {:induction false} LiteralScanned(s: bytes, n: nat)
    requires n < |s| && s[n] == QUOTE && Rfc8259Chars(s[..n])
    ensures RawLength(s) == Some(n)
    decreases n
  {
    if n > 0 {
      var k := StepSize(s[..n]);
      assert s[..n][k..] == s[k..][..n - k];
      LiteralScanned(s[k..], n - k);
    }
  }

  lemma ScannedFront(s: bytes)
    requires RawLength(s).Some?
    ensures Scanned(s[..RawLength(s).value])
  {
    RawLengthLocal(s);
    var n := RawLength(s).value;
    assert s[..n + 1] == s[..n] + [QUOTE];
  }

  /** Every literal of the standard is accepted with its text; what else is accepted has a digit that is none. */
  lemma LiteralIffHex(s: bytes, n: nat, t: bytes)
    ensures Literal(s, n, t) <==>
              && RawLength(s) == Some(n) && LexString(s) == Lexed(Str(t), s[n + 1..])
              && HexEverywhere(s[..n])
  {
    hide Unescape, RawLength, Rfc8259Chars, Units, Joined, HexEverywhere, Scanned;
    if n < |s| && s[n] == QUOTE && Rfc8259Chars(s[..n]) {
      LiteralScanned(s, n);
    }
    if RawLength(s) == Some(n) {
      ScannedFront(s);
      GrammarIffHex(s[..n]);
      if Rfc8259Chars(s[..n]) {
        StrictDecoding(s[..n]);
      }
    }
  }

  /** `\u` and the same character four times. */
  function FourTimes(c: byte): (raw: bytes)
    ensures |raw| == 6 && raw[6..] == [] && raw[2..6] == [c, c, c, c] && StartsEscapeU(raw)
  {
    var raw := [BACKSLASH, LETTER_U, c, c, c, c];
    assert raw[2..6] == [c, c, c, c];
    raw
  }

  lemma FourTimesRaw(c: byte)
    ensures RawLength(FourTimes(c) + [QUOTE]) == Some(6)
    ensures (FourTimes(c) + [QUOTE])[..6] == FourTimes(c) && (FourTimes(c) + [QUOTE])[7..] == []
  {
    var s := FourTimes(c) + [QUOTE];
    assert s[6..] == [QUOTE];
    assert s[0] == BACKSLASH && s[1] == LETTER_U;
  }

  lemma ZedsDecode()
    ensures DecodeHex([0x7A, 0x7A, 0x7A, 0x7A]) == Some(152915) && Encode(152915) == Some([0xF0, 0xA5, 0x95, 0x93])
  {}

  /** `\uzzzz` is taken for code point 152915, beyond what four digits can say; for the standard it is no literal. */
  lemma LettersTakenForDigits()
    ensures LexString(FourTimes(0x7A) + [QUOTE]) == Lexed(Str(Encode(152915).value), []) && Encode(152915).Some?
    ensures forall n, t :: !Literal(FourTimes(0x7A) + [QUOTE], n, t)
  {
    hide DecodeHex, Encode, FourTimes, RawLength, Rfc8259Chars, Units, Joined;
    var raw := FourTimes(0x7A);
    FourTimesRaw(0x7A);
    ZedsDecode();
    var text := Encode(152915).value;
    assert Unescape(raw) == Prepend(text, Unescape(raw[6..]));
    assert text + [] == text;
    assert Boundary(raw, 0) && raw[0..] == raw && raw[2] == raw[2..6][0] && !HexAt(raw, 0);
    forall n: nat, t | Literal(raw + [QUOTE], n, t) ensures false {
      LiteralIffHex(raw + [QUOTE], n, t);
    }
  }

  /** `\u!!!!` makes the assert fail. */
  lemma MarksAbort()
    ensures LexString(FourTimes(0x21) + [QUOTE]) == Lexed(Abort, [])
  {
    hide FourTimes, RawLength;
    FourTimesRaw(0x21);
  }
}
