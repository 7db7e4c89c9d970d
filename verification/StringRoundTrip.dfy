/** Scanning undoes printing for the strings and the integers of section 6 and 7 of RFC 8259
    (libjansson/dump.c against libjansson/load.c). */
module StringRoundTrip {
  import opened Options
  import opened Utf8
  import opened Values
  import opened DumpText
  import opened LoadText

  // ---------------------------------------------------------------- escapes

  lemma HexDigitValue(d: nat)
    requires d < 16
    ensures HexValue(HexDigit(d)) == Some(d)
  {}

  lemma DecodeHexOfHex4(n: nat)
    requires n < 0x10000
    ensures DecodeHex(Hex4(n)) == Some(n)
  {
    HexDigitValue(n / 0x1000);
    HexDigitValue(n / 0x100 % 16);
    HexDigitValue(n / 16 % 16);
    HexDigitValue(n % 16);
    HexDigits(n);
  }

  lemma HexDigits(n: nat)
    ensures ((n / 0x1000 * 16 + n / 0x100 % 16) * 16 + n / 16 % 16) * 16 + n % 16 == n
  {
    HexStep(n, n / 16);
    HexStep(n / 16, n / 0x100);
    HexStep(n / 0x100, n / 0x1000);
  }

  lemma HexStep(m: nat, q: nat)
    requires q == m / 16
    ensures m == q * 16 + m % 16
  {}

  /** Bytes that are copied as they are. */
  predicate IsPlainByte(b: byte) {
    b > 0x1F && b != QUOTE && b != BACKSLASH
  }

  lemma {:induction false} PlainRunLength(p: bytes, t: bytes)
    requires forall i :: 0 <= i < |p| ==> IsPlainByte(p[i])
    ensures RawLength(p + t) == Plus(|p|, RawLength(t))
  {
    if p == [] {
      assert p + t == t;
    } else {
      PlainRunLength(p[1..], t);
      assert (p + t)[1..] == p[1..] + t;
    }
  }

  lemma {:induction false} PlainRunText(p: bytes, t: bytes)
    requires forall i :: 0 <= i < |p| ==> IsPlainByte(p[i])
    ensures Unescape(p + t) == Prepend(p, Unescape(t))
  {
    hide UnescapePoint, Encode;
    if p == [] {
      assert p + t == t;
    } else {
      PlainRunText(p[1..], t);
      assert (p + t)[1..] == p[1..] + t;
      assert [p[0]] + p[1..] == p;
    }
  }

  lemma UnicodeEscapeScanned(n: nat, t: bytes)
    requires n < 0x10000
    ensures StartsEscapeU(UnicodeEscape(n) + t)
    ensures DecodeHex((UnicodeEscape(n) + t)[2..6]) == Some(n)
    ensures (UnicodeEscape(n) + t)[6..] == t
    ensures RawLength(UnicodeEscape(n) + t) == Plus(6, RawLength(t))
  {
    var s := UnicodeEscape(n) + t;
    assert s[2..6] == Hex4(n);
    assert s[6..] == t;
    DecodeHexOfHex4(n);
  }

  lemma BmpEscape(cp: int, t: bytes)
    requires 0 < cp < 0x10000 && IsScalar(cp)
    ensures RawLength(UnicodeEscape(cp) + t) == Plus(6, RawLength(t))
    ensures Unescape(UnicodeEscape(cp) + t) == Prepend(Encode(cp).value, Unescape(t))
  {
    UnicodeEscapeScanned(cp, t);
  }

  lemma PairPoint(cp: int, t: bytes)
    requires 0x10000 <= cp <= 0x10FFFF
    ensures RawLength(Escape(cp) + t) == Plus(12, RawLength(t))
    ensures StartsEscapeU(Escape(cp) + t) && UnescapePoint(Escape(cp) + t) == Point(cp, 12)
    ensures (Escape(cp) + t)[12..] == t
  {
    hide RawLength, DecodeHex, UnicodeEscape;
    var high, low := 0xD800 + (cp - 0x10000) / 0x400, 0xDC00 + (cp - 0x10000) % 0x400;
    var s := Escape(cp) + t;
    var u := UnicodeEscape(low) + t;
    assert s == UnicodeEscape(high) + u;
    UnicodeEscapeScanned(high, u);
    UnicodeEscapeScanned(low, t);
    assert s[6..] == u;
    assert s[8..12] == u[2..6];
    assert s[12..] == u[6..];
  }

  lemma PairEscape(cp: int, t: bytes)
    requires 0x10000 <= cp <= 0x10FFFF
    ensures RawLength(Escape(cp) + t) == Plus(12, RawLength(t))
    ensures Unescape(Escape(cp) + t) == Prepend(Encode(cp).value, Unescape(t))
  {
    hide RawLength, Escape, UnescapePoint;
    PairPoint(cp, t);
  }

  lemma ShortEscapeScanned(cp: int, t: bytes)
    requires 0 < cp <= 0x10FFFF && |Escape(cp)| == 2
    ensures RawLength(Escape(cp) + t) == Plus(2, RawLength(t))
    ensures Unescape(Escape(cp) + t) == Prepend(Encode(cp).value, Unescape(t))
  {
    assert (Escape(cp) + t)[2..] == t;
  }

  /** Whatever `dump_string` writes for a character, both passes of `lex_scan_string` read it back. */
  lemma EscapeScanned(cp: int, t: bytes)
    requires IsScalar(cp) && cp != 0
    ensures RawLength(Escape(cp) + t) == Plus(|Escape(cp)|, RawLength(t))
    ensures Unescape(Escape(cp) + t) == Prepend(Encode(cp).value, Unescape(t))
  {
    hide RawLength, Unescape, Encode;
    if |Escape(cp)| == 2 {
      ShortEscapeScanned(cp, t);
    } else if cp < 0x10000 {
      BmpEscape(cp, t);
    } else {
      PairEscape(cp, t);
    }
  }

  /** Characters that need no escape are made of plain bytes. */
  lemma EncodingIsPlain(cp: int, ascii: bool)
    requires IsScalar(cp) && !NeedsEscape(cp, ascii)
    ensures forall i :: 0 <= i < |Encode(cp).value| ==> IsPlainByte(Encode(cp).value[i])
  {}

  // ---------------------------------------------------------------- strings

  /** The first pass of `lex_scan_string` looks no further than the closing quote. */
  lemma {:induction false} RawLengthLocal(s: bytes)
    requires RawLength(s).Some?
    ensures RawLength(s[..RawLength(s).value + 1]) == RawLength(s)
    decreases |s|
  {
    var n := RawLength(s).value;
    var t := s[..n + 1];
    if s[0] != QUOTE {
      var k := if s[0] != BACKSLASH then 1 else if |s| >= 6 && s[1] == LETTER_U then 6 else 2;
      RawLengthLocal(s[k..]);
      assert t[k..] == s[k..][..n - k + 1];
    }
  }

  lemma PrependAll(p: bytes, q: bytes, d: Decoded)
    ensures Prepend(p, Prepend(q, d)) == Prepend(p + q, d)
  {
    if d.Done? {
      assert p + (q + d.s) == p + q + d.s;
    }
  }

  /** Both passes over an escaped string followed by `t`. */
  lemma {:induction false} EscapeAllScanned(s: bytes, ascii: bool, t: bytes)
    requires CString(s) && Valid(s)
    ensures RawLength(EscapeAll(s, ascii) + t) == Plus(|EscapeAll(s, ascii)|, RawLength(t))
    ensures Unescape(EscapeAll(s, ascii) + t) == Prepend(s, Unescape(t))
    decreases |s|
  {
    hide Next, Encode, Escape, RawLength, Unescape, NeedsEscape;
    if s == [] {
      assert EscapeAll(s, ascii) + t == t;
      NothingToScan(t);
    } else {
      EncodeOfNext(s);
      var Char(cp, n) := Next(s).value;
      NonZero(s);
      EscapeAllScanned(s[n..], ascii, t);
      var rest := EscapeAll(s[n..], ascii) + t;
      var p := if NeedsEscape(cp, ascii) then Escape(cp) else s[..n];
      assert EscapeAll(s, ascii) + t == p + rest;
      if NeedsEscape(cp, ascii) {
        EscapeScanned(cp, rest);
      } else {
        EncodingIsPlain(cp, ascii);
        PlainRunLength(s[..n], rest);
        PlainRunText(s[..n], rest);
      }
      PrependAll(s[..n], s[n..], Unescape(t));
      assert s[..n] + s[n..] == s;
    }
  }

  lemma NothingToScan(t: bytes)
    ensures RawLength(t) == Plus(0, RawLength(t)) && Unescape(t) == Prepend([], Unescape(t))
  {}

  lemma NonZero(s: bytes)
    requires s != [] && CString(s) && Next(s).Some?
    ensures Next(s).value.cp != 0 && CString(s[Next(s).value.size..])
  {
    EncodeOfNext(s);
    assert s[..1][0] == s[0];
  }

  lemma QuoteScanned(rest: bytes)
    ensures RawLength([QUOTE] + rest) == Some(0)
    ensures Unescape([]) == Done([])
  {}

  /** `lex_scan_string` on an escaped string, its closing quote and `rest`. */
  lemma LexStringOfEscaped(s: bytes, ascii: bool, rest: bytes)
    requires CString(s) && Valid(s)
    ensures LexString(EscapeAll(s, ascii) + [QUOTE] + rest) == Lexed(Str(s), rest)
  {
    hide EscapeAll, Valid, CString, RawLength, Unescape;
    var e := EscapeAll(s, ascii);
    var body := e + [QUOTE] + rest;
    assert body == e + ([QUOTE] + rest);
    EscapeAllScanned(s, ascii, [QUOTE] + rest);
    QuoteScanned(rest);
    EscapeAllScanned(s, ascii, []);
    assert e + [] == e && body[..|e|] == e && body[|e| + 1..] == rest;
    assert s + [] == s;
  }

  /** Section 7 of RFC 8259: scanning a printed string gives the string back, in both ASCII and raw mode. */
  lemma StringRoundTrip(s: bytes, ascii: bool, rest: bytes, broken: bool)
    requires CString(s) && Valid(s)
    ensures StringText(s, ascii).ok
    ensures Lex(StringText(s, ascii).text + rest, broken) == Lexed(Str(s), rest)
  {
    hide EscapeAll, Valid, CString, LexString, StringBody;
    StringBodyIff([], s, ascii);
    LexStringOfEscaped(s, ascii, rest);
    var text := StringText(s, ascii).text + rest;
    assert text == [QUOTE] + (EscapeAll(s, ascii) + [QUOTE] + rest);
    assert text[1..] == EscapeAll(s, ascii) + [QUOTE] + rest;
  }

  // ---------------------------------------------------------------- sizes

  /** The claim of the allocation comment in `lex_scan_string`: decoding never makes a string longer. */
  lemma {:induction false} UnescapeShrinks(s: bytes)
    requires Unescape(s).Done?
    ensures |Unescape(s).s| <= |s|
    decreases |s|
  {
    hide DecodeHex, IsHighSurrogate, IsLowSurrogate;
    if s == [] {
    } else if s[0] != BACKSLASH {
      UnescapeShrinks(s[1..]);
    } else if StartsEscapeU(s) {
      UnescapeShrinks(s[UnescapePoint(s).size..]);
    } else {
      UnescapeShrinks(s[2..]);
    }
  }

  // ---------------------------------------------------------------- integers

  lemma {:induction false} DecimalDigits(n: nat)
    ensures forall i :: 0 <= i < |Decimal(n)| ==> IsDigit(Decimal(n)[i])
    ensures DigitsValue(Decimal(n)) == n
    ensures Decimal(n)[0] == 0x30 ==> n == 0 && |Decimal(n)| == 1
  {
    if n < 10 {
      assert DigitsValue([]) == 0;
      assert Decimal(n)[..0] == [];
    } else {
      DecimalDigits(n / 10);
      assert Decimal(n)[..|Decimal(n)| - 1] == Decimal(n / 10);
    }
  }

  lemma {:induction false} DigitCountIs(s: bytes, rest: bytes)
    requires forall i :: 0 <= i < |s| ==> IsDigit(s[i])
    requires rest != [] ==> !IsDigit(rest[0])
    ensures DigitCount(s + rest) == |s|
  {
    assert forall i :: 0 <= i < |s| ==> (s + rest)[i] == s[i];
    assert rest != [] ==> (s + rest)[|s|] == rest[0];
  }

  /** What may follow a printed value: white space, a structural character or the end. */
  predicate Delimited(rest: bytes) {
    rest == [] || IsSpace(rest[0]) || IsPunct(rest[0])
  }

  lemma IntPartOfDecimal(n: nat, rest: bytes)
    requires Delimited(rest)
    ensures IntPart(Decimal(n) + rest) == Some(|Decimal(n)|)
  {
    DecimalDigits(n);
    DigitCountIs(Decimal(n), rest);
    assert (Decimal(n) + rest)[0] == Decimal(n)[0];
  }

  lemma Slices(sign: bytes, digits: bytes, rest: bytes)
    requires |digits| > 0
    ensures var s, j := sign + digits + rest, |sign| + |digits|;
            && s[|sign|..] == digits + rest && s[|sign|..j] == digits && s[j..] == rest
            && s[0] == (if sign == [] then digits[0] else sign[0])
            && (j < |s| ==> s[j] == rest[0])
  {}

  /** `lex_scan_number` on a sign and digits without a leading zero. */
  lemma LexDigits(sign: bytes, digits: bytes, rest: bytes)
    requires (sign == [] || sign == [MINUS]) && digits != [] && Delimited(rest)
    requires forall i :: 0 <= i < |digits| ==> IsDigit(digits[i])
    requires IntPart(digits + rest) == Some(|digits|) && StrToInt(sign != [], digits).Some?
    ensures var s := sign + digits + rest;
            && (IsDigit(s[0]) || s[0] == MINUS)
            && LexNumber(s) == Lexed(Int(StrToInt(sign != [], digits).value), rest)
  {
    hide IntPart, FracPart, ExpPart, StrToInt;
    Slices(sign, digits, rest);
    var s, m := sign + digits + rest, |sign|;
    assert IsDigit(digits[0]);
    assert m == if s[0] == MINUS then 1 else 0;
    var j := m + |digits|;
    assert IntPart(s[m..]) == Some(|digits|);
    assert j == |s| || (s[j] != DOT && !IsExponent(s[j]));
    assert StrToInt(m == 1, s[m..j]) == StrToInt(sign != [], digits);
    assert Unget(s[j..]) == rest;
  }

  lemma NumberOfDecimal(n: int, rest: bytes)
    requires INT64_MIN <= n <= INT64_MAX && Delimited(rest)
    ensures var s := IntegerText(n) + rest;
            s != [] && (IsDigit(s[0]) || s[0] == MINUS) && LexNumber(s) == Lexed(Int(n), rest)
  {
    hide Decimal, DigitsValue, IntPart, LexNumber;
    var a: nat := if n < 0 then -n else n;
    var sign := if n < 0 then [MINUS] else [];
    DecimalDigits(a);
    IntPartOfDecimal(a, rest);
    LexDigits(sign, Decimal(a), rest);
    assert IntegerText(n) == sign + Decimal(a);
  }

  /** Section 6 of RFC 8259: scanning a printed 64-bit integer gives the integer back. */
  lemma IntegerRoundTrip(n: int, rest: bytes, broken: bool)
    requires INT64_MIN <= n <= INT64_MAX && Delimited(rest)
    ensures Lex(IntegerText(n) + rest, broken) == Lexed(Int(n), rest)
  {
    hide IntegerText, LexNumber;
    NumberOfDecimal(n, rest);
  }

  // ---------------------------------------------------------------- words and white space

  lemma LetterCountIs(s: bytes, rest: bytes)
    requires forall i :: 0 <= i < |s| ==> IsAlpha(s[i])
    requires rest != [] ==> !IsAlpha(rest[0])
    ensures LetterCount(s + rest) == |s|
  {
    assert forall i :: 0 <= i < |s| ==> (s + rest)[i] == s[i];
    assert rest != [] ==> (s + rest)[|s|] == rest[0];
  }

  lemma WordRoundTrip(word: bytes, rest: bytes, broken: bool)
    requires (word == NULL_TEXT || word == TRUE_TEXT || word == FALSE_TEXT) && Delimited(rest)
    ensures Lex(word + rest, broken) == Lexed(WordToken(word), rest)
  {
    LetterCountIs(word, rest);
    var s := word + rest;
    assert s[0] == word[0];
    assert s[..|word|] == word && s[|word|..] == rest;
  }

  lemma {:induction false} SpacesSkipped(ws: bytes, s: bytes, broken: bool)
    requires forall i :: 0 <= i < |ws| ==> IsSpace(ws[i])
    ensures Lex(ws + s, broken) == Lex(s, broken)
  {
    hide LexString, LexNumber, LexWord;
    if ws == [] {
      assert ws + s == s;
    } else {
      SpacesSkipped(ws[1..], s, broken);
      assert (ws + s)[1..] == ws[1..] + s;
    }
  }
}
