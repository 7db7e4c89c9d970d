/** libjansson/utf.c: UTF-8 as section 3 of RFC 3629 defines it. Bytes are integers; the masks and shifts
    of the C code are written as remainders and quotients by powers of two. */
module Utf8 {
  import opened Options

  type byte = b: int | 0 <= b < 256

  type bytes = seq<byte>

  /** A Unicode scalar value: a code point that is not a UTF-16 surrogate half. */
  predicate IsScalar(cp: int) {
    0 <= cp < 0xD800 || 0xE000 <= cp <= 0x10FFFF
  }

  // ---------------------------------------------------------------- encoding

  /** What `utf8_encode` writes, or nothing where it returns -1. */
  function Encode(cp: int): (r: Option<bytes>)
    ensures r.Some? <==> 0 <= cp <= 0x10FFFF
    ensures r.Some? ==> 1 <= |r.value| <= 4
  {
    if cp < 0 then None
    else if cp < 0x80 then Some([cp])
    else if cp < 0x800 then Some([0xC0 + cp / 0x40, 0x80 + cp % 0x40])
    else if cp < 0x10000 then Some([0xE0 + cp / 0x1000, 0x80 + cp / 0x40 % 0x40, 0x80 + cp % 0x40])
    else if cp <= 0x10FFFF then Some([0xF0 + cp / 0x40000, 0x80 + cp / 0x1000 % 0x40, 0x80 + cp / 0x40 % 0x40, 0x80 + cp % 0x40])
    else None
  }

  method EncodeInto(cp: int, buffer: array<byte>) returns (result: int, size: nat)
    requires buffer.Length >= 4
    modifies buffer
    ensures result == (if Encode(cp).Some? then 0 else -1)
    ensures Encode(cp).Some? ==> size == |Encode(cp).value| && buffer[..size] == Encode(cp).value
    ensures Encode(cp).None? ==> buffer[..] == old(buffer[..])
  {
    result, size := 0, 0;
    if cp < 0 {
      result := -1;
    } else if cp < 0x80 {
      buffer[0] := cp;
      size := 1;
    } else if cp < 0x800 {
      buffer[0] := 0xC0 + cp / 0x40 % 0x20;
      buffer[1] := 0x80 + cp % 0x40;
      size := 2;
    } else if cp < 0x10000 {
      buffer[0] := 0xE0 + cp / 0x1000 % 0x10;
      buffer[1] := 0x80 + cp / 0x40 % 0x40;
      buffer[2] := 0x80 + cp % 0x40;
      size := 3;
    } else if cp <= 0x10FFFF {
      buffer[0] := 0xF0 + cp / 0x40000 % 8;
      buffer[1] := 0x80 + cp / 0x1000 % 0x40;
      buffer[2] := 0x80 + cp / 0x40 % 0x40;
      buffer[3] := 0x80 + cp % 0x40;
      size := 4;
    } else {
      result := -1;
    }
  }

  // ---------------------------------------------------------------- decoding

  /** `utf8_check_first`: the length of the sequence a first byte announces, 0 if it cannot be a first byte. */
  function CheckFirst(b: byte): (n: nat)
    ensures n <= 4
    ensures n == 0 <==> 0x80 <= b < 0xC2 || b > 0xF4
  {
    if b < 0x80 then 1
    else if b <= 0xBF then 0
    else if b == 0xC0 || b == 0xC1 then 0
    else if b <= 0xDF then 2
    else if b <= 0xEF then 3
    else if b <= 0xF4 then 4
    else 0
  }

  predicate IsContinuation(b: byte) {
    0x80 <= b <= 0xBF
  }

  /** The bits of the continuation bytes from `i` on, appended to `value`. */
  function Accumulate(s: bytes, i: nat, value: int): (r: Option<int>)
    requires i <= |s|
    decreases |s| - i
  {
    if i == |s| then Some(value)
    else if !IsContinuation(s[i]) then None
    else Accumulate(s, i + 1, value * 64 + s[i] % 64)
  }

  function Tail(b: byte): (bits: int) {
    b % 64
  }

  function FirstBits(b: byte, size: nat): int {
    if size == 2 then b % 32 else if size == 3 then b % 16 else b % 8
  }

  /** In range, not a surrogate, and not representable by a shorter sequence. */
  predicate Acceptable(value: int, size: nat) {
    && value <= 0x10FFFF
    && !(0xD800 <= value <= 0xDFFF)
    && !(size == 2 && value < 0x80)
    && !(size == 3 && value < 0x800)
    && !(size == 4 && value < 0x10000)
  }

  /** The code point `utf8_check_full` finds in a whole multi-byte sequence. */
  function Full(s: bytes): (r: Option<int>) {
    if 2 <= |s| <= 4 then
      var value := Accumulate(s, 1, FirstBits(s[0], |s|));
      if value.Some? && Acceptable(value.value, |s|) then value else None
    else None
  }

  method CheckFull(s: bytes) returns (r: Option<int>)
    requires s != []
    ensures r == Full(s)
  {
    var value: int := 0;
    var u := s[0];
    if |s| == 2 {
      value := u % 32;
    } else if |s| == 3 {
      value := u % 16;
    } else if |s| == 4 {
      value := u % 8;
    } else {
      return None;
    }
    var i := 1;
    while i < |s|
      invariant 1 <= i <= |s|
      invariant Accumulate(s, 1, FirstBits(s[0], |s|)) == Accumulate(s, i, value)
    {
      u := s[i];
      if u < 0x80 || u > 0xBF {
        return None;
      }
      value := value * 64 + u % 64;
      i := i + 1;
    }
    if value > 0x10FFFF {
      return None;
    } else if 0xD800 <= value && value <= 0xDFFF {
      return None;
    } else if (|s| == 2 && value < 0x80) || (|s| == 3 && value < 0x800) || (|s| == 4 && value < 0x10000) {
      return None;
    }
    return Some(value);
  }

  /** One decoded character: its code point and the number of bytes it takes. */
  datatype Char = Char(cp: int, size: nat)

  /** The character at the front of `s`, as the callers of `utf8_check_first` and `utf8_check_full` find it. */
  function Next(s: bytes): (r: Option<Char>)
    ensures r.Some? ==> 1 <= r.value.size <= |s|
  {
    if s == [] then None
    else
      var n := CheckFirst(s[0]);
      if n == 0 || n > |s| then None
      else if n == 1 then Some(Char(s[0], 1))
      else
        var full := Full(s[..n]);
        if full.Some? then Some(Char(full.value, n)) else None
  }

  lemma FullTwo(s: bytes)
    requires |s| == 2
    ensures Accumulate(s, 1, FirstBits(s[0], 2)) ==
            if IsContinuation(s[1]) then Some(FirstBits(s[0], 2) * 64 + Tail(s[1])) else None
  {
    assert Accumulate(s, 2, FirstBits(s[0], 2) * 64 + Tail(s[1])).Some?;
  }

  lemma FullThree(s: bytes)
    requires |s| == 3
    ensures Accumulate(s, 1, FirstBits(s[0], 3)) ==
            if IsContinuation(s[1]) && IsContinuation(s[2]) then Some((FirstBits(s[0], 3) * 64 + Tail(s[1])) * 64 + Tail(s[2])) else None
  {
    var v := FirstBits(s[0], 3) * 64 + Tail(s[1]);
    assert Accumulate(s, 2, v) == if IsContinuation(s[2]) then Accumulate(s, 3, v * 64 + Tail(s[2])) else None;
  }

  lemma FullFour(s: bytes)
    requires |s| == 4
    ensures Accumulate(s, 1, FirstBits(s[0], 4)) ==
            if IsContinuation(s[1]) && IsContinuation(s[2]) && IsContinuation(s[3])
            then Some(((FirstBits(s[0], 4) * 64 + Tail(s[1])) * 64 + Tail(s[2])) * 64 + Tail(s[3])) else None
  {
    var v := FirstBits(s[0], 4) * 64 + Tail(s[1]);
    var w := v * 64 + Tail(s[2]);
    assert Accumulate(s, 2, v) == if IsContinuation(s[2]) then Accumulate(s, 3, w) else None;
    assert Accumulate(s, 3, w) == if IsContinuation(s[3]) then Accumulate(s, 4, w * 64 + Tail(s[3])) else None;
  }

  /** Writing a number in digits of base 64 and reading it back. */
  lemma DigitsTwo(v: nat, a: int, b: int)
    requires 0 <= b < 64
    ensures v == a * 64 + b <==> v / 0x40 == a && v % 0x40 == b
  {}

  lemma DigitsThree(v: nat, a: int, b: int, c: int)
    requires 0 <= b < 64 && 0 <= c < 64
    ensures v == (a * 64 + b) * 64 + c <==> v / 0x1000 == a && v / 0x40 % 0x40 == b && v % 0x40 == c
  {
    DigitsTwo(v, a * 64 + b, c);
  }

  lemma DigitsFour(v: nat, a: int, b: int, c: int, d: int)
    requires 0 <= b < 64 && 0 <= c < 64 && 0 <= d < 64
    ensures v == ((a * 64 + b) * 64 + c) * 64 + d <==>
            v / 0x40000 == a && v / 0x1000 % 0x40 == b && v / 0x40 % 0x40 == c && v % 0x40 == d
  {
    DigitsTwo(v, (a * 64 + b) * 64 + c, d);
    DigitsThree(v / 0x40, a, b, c);
    assert v / 0x40 / 0x40 == v / 0x1000 && v / 0x40 / 0x1000 == v / 0x40000;
  }

  lemma FullOfThree(cp: int)
    requires IsScalar(cp) && 0x800 <= cp < 0x10000
    ensures CheckFirst(Encode(cp).value[0]) == 3 && Full(Encode(cp).value) == Some(cp)
  {
    hide Accumulate;
    var e := Encode(cp).value;
    FullThree(e);
    DigitsThree(cp, cp / 0x1000, cp / 0x40 % 0x40, cp % 0x40);
    assert FirstBits(e[0], 3) == cp / 0x1000 && Tail(e[1]) == cp / 0x40 % 0x40 && Tail(e[2]) == cp % 0x40;
  }

  lemma FullOfFour(cp: int)
    requires 0x10000 <= cp <= 0x10FFFF
    ensures CheckFirst(Encode(cp).value[0]) == 4 && Full(Encode(cp).value) == Some(cp)
  {
    hide Accumulate;
    var e := Encode(cp).value;
    FullFour(e);
    DigitsFour(cp, cp / 0x40000, cp / 0x1000 % 0x40, cp / 0x40 % 0x40, cp % 0x40);
    assert FirstBits(e[0], 4) == cp / 0x40000 && Tail(e[1]) == cp / 0x1000 % 0x40;
    assert Tail(e[2]) == cp / 0x40 % 0x40 && Tail(e[3]) == cp % 0x40;
  }

  /** A whole sequence is accepted exactly when it is the encoding of its scalar value. */
  lemma FullOfEncode(cp: int)
    requires IsScalar(cp) && cp >= 0x80
    ensures CheckFirst(Encode(cp).value[0]) == |Encode(cp).value| && Full(Encode(cp).value) == Some(cp)
  {
    if cp < 0x800 {
      FullTwo(Encode(cp).value);
    } else if cp < 0x10000 {
      FullOfThree(cp);
    } else {
      FullOfFour(cp);
    }
  }

  lemma EncodeOfFullThree(s: bytes)
    requires |s| == 3 && CheckFirst(s[0]) == 3 && Full(s).Some?
    ensures IsScalar(Full(s).value) && Encode(Full(s).value) == Some(s)
  {
    hide Accumulate;
    FullThree(s);
    DigitsThree(Full(s).value, FirstBits(s[0], 3), Tail(s[1]), Tail(s[2]));
    assert Encode(Full(s).value).value == s;
  }

  lemma EncodeOfFullFour(s: bytes)
    requires |s| == 4 && CheckFirst(s[0]) == 4 && Full(s).Some?
    ensures IsScalar(Full(s).value) && Encode(Full(s).value) == Some(s)
  {
    hide Accumulate;
    FullFour(s);
    DigitsFour(Full(s).value, FirstBits(s[0], 4), Tail(s[1]), Tail(s[2]), Tail(s[3]));
    assert Encode(Full(s).value).value == s;
  }

  lemma EncodeOfFull(s: bytes)
    requires s != [] && CheckFirst(s[0]) == |s| && Full(s).Some?
    ensures IsScalar(Full(s).value) && Encode(Full(s).value) == Some(s)
  {
    if |s| == 2 {
      FullTwo(s);
      assert Encode(Full(s).value).value == s;
    } else if |s| == 3 {
      EncodeOfFullThree(s);
    } else {
      EncodeOfFullFour(s);
    }
  }

  /** Decoding undoes encoding, whatever follows. */
  lemma NextOfEncode(cp: int, rest: bytes)
    requires IsScalar(cp)
    ensures Next(Encode(cp).value + rest) == Some(Char(cp, |Encode(cp).value|))
  {
    hide Full;
    var e := Encode(cp).value;
    assert (e + rest)[..|e|] == e;
    if cp >= 0x80 {
      FullOfEncode(cp);
    }
  }

  /** Encoding undoes decoding: only the one encoding of a scalar value is accepted. */
  lemma EncodeOfNext(s: bytes)
    requires Next(s).Some?
    ensures IsScalar(Next(s).value.cp)
    ensures Encode(Next(s).value.cp) == Some(s[..Next(s).value.size])
  {
    hide Full;
    if CheckFirst(s[0]) > 1 {
      EncodeOfFull(s[..CheckFirst(s[0])]);
    } else {
      assert s[..1] == [s[0]];
    }
  }

  // ---------------------------------------------------------------- strings

  /** A concatenation of encodings of scalar values. */
  predicate Valid(s: bytes)
    decreases |s|
  {
    s == [] || (Next(s).Some? && Valid(s[Next(s).value.size..]))
  }

  /** `utf8_check_string`. */
  method CheckString(s: bytes) returns (ok: bool)
    ensures ok <==> Valid(s)
  {
    var i := 0;
    while i < |s|
      invariant 0 <= i <= |s|
      invariant Valid(s) <==> Valid(s[i..])
    {
      var count := CheckFirst(s[i]);
      if count == 0 {
        return false;
      } else if count > 1 {
        if i + count > |s| {
          return false;
        }
        assert s[i..][..count] == s[i..i + count];
        var full := CheckFull(s[i..i + count]);
        if full.None? {
          return false;
        }
        assert s[i..][count..] == s[i + count..];
        i := i + (count - 1);
      }
      assert count == 1 ==> s[i..][1..] == s[i + 1..];
      i := i + 1;
    }
    return true;
  }

  ghost predicate AllScalars(cps: seq<int>) {
    forall i :: 0 <= i < |cps| ==> IsScalar(cps[i])
  }

  ghost function EncodeAll(cps: seq<int>): bytes
    requires AllScalars(cps)
  {
    if cps == [] then [] else Encode(cps[0]).value + EncodeAll(cps[1..])
  }

  ghost function DecodeAll(s: bytes): (cps: seq<int>)
    requires Valid(s)
    ensures AllScalars(cps)
    decreases |s|
  {
    if s == [] then [] else
      EncodeOfNext(s);
      [Next(s).value.cp] + DecodeAll(s[Next(s).value.size..])
  }

  /** `EncodeAll` maps scalar sequences to valid strings, one to one ... */
  lemma {:induction false} DecodeOfEncodeAll(cps: seq<int>)
    requires AllScalars(cps)
    ensures Valid(EncodeAll(cps)) && DecodeAll(EncodeAll(cps)) == cps
  {
    if cps != [] {
      var e, rest := Encode(cps[0]).value, EncodeAll(cps[1..]);
      DecodeOfEncodeAll(cps[1..]);
      NextOfEncode(cps[0], rest);
      assert (e + rest)[|e|..] == rest;
    }
  }

  /** ... and onto: `utf8_check_string` accepts exactly the encodings of scalar sequences. */
  lemma {:induction false} EncodeOfDecodeAll(s: bytes)
    requires Valid(s)
    ensures EncodeAll(DecodeAll(s)) == s
    decreases |s|
  {
    hide Encode, Next, IsScalar;
    if s != [] {
      EncodeOfNext(s);
      var n := Next(s).value.size;
      EncodeOfDecodeAll(s[n..]);
      assert s == s[..n] + s[n..];
    }
  }

  lemma ValidIffEncoding(s: bytes)
    ensures Valid(s) <==> exists cps :: AllScalars(cps) && EncodeAll(cps) == s
  {
    if Valid(s) {
      EncodeOfDecodeAll(s);
    }
    if cps :| AllScalars(cps) && EncodeAll(cps) == s {
      DecodeOfEncodeAll(cps);
    }
  }

  /** The grammar of section 4 of RFC 3629: UTF8-1, UTF8-2, UTF8-3 and UTF8-4. */
  predicate Rfc3629Char(s: bytes) {
    || (|s| == 1 && s[0] <= 0x7F)
    || (|s| == 2 && 0xC2 <= s[0] <= 0xDF && IsContinuation(s[1]))
    || (|s| == 3 && s[0] == 0xE0 && 0xA0 <= s[1] <= 0xBF && IsContinuation(s[2]))
    || (|s| == 3 && (0xE1 <= s[0] <= 0xEC || 0xEE <= s[0] <= 0xEF) && IsContinuation(s[1]) && IsContinuation(s[2]))
    || (|s| == 3 && s[0] == 0xED && 0x80 <= s[1] <= 0x9F && IsContinuation(s[2]))
    || (|s| == 4 && s[0] == 0xF0 && 0x90 <= s[1] <= 0xBF && IsContinuation(s[2]) && IsContinuation(s[3]))
    || (|s| == 4 && 0xF1 <= s[0] <= 0xF3 && IsContinuation(s[1]) && IsContinuation(s[2]) && IsContinuation(s[3]))
    || (|s| == 4 && s[0] == 0xF4 && 0x80 <= s[1] <= 0x8F && IsContinuation(s[2]) && IsContinuation(s[3]))
  }

  lemma FullIffRfc3629(s: bytes)
    requires 2 <= |s| <= 4
    ensures CheckFirst(s[0]) == |s| && Full(s).Some? <==> Rfc3629Char(s)
  {
    hide Accumulate;
    if |s| == 2 {
      FullTwo(s);
    } else if |s| == 3 {
      FullThree(s);
    } else {
      FullFour(s);
    }
  }

  lemma NextIffRfc3629(s: bytes)
    ensures Next(s).Some? && Next(s).value.size == |s| <==> Rfc3629Char(s)
  {
    hide Full;
    assert s[..|s|] == s;
    if 2 <= |s| <= 4 {
      FullIffRfc3629(s);
    }
  }

  /** `utf8_encode` also encodes surrogate halves, which the decoder rejects: the exact domain of the round trip. */
  lemma EncodeIsValidIffScalar(cp: int)
    requires Encode(cp).Some?
    ensures Valid(Encode(cp).value) <==> IsScalar(cp)
  {
    hide Accumulate;
    var e := Encode(cp).value;
    assert e[..|e|] == e && e[|e|..] == [];
    if IsScalar(cp) {
      NextOfEncode(cp, []);
      assert e + [] == e;
    } else {
      FullThree(e);
      assert cp == (cp / 0x1000 * 64 + cp / 0x40 % 0x40) * 64 + cp % 0x40;
    }
  }

  // ---------------------------------------------------------------- concatenation

  lemma {:induction false} ValidConcat(s: bytes, t: bytes)
    requires Valid(s)
    ensures Valid(s + t) <==> Valid(t)
    decreases |s|
  {
    if s == [] {
      assert s + t == t;
    } else {
      NextPrefix(s, t);
      var n := Next(s).value.size;
      ValidConcat(s[n..], t);
      assert (s + t)[n..] == s[n..] + t;
    }
  }

  lemma NextPrefix(s: bytes, t: bytes)
    requires Next(s).Some?
    ensures Next(s + t) == Next(s)
  {
    var n := CheckFirst(s[0]);
    assert (s + t)[..n] == s[..n];
  }
}
