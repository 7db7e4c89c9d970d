/** The tables of RFC 8259, written out as the code points that its sections 2, 3, 6 and 7 give: nothing here is taken from
    what the library scans or prints. */
module Rfc8259 {
  import opened Options
  import opened Utf8

  // ---------------------------------------------------------------- section 2: structural characters and white space

  const BEGIN_ARRAY: byte := 0x5B
  const BEGIN_OBJECT: byte := 0x7B
  const END_ARRAY: byte := 0x5D
  const END_OBJECT: byte := 0x7D
  const NAME_SEPARATOR: byte := 0x3A
  const VALUE_SEPARATOR: byte := 0x2C

  /** `ws`: space, horizontal tab, line feed and carriage return. */
  predicate IsWs(c: byte) {
    c == 0x20 || c == 0x09 || c == 0x0A || c == 0x0D
  }

  predicate Ws(s: bytes) {
    forall i :: 0 <= i < |s| ==> IsWs(s[i])
  }

  // ---------------------------------------------------------------- section 3: names

  const FALSE_NAME: bytes := [0x66, 0x61, 0x6C, 0x73, 0x65]
  const NULL_NAME: bytes := [0x6E, 0x75, 0x6C, 0x6C]
  const TRUE_NAME: bytes := [0x74, 0x72, 0x75, 0x65]

  // ---------------------------------------------------------------- section 6: numbers

  const DECIMAL_POINT: byte := 0x2E
  const MINUS_SIGN: byte := 0x2D
  const PLUS_SIGN: byte := 0x2B
  const ZERO: byte := 0x30

  /** `DIGIT`. */
  predicate Digit(c: byte) { 0x30 <= c <= 0x39 }

  /** `e`. */
  predicate ExpMark(c: byte) { c == 0x65 || c == 0x45 }

  /** `1*DIGIT`. */
  predicate Digits(s: bytes) {
    s != [] && forall i :: 0 <= i < |s| ==> Digit(s[i])
  }

  /** The number that digits spell behind those that make `sofar`, read from left to right. */
  function Numeral(sofar: nat, s: bytes): (n: nat)
    requires forall i :: 0 <= i < |s| ==> Digit(s[i])
    decreases s
  {
    if s == [] then sofar else
      assert Digit(s[0]);
      Numeral(10 * sofar + (s[0] - ZERO), s[1..])
  }

  // ---------------------------------------------------------------- section 7: strings

  const ESCAPE: byte := 0x5C
  const QUOTATION_MARK: byte := 0x22
  const HEX_MARK: byte := 0x75

  /** `unescaped`, byte by byte. */
  predicate Unescaped(c: byte) {
    0x20 <= c <= 0x21 || 0x23 <= c <= 0x5B || 0x5D <= c
  }

  /** What the character after `escape` stands for: quotation mark, reverse solidus, solidus, backspace, form feed, line feed,
      carriage return and tab. */
  function EscapedChar(c: byte): (r: Option<byte>) {
    match c
    case 0x22 => Some(0x22)
    case 0x5C => Some(0x5C)
    case 0x2F => Some(0x2F)
    case 0x62 => Some(0x08)
    case 0x66 => Some(0x0C)
    case 0x6E => Some(0x0A)
    case 0x72 => Some(0x0D)
    case 0x74 => Some(0x09)
    case _ => None
  }

  /** `HEXDIG`, in upper or lower case. */
  predicate HexDig(c: byte) {
    Digit(c) || 0x41 <= c <= 0x46 || 0x61 <= c <= 0x66
  }

  function HexDigNumber(c: byte): (n: nat)
    requires HexDig(c)
    ensures n < 16
  {
    if c <= 0x39 then c - 0x30 else if c <= 0x46 then c - 0x41 + 10 else c - 0x61 + 10
  }
}
