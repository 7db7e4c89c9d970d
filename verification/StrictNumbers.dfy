/** Numbers as section 6 of RFC 8259 defines them, against what `lex_scan_number` accepts. */
module StrictNumbers {
  import opened Options
  import opened Utf8
  import opened Values
  import opened DumpText
  import opened LoadText
  import Rfc8259

  // ---------------------------------------------------------------- the grammar of RFC 8259

  /** `int = zero / ( digit1-9 *DIGIT )`. */
  predicate Integral(s: bytes) {
    s == [Rfc8259.ZERO] || (Rfc8259.Digits(s) && s[0] != Rfc8259.ZERO)
  }

  /** `frac = decimal-point 1*DIGIT`. */
  predicate Fraction(s: bytes) {
    s != [] && s[0] == Rfc8259.DECIMAL_POINT && Rfc8259.Digits(s[1..])
  }

  /** `exp = e [ minus / plus ] 1*DIGIT`. */
  predicate Exponent(s: bytes) {
    && s != [] && Rfc8259.ExpMark(s[0])
    && (Rfc8259.Digits(s[1..]) || (|s| >= 2 && (s[1] == Rfc8259.MINUS_SIGN || s[1] == Rfc8259.PLUS_SIGN) && Rfc8259.Digits(s[2..])))
  }

  /** `number = [ minus ] int [ frac ] [ exp ]`, cut at `i`, `j` and `k`. */
  predicate Cut(s: bytes, i: nat, j: nat, k: nat) {
    && i <= j <= k <= |s| && (i == 0 || (i == 1 && s[0] == Rfc8259.MINUS_SIGN)) && Integral(s[i..j])
    && (j == k || Fraction(s[j..k]))
    && (k == |s| || Exponent(s[k..]))
  }

  ghost predicate Rfc8259Number(s: bytes) {
    exists i: nat, j: nat, k: nat :: Cut(s, i, j, k)
  }

  /** A number with neither fraction nor exponent. */
  ghost predicate IsInteger(s: bytes) {
    exists i: nat :: Cut(s, i, |s|, |s|)
  }

  /** What can still become a number. */
  ghost predicate Viable(s: bytes) {
    exists t :: Rfc8259Number(s + t)
  }

  /** The first `k` bytes are a number, and with the next byte they are not the beginning of one; nor is that byte a digit,
      as it may be after a leading zero. */
  ghost predicate Longest(s: bytes, k: nat) {
    k <= |s| && Rfc8259Number(s[..k]) && (k == |s| || (!Rfc8259.Digit(s[k]) && !Viable(s[..k + 1])))
  }

  // ---------------------------------------------------------------- one way to cut a number

  function Sign(s: bytes): (m: nat)
    ensures m <= |s|
  {
    if s != [] && s[0] == MINUS then 1 else 0
  }

  lemma DigitCountIs(s: bytes, n: nat)
    requires n <= |s| && (forall i :: 0 <= i < n ==> IsDigit(s[i])) && (n < |s| ==> !IsDigit(s[n]))
    ensures DigitCount(s) == n
  {}

  /** A cut is the one that scanning finds. */
  lemma CutIsScan(s: bytes, i: nat, j: nat, k: nat)
    requires Cut(s, i, j, k)
    ensures i == Sign(s) && IntPart(s[i..]) == Some(j - i) && FracPart(s[j..]) == Some(k - j) && ExpPart(s[k..]) == Some(|s| - k)
  {
    CutInteger(s, i, j, k);
    CutFraction(s, j, k);
    CutExponent(s, k);
  }

  lemma CutInteger(s: bytes, i: nat, j: nat, k: nat)
    requires Cut(s, i, j, k)
    ensures i == Sign(s) && IntPart(s[i..]) == Some(j - i)
  {
    var t, d := s[i..], s[i..j];
    assert |t| >= |d| && forall x :: 0 <= x < |d| ==> t[x] == d[x];
    assert j < |s| ==> t[j - i] == s[j] && !IsDigit(s[j]) by {
      assert j < k ==> s[j..k][0] == s[j];
      assert j == k < |s| ==> s[k..][0] == s[k];
    }
    DigitCountIs(t, j - i);
  }

  lemma CutFraction(s: bytes, j: nat, k: nat)
    requires j <= k <= |s| && (j == k || Fraction(s[j..k])) && (k == |s| || Exponent(s[k..]))
    ensures FracPart(s[j..]) == Some(k - j)
  {
    var t := s[j..];
    assert k < |s| ==> s[k..][0] == s[k] && t[k - j] == s[k];
    if j < k {
      var f := s[j..k];
      assert forall x :: 0 <= x < |f| ==> t[x] == f[x];
      assert forall x :: 0 <= x < |f| - 1 ==> t[1..][x] == f[1..][x];
      assert k < |s| ==> t[1..][|f| - 1] == s[k];
      DigitCountIs(t[1..], |f| - 1);
    }
  }

  lemma CutExponent(s: bytes, k: nat)
    requires k <= |s| && (k == |s| || Exponent(s[k..]))
    ensures ExpPart(s[k..]) == Some(|s| - k)
  {
    var t := s[k..];
    if t != [] {
      var sign := if |t| > 1 && (t[1] == PLUS || t[1] == MINUS) then 1 else 0;
      assert sign == 1 ==> t[1..][0] == t[1];
      DigitCountIs(t[1 + sign..], |t| - 1 - sign);
    }
  }

  lemma IntegralScanned(t: bytes, n: nat)
    requires IntPart(t) == Some(n)
    ensures n <= |t| && Integral(t[..n])
  {
    assert forall x :: 0 <= x < n ==> t[..n][x] == t[x];
  }

  lemma FractionScanned(t: bytes, n: nat)
    requires FracPart(t) == Some(n) && n > 0
    ensures n <= |t| && Fraction(t[..n])
  {
    assert t[..n][0] == t[0] && forall x :: 0 <= x < n - 1 ==> t[..n][1..][x] == t[1..][x];
  }

  lemma ExponentScanned(t: bytes)
    requires ExpPart(t) == Some(|t|) && t != []
    ensures Exponent(t)
  {
    var sign := if |t| > 1 && (t[1] == PLUS || t[1] == MINUS) then 1 else 0;
    assert DigitCount(t[1 + sign..]) == |t| - 1 - sign;
  }

  lemma SliceOf(s: bytes, a: nat, b: nat)
    requires a <= b <= |s|
    ensures s[a..][..b - a] == s[a..b]
  {}

  /** What scanning finds is a cut. */
  lemma ScanIsCut(s: bytes, j: nat, k: nat)
    requires Sign(s) <= j <= k <= |s|
    requires IntPart(s[Sign(s)..]) == Some(j - Sign(s)) && FracPart(s[j..]) == Some(k - j) && ExpPart(s[k..]) == Some(|s| - k)
    ensures Cut(s, Sign(s), j, k)
  {
    hide Integral, Fraction, Exponent, IntPart, FracPart, ExpPart;
    var i := Sign(s);
    IntegralScanned(s[i..], j - i);
    SliceOf(s, i, j);
    if j < k {
      FractionScanned(s[j..], k - j);
      SliceOf(s, j, k);
    }
    if k < |s| {
      ExponentScanned(s[k..]);
    }
  }

  // ---------------------------------------------------------------- scanning looks one byte ahead

  /** Two inputs begin with the same `n` bytes. */
  predicate SameFront(s: bytes, u: bytes, n: nat) {
    n <= |s| && n <= |u| && forall x :: 0 <= x < n ==> s[x] == u[x]
  }

  lemma IntLocal(s: bytes, u: bytes, n: nat)
    requires IntPart(s) == Some(n) && SameFront(s, u, n) && (n < |u| ==> !IsDigit(u[n]))
    ensures IntPart(u) == Some(n)
  {
    if s[0] != 0x30 {
      DigitCountIs(u, n);
    }
  }

  lemma FracLocal(s: bytes, u: bytes, n: nat)
    requires FracPart(s) == Some(n) && SameFront(s, u, n) && (n < |u| ==> if n == 0 then u[0] != DOT else !IsDigit(u[n]))
    ensures FracPart(u) == Some(n)
  {
    if n > 0 {
      assert forall x :: 0 <= x < n - 1 ==> u[1..][x] == s[1..][x];
      DigitCountIs(u[1..], n - 1);
    }
  }

  lemma ExpLocal(s: bytes, u: bytes, n: nat)
    requires ExpPart(s) == Some(n) && SameFront(s, u, n) && (n < |u| ==> if n == 0 then !IsExponent(u[0]) else !IsDigit(u[n]))
    ensures ExpPart(u) == Some(n)
  {
    if n > 0 {
      var d := if |s| > 1 && (s[1] == PLUS || s[1] == MINUS) then 2 else 1;
      assert forall x :: 0 <= x < n - d ==> u[d..][x] == s[d..][x];
      DigitCountIs(u[d..], n - d);
    }
  }

  /** Scanning finds a number of `n` bytes, its integer ending at `j` and its fraction at `k`. */
  predicate Scan(s: bytes, j: nat, k: nat, n: nat) {
    && Sign(s) <= j <= k <= n <= |s|
    && IntPart(s[Sign(s)..]) == Some(j - Sign(s)) && FracPart(s[j..]) == Some(k - j) && ExpPart(s[k..]) == Some(n - k)
  }

  /** The byte after a number does not continue it. */
  predicate Stops(u: bytes, j: nat, k: nat, n: nat) {
    n < |u| ==> !IsDigit(u[n]) && (j == n ==> u[n] != DOT) && (k == n ==> !IsExponent(u[n]))
  }

  lemma IntStops(t: bytes, n: nat)
    requires IntPart(t) == Some(n) && n < |t|
    ensures !IsDigit(t[n])
  {}

  lemma FracStops(t: bytes, n: nat)
    requires FracPart(t) == Some(n) && n < |t|
    ensures if n == 0 then t[0] != DOT else !IsDigit(t[n])
  {}

  lemma ExpStops(t: bytes, n: nat)
    requires ExpPart(t) == Some(n) && n < |t|
    ensures if n == 0 then !IsExponent(t[0]) else !IsDigit(t[n])
  {}

  lemma ScanStops(s: bytes, j: nat, k: nat, n: nat)
    requires Scan(s, j, k, n)
    ensures Stops(s, j, k, n)
  {
    hide IntPart, FracPart, ExpPart, IsDigit, IsExponent;
    if n < |s| {
      if j == n {
        IntStops(s[Sign(s)..], j - Sign(s));
        FracStops(s[j..], 0);
      } else if k == n {
        FracStops(s[j..], k - j);
      }
      ExpStops(s[k..], n - k);
    }
  }

  lemma AlikeFrom(s: bytes, u: bytes, a: nat, b: nat, n: nat)
    requires SameFront(s, u, n) && a <= b <= n
    ensures SameFront(s[a..], u[a..], b - a)
    ensures b < |u| ==> u[a..][b - a] == u[b] && (b < n ==> u[b] == s[b])
  {}

  lemma Between(s: bytes, j: nat, k: nat, n: nat)
    requires Scan(s, j, k, n)
    ensures j > Sign(s) && (j < k ==> s[j] == DOT) && (k < n ==> IsExponent(s[k]))
  {}

  lemma SignSame(s: bytes, u: bytes, n: nat)
    requires SameFront(s, u, n) && n > 0
    ensures Sign(s) == Sign(u)
  {}

  /** Inputs that begin with the same number scan alike if nothing continues it. */
  lemma ScanLocal(s: bytes, u: bytes, j: nat, k: nat, n: nat)
    requires Scan(s, j, k, n) && SameFront(s, u, n) && Stops(u, j, k, n)
    ensures Scan(u, j, k, n)
  {
    hide IntPart, FracPart, ExpPart, SameFront;
    var i := Sign(s);
    Between(s, j, k, n);
    SignSame(s, u, n);
    AlikeFrom(s, u, i, j, n);
    AlikeFrom(s, u, j, k, n);
    AlikeFrom(s, u, k, n, n);
    IntLocal(s[i..], u[i..], j - i);
    FracLocal(s[j..], u[j..], k - j);
    ExpLocal(s[k..], u[k..], n - k);
  }

  // ---------------------------------------------------------------- the longest number

  /** Scanning a number finds all of it. */
  lemma NumberIsScan(s: bytes) returns (j: nat, k: nat)
    requires Rfc8259Number(s)
    ensures Scan(s, j, k, |s|) && Cut(s, Sign(s), j, k)
  {
    var i;
    i, j, k :| Cut(s, i, j, k);
    CutIsScan(s, i, j, k);
  }

  /** What scanning finds is the longest number. */
  lemma ScanIsLongest(s: bytes, j: nat, k: nat, n: nat)
    requires Scan(s, j, k, n)
    ensures Longest(s, n)
  {
    hide Scan, Cut;
    ScanInside(s, j, k, n);
    ScanStops(s, j, k, n);
    ScanLocal(s, s[..n], j, k, n);
    ScanCut(s[..n], j, k);
    if n < |s| {
      var p := s[..n + 1];
      forall t ensures !Rfc8259Number(p + t) {
        NoLonger(s, j, k, n, t);
      }
    }
  }

  lemma ScanInside(s: bytes, j: nat, k: nat, n: nat)
    requires Scan(s, j, k, n)
    ensures n <= |s| && SameFront(s, s[..n], n)
  {}

  lemma ScanCut(s: bytes, j: nat, k: nat)
    requires Scan(s, j, k, |s|)
    ensures Rfc8259Number(s) && Cut(s, Sign(s), j, k)
  {
    ScanIsCut(s, j, k);
  }

  lemma NoLonger(s: bytes, j: nat, k: nat, n: nat, t: bytes)
    requires Scan(s, j, k, n) && n < |s|
    ensures !Rfc8259Number(s[..n + 1] + t)
  {
    hide IntPart, FracPart, ExpPart, Cut, Rfc8259Number;
    var u := s[..n + 1] + t;
    ScanStops(s, j, k, n);
    assert n < |u| && u[n] == s[n];
    ScanLocal(s, u, j, k, n);
    if Rfc8259Number(u) {
      var j', k' := NumberIsScan(u);
    }
  }

  /** The longest number is what scanning finds. */
  lemma LongestIsScan(s: bytes, n: nat) returns (j: nat, k: nat)
    requires Longest(s, n)
    ensures Scan(s, j, k, n) && Cut(s[..n], Sign(s), j, k)
  {
    hide Scan, Cut, Viable, Rfc8259Number;
    j, k := NumberIsScan(s[..n]);
    SignOfFront(s, n, j, k);
    if n < |s| {
      NoDot(s, n, j, k);
      NoExponent(s, n, j, k);
    }
    ScanLocal(s[..n], s, j, k, n);
  }

  lemma SignOfFront(s: bytes, n: nat, j: nat, k: nat)
    requires n <= |s| && Scan(s[..n], j, k, n)
    ensures Sign(s[..n]) == Sign(s) && SameFront(s[..n], s, n)
  {
    Between(s[..n], j, k, n);
  }

  /** The first `n` bytes and the next one, and a zero behind them. */
  lemma OneZero(s: bytes, n: nat, a: nat, b: nat)
    requires n < |s| && a <= b <= n
    ensures var u := s[..n + 1] + [0x30];
            |u| == n + 2 && u[a..b] == s[..n][a..b] && u[n..] == [s[n], 0x30] && u[n..][1..] == [0x30]
  {
    var u := s[..n + 1] + [0x30];
    assert u[n..][0] == s[n] && u[n..][1] == 0x30;
  }

  lemma NoDot(s: bytes, n: nat, j: nat, k: nat)
    requires n < |s| && !Viable(s[..n + 1]) && Cut(s[..n], Sign(s[..n]), j, k)
    ensures j == n ==> s[n] != DOT
  {
    if j == n && s[n] == DOT {
      var p, u := s[..n], s[..n + 1] + [0x30];
      var i := Sign(p);
      OneZero(s, n, i, j);
      assert u[n..n + 2] == u[n..];
      assert Cut(u, i, n, n + 2);
    }
  }

  lemma NoExponent(s: bytes, n: nat, j: nat, k: nat)
    requires n < |s| && !Viable(s[..n + 1]) && Cut(s[..n], Sign(s[..n]), j, k)
    ensures k == n ==> !IsExponent(s[n])
  {
    if k == n && IsExponent(s[n]) {
      var p, u := s[..n], s[..n + 1] + [0x30];
      var i := Sign(p);
      OneZero(s, n, i, j);
      OneZero(s, n, j, k);
      assert Cut(u, i, j, n);
    }
  }

  // ---------------------------------------------------------------- tokens

  /** The value of an integer of the grammar. */
  ghost function IntegerValue(s: bytes): (v: int)
    requires IsInteger(s)
  {
    IntegerDigits(s);
    if s[0] == Rfc8259.MINUS_SIGN then 0 - Rfc8259.Numeral(0, s[1..]) else Rfc8259.Numeral(0, s)
  }

  /** Reading digits from the left gives what reading them from the right gives. */
  lemma {:induction false} NumeralIsValue(n: nat, a: bytes, b: bytes)
    requires (forall i :: 0 <= i < |a| ==> IsDigit(a[i])) && (forall i :: 0 <= i < |b| ==> Rfc8259.Digit(b[i]))
    requires n == DigitsValue(a)
    ensures Rfc8259.Numeral(n, b) == DigitsValue(a + b)
    decreases b
  {
    if b == [] {
      assert a + b == a;
    } else {
      var c := a + [b[0]];
      assert c[..|a|] == a && c + b[1..] == a + b;
      NumeralIsValue(10 * n + (b[0] - Rfc8259.ZERO), c, b[1..]);
    }
  }

  lemma IntegerDigits(s: bytes)
    requires IsInteger(s)
    ensures s != [] && forall x :: 0 <= x < |s[Sign(s)..]| ==> IsDigit(s[Sign(s)..][x])
  {
    var i: nat :| Cut(s, i, |s|, |s|);
    CutIsScan(s, i, |s|, |s|);
    assert s[i..|s|] == s[i..];
  }

  /** The token of a number: an integer only within 64 bits. */
  ghost function NumberToken(s: bytes): Token {
    if !IsInteger(s) then RealTok(s)
    else if -0x8000_0000_0000_0000 <= IntegerValue(s) <= 0x7FFF_FFFF_FFFF_FFFF then Int(IntegerValue(s))
    else Invalid
  }

  lemma IntegerIff(s: bytes, j: nat, k: nat)
    requires Scan(s, j, k, |s|)
    ensures IsInteger(s) <==> j == |s|
  {
    hide Scan, Cut;
    if j == |s| {
      ScanCut(s, j, k);
      ScanInside(s, j, k, |s|);
      Whole(s, j, k);
    }
    if IsInteger(s) {
      var i: nat :| Cut(s, i, |s|, |s|);
      CutIsScan(s, i, |s|, |s|);
      SameCut(s, i, j, k);
    }
  }

  lemma Whole(s: bytes, j: nat, k: nat)
    requires Scan(s, j, k, |s|) && j == |s|
    ensures k == |s|
  {}

  lemma SameCut(s: bytes, i: nat, j: nat, k: nat)
    requires Scan(s, j, k, |s|) && IntPart(s[Sign(s)..]) == Some(|s| - Sign(s))
    ensures j == |s|
  {}

  /** `lex_scan_number` in terms of what scanning finds. */
  lemma LexedScan(s: bytes, j: nat, k: nat, n: nat)
    requires s != [] && (IsDigit(s[0]) || s[0] == MINUS) && Scan(s, j, k, n)
    ensures j < n ==> LexNumber(s) == Lexed(RealTok(s[..n]), Unget(s[n..]))
    ensures j == n ==>
              var v := StrToInt(Sign(s) == 1, s[Sign(s)..n]);
              LexNumber(s) == Lexed(if v.Some? then Int(v.value) else Invalid, Unget(s[n..]))
  {
    hide IntPart, FracPart, ExpPart, StrToInt, Unget;
    ScanStops(s, j, k, n);
    Between(s, j, k, n);
  }

  lemma IntegerToken(s: bytes, t: bytes)
    requires IsInteger(t) && Sign(s) == Sign(t)
    ensures forall x :: 0 <= x < |t[Sign(t)..]| ==> IsDigit(t[Sign(t)..][x])
    ensures var v := StrToInt(Sign(s) == 1, t[Sign(t)..]);
            NumberToken(t) == if v.Some? then Int(v.value) else Invalid
  {
    hide IsInteger, StrToInt, DigitsValue, Rfc8259.Numeral;
    IntegerDigits(t);
    var digits := t[Sign(t)..];
    NoDigits();
    NumeralIsValue(0, [], digits);
    assert [] + digits == digits && t[0..] == t;
    ValueInRange(Sign(t) == 1, digits);
  }

  lemma NoDigits()
    ensures DigitsValue([]) == 0
  {}

  lemma ValueInRange(negative: bool, digits: bytes)
    requires forall i :: 0 <= i < |digits| ==> IsDigit(digits[i])
    ensures var n := if negative then 0 - DigitsValue(digits) else DigitsValue(digits);
            StrToInt(negative, digits) == if -0x8000_0000_0000_0000 <= n <= 0x7FFF_FFFF_FFFF_FFFF then Some(n) else None
  {}

  /** The scanner takes the longest number of the grammar and makes a token of it. */
  lemma NumberTaken(s: bytes, n: nat)
    requires s != [] && (IsDigit(s[0]) || s[0] == MINUS) && Longest(s, n)
    ensures LexNumber(s) == Lexed(NumberToken(s[..n]), Unget(s[n..]))
  {
    hide Scan, Cut, Longest, NumberToken, IsInteger, LexNumber, StrToInt, Unget;
    var j, k := LongestIsScan(s, n);
    ScanInside(s, j, k, n);
    ScanOfFront(s, j, k, n);
    IntegerIff(s[..n], j, k);
    LexedScan(s, j, k, n);
    if j == n {
      IntegerToken(s, s[..n]);
      assert s[Sign(s)..n] == s[..n][Sign(s)..];
    } else {
      RealToken(s[..n]);
    }
  }

  lemma RealToken(t: bytes)
    requires !IsInteger(t)
    ensures NumberToken(t) == RealTok(t)
  {}

  lemma ScanOfFront(s: bytes, j: nat, k: nat, n: nat)
    requires Scan(s, j, k, n)
    ensures j <= n <= |s| && Scan(s[..n], j, k, n) && Sign(s[..n]) == Sign(s)
  {
    hide IntPart, FracPart, ExpPart;
    Between(s, j, k, n);
    ScanLocal(s, s[..n], j, k, n);
  }

  /** Where the scanner finds nothing to scan it refuses. */
  lemma NothingScanned(s: bytes)
    requires s != [] && (IsDigit(s[0]) || s[0] == MINUS) && forall j, k, n :: !Scan(s, j, k, n)
    ensures LexNumber(s).token == Invalid
  {
    hide IntPart, FracPart, ExpPart, StrToInt, Unget;
    var m := Sign(s);
    var i := IntPart(s[m..]);
    if i.Some? {
      var j := m + i.value;
      NoPart(s, j);
      var f := FracPart(s[j..]);
      if f.Some? {
        var e := ExpPart(s[j + f.value..]);
        assert e.Some? ==> Scan(s, j, j + f.value, j + f.value + e.value);
      }
    }
  }

  lemma NoPart(s: bytes, j: nat)
    requires j <= |s|
    ensures j == |s| || (s[j] != DOT && !IsExponent(s[j])) ==> FracPart(s[j..]) == Some(0) && ExpPart(s[j..]) == Some(0)
  {}

  /** A number token is produced exactly if the input begins with a number of the grammar that cannot be continued, within
      64 bits if it is an integer, and the token is that of the number. */
  lemma NumberIffGrammar(s: bytes)
    requires s != [] && (IsDigit(s[0]) || s[0] == MINUS)
    ensures LexNumber(s).token != Invalid <==> exists n: nat :: n <= |s| && Longest(s, n) && NumberToken(s[..n]) != Invalid
    ensures forall n: nat :: n <= |s| && Longest(s, n) ==> LexNumber(s) == Lexed(NumberToken(s[..n]), Unget(s[n..]))
  {
    hide Scan, Longest, NumberToken, LexNumber, Unget;
    forall n: nat | n <= |s| && Longest(s, n) ensures LexNumber(s) == Lexed(NumberToken(s[..n]), Unget(s[n..])) {
      NumberTaken(s, n);
    }
    if LexNumber(s).token != Invalid {
      if j, k, n :| Scan(s, j, k, n) {
        ScanIsLongest(s, j, k, n);
        ScanInside(s, j, k, n);
        NumberTaken(s, n);
      } else {
        NothingScanned(s);
      }
    }
  }
}
