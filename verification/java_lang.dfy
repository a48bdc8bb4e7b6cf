/** The pieces of Java's semantics the utilities rely on: 32-bit `int`
    wrap-around, truncating division, `String.trim`, `Integer.parseInt` and
    `String.valueOf` on integers. */
module JavaLang {
  import opened Wrappers

  const IntMin: int := -0x8000_0000
  const IntMax: int := 0x7FFF_FFFF
  const TwoTo32: int := 0x1_0000_0000

  /** The values a Java `int` can hold. */
  predicate InInt(n: int) {
    IntMin <= n <= IntMax
  }

  /** The value a Java `int` holds after an addition whose exact sum is `n`. */
  function Wrap32(n: int): (r: int)
    ensures InInt(r)
    ensures (n - r) % TwoTo32 == 0
    ensures InInt(n) ==> r == n
  {
    (n - IntMin) % TwoTo32 + IntMin
  }

  /** Two `int` values congruent modulo 2^32 are the same value. */
  lemma CongruentInts(x: int, y: int)
    requires InInt(x) && InInt(y)
    requires (x - y) % TwoTo32 == 0
    ensures x == y
  {
    var d := x - y;
    assert d == TwoTo32 * (d / TwoTo32);
  }

  /** Accumulating into an `int` one addend at a time wraps exactly like
      wrapping the exact sum once at the end. */
  lemma WrapAdd(a: int, b: int)
    ensures Wrap32(Wrap32(a) + b) == Wrap32(a + b)
  {
    var x := Wrap32(Wrap32(a) + b);
    var y := Wrap32(a + b);
    var k1 := (Wrap32(a) + b - x) / TwoTo32;
    var k2 := (a - Wrap32(a)) / TwoTo32;
    var k3 := (a + b - y) / TwoTo32;
    assert Wrap32(a) + b - x == TwoTo32 * k1;
    assert a - Wrap32(a) == TwoTo32 * k2;
    assert a + b - y == TwoTo32 * k3;
    assert x - y == TwoTo32 * (k3 - k1 - k2);
    CongruentInts(x, y);
  }

  /** Java's `/` on integers: the quotient rounded toward zero. */
  function JDiv(a: int, b: int): (q: int)
    requires b > 0
    ensures a >= 0 ==> b * q <= a < b * q + b
    ensures a < 0 ==> b * q - b < a <= b * q
  {
    if a >= 0 then a / b else -((-a) / b)
  }

  /** Java's `%` on integers: the remainder takes the sign of the dividend. */
  function JRem(a: int, b: int): (r: int)
    requires b > 0
    ensures a == b * JDiv(a, b) + r
    ensures -b < r < b
    ensures a >= 0 ==> r >= 0
    ensures a <= 0 ==> r <= 0
  {
    a - b * JDiv(a, b)
  }

  // ---------------------------------------------------------------- trim

  /** `String.trim` removes every character at or below U+0020 from both ends. */
  predicate IsWhite(c: char) {
    c <= ' '
  }

  predicate AllWhite(s: string) {
    forall k :: 0 <= k < |s| ==> IsWhite(s[k])
  }

  /** `String.trim`: white characters dropped from both ends. */
  function Trim(s: string): (r: string)
    ensures |r| <= |s|
    ensures |r| > 0 ==> !IsWhite(r[0]) && !IsWhite(r[|r| - 1])
    ensures |r| == 0 <==> AllWhite(s)
    decreases |s|
  {
    if |s| > 0 && IsWhite(s[0]) then Trim(s[1..])
    else if |s| > 0 && IsWhite(s[|s| - 1]) then Trim(s[..|s| - 1])
    else s
  }

  /** A string with no white character at either end is its own trim. */
  lemma TrimOfTrimmed(s: string)
    requires |s| > 0 ==> !IsWhite(s[0]) && !IsWhite(s[|s| - 1])
    ensures Trim(s) == s
  {
  }

  /** `s[a..b]` is what is left of `s` when only white characters are cut from its ends. */
  predicate WhiteOutside(s: string, a: nat, b: nat) {
    a <= b <= |s| && AllWhite(s[..a]) && AllWhite(s[b..])
  }

  /** `trim` returns a slice of its argument with only white characters cut away. */
  lemma {:induction false} TrimIsSlice(s: string)
    ensures exists a: nat, b: nat :: WhiteOutside(s, a, b) && Trim(s) == s[a..b]
    decreases |s|
  {
    var n := |s|;
    if n > 0 && IsWhite(s[0]) {
      TrimIsSlice(s[1..]);
      var a: nat, b: nat :| WhiteOutside(s[1..], a, b) && Trim(s[1..]) == s[1..][a..b];
      WhiteFront(s, a, b);
    } else if n > 0 && IsWhite(s[n - 1]) {
      TrimIsSlice(s[..n - 1]);
      var a: nat, b: nat :| WhiteOutside(s[..n - 1], a, b) && Trim(s[..n - 1]) == s[..n - 1][a..b];
      WhiteBack(s, a, b);
    } else {
      assert WhiteOutside(s, 0, n) && Trim(s) == s[0..n];
    }
  }

  lemma WhiteFront(s: string, a: nat, b: nat)
    requires |s| > 0 && IsWhite(s[0]) && WhiteOutside(s[1..], a, b)
    ensures WhiteOutside(s, a + 1, b + 1) && s[1..][a..b] == s[a + 1..b + 1]
  {
    assert forall k :: 0 <= k < a + 1 ==> s[..a + 1][k] == s[k];
    assert forall k :: 1 <= k < a + 1 ==> s[k] == s[1..][..a][k - 1];
    assert s[b + 1..] == s[1..][b..];
  }

  lemma WhiteBack(s: string, a: nat, b: nat)
    requires |s| > 0 && IsWhite(s[|s| - 1]) && WhiteOutside(s[..|s| - 1], a, b)
    ensures WhiteOutside(s, a, b) && s[..|s| - 1][a..b] == s[a..b]
  {
    var t := s[..|s| - 1];
    assert t[..a] == s[..a];
    assert t[a..b] == s[a..b];
    assert forall k :: b <= k < |s| - 1 ==> s[k] == t[b..][k - b];
    assert forall k :: 0 <= k < |s| - b ==> s[b..][k] == s[b + k];
  }

  /** Trimming twice is trimming once. */
  lemma TrimIdempotent(s: string)
    ensures Trim(Trim(s)) == Trim(s)
  {
    TrimOfTrimmed(Trim(s));
  }

  // ------------------------------------------------------- decimal digits

  predicate IsDigit(c: char) {
    '0' <= c <= '9'
  }

  predicate AllDigits(s: string) {
    forall k :: 0 <= k < |s| ==> IsDigit(s[k])
  }

  function DigitValue(c: char): (d: nat)
    requires IsDigit(c)
    ensures d < 10
  {
    c as int - '0' as int
  }

  function DigitChar(d: nat): (c: char)
    requires d < 10
    ensures IsDigit(c) && DigitValue(c) == d
  {
    ('0' as int + d) as char
  }

  function Pow10(n: nat): (p: nat)
    ensures p >= 1
  {
    if n == 0 then 1 else 10 * Pow10(n - 1)
  }

  /** The number a string of decimal digits denotes, most significant digit first. */
  function DigitsValue(s: string): (n: nat)
    requires AllDigits(s)
    ensures n < Pow10(|s|)
  {
    if |s| == 0 then 0 else 10 * DigitsValue(s[..|s| - 1]) + DigitValue(s[|s| - 1])
  }

  /** Three decimal digits denote hundreds, tens and units. */
  lemma ThreeDigitsValue(s: string)
    requires |s| == 3 && AllDigits(s)
    ensures DigitsValue(s) == 100 * DigitValue(s[0]) + 10 * DigitValue(s[1]) + DigitValue(s[2])
    ensures DigitsValue(s) / 100 == DigitValue(s[0])
    ensures DigitsValue(s) % 100 == 10 * DigitValue(s[1]) + DigitValue(s[2])
  {
    assert s[..2][..1] == s[..1];
    assert DigitsValue(s[..1]) == DigitValue(s[0]);
  }

  /** Two decimal digits denote tens and units. */
  lemma TwoDigitsValue(s: string)
    requires |s| == 2 && AllDigits(s)
    ensures DigitsValue(s) == 10 * DigitValue(s[0]) + DigitValue(s[1])
  {
    assert DigitsValue(s[..1]) == DigitValue(s[0]);
  }

  // --------------------------------------------------------- parse, print

  /** `Integer.parseInt(s)`: an optional sign followed by at least one decimal
      digit, whose value fits in an `int`; anything else throws, here `None`. */
  function ParseInt(s: string): (r: Option<int>)
    ensures r.Some? ==> |s| > 0 && InInt(r.value)
    ensures |s| > 0 && !IsDigit(s[0]) && s[0] != '-' && s[0] != '+' ==> r.None?
    ensures |s| > 0 && AllDigits(s) && DigitsValue(s) <= IntMax ==> r == Some(DigitsValue(s))
  {
    if |s| == 0 then None
    else if s[0] == '-' || s[0] == '+' then
      if |s| == 1 || !AllDigits(s[1..]) then None
      else
        var v: int := if s[0] == '-' then 0 - DigitsValue(s[1..]) else DigitsValue(s[1..]);
        if InInt(v) then Some(v) else None
    else if AllDigits(s) then
      var v := DigitsValue(s);
      if InInt(v) then Some(v) else None
    else None
  }

  /** What `Integer.parseInt` accepts and what it returns: all digits, or a
      '+' or '-' followed by at least one digit, with a magnitude that fits
      the sign (one more for '-', as the range of `int` is asymmetric). */
  lemma ParseIntMeaning(s: string)
    ensures ParseInt(s).Some? <==>
      || (|s| > 0 && AllDigits(s) && DigitsValue(s) <= IntMax)
      || (|s| > 1 && s[0] == '+' && AllDigits(s[1..]) && DigitsValue(s[1..]) <= IntMax)
      || (|s| > 1 && s[0] == '-' && AllDigits(s[1..]) && DigitsValue(s[1..]) <= IntMax + 1)
    ensures ParseInt(s).Some? && AllDigits(s) ==> ParseInt(s).value == DigitsValue(s)
    ensures ParseInt(s).Some? && s[0] == '+' ==> ParseInt(s).value == DigitsValue(s[1..])
    ensures ParseInt(s).Some? && s[0] == '-' ==> ParseInt(s).value == 0 - DigitsValue(s[1..])
  {
  }

  /** The decimal text of a natural number, without leading zeros. */
  function NatToString(n: nat): (r: string)
    ensures |r| >= 1 && AllDigits(r)
    ensures |r| > 1 ==> r[0] != '0'
    ensures DigitsValue(r) == n
    decreases n
  {
    if n < 10 then [DigitChar(n)]
    else
      var p := NatToString(n / 10);
      var r := p + [DigitChar(n % 10)];
      assert r[..|r| - 1] == p;
      r
  }

  /** `String.valueOf` on an integer: decimal text, with a '-' sign when negative. */
  function IntToString(n: int): (r: string)
    ensures |r| >= 1
    ensures n >= 0 <==> AllDigits(r)
    ensures n < 0 <==> r[0] == '-'
  {
    if n < 0 then
      var r := "-" + NatToString(-n);
      assert !IsDigit(r[0]);
      r
    else NatToString(n)
  }

  /** Printing an `int` and parsing it back gives the same `int`. */
  lemma {:induction false} ParsePrintedInt(n: int)
    requires InInt(n)
    ensures ParseInt(IntToString(n)) == Some(n)
  {
    if n < 0 {
      var s := IntToString(n);
      assert s[1..] == NatToString(-n);
    }
  }

  /** Printed natural numbers have as many digits as their magnitude says. */
  lemma {:induction false} NatToStringLength(n: nat, k: nat)
    requires n < Pow10(k)
    requires k >= 1
    ensures |NatToString(n)| <= k
    decreases k
  {
    if n >= 10 {
      NatToStringLength(n / 10, k - 1);
    }
  }
}
