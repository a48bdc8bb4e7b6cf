/** The pure parts of WinKey.java: reading the registry's hex dump into
    bytes, extracting the 25 base-24 characters of the product key from
    the DigitalProductId bytes exactly as the utility's loop does, grouping
    them in fives, and naming the Windows release from its build number. */
module WinKey {
  import opened Wrappers
  import opened JavaLang

  /** A byte, read as the unsigned value `b & 0xFF` the decoder works with. */
  type Byte = x: int | 0 <= x < 256

  // ------------------------------------------------------------ hex text

  /** `Character.digit(c, 16)` on ASCII: the value of a hex digit of either
      case, -1 for anything else. */
  function HexDigit(c: char): (d: int)
    ensures -1 <= d < 16
    ensures d >= 0 <==> IsUpperHex(c) || 'a' <= c <= 'f'
    ensures d >= 0 ==> HexChars[d] == c || HexChars[d] as int + 32 == c as int
  {
    if '0' <= c <= '9' then c as int - '0' as int
    else if 'a' <= c <= 'f' then c as int - 'a' as int + 10
    else if 'A' <= c <= 'F' then c as int - 'A' as int + 10
    else -1
  }

  /** One byte of `hexStringToByteArray`: `(digit(c0) << 4) + digit(c1)`
      cast to a byte. */
  function ByteOf(c0: char, c1: char): Byte {
    (16 * HexDigit(c0) + HexDigit(c1)) % 256
  }

  /** `hexStringToByteArray`: byte k is read from characters 2k and 2k+1.
      An odd length makes the last `charAt` throw, which the caller turns
      into "no value". */
  function HexToBytes(s: string): (r: Option<seq<Byte>>)
    ensures r.None? <==> |s| % 2 == 1
    ensures r.Some? ==> |r.value| == |s| / 2
    ensures r.Some? ==> forall k :: 0 <= k < |r.value| ==> r.value[k] == ByteOf(s[2 * k], s[2 * k + 1])
  {
    if |s| % 2 == 1 then None
    else Some(seq(|s| / 2, k requires 0 <= k < |s| / 2 => ByteOf(s[2 * k], s[2 * k + 1])))
  }

  const HexChars: string := "0123456789ABCDEF"

  /** The upper-case hex digit of `d`. */
  function HexChar(d: nat): (c: char)
    requires d < 16
    ensures HexDigit(c) == d
  {
    HexChars[d]
  }

  /** The two digits a byte is printed as. */
  function HighChar(b: Byte): char {
    HexChar(b / 16)
  }

  function LowChar(b: Byte): char {
    HexChar(b % 16)
  }

  /** The hex dump of bytes, two upper-case digits per byte, as `reg query` prints it. */
  function ToHex(bytes: seq<Byte>): (s: string)
    ensures |s| == 2 * |bytes|
    ensures forall k :: 0 <= k < |bytes| ==> s[2 * k] == HighChar(bytes[k]) && s[2 * k + 1] == LowChar(bytes[k])
  {
    var s := seq(2 * |bytes|, i requires 0 <= i < 2 * |bytes| =>
      if i % 2 == 0 then HighChar(bytes[i / 2]) else LowChar(bytes[i / 2]));
    assert forall k :: 0 <= k < |bytes| ==> (2 * k) / 2 == k && (2 * k + 1) / 2 == k && (2 * k + 1) % 2 == 1;
    s
  }

  /** A byte printed as two digits reads back as itself. */
  lemma ByteRoundTrip(b: Byte)
    ensures ByteOf(HighChar(b), LowChar(b)) == b
  {
    assert 16 * (b / 16) + b % 16 == b;
  }

  /** Reading a hex dump gives back the bytes dumped. */
  lemma HexRoundTrip(bytes: seq<Byte>)
    ensures HexToBytes(ToHex(bytes)) == Some(bytes)
  {
    var s := ToHex(bytes);
    var r := HexToBytes(s).value;
    forall k | 0 <= k < |bytes|
      ensures r[k] == bytes[k]
    {
      ByteRoundTrip(bytes[k]);
    }
    assert r == bytes;
  }

  predicate IsUpperHex(c: char) {
    '0' <= c <= '9' || 'A' <= c <= 'F'
  }

  /** Two upper-case hex digits read as a byte print back as themselves. */
  lemma PairRoundTrip(c0: char, c1: char)
    requires IsUpperHex(c0) && IsUpperHex(c1)
    ensures HighChar(ByteOf(c0, c1)) == c0 && LowChar(ByteOf(c0, c1)) == c1
  {
    UpperHexDigit(c0);
    UpperHexDigit(c1);
    SplitByte(HexDigit(c0), HexDigit(c1));
  }

  /** Dumping the bytes read from an even-length upper-case hex string gives back the string. */
  lemma HexRoundTripText(s: string)
    requires |s| % 2 == 0
    requires forall i :: 0 <= i < |s| ==> IsUpperHex(s[i])
    ensures ToHex(HexToBytes(s).value) == s
  {
    var t := ToHex(HexToBytes(s).value);
    forall k | 0 <= k < |s| / 2
      ensures t[2 * k] == s[2 * k] && t[2 * k + 1] == s[2 * k + 1]
    {
      HexPairAt(s, k);
    }
    PairwiseEqual(t, s);
  }

  /** Two even-length strings that agree pair by pair are equal. */
  lemma PairwiseEqual(t: string, s: string)
    requires |t| == |s| && |s| % 2 == 0
    requires forall k :: 0 <= k < |s| / 2 ==> t[2 * k] == s[2 * k] && t[2 * k + 1] == s[2 * k + 1]
    ensures t == s
  {
    forall i | 0 <= i < |s|
      ensures t[i] == s[i]
    {
      var k := i / 2;
      assert i == 2 * k || i == 2 * k + 1;
    }
  }

  /** The pair of characters of byte `k` survives the round trip. */
  lemma HexPairAt(s: string, k: nat)
    requires |s| % 2 == 0 && 2 * k + 1 < |s|
    requires IsUpperHex(s[2 * k]) && IsUpperHex(s[2 * k + 1])
    ensures var t := ToHex(HexToBytes(s).value); t[2 * k] == s[2 * k] && t[2 * k + 1] == s[2 * k + 1]
  {
    var bytes := HexToBytes(s).value;
    assert bytes[k] == ByteOf(s[2 * k], s[2 * k + 1]);
    PairRoundTrip(s[2 * k], s[2 * k + 1]);
  }

  /** A byte built from two hex digits splits back into them. */
  lemma SplitByte(hi: int, lo: int)
    requires 0 <= hi < 16 && 0 <= lo < 16
    ensures 0 <= 16 * hi + lo < 256 && (16 * hi + lo) % 256 == 16 * hi + lo
    ensures (16 * hi + lo) / 16 == hi && (16 * hi + lo) % 16 == lo
  {
  }

  /** An upper-case hex digit is printed back as itself. */
  lemma UpperHexDigit(c: char)
    requires IsUpperHex(c)
    ensures 0 <= HexDigit(c) < 16 && HexChars[HexDigit(c)] == c
  {
  }

  // ----------------------------------------------------------- the key

  const Alphabet: string := "BCDFGHJKMPQRTVWXY2346789"

  /** The DigitalProductId is used only when it has at least this many bytes. */
  const MinIdLength: nat := 164

  /** The first byte the decoder reads and rewrites. */
  const First: nat := 52

  /** One step of the inner loop: the byte is appended to the carry in base
      256, divided by 24 in place, and the carry keeps the remainder. */
  function Divide(cur: nat, b: Byte): (r: (nat, Byte))
    requires cur < 24
    ensures r.0 < 24
    ensures 256 * cur + b == 24 * r.1 + r.0
  {
    var v := cur * 256 + b;
    (v % 24, v / 24)
  }

  /** The inner loop on one byte, from carry `cur` with `n` steps to go:
      the loop test here, the loop body in `Iteration`. */
  function Divisions(cur: nat, b: Byte, n: nat): (r: (nat, Byte))
    requires cur < 24
    ensures r.0 < 24
    decreases n, 1
  {
    if n == 0 then (cur, b) else Iteration(cur, b, n)
  }

  /** One pass of the inner loop body: a division, then the remaining steps. */
  function Iteration(cur: nat, b: Byte, n: nat): (r: (nat, Byte))
    requires cur < 24 && n > 0
    ensures r.0 < 24
    decreases n, 0
  {
    var step := Divide(cur, b);
    Divisions(step.0, step.1, n - 1)
  }

  /** The 15 inner steps on one byte: the base-24 digit they leave, and the byte left behind. */
  function Extract(b: Byte): (r: (nat, Byte))
    ensures r.0 < 24
  {
    Divisions(0, b, 15)
  }

  /** The key characters the outer loop fills: iteration i writes position
      24 - i from byte 52 + i, so position p comes from byte 76 - p. */
  function KeyChars(id: seq<Byte>): (r: seq<char>)
    requires |id| >= MinIdLength
    ensures |r| == 25
    ensures forall p :: 0 <= p < 25 ==> r[p] in Alphabet
  {
    seq(25, p requires 0 <= p < 25 => KeyChar(id, p))
  }

  /** Key position `p`: the alphabet letter of the digit extracted from byte 76 - p. */
  function KeyChar(id: seq<Byte>, p: nat): (c: char)
    requires |id| >= MinIdLength && p < 25
    ensures c in Alphabet
  {
    Alphabet[Extract(id[First + 24 - p]).0]
  }

  /** The bytes after decoding: bytes 52..76 hold what the divisions left in
      them, every other byte is as it was. */
  function Digested(id: seq<Byte>, n: nat): (r: seq<Byte>)
    requires |id| >= MinIdLength && n <= 25
    ensures |r| == |id|
  {
    seq(|id|, k requires 0 <= k < |id| => if First <= k < First + n then Extract(id[k]).1 else id[k])
  }

  /** The first `n` characters of the key with a dash after every fifth but the last. */
  function Grouped(chars: seq<char>, n: nat): (s: string)
    requires n <= |chars| == 25
    decreases n
  {
    if n == 0 then ""
    else Grouped(chars, n - 1) + [chars[n - 1]] + (if (n - 1) % 5 == 4 && n - 1 != 24 then "-" else "")
  }

  /** The shape of the grouped key: the dashes are at every sixth position,
      and the character at any other position p is character p - p / 6. */
  lemma {:induction false} GroupedShape(chars: seq<char>, n: nat)
    requires n <= |chars| == 25
    ensures |Grouped(chars, n)| == n + (if n == 25 then 4 else n / 5)
    ensures forall p :: 0 <= p < |Grouped(chars, n)| ==>
      Grouped(chars, n)[p] == if p % 6 == 5 then '-' else chars[p - p / 6]
    decreases n
  {
    if n > 0 {
      GroupedShape(chars, n - 1);
      var prev := Grouped(chars, n - 1);
      var s := Grouped(chars, n);
      assert |prev| == (n - 1) + (n - 1) / 5;
      forall p | 0 <= p < |s|
        ensures s[p] == if p % 6 == 5 then '-' else chars[p - p / 6]
      {
        if p < |prev| {
          assert s[p] == prev[p];
        } else if p == |prev| {
          assert s[p] == chars[n - 1];
          assert p - p / 6 == n - 1;
        } else {
          assert s[p] == '-';
        }
      }
    }
  }

  /** The key as the utility prints it: 25 characters in groups of five. */
  function Format(chars: seq<char>): (s: string)
    requires |chars| == 25
    ensures |s| == 29
    ensures forall p :: 0 <= p < 29 && p % 6 != 5 ==> s[p] == chars[p - p / 6]
    ensures forall p :: 0 <= p < 29 && p % 6 == 5 ==> s[p] == '-'
  {
    GroupedShape(chars, 25);
    Grouped(chars, 25)
  }

  /** The 25 key characters back from the printed key, dashes dropped. */
  function Ungroup(key: string): (chars: seq<char>)
    requires |key| == 29
    ensures |chars| == 25
  {
    seq(25, q requires 0 <= q < 25 => key[q + q / 5])
  }

  /** Grouping loses nothing: dropping the dashes gives back the characters. */
  lemma UngroupFormat(chars: seq<char>)
    requires |chars| == 25
    ensures Ungroup(Format(chars)) == chars
  {
    forall q | 0 <= q < 25
      ensures Ungroup(Format(chars))[q] == chars[q]
    {
      UngroupAt(chars, q);
    }
  }

  lemma UngroupAt(chars: seq<char>, q: nat)
    requires |chars| == 25 && q < 25
    ensures Ungroup(Format(chars))[q] == chars[q]
  {
    var s := Format(chars);
    DashSkip(q);
    var p := q + q / 5;
    assert Ungroup(s)[q] == s[p];
    assert s[p] == chars[p - p / 6];
    assert p - p / 6 == q;
  }

  /** Character `q` of the key sits at position `q + q / 5` of the printed
      key, which is never a dash position and maps back to `q`. */
  lemma DashSkip(q: nat)
    requires q < 25
    ensures var p := q + q / 5; p < 29 && p % 6 != 5 && p - p / 6 == q
  {
    var a, b := q / 5, q % 5;
    var p := q + a;
    assert p == 6 * a + b;
    assert p % 6 == b && p / 6 == a;
  }

  /** The inner loop of the decoder on byte `k`: fifteen divisions of the
      same byte, carrying the remainder; returns the digit left in the carry. */
  method DivideInPlace(a: array<Byte>, k: nat) returns (digit: nat)
    requires k < a.Length
    modifies a
    ensures (digit, a[k]) == Extract(old(a[k]))
    ensures a[..] == old(a[..])[k := a[k]]
  {
    ghost var before := a[..];
    ghost var b := a[k];
    var cur: nat := 0;
    var j := 14;
    while j >= 0
      invariant -1 <= j <= 14
      invariant cur < 24
      invariant Divisions(cur, a[k], j + 1) == Extract(b)
      invariant a[..] == before[k := a[k]]
    {
      ghost var step := Divide(cur, a[k]);
      assert Divisions(cur, a[k], j + 1) == Divisions(step.0, step.1, j);
      var v := cur * 256 + a[k];
      a[k] := v / 24;
      cur := v % 24;
      j := j - 1;
    }
    return cur;
  }

  /** The formatting loop: each character, and a dash after every fifth but the last. */
  method GroupKey(chars: seq<char>) returns (s: string)
    requires |chars| == 25
    ensures s == Format(chars)
  {
    s := "";
    for i := 0 to 25
      invariant s == Grouped(chars, i)
    {
      s := s + [chars[i]];
      if i % 5 == 4 && i != 24 {
        s := s + "-";
      }
    }
  }

  /** The decoding part of `getWindowsProductKey`: no key when no
      DigitalProductId was read or it is too short; otherwise the printed
      key, decoding the bytes in place, which are returned as the loop left
      them. */
  method DecodeKey(found: Option<seq<Byte>>) returns (key: Option<string>, after: Option<seq<Byte>>)
    ensures found.None? ==> key.None? && after.None?
    ensures found.Some? && |found.value| < MinIdLength ==> key.None? && after == found
    ensures found.Some? && |found.value| >= MinIdLength ==>
      key == Some(Format(KeyChars(found.value))) && after == Some(Digested(found.value, 25))
  {
    if found.None? || |found.value| < MinIdLength {
      return None, found;
    }
    var id := found.value;
    var a := new Byte[|id|](k requires 0 <= k < |id| => id[k]);
    var chars: seq<char> := [];
    ghost var want := KeyChars(id);
    for i := 0 to 25
      invariant a[..] == Digested(id, i)
      invariant chars == want[25 - i..]
    {
      assert a[First + i] == id[First + i];
      ghost var b := id[First + i];
      var digit := DivideInPlace(a, First + i);
      DigestStep(id, i);
      assert digit == Extract(b).0;
      KeyCharFromByte(id, i);
      assert Alphabet[digit] == want[24 - i];
      assert want[24 - i..] == [want[24 - i]] + want[25 - i..];
      chars := [Alphabet[digit]] + chars;
    }
    assert chars == want;
    var s := GroupKey(chars);
    key := Some(s);
    after := Some(a[..]);
  }

  /** Iteration `i` of the decoder rewrites byte 52 + i and nothing else. */
  lemma DigestStep(id: seq<Byte>, i: nat)
    requires |id| >= MinIdLength && i < 25
    ensures Digested(id, i + 1) == Digested(id, i)[First + i := Extract(id[First + i]).1]
  {
  }

  /** Iteration `i` of the decoder reads byte 52 + i and fills position 24 - i. */
  lemma KeyCharFromByte(id: seq<Byte>, i: nat)
    requires |id| >= MinIdLength && i < 25
    ensures KeyChars(id)[24 - i] == Alphabet[Extract(id[First + i]).0]
  {
    assert First + 24 - (24 - i) == First + i;
  }

  /** As written, the decoder divides each byte on its own, so the key
      depends only on bytes 52..76: ids that agree there give the same key. */
  lemma KeyReadsOnlyItsWindow(id1: seq<Byte>, id2: seq<Byte>)
    requires |id1| >= MinIdLength && |id2| >= MinIdLength
    requires id1[First..First + 25] == id2[First..First + 25]
    ensures KeyChars(id1) == KeyChars(id2)
  {
    var k1, k2 := KeyChars(id1), KeyChars(id2);
    forall p | 0 <= p < 25
      ensures k1[p] == k2[p]
    {
      SameWindowByte(id1, id2, p);
      KeyCharOfByte(id1, id2, p);
    }
  }

  lemma SameWindowByte(id1: seq<Byte>, id2: seq<Byte>, p: nat)
    requires |id1| >= MinIdLength && |id2| >= MinIdLength && p < 25
    requires id1[First..First + 25] == id2[First..First + 25]
    ensures id1[First + 24 - p] == id2[First + 24 - p]
  {
    assert id1[First + 24 - p] == id1[First..First + 25][24 - p];
    assert id2[First + 24 - p] == id2[First..First + 25][24 - p];
  }

  /** A key character depends on its one source byte alone. */
  lemma KeyCharOfByte(id1: seq<Byte>, id2: seq<Byte>, p: nat)
    requires |id1| >= MinIdLength && |id2| >= MinIdLength && p < 25
    requires id1[First + 24 - p] == id2[First + 24 - p]
    ensures KeyChar(id1, p) == KeyChar(id2, p)
  {
  }

  /** Decoding touches only bytes 52..76. */
  lemma DigestKeepsOutside(id: seq<Byte>, k: nat)
    requires |id| >= MinIdLength && k < |id| && !(First <= k < First + 25)
    ensures Digested(id, 25)[k] == id[k]
  {
  }

  // ------------------------------------------------ the intended decoder

  /** The key is the base-24 expansion of a 15-byte little-endian number in
      bytes 52..66; the intended loop divides that whole number by 24 once
      per key character, from byte 66 down to byte 52. */
  const NumberLength: nat := 15

  /** The value of bytes read little-endian: `ds[0]` is the lowest digit in base 256. */
  function NumberValue(ds: seq<Byte>): nat
    decreases |ds|
  {
    if |ds| == 0 then 0 else ds[0] + 256 * NumberValue(ds[1..])
  }

  /** Base-24 digit `k` of `x`, counted from the lowest. */
  function Digit24(x: nat, k: nat): (d: nat)
    ensures d < 24
  {
    if k == 0 then x % 24 else Digit24(x / 24, k - 1)
  }

  /** One round of the intended inner loop: long division of the whole
      number by 24, from its highest byte down, rewriting each byte with its
      quotient; the carry left at the end is the remainder. */
  function DivideNumber(ds: seq<Byte>): (r: (seq<Byte>, nat))
    ensures |r.0| == |ds| && r.1 < 24
    ensures NumberValue(ds) == 24 * NumberValue(r.0) + r.1
    decreases |ds|
  {
    if |ds| == 0 then ([], 0)
    else
      var high := DivideNumber(ds[1..]);
      var v := high.1 * 256 + ds[0];
      assert v < 24 * 256;
      var q := [v / 24] + high.0;
      assert q[1..] == high.0;
      assert NumberValue(q) == v / 24 + 256 * NumberValue(high.0);
      (q, v % 24)
  }

  /** The remainders of `n` rounds, the first round's first. */
  function Rounds(ds: seq<Byte>, n: nat): (r: seq<nat>)
    ensures |r| == n && forall k :: 0 <= k < n ==> r[k] < 24
    decreases n
  {
    if n == 0 then []
    else
      var d := DivideNumber(ds);
      [d.1] + Rounds(d.0, n - 1)
  }

  /** Round k leaves base-24 digit k of the number. */
  lemma {:induction false} RoundsAreDigits(ds: seq<Byte>, n: nat)
    ensures forall k :: 0 <= k < n ==> Rounds(ds, n)[k] == Digit24(NumberValue(ds), k)
    decreases n
  {
    if n > 0 {
      var d := DivideNumber(ds);
      var x := NumberValue(ds);
      RoundsAreDigits(d.0, n - 1);
      assert x / 24 == NumberValue(d.0) && x % 24 == d.1;
      forall k | 0 <= k < n
        ensures Rounds(ds, n)[k] == Digit24(x, k)
      {
        if k > 0 {
          assert Rounds(ds, n)[k] == Rounds(d.0, n - 1)[k - 1];
        }
      }
    }
  }

  /** The number the key encodes: bytes 52..66. */
  function KeyNumber(id: seq<Byte>): nat
    requires |id| >= MinIdLength
  {
    NumberValue(id[First..First + NumberLength])
  }

  /** Key characters from remainders: the last remainder is written first. */
  function DigitChars(digits: seq<nat>): (r: seq<char>)
    requires forall k :: 0 <= k < |digits| ==> digits[k] < 24
    ensures |r| == |digits|
    ensures forall p :: 0 <= p < |r| ==> r[p] == Alphabet[digits[|digits| - 1 - p]]
  {
    seq(|digits|, p requires 0 <= p < |digits| => Alphabet[digits[|digits| - 1 - p]])
  }

  /** The key characters of the intended decoder: round i writes position
      24 - i, so position p holds base-24 digit 24 - p of the key number. */
  function CorrectedKeyChars(id: seq<Byte>): (r: seq<char>)
    requires |id| >= MinIdLength
    ensures |r| == 25
    ensures forall p :: 0 <= p < 25 ==> r[p] == Alphabet[Digit24(KeyNumber(id), 24 - p)]
  {
    var ds := id[First..First + NumberLength];
    RoundsAreDigits(ds, 25);
    DigitChars(Rounds(ds, 25))
  }

  /** The intended `getWindowsProductKey` decoding: no key for a missing or
      short DigitalProductId, otherwise the grouped digits of the key number. */
  function CorrectedDecode(found: Option<seq<Byte>>): (key: Option<string>)
    ensures key.Some? <==> found.Some? && |found.value| >= MinIdLength
    ensures key.Some? ==> |key.value| == 29 && Ungroup(key.value) == CorrectedKeyChars(found.value)
  {
    if found.None? || |found.value| < MinIdLength then None
    else
      var chars := CorrectedKeyChars(found.value);
      UngroupFormat(chars);
      Some(Format(chars))
  }

  /** A zero byte divides to zero with a zero carry, however many steps. */
  lemma {:induction false} ZerosStayZero(n: nat)
    ensures Divisions(0, 0, n) == (0, 0)
  {
    if n > 0 {
      ZerosStayZero(n - 1);
    }
  }

  /** Zero bytes have the value zero. */
  lemma {:induction false} ZeroBytesHaveNoValue(ds: seq<Byte>)
    requires forall k :: 0 <= k < |ds| ==> ds[k] == 0
    ensures NumberValue(ds) == 0
    decreases |ds|
  {
    if |ds| > 0 {
      ZeroBytesHaveNoValue(ds[1..]);
    }
  }

  /** The DigitalProductId whose key number is 24: byte 52 holds 24, every other byte 0. */
  function TwentyFour(): (id: seq<Byte>)
    ensures |id| == MinIdLength && KeyNumber(id) == 24
    ensures forall k :: 0 <= k < |id| && k != First ==> id[k] == 0
  {
    var id: seq<Byte> := seq(MinIdLength, k => if k == First then 24 else 0);
    var ds := id[First..First + NumberLength];
    var rest := ds[1..];
    forall k | 0 <= k < |rest|
      ensures rest[k] == 0
    {
      assert rest[k] == id[First + 1 + k];
    }
    ZeroBytesHaveNoValue(rest);
    assert ds[0] == 24;
    assert NumberValue(ds) == ds[0] + 256 * NumberValue(rest);
    id
  }

  /** The loop as written divides each byte on its own, so no carry passes
      from byte 52 to the next digit: the key number 24 is "10" in base 24,
      so the intended key has 'C' at position 23, but the loop as written
      takes that position from byte 53, which is zero, and prints 'B'. */
  lemma AsWrittenMissesTheCarry()
    ensures KeyChars(TwentyFour())[23] == Alphabet[0] == 'B'
  {
    var id := TwentyFour();
    ZerosStayZero(15);
    assert KeyChars(id)[23] == Alphabet[Extract(id[First + 1]).0];
  }

  /** The intended decoder carries: position 23 of the key for the number
      24 is base-24 digit 1 of 24, which is 1, so 'C'. */
  lemma CorrectedCarries()
    ensures CorrectedKeyChars(TwentyFour())[23] == Alphabet[1] == 'C'
  {
    var id := TwentyFour();
    var r := CorrectedKeyChars(id);
    assert r[23] == Alphabet[Digit24(KeyNumber(id), 1)];
    assert Digit24(24, 1) == Digit24(1, 0) == 1;
  }

  // -------------------------------------------------------------- build

  /** The Windows releases the build number is classified into. */
  datatype Release = Windows11 | Windows10 | Windows7 | Vista | XP | Unknown

  /** The precise branch of `detectWindowsVersion`: the first threshold the
      build reaches, from the highest down. */
  function Classify(build: int): (r: Release)
    ensures r == Windows11 <==> build >= 22000
    ensures r == Windows10 <==> 10240 <= build < 22000
    ensures r == Windows7 <==> 7600 <= build < 10240
    ensures r == Vista <==> 6000 <= build < 7600
    ensures r == XP <==> 2600 <= build < 6000
    ensures r == Unknown <==> build < 2600
  {
    if build >= 22000 then Windows11
    else if build >= 10240 then Windows10
    else if build >= 7600 then Windows7
    else if build >= 6000 then Vista
    else if build >= 2600 then XP
    else Unknown
  }

  /** Releases in the order their thresholds rise. */
  function Rank(r: Release): nat {
    match r
    case Unknown => 0
    case XP => 1
    case Vista => 2
    case Windows7 => 3
    case Windows10 => 4
    case Windows11 => 5
  }

  /** A later build is never classified as an earlier release. */
  lemma ClassifyMonotone(b1: int, b2: int)
    requires b1 <= b2
    ensures Rank(Classify(b1)) <= Rank(Classify(b2))
  {
  }

  /** The release name as the label starts it; Windows 10 carries the ReleaseId when there is one. */
  function ReleaseName(r: Release, releaseId: Option<string>): string {
    match r
    case Windows11 => "Windows 11"
    case Windows10 => "Windows 10 " + releaseId.GetOr("")
    case Windows7 => "Windows 7"
    case Vista => "Windows Vista"
    case XP => "Windows XP"
    case Unknown => "Windows"
  }

  /** The label `detectWindowsVersion` returns for a build read from the
      registry: the release name, then " (Build ", then the build number in a
      form `Integer.parseInt` reads back, then ")". */
  function VersionLabel(build: int, releaseId: Option<string>): (s: string)
    ensures var name := ReleaseName(Classify(build), releaseId);
      && |s| >= |name| + 10 && s[..|name|] == name
      && s[|name|..|name| + 8] == " (Build " && s[|s| - 1] == ')'
      && (InInt(build) ==> ParseInt(s[|name| + 8..|s| - 1]) == Some(build))
  {
    var name := ReleaseName(Classify(build), releaseId);
    var number := IntToString(build);
    var open := " (Build ";
    var s := name + open + number + ")";
    assert |open| == 8;
    assert s[..|name|] == name;
    assert s[|name|..|name| + 8] == open;
    assert s[|name| + 8..|s| - 1] == number;
    if InInt(build) then ParsePrintedInt(build); s else s
  }

  /** Two characters at positions 8 and 9 that tell the releases apart. */
  function BandMark(r: Release): (char, char) {
    match r
    case Windows11 => ('1', '1')
    case Windows10 => ('1', '0')
    case Windows7 => ('7', ' ')
    case Vista => ('V', 'i')
    case XP => ('X', 'P')
    case Unknown => ('(', 'B')
  }

  /** Every label carries its release's mark at positions 8 and 9. */
  lemma LabelMark(build: int, releaseId: Option<string>)
    ensures var s := VersionLabel(build, releaseId);
      |s| > 9 && (s[8], s[9]) == BandMark(Classify(build))
  {
    var s := VersionLabel(build, releaseId);
    var name := ReleaseName(Classify(build), releaseId);
    assert s[..|name|] == name;
    assert s[|name|..|name| + 8] == " (Build ";
    if Classify(build) == Unknown {
      assert s[8] == s[|name|..|name| + 8][1];
      assert s[9] == s[|name|..|name| + 8][2];
    } else if Classify(build) == Windows7 {
      assert s[8] == name[8];
      assert s[9] == s[|name|..|name| + 8][0];
    } else {
      assert s[8] == name[8] && s[9] == name[9];
    }
  }

  /** Builds the classification puts in different bands get different
      labels, whatever ReleaseId either carries. */
  lemma LabelsOfBandsDiffer(b1: int, id1: Option<string>, b2: int, id2: Option<string>)
    ensures Classify(b1) != Classify(b2) ==> VersionLabel(b1, id1) != VersionLabel(b2, id2)
  {
    LabelMark(b1, id1);
    LabelMark(b2, id2);
  }
}
