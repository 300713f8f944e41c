/**
 * util/NumberBaseConverter: conversion between Java ints and MSB-first bit
 * lists (the bits of a Binary), plus the two byte helpers that the decoders
 * call: signedByteToBinary (here ByteBits) and binaryToDecimal (here Value).
 */
module NumberBaseConverter {
  import opened Common

  /** The unsigned value of an MSB-first bit list: bit k weighs 2^(|s|-1-k). */
  function Value(s: seq<bool>): nat
  {
    if s == [] then 0 else (if s[0] then Pow2(|s| - 1) else 0) + Value(s[1..])
  }

  lemma {:induction false} ValueBound(s: seq<bool>)
    ensures Value(s) < Pow2(|s|)
  {
    if s != [] {
      ValueBound(s[1..]);
    }
  }

  /** Appending bits shifts the value of the prefix left. */
  lemma {:induction false} ValueAppend(a: seq<bool>, b: seq<bool>)
    ensures Value(a + b) == Value(a) * Pow2(|b|) + Value(b)
  {
    if a == [] {
      assert a + b == b;
    } else {
      var ab := a + b;
      assert ab[0] == a[0] && ab[1..] == a[1..] + b && |ab| - 1 == (|a| - 1) + |b|;
      ValueAppend(a[1..], b);
      var p := Pow2(|b|);
      var h := if a[0] then Pow2(|a| - 1) else 0;
      var t := Value(a[1..]);
      Pow2Add(|a| - 1, |b|);
      assert Value(ab) == (if a[0] then Pow2(|a| - 1 + |b|) else 0) + Value(a[1..] + b);
      assert Value(ab) == h * p + (t * p + Value(b));
      Distribute(h, t, p);
      assert Value(a) == h + t;
    }
  }

  lemma Distribute(h: int, t: int, p: int)
    ensures h * p + t * p == (h + t) * p
  {
  }

  lemma {:induction false} ValueZeros(n: nat)
    ensures Value(Zeros(n)) == 0
  {
    if n > 0 {
      assert Zeros(n)[1..] == Zeros(n - 1);
      ValueZeros(n - 1);
    }
  }

  /** Leading false bits do not change the value. */
  lemma ValueLeadingZeros(n: nat, s: seq<bool>)
    ensures Value(Zeros(n) + s) == Value(s)
  {
    ValueAppend(Zeros(n), s);
    ValueZeros(n);
  }

  /** Two bit lists of one length with one value are the same list. */
  lemma {:induction false} ValueInjective(a: seq<bool>, b: seq<bool>)
    requires |a| == |b| && Value(a) == Value(b)
    ensures a == b
  {
    if a != [] {
      ValueBound(a[1..]);
      ValueBound(b[1..]);
      assert a[0] == b[0];
      ValueInjective(a[1..], b[1..]);
      assert a == [a[0]] + a[1..] && b == [b[0]] + b[1..];
    }
  }

  /** Setting a clear bit at index m adds its weight 2^(|s|-1-m). */
  lemma {:induction false} ValueSetBit(s: seq<bool>, m: nat)
    requires m < |s| && !s[m]
    ensures Value(s[m := true]) == Value(s) + Pow2(|s| - 1 - m)
  {
    if m == 0 {
      assert s[m := true][1..] == s[1..];
    } else {
      assert s[m := true][1..] == s[1..][m - 1 := true];
      ValueSetBit(s[1..], m - 1);
    }
  }

  /** Number of significant bits of n (0 for 0). */
  function BitLength(n: nat): nat
  {
    if n == 0 then 0 else 1 + BitLength(n / 2)
  }

  lemma {:induction false} BitLengthOf(n: nat, k: nat)
    requires Pow2(k) <= n < Pow2(k + 1)
    ensures BitLength(n) == k + 1
  {
    if k > 0 {
      BitLengthOf(n / 2, k - 1);
    }
  }

  lemma {:induction false} BitLengthAtMost(n: nat, j: nat)
    requires n < Pow2(j)
    ensures BitLength(n) <= j
  {
    if n > 0 {
      BitLengthAtMost(n / 2, j - 1);
    }
  }

  /** The least multiple of 8 that is at least n. */
  function RoundUp8(n: nat): nat
  {
    (n + 7) / 8 * 8
  }

  lemma RoundUp8Least(n: nat, m: nat)
    requires m % 8 == 0 && n <= m <= RoundUp8(n)
    ensures m == RoundUp8(n)
  {
  }

  /** The number of bits decToBin produces for a non-negative input. */
  function Width(n: nat): nat
  {
    if n == 0 then 8 else RoundUp8(BitLength(n))
  }

  /** floor(log2 n); stands for `(int) (Math.log(n) / Math.log(2))`. */
  function Log2(n: nat): nat
  {
    if n < 2 then 0 else 1 + Log2(n / 2)
  }

  lemma {:induction false} Log2Pow2(k: nat)
    ensures Log2(Pow2(k)) == k
  {
    if k > 0 {
      assert Pow2(k) / 2 == Pow2(k - 1);
      Log2Pow2(k - 1);
    }
  }

  /**
   * decToBin: a negative input yields 00000001; otherwise the MSB-first
   * binary of dec left-padded with false to a multiple of 8 bits (eight
   * bits for 0). With ValueInjective the ensures pin the result down
   * uniquely.
   */
  method DecToBin(dec: int) returns (r: seq<bool>)
    requires dec <= INT_MAX
    ensures dec < 0 ==> r == Zeros(7) + [true]
    ensures dec >= 0 ==> |r| == Width(dec) && Value(r) == dec
  {
    if dec == 0 {
      ValueZeros(8);
      return Zeros(8);
    }
    var binary, factor, k := FindHighestPower(dec);
    var d := dec;
    d := d - factor;
    Log2Pow2(k);
    var i2: int := Log2(factor);
    ValueLeadingZeros(k, []);
    assert binary == [true] + (Zeros(k) + []);
    while i2 >= 0
      invariant -1 <= i2 <= k
      invariant |binary| == k + 1
      invariant factor == if i2 >= 0 then Pow2(i2) else 0
      invariant dec > 0 ==> 0 <= d < Pow2(i2 + 1) && Value(binary) + d == dec
      invariant dec > 0 && i2 == k ==> d < Pow2(k)
      invariant forall j :: k - i2 <= j < |binary| && j > 0 ==> !binary[j]
      invariant dec < 0 ==> binary == [true] && d < 0
    {
      var m := |binary| - (i2 + 1);
      HalvePow2(i2);
      if factor <= d {
        assert 0 < m && !binary[m];
        d := d - factor;
        ValueSetBit(binary, m);
        binary := binary[m := true];
      }
      assert dec > 0 ==> 0 <= d < Pow2(i2) && Value(binary) + d == dec;
      factor := factor / 2;
      i2 := i2 - 1;
    }
    var core := binary;
    binary := PadToOctets(core);
    if dec > 0 {
      ValueLeadingZeros(|binary| - (k + 1), core);
      BitLengthOf(dec, k);
    }
    r := binary;
  }

  /** Halving a power of two: the step decToBin's second loop takes. */
  lemma HalvePow2(i: nat)
    ensures Pow2(i + 1) == 2 * Pow2(i)
    ensures Pow2(i) / 2 == if i >= 1 then Pow2(i - 1) else 0
  {
  }

  /**
   * decToBin's first loop: double i1 from 1, appending a false bit each
   * time, until i1 * 2 exceeds dec; then factor = i1 = 2^k, the highest
   * power of two not above dec (1 when dec is negative).
   */
  method FindHighestPower(dec: int) returns (binary: seq<bool>, factor: int, ghost k: nat)
    requires dec != 0
    ensures factor == Pow2(k) && binary == [true] + Zeros(k)
    ensures dec > 0 ==> factor <= dec < 2 * factor
    ensures dec < 0 ==> k == 0
  {
    binary := [true];
    factor := 0;
    var i1 := 1;
    var found := false;
    k := 0;
    while !found
      invariant i1 == Pow2(k) && binary == [true] + Zeros(k)
      invariant dec > 0 ==> i1 <= dec
      invariant dec < 0 ==> k == 0
      invariant found ==> factor == i1 && (dec > 0 ==> dec < 2 * i1)
      decreases !found, if dec > 0 then dec - i1 else 0
    {
      if i1 * 2 > dec {
        factor := i1;
        found := !found;
      } else {
        binary := binary + [false];
        i1 := i1 * 2;
        k := k + 1;
      }
    }
  }

  /** decToBin's last loop: prepend false until the length is a multiple of 8. */
  method PadToOctets(bits: seq<bool>) returns (r: seq<bool>)
    ensures |r| == RoundUp8(|bits|) && r == Zeros(|r| - |bits|) + bits
  {
    r := bits;
    assert r == Zeros(0) + bits;
    while |r| % 8 != 0
      invariant |bits| <= |r| <= RoundUp8(|bits|)
      invariant r == Zeros(|r| - |bits|) + bits
      decreases RoundUp8(|bits|) - |r|
    {
      assert [false] + r == Zeros(|r| + 1 - |bits|) + bits;
      r := [false] + r;
    }
    RoundUp8Least(|bits|, |r|);
  }

  /** binToDec's result: `dec += Math.pow(2, bit)` casts the double sum back to int, which saturates. */
  function Saturate(v: nat): int
  {
    if v > INT_MAX then INT_MAX else v
  }

  /** binToDec: the MSB-first value of bin, saturated at Integer.MAX_VALUE; 0 for no bits. */
  method BinToDec(bin: seq<bool>) returns (dec: int)
    ensures dec == Saturate(Value(bin))
    ensures 0 <= dec <= INT_MAX
  {
    var size := |bin| - 1;
    dec := 0;
    var bit := 0;
    while bit <= size
      invariant 0 <= bit <= |bin|
      invariant dec == Saturate(Value(bin[|bin| - bit..]))
    {
      assert bin[|bin| - (bit + 1)..][1..] == bin[|bin| - bit..];
      if bin[size - bit] {
        dec := Saturate(dec + Pow2(bit));
      }
      bit := bit + 1;
    }
    assert bin[|bin| - bit..] == bin;
  }

  /** binToDec(decToBin(n)) == n for every non-negative int n. */
  method DecToBinThenBinToDec(n: int) returns (m: int)
    requires 0 <= n <= INT_MAX
    ensures m == n
  {
    var bits := DecToBin(n);
    m := BinToDec(bits);
  }

  lemma RoundUp8Bounds(n: nat)
    ensures RoundUp8(n) % 8 == 0 && n <= RoundUp8(n) < n + 8
  {
  }

  /** The width decToBin uses is a multiple of 8 that holds n, with less than a byte of padding. */
  lemma WidthFits(n: nat)
    ensures Width(n) % 8 == 0 && n < Pow2(Width(n))
    ensures n > 0 ==> BitLength(n) <= Width(n) < BitLength(n) + 8
  {
    if n > 0 {
      var k := Log2(n);
      Log2Brackets(n);
      BitLengthOf(n, k);
      RoundUp8Bounds(k + 1);
      Pow2Monotone(k + 1, Width(n));
    } else {
      Pow2Values();
    }
  }

  lemma {:induction false} Log2Brackets(n: nat)
    requires n >= 1
    ensures Pow2(Log2(n)) <= n < Pow2(Log2(n) + 1)
  {
    if n >= 2 {
      Log2Brackets(n / 2);
    }
  }

  /** Every value of InputStream.read() (0..255) becomes exactly eight bits. */
  lemma ByteValueWidth(n: nat)
    requires n <= 255
    ensures Width(n) == 8
  {
    if n > 0 {
      assert n < Pow2(8);
      BitLengthAtMost(n, 8);
      assert 1 <= BitLength(n) <= 8;
    }
  }

  /** The w low-order bits of x, most significant first. */
  function Bits(x: nat, w: nat): (r: seq<bool>)
    ensures |r| == w
  {
    if w == 0 then [] else Bits(x / 2, w - 1) + [x % 2 == 1]
  }

  lemma {:induction false} BitsValue(x: nat, w: nat)
    requires x < Pow2(w)
    ensures Value(Bits(x, w)) == x
  {
    if w > 0 {
      BitsValue(x / 2, w - 1);
      ValueAppend(Bits(x / 2, w - 1), [x % 2 == 1]);
      assert Value([x % 2 == 1]) == x % 2;
    }
  }

  /** signedByteToBinary: the eight bits of b, most significant first. */
  function ByteBits(b: byte): (r: seq<bool>)
    ensures |r| == 8 && Value(r) == b as int
  {
    Pow2Values();
    BitsValue(b as int, 8);
    Bits(b as int, 8)
  }

  /** Eight bits are worth less than 256. */
  lemma OctetBound(s: seq<bool>)
    requires |s| == 8
    ensures Value(s) < 256
  {
    ValueBound(s);
    Pow2Values();
  }

  /** The weight of each of eight bits, and of the low-order runs a header field uses. */
  lemma Value8(s: seq<bool>)
    requires |s| == 8
    ensures Value(s[4..]) == (if s[4] then 8 else 0) + (if s[5] then 4 else 0)
                           + (if s[6] then 2 else 0) + (if s[7] then 1 else 0)
    ensures Value(s[1..]) == (if s[1] then 64 else 0) + (if s[2] then 32 else 0)
                           + (if s[3] then 16 else 0) + Value(s[4..])
    ensures Value(s) == (if s[0] then 128 else 0) + Value(s[1..])
  {
    Pow2Values();
    assert Value(s[8..]) == 0;
    assert Value(s[7..]) == (if s[7] then 1 else 0) + Value(s[8..]);
    assert Value(s[6..]) == (if s[6] then 2 else 0) + Value(s[7..]);
    assert Value(s[5..]) == (if s[5] then 4 else 0) + Value(s[6..]);
    assert Value(s[4..]) == (if s[4] then 8 else 0) + Value(s[5..]);
    assert Value(s[3..]) == (if s[3] then 16 else 0) + Value(s[4..]);
    assert Value(s[2..]) == (if s[2] then 32 else 0) + Value(s[3..]);
    assert Value(s[1..]) == (if s[1] then 64 else 0) + Value(s[2..]);
    assert s[0..] == s;
  }

  /** A byte's bits are the only eight bits whose value is the byte. */
  lemma ByteBitsUnique(b: byte, s: seq<bool>)
    requires |s| == 8 && Value(s) == b as int
    ensures ByteBits(b) == s
  {
    ValueInjective(ByteBits(b), s);
  }

  // ---------------------------------------------------------------------
  // decToBin's search loop as written, with Java's 32-bit int arithmetic.

  /** Java int arithmetic: x reduced into [-2^31, 2^31). */
  function WrapInt(x: int): int
  {
    (x + 0x8000_0000) % 0x1_0000_0000 - 0x8000_0000
  }

  /** A value that fits in an int is left alone. */
  lemma WrapInRange(x: int)
    requires -0x8000_0000 <= x < 0x8000_0000
    ensures WrapInt(x) == x
  {
    assert 0 <= x + 0x8000_0000 < 0x1_0000_0000;
  }

  /** i1 after t iterations of the search loop when `i1 *= 2` wraps around. */
  function SearchCursor(t: nat): int
  {
    if t == 0 then 1 else WrapInt(SearchCursor(t - 1) * 2)
  }

  lemma {:induction false} SearchCursorValue(t: nat)
    ensures SearchCursor(t) == if t <= 30 then Pow2(t) else if t == 31 then -0x8000_0000 else 0
  {
    Pow2Values();
    if t == 0 {
    } else if t <= 30 {
      SearchCursorValue(t - 1);
      Pow2Monotone(t, 30);
      var x := SearchCursor(t - 1) * 2;
      assert x == Pow2(t) && 0 < x <= 0x4000_0000;
      WrapInRange(x);
    } else if t == 31 {
      SearchCursorValue(t - 1);
      assert WrapInt(0x8000_0000) == -0x8000_0000;
    } else if t == 32 {
      SearchCursorValue(t - 1);
      assert WrapInt(-0x1_0000_0000) == 0;
    } else {
      SearchCursorValue(t - 1);
      assert WrapInt(0) == 0;
    }
  }

  /**
   * For 2^30 <= dec <= Integer.MAX_VALUE the guard `i1 * 2 > dec` of the
   * search loop as written is false on every iteration: i1 runs 2^30,
   * -2^31, 0, 0, ... and the loop never ends.
   */
  lemma SearchNeverEnds(dec: int, t: nat)
    requires 0x4000_0000 <= dec <= INT_MAX
    ensures WrapInt(SearchCursor(t) * 2) <= dec
  {
    SearchCursorValue(t + 1);
    Pow2Values();
    if t + 1 <= 30 {
      Pow2Monotone(t + 1, 30);
    }
  }
}
