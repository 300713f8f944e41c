/**
 * The frame layout of section 5.2 of RFC 6455 as the decoder reads it: bit
 * k of the received bytes (most significant bit first), the unsigned value
 * of a run of bits (NumberBaseConverter.binaryToDecimal), the arithmetic
 * meaning of each header field, and the masking transform of section 5.3.
 */
module FrameLayout {
  import opened Common
  import opened NumberBaseConverter
  import opened ByteLists

  /** getBit(k) on the received bytes: bit k % 8 of byte k / 8. */
  function Bit(s: seq<byte>, k: nat): bool
    requires k < 8 * |s|
  {
    BitsOf(s)[k]
  }

  /** binaryToDecimal(getBits(i1, i2)): the unsigned value of bits i1 .. i2-1. */
  function Field(s: seq<byte>, i1: nat, i2: nat): nat
    requires i1 <= i2 <= 8 * |s|
  {
    Value(BitsOf(s)[i1..i2])
  }

  /** The unsigned big-endian value of a byte sequence (network byte order). */
  function BigEndian(a: seq<byte>): nat
  {
    if a == [] then 0 else BigEndian(a[..|a| - 1]) * 256 + a[|a| - 1] as int
  }

  lemma {:induction false} BitsOfAppend(a: seq<byte>, b: seq<byte>)
    ensures BitsOf(a + b) == BitsOf(a) + BitsOf(b)
  {
    if a != [] {
      assert (a + b)[1..] == a[1..] + b;
      BitsOfAppend(a[1..], b);
    } else {
      assert a + b == b;
    }
  }

  /** The bits of bytes i1 .. i2-1 are bits 8*i1 .. 8*i2-1 of the whole. */
  lemma BitsOfSlice(s: seq<byte>, i1: nat, i2: nat)
    requires i1 <= i2 <= |s|
    ensures BitsOf(s)[8 * i1..8 * i2] == BitsOf(s[i1..i2])
  {
    var p, m, q := s[..i1], s[i1..i2], s[i2..];
    SplitInThree(s, i1, i2);
    BitsOfAppend(p + m, q);
    BitsOfAppend(p, m);
    MiddleSlice(BitsOf(p), BitsOf(m), BitsOf(q));
  }

  /** A sequence is its three slices put back together. */
  lemma SplitInThree<T>(s: seq<T>, i1: nat, i2: nat)
    requires i1 <= i2 <= |s|
    ensures s == s[..i1] + s[i1..i2] + s[i2..]
  {
  }

  /** The middle part of a + b + c. */
  lemma MiddleSlice<T>(a: seq<T>, b: seq<T>, c: seq<T>)
    ensures (a + b + c)[|a|..|a| + |b|] == b
  {
  }

  /** Read as bits, a byte sequence is worth its big-endian value. */
  lemma {:induction false} ValueBitsOf(a: seq<byte>)
    ensures Value(BitsOf(a)) == BigEndian(a)
  {
    if a != [] {
      var init := a[..|a| - 1];
      var last := a[|a| - 1];
      assert a == init + [last];
      BitsOfAppend(init, [last]);
      assert BitsOf([last]) == ByteBits(last);
      ValueAppend(BitsOf(init), ByteBits(last));
      ValueBitsOf(init);
      Pow2Values();
    }
  }

  /** The meaning of the first header byte (section 5.2 of RFC 6455). */
  lemma FirstByteFields(s: seq<byte>)
    requires |s| >= 1
    ensures Bit(s, 0) <==> s[0] as int >= 128
    ensures Bit(s, 1) <==> s[0] as int % 128 >= 64
    ensures Bit(s, 2) <==> s[0] as int % 64 >= 32
    ensures Bit(s, 3) <==> s[0] as int % 32 >= 16
    ensures Field(s, 4, 8) == s[0] as int % 16
  {
    var bits := ByteBits(s[0]);
    assert BitsOf(s)[..8] == bits;
    assert BitsOf(s)[4..8] == bits[4..];
    Value8(bits);
    ValueBound(bits[4..]);
    Pow2Values();
    HighBitsArith(s[0] as int, bits[0], bits[1], bits[2], bits[3], Value(bits[4..]));
  }

  /** A byte's value is its four high bits' weights plus a low nibble. */
  lemma HighBitsArith(v: int, x0: bool, x1: bool, x2: bool, x3: bool, low: int)
    requires 0 <= low < 16
    requires v == (if x0 then 128 else 0) + (if x1 then 64 else 0)
                + (if x2 then 32 else 0) + (if x3 then 16 else 0) + low
    ensures x0 <==> v >= 128
    ensures x1 <==> v % 128 >= 64
    ensures x2 <==> v % 64 >= 32
    ensures x3 <==> v % 32 >= 16
    ensures v % 16 == low
  {
  }

  /** The meaning of the second header byte: MASK, then the 7-bit length. */
  lemma SecondByteFields(s: seq<byte>)
    requires |s| >= 2
    ensures Bit(s, 8) <==> s[1] as int >= 128
    ensures Field(s, 9, 16) == s[1] as int % 128
  {
    var bits := ByteBits(s[1]);
    BitsOfSlice(s, 1, 2);
    assert BitsOf(s[1..2]) == bits;
    assert BitsOf(s)[8] == bits[0];
    assert BitsOf(s)[9..16] == bits[1..];
    Value8(bits);
    ValueBound(bits[1..]);
    Pow2Values();
    TopBitArith(s[1] as int, bits[0], Value(bits[1..]));
  }

  /** A byte's value is its top bit's weight plus the low seven bits. */
  lemma TopBitArith(v: int, x0: bool, low: int)
    requires 0 <= low < 128
    requires v == (if x0 then 128 else 0) + low
    ensures x0 <==> v >= 128
    ensures v % 128 == low
  {
  }

  /** The extended payload length: n bytes from byte 2, in network byte order. */
  lemma ExtendedLength(s: seq<byte>, n: nat)
    requires 2 + n <= |s|
    ensures Field(s, 16, 16 + 8 * n) == BigEndian(s[2..2 + n])
  {
    BitsOfSlice(s, 2, 2 + n);
    ValueBitsOf(s[2..2 + n]);
  }

  /**
   * The masking transform of section 5.3 of RFC 6455: octet i is XORed with
   * octet i mod 4 of the key.
   */
  function Unmask(p: seq<byte>, key: seq<byte>): (r: seq<byte>)
    requires |key| == 4
    ensures |r| == |p|
  {
    seq(|p|, i requires 0 <= i < |p| => p[i] ^ key[i % 4])
  }

  /** Masking and unmasking are the same operation: applying it twice is the identity. */
  lemma UnmaskInvolution(p: seq<byte>, key: seq<byte>)
    requires |key| == 4
    ensures Unmask(Unmask(p, key), key) == p
  {
    var q := Unmask(Unmask(p, key), key);
    forall i | 0 <= i < |p|
      ensures q[i] == p[i]
    {
      XorTwice(p[i], key[i % 4]);
    }
  }

  lemma XorTwice(x: byte, k: byte)
    ensures (x ^ k) ^ k == x
  {
  }

  /** The n bytes of x in network byte order (its low 8n bits). */
  function BigEndianBytes(x: nat, n: nat): (r: seq<byte>)
    ensures |r| == n
  {
    if n == 0 then [] else BigEndianBytes(x / 256, n - 1) + [(x % 256) as byte]
  }

  /** Writing x in n bytes and reading it back gives x whenever it fits. */
  lemma {:induction false} BigEndianRoundTrip(x: nat, n: nat)
    requires x < Pow2(8 * n)
    ensures BigEndian(BigEndianBytes(x, n)) == x
  {
    if n > 0 {
      var r := BigEndianBytes(x, n);
      assert r[..n - 1] == BigEndianBytes(x / 256, n - 1);
      ByteOfInt(x % 256);
      Pow2Values();
      Pow2Add(8 * (n - 1), 8);
      DivBound(x, 256, Pow2(8 * (n - 1)));
      BigEndianRoundTrip(x / 256, n - 1);
    }
  }

  lemma DivBound(x: nat, d: nat, m: nat)
    requires d > 0 && x < m * d
    ensures x / d < m
  {
  }
}
