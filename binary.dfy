/**
 * util/Binary: a growable list of bits. The object itself only grows (append
 * and prepend update `bin` in place); slicing, the bitwise operators, octet
 * splitting and printing build fresh lists with index loops and are modelled
 * here as methods over the bit sequence they read, each proved against a
 * recursive specification function.
 */
module Bits {
  import opened Common
  import opened NumberBaseConverter

  class Binary {
    /** The ArrayList<Boolean> of bits, first bit first. */
    var bin: seq<bool>

    /** Binary(): no bits. */
    constructor Empty()
      ensures bin == []
    {
      bin := [];
    }

    /** Binary(ArrayList<Boolean>) and Binary(Boolean[]): a copy of the given bits. */
    constructor (binary: seq<bool>)
      ensures bin == binary
    {
      bin := binary;
    }

    /** size(). */
    method Size() returns (n: int)
      ensures n == |bin|
    {
      n := |bin|;
    }

    /** append(Binary): the argument's bits, in order, after the current ones. */
    method Append(binary: Binary)
      modifies this
      ensures bin == old(bin) + old(binary.bin)
    {
      bin := bin + binary.bin;
    }

    /** append(boolean). */
    method AppendBit(bit: bool)
      modifies this
      ensures bin == old(bin) + [bit]
    {
      bin := bin + [bit];
    }

    /** prepend(Binary): the argument's bits, in order, before the current ones. */
    method Prepend(binary: Binary)
      modifies this
      ensures bin == old(binary.bin) + old(bin)
    {
      bin := binary.bin + bin;
    }

    /** prepend(boolean). */
    method PrependBit(bit: bool)
      modifies this
      ensures bin == [bit] + old(bin)
    {
      bin := [bit] + bin;
    }
  }

  /** getBit(index): ArrayList.get throws outside [0, size). */
  method GetBit(s: seq<bool>, index: int) returns (r: Result<bool>)
    ensures r.Ok? <==> 0 <= index < |s|
    ensures r.Ok? ==> r.value == s[index]
    ensures r.Err? ==> r.error == IndexOutOfBounds
  {
    if index < 0 || index >= |s| {
      return Err(IndexOutOfBounds);
    }
    return Ok(s[index]);
  }

  /**
   * getSubset(i1, i2): bits i1 .. i2-1, copied one at a time. Any range that
   * is not a non-empty part of the list throws, so an empty range always does.
   */
  method GetSubset(s: seq<bool>, i1: int, i2: int) returns (r: Result<seq<bool>>)
    ensures r.Ok? <==> 0 <= i1 < i2 <= |s|
    ensures r.Ok? ==> |r.value| == i2 - i1 && forall k :: 0 <= k < i2 - i1 ==> r.value[k] == s[i1 + k]
    ensures r.Err? ==> r.error == IndexOutOfBounds
  {
    if i1 < 0 || i1 >= i2 || i2 > |s| {
      return Err(IndexOutOfBounds);
    }
    var subset: seq<bool> := [];
    var i := i1;
    while i < i2
      invariant i1 <= i <= i2
      invariant |subset| == i - i1
      invariant forall k :: 0 <= k < i - i1 ==> subset[k] == s[i1 + k]
    {
      subset := subset + [s[i]];
      i := i + 1;
    }
    return Ok(subset);
  }

  /**
   * getSubset(i1): its own guard lets i1 == size through, but the call it
   * delegates to, getSubset(i1, size), then throws on the empty range.
   */
  method GetSubsetFrom(s: seq<bool>, i1: int) returns (r: Result<seq<bool>>)
    ensures r.Ok? <==> 0 <= i1 < |s|
    ensures r.Ok? ==> r.value == s[i1..]
    ensures r.Err? ==> r.error == IndexOutOfBounds
  {
    if i1 < 0 || i1 > |s| {
      return Err(IndexOutOfBounds);
    }
    r := GetSubset(s, i1, |s|);
    if r.Ok? {
      assert r.value == s[i1..];
    }
  }

  /** Bitwise negation, defined bit after bit. */
  function Not(a: seq<bool>): (r: seq<bool>)
    ensures |r| == |a|
    ensures forall i :: 0 <= i < |a| ==> r[i] == !a[i]
  {
    if a == [] then [] else [!a[0]] + Not(a[1..])
  }

  /** Bitwise exclusive or of two lists of one length, defined bit after bit. */
  function Xor(a: seq<bool>, b: seq<bool>): (r: seq<bool>)
    requires |a| == |b|
    ensures |r| == |a|
    ensures forall i :: 0 <= i < |a| ==> r[i] == (a[i] != b[i])
  {
    if a == [] then [] else [a[0] != b[0]] + Xor(a[1..], b[1..])
  }

  /** Negating twice gives the list back. */
  lemma NotInvolution(a: seq<bool>)
    ensures Not(Not(a)) == a
  {
  }

  /** Exclusive or with the same operand twice gives the list back. */
  lemma XorInvolution(a: seq<bool>, b: seq<bool>)
    requires |a| == |b|
    ensures Xor(Xor(a, b), b) == a
  {
  }

  /** Exclusive or is symmetric. */
  lemma XorCommutes(a: seq<bool>, b: seq<bool>)
    requires |a| == |b|
    ensures Xor(a, b) == Xor(b, a)
  {
  }

  /** logicalNot: a fresh list with every bit flipped. */
  method LogicalNot(a: seq<bool>) returns (r: seq<bool>)
    ensures r == Not(a)
  {
    r := [];
    var i := 0;
    while i < |a|
      invariant 0 <= i <= |a|
      invariant |r| == i && forall k :: 0 <= k < i ==> r[k] == !a[k]
    {
      r := r + [!a[i]];
      i := i + 1;
    }
  }

  /** The loop that logicalAnd, logicalOr and logicalXor all share. */
  method XorLoop(a: seq<bool>, b: seq<bool>) returns (r: Result<seq<bool>>)
    ensures |a| != |b| ==> r == Err(IndexOutOfBounds)
    ensures |a| == |b| ==> r == Ok(Xor(a, b))
  {
    if |a| != |b| {
      return Err(IndexOutOfBounds);
    }
    var output: seq<bool> := [];
    var i := 0;
    while i < |a|
      invariant 0 <= i <= |a|
      invariant |output| == i && forall k :: 0 <= k < i ==> output[k] == (a[k] != b[k])
    {
      output := output + [a[i] != b[i]];
      i := i + 1;
    }
    assert output == Xor(a, b);
    return Ok(output);
  }

  /** logicalXor: lengths must agree, else IndexOutOfBoundsException. */
  method LogicalXor(a: seq<bool>, b: seq<bool>) returns (r: Result<seq<bool>>)
    ensures |a| != |b| ==> r == Err(IndexOutOfBounds)
    ensures |a| == |b| ==> r == Ok(Xor(a, b))
  {
    r := XorLoop(a, b);
  }

  /** logicalAnd as written: its loop body is `^`, so it is exclusive or. */
  method LogicalAnd(a: seq<bool>, b: seq<bool>) returns (r: Result<seq<bool>>)
    ensures |a| != |b| ==> r == Err(IndexOutOfBounds)
    ensures |a| == |b| ==> r == Ok(Xor(a, b))
  {
    r := XorLoop(a, b);
  }

  /** logicalOr as written: its loop body is `^`, so it is exclusive or. */
  method LogicalOr(a: seq<bool>, b: seq<bool>) returns (r: Result<seq<bool>>)
    ensures |a| != |b| ==> r == Err(IndexOutOfBounds)
    ensures |a| == |b| ==> r == Ok(Xor(a, b))
  {
    r := XorLoop(a, b);
  }

  /** logicalNand: logicalNot of logicalAnd, so (as written) the negated exclusive or. */
  method LogicalNand(a: seq<bool>, b: seq<bool>) returns (r: Result<seq<bool>>)
    ensures |a| != |b| ==> r == Err(IndexOutOfBounds)
    ensures |a| == |b| ==> r == Ok(Not(Xor(a, b)))
  {
    var c := LogicalAnd(a, b);
    if c.Err? {
      return Err(c.error);
    }
    var n := LogicalNot(c.value);
    return Ok(n);
  }

  /** logicalNor: logicalNot of logicalOr, so (as written) the negated exclusive or. */
  method LogicalNor(a: seq<bool>, b: seq<bool>) returns (r: Result<seq<bool>>)
    ensures |a| != |b| ==> r == Err(IndexOutOfBounds)
    ensures |a| == |b| ==> r == Ok(Not(Xor(a, b)))
  {
    var c := LogicalOr(a, b);
    if c.Err? {
      return Err(c.error);
    }
    var n := LogicalNot(c.value);
    return Ok(n);
  }

  /** logicalXnor: logicalNot of logicalXor. */
  method LogicalXnor(a: seq<bool>, b: seq<bool>) returns (r: Result<seq<bool>>)
    ensures |a| != |b| ==> r == Err(IndexOutOfBounds)
    ensures |a| == |b| ==> r == Ok(Not(Xor(a, b)))
  {
    var c := LogicalXor(a, b);
    if c.Err? {
      return Err(c.error);
    }
    var n := LogicalNot(c.value);
    return Ok(n);
  }

  // logicalAnd and logicalOr as their names say (finding): the operators
  // their loops evidently meant, proved against bit-by-bit definitions.

  /** Bitwise conjunction of two lists of one length. */
  function And(a: seq<bool>, b: seq<bool>): (r: seq<bool>)
    requires |a| == |b|
    ensures |r| == |a|
    ensures forall i :: 0 <= i < |a| ==> r[i] == (a[i] && b[i])
  {
    if a == [] then [] else [a[0] && b[0]] + And(a[1..], b[1..])
  }

  /** Bitwise disjunction of two lists of one length. */
  function Or(a: seq<bool>, b: seq<bool>): (r: seq<bool>)
    requires |a| == |b|
    ensures |r| == |a|
    ensures forall i :: 0 <= i < |a| ==> r[i] == (a[i] || b[i])
  {
    if a == [] then [] else [a[0] || b[0]] + Or(a[1..], b[1..])
  }

  /** As written, logicalAnd and logicalOr differ from And and Or on two set bits. */
  lemma AndOrAsWritten()
    ensures Xor([true], [true]) == [false]
    ensures And([true], [true]) == [true] && Or([true], [true]) == [true]
  {
  }

  /** The three operators agree bit for bit: a | b is (a ^ b) ^ (a & b). */
  lemma {:induction false} OrIsXorOfXorAndAnd(a: seq<bool>, b: seq<bool>)
    requires |a| == |b|
    ensures Or(a, b) == Xor(Xor(a, b), And(a, b))
  {
    if a != [] {
      OrIsXorOfXorAndAnd(a[1..], b[1..]);
    }
  }

  /** De Morgan: negating the conjunction of the negations gives the disjunction. */
  lemma {:induction false} DeMorgan(a: seq<bool>, b: seq<bool>)
    requires |a| == |b|
    ensures Not(And(Not(a), Not(b))) == Or(a, b)
  {
    if a != [] {
      DeMorgan(a[1..], b[1..]);
    }
  }

  /** logicalAnd with the conjunction its name promises. */
  method LogicalAndIntended(a: seq<bool>, b: seq<bool>) returns (r: Result<seq<bool>>)
    ensures |a| != |b| ==> r == Err(IndexOutOfBounds)
    ensures |a| == |b| ==> r == Ok(And(a, b))
  {
    if |a| != |b| {
      return Err(IndexOutOfBounds);
    }
    var output: seq<bool> := [];
    var i := 0;
    while i < |a|
      invariant 0 <= i <= |a|
      invariant |output| == i && forall k :: 0 <= k < i ==> output[k] == (a[k] && b[k])
    {
      output := output + [a[i] && b[i]];
      i := i + 1;
    }
    assert output == And(a, b);
    return Ok(output);
  }

  /** logicalOr with the disjunction its name promises. */
  method LogicalOrIntended(a: seq<bool>, b: seq<bool>) returns (r: Result<seq<bool>>)
    ensures |a| != |b| ==> r == Err(IndexOutOfBounds)
    ensures |a| == |b| ==> r == Ok(Or(a, b))
  {
    if |a| != |b| {
      return Err(IndexOutOfBounds);
    }
    var output: seq<bool> := [];
    var i := 0;
    while i < |a|
      invariant 0 <= i <= |a|
      invariant |output| == i && forall k :: 0 <= k < i ==> output[k] == (a[k] || b[k])
    {
      output := output + [a[i] || b[i]];
      i := i + 1;
    }
    assert output == Or(a, b);
    return Ok(output);
  }

  /** The whole octets of s, in order; a trailing partial octet is dropped. */
  function Octets(s: seq<bool>): (r: seq<seq<bool>>)
    ensures |r| == |s| / 8
    ensures forall i :: 0 <= i < |r| ==> r[i] == s[8 * i..8 * i + 8]
  {
    if |s| < 8 then [] else [s[..8]] + Octets(s[8..])
  }

  /** The concatenation of a list of bit lists. */
  function Concat(parts: seq<seq<bool>>): seq<bool>
  {
    if parts == [] then [] else parts[0] + Concat(parts[1..])
  }

  /** Putting the octets back together gives every bit but the partial tail. */
  lemma {:induction false} OctetsConcat(s: seq<bool>)
    ensures Concat(Octets(s)) == s[..|s| / 8 * 8]
  {
    if |s| >= 8 {
      var o := Octets(s);
      assert o[1..] == Octets(s[8..]);
      OctetsConcat(s[8..]);
      assert s[..|s| / 8 * 8] == s[..8] + s[8..][..(|s| - 8) / 8 * 8];
    }
  }

  /** toBinaryOctetArray: getSubset(8i, 8i + 8) for each whole octet i. */
  method ToBinaryOctetArray(s: seq<bool>) returns (r: seq<seq<bool>>)
    ensures r == Octets(s)
  {
    r := [];
    var i := 0;
    while i < |s| / 8
      invariant 0 <= i <= |s| / 8
      invariant |r| == i && forall k :: 0 <= k < i ==> r[k] == s[8 * k..8 * k + 8]
    {
      var octet := GetSubset(s, i * 8, i * 8 + 8);
      assert octet.value == s[8 * i..8 * i + 8];
      r := r + [octet.value];
      i := i + 1;
    }
  }

  /**
   * toByteArray: each whole octet through binToDec, then cast to byte. An
   * octet's value is below 256, so neither the saturation nor the cast
   * changes it.
   */
  method ToByteArray(s: seq<bool>) returns (r: seq<byte>)
    ensures |r| == |s| / 8
    ensures forall i :: 0 <= i < |r| ==> r[i] as int == Value(s[8 * i..8 * i + 8])
    ensures forall i :: 0 <= i < |r| ==> ByteBits(r[i]) == s[8 * i..8 * i + 8]
  {
    var octets := ToBinaryOctetArray(s);
    r := [];
    var index := 0;
    while index < |octets|
      invariant 0 <= index <= |octets|
      invariant |r| == index
      invariant forall k :: 0 <= k < index ==> ByteBits(r[k]) == s[8 * k..8 * k + 8]
    {
      var b := OctetToByte(octets[index]);
      r := r + [b];
      index := index + 1;
    }
    forall i | 0 <= i < |r|
      ensures r[i] as int == Value(s[8 * i..8 * i + 8])
    {
      assert Value(ByteBits(r[i])) == r[i] as int;
    }
  }

  /** `(byte) NumberBaseConverter.binToDec(octet)` for one whole octet. */
  method OctetToByte(octet: seq<bool>) returns (b: byte)
    requires |octet| == 8
    ensures b as int == Value(octet) && ByteBits(b) == octet
  {
    var dec := BinToDec(octet);
    OctetBound(octet);
    ByteOfInt(dec);
    b := dec as byte;
    ByteBitsUnique(b, octet);
  }

  /** The characters toString prints for a list of bits. */
  function BitString(s: seq<bool>): (r: string)
    ensures |r| == |s|
    ensures forall i :: 0 <= i < |s| ==> r[i] == (if s[i] then '1' else '0')
  {
    if s == [] then "" else [if s[0] then '1' else '0'] + BitString(s[1..])
  }

  /** Reading a string of '1's and '0's back as bits ('1' is set). */
  function ParseBits(t: string): (r: seq<bool>)
    ensures |r| == |t|
  {
    if t == "" then [] else [t[0] == '1'] + ParseBits(t[1..])
  }

  /** toString loses nothing: its text parses back to the same bits. */
  lemma {:induction false} BitStringRoundTrip(s: seq<bool>)
    ensures ParseBits(BitString(s)) == s
  {
    if s != [] {
      assert BitString(s)[1..] == BitString(s[1..]);
      BitStringRoundTrip(s[1..]);
    }
  }

  /** toString: one '1' or '0' per bit, in order. */
  method ToString(s: seq<bool>) returns (output: string)
    ensures output == BitString(s)
  {
    output := "";
    var i := 0;
    while i < |s|
      invariant 0 <= i <= |s|
      invariant |output| == i && forall k :: 0 <= k < i ==> output[k] == (if s[k] then '1' else '0')
    {
      output := output + (if s[i] then "1" else "0");
      i := i + 1;
    }
  }
}
