/**
 * util/ByteList: a growable byte buffer. The bytes live in a Java byte[]
 * whose first `index` cells are the list; `index` is the cursor where the
 * next byte goes. The array grows and shrinks by `growthStepSize` cells,
 * always by reallocating and copying.
 */
module ByteLists {
  import opened Common
  import opened NumberBaseConverter

  /** n zero bytes, the contents of a fresh Java byte[n]. */
  function ZeroBytes(n: nat): (r: seq<byte>)
    ensures |r| == n && forall i :: 0 <= i < n ==> r[i] == 0
  {
    seq(n, _ => 0)
  }

  /** The bits of a byte sequence, eight per byte, most significant first. */
  function BitsOf(a: seq<byte>): (r: seq<bool>)
    ensures |r| == 8 * |a|
  {
    if a == [] then [] else ByteBits(a[0]) + BitsOf(a[1..])
  }

  /** Bit k of a byte sequence is bit k % 8 of byte k / 8. */
  lemma {:induction false} BitsOfIndex(a: seq<byte>, k: nat)
    requires k < 8 * |a|
    ensures BitsOf(a)[k] == ByteBits(a[k / 8])[k % 8]
  {
    assert BitsOf(a) == ByteBits(a[0]) + BitsOf(a[1..]);
    if k >= 8 {
      var j := k - 8;
      assert j / 8 == k / 8 - 1 && j % 8 == k % 8;
      BitsOfIndex(a[1..], j);
      assert a[1..][j / 8] == a[k / 8];
    } else {
      assert k / 8 == 0 && k % 8 == k;
    }
  }

  /** The array after remove(i) has shifted bytes i+1 .. size-1 one cell left. */
  function ShiftedOut(a: seq<byte>, size: nat, i: nat): (r: seq<byte>)
    requires i < size <= |a|
    ensures |r| == |a|
    ensures r[..size - 1] == a[..i] + a[i + 1..size]
  {
    var r := a[..i] + a[i + 1..size] + a[size - 1..];
    assert r[..size - 1] == a[..i] + a[i + 1..size];
    r
  }

  /**
   * When the size i2 - i1 of a range, which getBits and the slicing
   * constructor compute in int arithmetic, wraps: a forward range of 2^31
   * or more turns negative, and a reversed range more than 2^31 long turns
   * non-negative, 2^32 larger.
   */
  lemma RangeSizeWraps(i1: int, i2: int)
    requires IsInt(i1) && IsInt(i2)
    ensures i1 <= i2 ==> (WrapInt(i2 - i1) < 0 <==> i2 - i1 >= 0x8000_0000)
    ensures i1 <= i2 && WrapInt(i2 - i1) >= 0 ==> WrapInt(i2 - i1) == i2 - i1
    ensures i2 < i1 ==> (WrapInt(i2 - i1) >= 0 <==> i1 - i2 > 0x8000_0000)
    ensures i2 < i1 && WrapInt(i2 - i1) >= 0 ==> WrapInt(i2 - i1) == i2 - i1 + 0x1_0000_0000
    ensures WrapInt(1 - INT_MIN) < 0 && WrapInt(INT_MIN - INT_MAX) == 1
  {
    if i1 <= i2 {
      if i2 - i1 < 0x8000_0000 {
        WrapInRange(i2 - i1);
      } else {
        assert (i2 - i1 + 0x8000_0000) % 0x1_0000_0000 == i2 - i1 - 0x8000_0000;
      }
    } else if i1 - i2 <= 0x8000_0000 {
      WrapInRange(i2 - i1);
    } else {
      assert (i2 - i1 + 0x8000_0000) % 0x1_0000_0000 == i2 - i1 + 0x1_8000_0000;
    }
    assert (1 - INT_MIN + 0x8000_0000) % 0x1_0000_0000 == 1;
    assert (INT_MIN - INT_MAX + 0x8000_0000) % 0x1_0000_0000 == 0x8000_0001;
  }

  /**
   * System.arraycopy(src, srcPos, dest, destPos, length) between two distinct
   * arrays: the range of dest is overwritten, the rest is kept.
   */
  method ArrayCopy(src: array<byte>, srcPos: nat, dest: array<byte>, destPos: nat, length: nat)
    requires src != dest
    requires srcPos + length <= src.Length && destPos + length <= dest.Length
    modifies dest
    ensures dest[..] == old(dest[..destPos]) + src[srcPos..srcPos + length] + old(dest[destPos + length..])
  {
    var k := 0;
    while k < length
      invariant 0 <= k <= length
      invariant dest[..destPos] == old(dest[..destPos])
      invariant dest[destPos..destPos + k] == src[srcPos..srcPos + k]
      invariant dest[destPos + k..] == old(dest[destPos + k..])
    {
      dest[destPos + k] := src[srcPos + k];
      k := k + 1;
      assert dest[destPos..destPos + k] == dest[destPos..destPos + k - 1] + [dest[destPos + k - 1]];
    }
    assert dest[..] == dest[..destPos] + dest[destPos..destPos + length] + dest[destPos + length..];
  }

  class ByteList {
    /** The Java field `array`. */
    var cells: array<byte>
    /** The cursor: the number of bytes in the list. */
    var index: int
    var growthStepSize: int

    /** The list keeps its bytes inside the array and grows by whole steps. */
    predicate Valid()
      reads this
    {
      0 <= index <= cells.Length && growthStepSize >= 1
    }

    /** The bytes of the list, in order. */
    function Contents(): seq<byte>
      reads this, cells
      requires Valid()
    {
      cells[..index]
    }

    /** ByteList(int size, int growthStepSize) once size > 0 is known. */
    constructor Sized(size: nat, growthStepSize: int)
      requires size > 0 && growthStepSize >= 1
      ensures Valid() && fresh(cells)
      ensures cells[..] == ZeroBytes(size) && index == 0
      ensures this.growthStepSize == growthStepSize
    {
      cells := new byte[size](_ => 0);
      index := 0;
      this.growthStepSize := growthStepSize;
    }

    /** ByteList(): ten cells, growing one at a time. */
    constructor ()
      ensures Valid() && fresh(cells)
      ensures cells.Length == 10 && index == 0 && growthStepSize == 1
    {
      cells := new byte[10](_ => 0);
      index := 0;
      growthStepSize := 1;
    }

    /** ByteList(int size, int growthStepSize): a size of 0 or less is rejected. */
    static method New(size: int, growthStepSize: int) returns (r: Result<ByteList>)
      requires growthStepSize >= 1
      ensures r.Ok? <==> size > 0
      ensures r.Err? ==> r.error == IllegalArgument
      ensures r.Ok? ==> fresh(r.value) && fresh(r.value.cells) && r.value.Valid()
      ensures r.Ok? ==> r.value.Contents() == [] && r.value.cells.Length == size
      ensures r.Ok? ==> r.value.growthStepSize == growthStepSize
    {
      if size <= 0 {
        return Err(IllegalArgument);
      }
      var list := new ByteList.Sized(size, growthStepSize);
      return Ok(list);
    }

    /**
     * ByteList(byteList, i1, i2, growthStepSize): a list of capacity i2 - i1
     * holding byteList.get(i1) .. byteList.get(i2 - 1). The capacity is an
     * int subtraction, checked first: a reversed range whose size wraps to a
     * positive int gives an empty list of that capacity, since the loop never
     * runs. get reads the raw array, so a forward range must lie inside
     * byteList's array, not merely inside its list.
     */
    static method Slice(byteList: ByteList, i1: int, i2: int, growthStepSize: int) returns (r: Result<ByteList>)
      requires byteList.Valid() && growthStepSize >= 1 && IsInt(i1) && IsInt(i2)
      ensures r == Err(IllegalArgument) <==> WrapInt(i2 - i1) <= 0
      ensures r.Ok? ==> fresh(r.value) && fresh(r.value.cells) && r.value.Valid()
      ensures r.Ok? ==> r.value.growthStepSize == growthStepSize
      ensures i2 <= i1 && WrapInt(i2 - i1) > 0 ==>
                r.Ok? && r.value.Contents() == [] && r.value.cells.Length == WrapInt(i2 - i1)
      ensures i1 < i2 && WrapInt(i2 - i1) > 0 ==> (r.Ok? <==> 0 <= i1 && i2 <= byteList.cells.Length)
      ensures i1 < i2 && r.Err? && WrapInt(i2 - i1) > 0 ==> r.error == IndexOutOfBounds
      ensures i1 < i2 && r.Ok? ==> r.value.Contents() == byteList.cells[i1..i2] && r.value.cells.Length == i2 - i1
    {
      var made := New(WrapInt(i2 - i1), growthStepSize);
      if made.Err? {
        return Err(made.error);
      }
      var list := made.value;
      if i2 <= i1 {
        return Ok(list);
      }
      RangeSizeWraps(i1, i2);
      var i := i1;
      while i < i2
        invariant i1 <= i <= i2
        invariant list.Valid() && fresh(list) && fresh(list.cells)
        invariant list.cells.Length == i2 - i1 && list.index == i - i1
        invariant list.growthStepSize == growthStepSize
        invariant i > i1 ==> 0 <= i1 && i <= byteList.cells.Length
        invariant 0 <= i1 && i <= byteList.cells.Length ==> list.Contents() == byteList.cells[i1..i]
      {
        var b := byteList.Get(i);
        if b.Err? {
          return Err(b.error);
        }
        list.Add(b.value);
        i := i + 1;
      }
      return Ok(list);
    }

    /** get(index): a raw array read, so a cell past the list's end is readable too. */
    method Get(i: int) returns (r: Result<byte>)
      ensures r.Ok? <==> 0 <= i < cells.Length
      ensures r.Ok? ==> r.value == cells[i]
      ensures r.Err? ==> r.error == IndexOutOfBounds
    {
      if i < 0 || i >= cells.Length {
        return Err(IndexOutOfBounds);
      }
      return Ok(cells[i]);
    }

    /**
     * getBit(bit): bit k of the array's bit string. Java's `/` and `%`
     * truncate, so every negative k lands on a negative index somewhere.
     */
    method GetBit(bit: int) returns (r: Result<bool>)
      ensures r.Ok? <==> 0 <= bit < 8 * cells.Length
      ensures r.Ok? ==> r.value == BitsOf(cells[..])[bit]
      ensures r.Err? ==> r.error == IndexOutOfBounds
    {
      if bit < 0 || bit / 8 >= cells.Length {
        return Err(IndexOutOfBounds);
      }
      BitsOfIndex(cells[..], bit);
      return Ok(ByteBits(cells[bit / 8])[bit % 8]);
    }

    /** getBit(b, bit): bit `bit` of byte b. */
    method GetBitAt(b: int, bit: int) returns (r: Result<bool>)
      ensures r.Ok? <==> 0 <= b < cells.Length && 0 <= bit < 8
      ensures r.Ok? ==> r.value == BitsOf(cells[..])[8 * b + bit]
      ensures r.Err? ==> r.error == IndexOutOfBounds
    {
      if b < 0 || b >= cells.Length || bit < 0 || bit >= 8 {
        return Err(IndexOutOfBounds);
      }
      BitsOfIndex(cells[..], 8 * b + bit);
      return Ok(ByteBits(cells[b])[bit]);
    }

    /**
     * getBits(i1, i2): bits i1 .. i2-1 of the array's bit string. The result
     * array's size i2 - i1 is computed in int arithmetic: when it wraps to a
     * negative value the allocation throws, and when a reversed range wraps
     * to a non-negative one the loop never runs and the array keeps its
     * default false bits. A forward range outside the array fails in the
     * first getBit that leaves it.
     */
    method GetBits(i1: int, i2: int) returns (r: Result<seq<bool>>)
      requires IsInt(i1) && IsInt(i2)
      ensures r == Err(NegativeArraySize) <==> WrapInt(i2 - i1) < 0
      ensures i2 <= i1 && WrapInt(i2 - i1) >= 0 ==> r == Ok(Zeros(WrapInt(i2 - i1)))
      ensures i1 < i2 && WrapInt(i2 - i1) >= 0 ==> (r.Ok? <==> 0 <= i1 && i2 <= 8 * cells.Length)
      ensures i1 < i2 && r.Ok? ==> r.value == BitsOf(cells[..])[i1..i2]
      ensures i1 < i2 && WrapInt(i2 - i1) >= 0 && r.Err? ==> r.error == IndexOutOfBounds
    {
      var size := WrapInt(i2 - i1);
      if size < 0 {
        return Err(NegativeArraySize);
      }
      if i2 <= i1 {
        return Ok(Zeros(size));
      }
      ghost var all := BitsOf(cells[..]);
      var bits: seq<bool> := [];
      var i := i1;
      while i < i2
        invariant i1 <= i <= i2
        invariant i > i1 ==> 0 <= i1 && i <= |all|
        invariant i > i1 ==> bits == all[i1..i]
        invariant i == i1 ==> bits == []
      {
        var bit := GetBit(i);
        if bit.Err? {
          return Err(bit.error);
        }
        assert all[i1..i + 1] == all[i1..i] + [all[i]];
        bits := bits + [bit.value];
        i := i + 1;
      }
      return Ok(bits);
    }

    /** resizeUp(): a fresh array one growth step longer, the old cells copied in. */
    method ResizeUp()
      requires Valid()
      modifies this
      ensures Valid() && fresh(cells)
      ensures cells[..] == old(cells[..]) + ZeroBytes(growthStepSize)
      ensures index == old(index) && growthStepSize == old(growthStepSize)
    {
      var copy := cells;
      cells := new byte[copy.Length + growthStepSize](_ => 0);
      ArrayCopy(copy, 0, cells, 0, copy.Length);
      assert cells[copy.Length..] == ZeroBytes(growthStepSize);
    }

    /**
     * resizeDown(): a fresh array one growth step shorter holding the old
     * array's leading cells; called only when the list still fits.
     */
    method ResizeDown()
      requires Valid() && index <= cells.Length - growthStepSize
      modifies this
      ensures Valid() && fresh(cells)
      ensures cells[..] == old(cells[..cells.Length - growthStepSize])
      ensures index == old(index) && growthStepSize == old(growthStepSize)
    {
      var copy := cells;
      cells := new byte[copy.Length - growthStepSize](_ => 0);
      ArrayCopy(copy, 0, cells, 0, copy.Length - growthStepSize);
    }

    /** add(b): grow by one step when full, then store b at the cursor. */
    method Add(b: byte)
      requires Valid()
      modifies this, cells
      ensures Valid() && growthStepSize == old(growthStepSize)
      ensures fresh(cells) || cells == old(cells)
      ensures index == old(index) + 1
      ensures cells[..] == (if old(index) + 1 > old(cells.Length)
                            then old(cells[..]) + ZeroBytes(growthStepSize)
                            else old(cells[..]))[old(index) := b]
      ensures Contents() == old(Contents()) + [b]
    {
      if index + 1 > cells.Length {
        ResizeUp();
      }
      cells[index] := b;
      index := index + 1;
      assert cells[..index] == old(cells[..index]) + [b];
    }

    /**
     * add(ByteList b): grows at most once, by one step, then copies b's
     * bytes in. If they still do not fit, the copy stops with an
     * ArrayIndexOutOfBoundsException once the array is full.
     */
    method AddAll(b: ByteList) returns (r: Result<()>)
      requires Valid() && b.Valid() && b != this && b.cells != cells
      modifies this, cells
      ensures Valid() && growthStepSize == old(growthStepSize)
      ensures fresh(cells) || cells == old(cells)
      ensures var cap := if old(index) + b.index > old(cells.Length)
                         then old(cells.Length) + growthStepSize else old(cells.Length);
              cells.Length == cap
              && (r.Ok? <==> old(index) + b.index <= cap)
              && (r.Ok? ==> Contents() == old(Contents()) + b.Contents())
              && (r.Err? ==> r.error == IndexOutOfBounds && index == cap
                             && Contents() == old(Contents()) + b.cells[..cap - old(index)])
    {
      if index + b.index > cells.Length {
        ResizeUp();
      }
      assert fresh(cells) || cells == old(cells);
      ghost var start := index;
      ghost var base := cells[..index];
      ghost var resized := cells;
      var k := 0;
      while k < b.index
        invariant cells == resized && growthStepSize == old(growthStepSize)
        invariant Valid() && 0 <= k <= b.index && index == start + k
        invariant cells[..index] == base + b.cells[..k]
        invariant b.Valid() && b.cells != cells
      {
        if index >= cells.Length {
          return Err(IndexOutOfBounds);
        }
        var next := b.Get(k);
        cells[index] := next.value;
        index := index + 1;
        k := k + 1;
        assert b.cells[..k] == b.cells[..k - 1] + [b.cells[k - 1]];
      }
      return Ok(());
    }

    /**
     * remove(i): the byte at i; the later bytes move one cell left, and the
     * array shrinks by a step once a whole step of it is unused.
     */
    method Remove(i: int) returns (r: Result<byte>)
      requires Valid()
      modifies this, cells
      ensures Valid() && growthStepSize == old(growthStepSize)
      ensures fresh(cells) || cells == old(cells)
      ensures r.Ok? <==> 0 <= i < old(index)
      ensures r.Err? ==> r.error == IndexOutOfBounds && index == old(index) && cells == old(cells)
                         && cells[..] == old(cells[..])
      ensures r.Ok? ==> r.value == old(cells[i]) && index == old(index) - 1
      ensures r.Ok? ==> Contents() == old(Contents()[..i]) + old(Contents()[i + 1..])
      ensures r.Ok? ==> var shifted := ShiftedOut(old(cells[..]), old(index), i);
                        cells[..] == if index <= |shifted| - growthStepSize
                                     then shifted[..|shifted| - growthStepSize] else shifted
    {
      if i >= index || i < 0 {
        return Err(IndexOutOfBounds);
      }
      var returned := cells[i];
      ShiftOut(i);
      ghost var shifted := cells[..];
      if index <= cells.Length - growthStepSize {
        ResizeDown();
        assert cells[..index] == shifted[..index];
      }
      return Ok(returned);
    }

    /** remove's two System.arraycopy calls: bytes i+1 .. size-1 move one cell left. */
    method ShiftOut(i: int)
      requires Valid() && 0 <= i < index
      modifies this, cells
      ensures Valid() && cells == old(cells) && growthStepSize == old(growthStepSize)
      ensures index == old(index) - 1
      ensures cells[..] == ShiftedOut(old(cells[..]), old(index), i)
    {
      ghost var a := cells[..];
      ghost var size := index;
      var copy := new byte[index - (i + 1)](_ => 0);
      ArrayCopy(cells, i + 1, copy, 0, copy.Length);
      assert copy[..] == a[i + 1..size];
      index := index - 1;
      ArrayCopy(copy, 0, cells, i, copy.Length);
      assert cells[..] == a[..i] + a[i + 1..size] + a[size - 1..];
    }

    /** insert(index, b): an empty stub; nothing changes. */
    method Insert(i: int, b: byte)
      requires Valid()
      ensures Valid() && Contents() == old(Contents())
    {
    }

    /** size(): the cursor. */
    method Size() returns (n: int)
      requires Valid()
      ensures n == |Contents()|
    {
      n := index;
    }

    /** iterator(): walks a copy of the first size() cells, in order. */
    method Elements() returns (elements: seq<byte>)
      requires Valid()
      ensures elements == Contents()
    {
      var copy := new byte[index](_ => 0);
      ArrayCopy(cells, 0, copy, 0, index);
      elements := [];
      var k := 0;
      while k < copy.Length
        invariant 0 <= k <= copy.Length
        invariant elements == copy[..k]
      {
        elements := elements + [copy[k]];
        k := k + 1;
      }
      assert copy[..] == cells[..index];
    }
  }

  /**
   * The demonstration in CaffeineSocket.main: a list of capacity 10 growing
   * by 5 receives 0 .. 14, loses the bytes at 5, 4 and 9, and receives 15.
   */
  method MainScenario() returns (contents: seq<byte>, size: int, capacity: int)
    ensures contents == [0, 1, 2, 3, 6, 7, 8, 9, 10, 12, 13, 14, 15]
    ensures size == 13 && capacity == 15
  {
    var bytes := AddZeroToFourteen();
    RemoveFiveFourNine(bytes);
    bytes.Add(15);
    contents := bytes.Elements();
    size := bytes.Size();
    capacity := bytes.cells.Length;
  }

  /** The middle part of the demonstration: three removals, none of which shrinks the array. */
  method RemoveFiveFourNine(bytes: ByteList)
    requires bytes.Valid() && bytes.growthStepSize == 5 && bytes.cells.Length == 15
    requires bytes.Contents() == [0, 1, 2, 3, 4, 5, 6, 7, 8, 9, 10, 11, 12, 13, 14]
    modifies bytes, bytes.cells
    ensures bytes.Valid() && bytes.growthStepSize == 5 && bytes.cells.Length == 15
    ensures fresh(bytes.cells) || bytes.cells == old(bytes.cells)
    ensures bytes.Contents() == [0, 1, 2, 3, 6, 7, 8, 9, 10, 12, 13, 14]
  {
    var removed := bytes.Remove(5);
    assert bytes.Contents() == [0, 1, 2, 3, 4, 6, 7, 8, 9, 10, 11, 12, 13, 14];
    assert bytes.cells.Length == 15;
    removed := bytes.Remove(4);
    assert bytes.Contents() == [0, 1, 2, 3, 6, 7, 8, 9, 10, 11, 12, 13, 14];
    assert bytes.cells.Length == 15;
    removed := bytes.Remove(9);
    assert bytes.Contents() == [0, 1, 2, 3, 6, 7, 8, 9, 10, 12, 13, 14];
  }

  /** The first part of the demonstration: the fifteen adds, one resize. */
  method AddZeroToFourteen() returns (bytes: ByteList)
    ensures fresh(bytes) && fresh(bytes.cells) && bytes.Valid() && bytes.growthStepSize == 5
    ensures bytes.Contents() == [0, 1, 2, 3, 4, 5, 6, 7, 8, 9, 10, 11, 12, 13, 14]
    ensures bytes.cells.Length == 15
  {
    var made := ByteList.New(10, 5);
    bytes := made.value;
    var v: byte := 0;
    while v < 15
      invariant 0 <= v <= 15
      invariant fresh(bytes) && fresh(bytes.cells)
      invariant bytes.Valid() && bytes.growthStepSize == 5
      invariant |bytes.Contents()| == v as int
      invariant forall j :: 0 <= j < v as int ==> bytes.Contents()[j] == j as byte
      invariant bytes.cells.Length == if v <= 10 then 10 else 15
    {
      bytes.Add(v);
      v := v + 1;
    }
  }
}
