/**
 * Shared vocabulary of the CaffeineSocket model: Java's signed byte as an
 * 8-bit vector, the exceptions the core throws, a Result type that carries
 * them, null as Option, Java int bounds and powers of two.
 */
module Common {

  /** A Java byte; only its eight bits matter to the decoders. */
  type byte = bv8

  /** The largest Java int, 2^31 - 1. */
  const INT_MAX: int := 0x7FFF_FFFF

  /** The smallest Java int, -2^31. */
  const INT_MIN: int := -0x8000_0000

  /** x is a value of Java's int type. */
  predicate IsInt(x: int) {
    INT_MIN <= x <= INT_MAX
  }

  /** The exceptions that the core's operations throw. */
  datatype Exception =
    | IllegalArgument      // java.lang.IllegalArgumentException
    | IllegalState         // java.lang.IllegalStateException
    | IndexOutOfBounds     // IndexOutOfBoundsException and its array variant
    | NegativeArraySize    // java.lang.NegativeArraySizeException
    | NullPointer          // java.lang.NullPointerException
    | InvalidOpcode        // io.t99.caffeinesocket.exceptions.InvalidOpcodeException
    | UnsupportedEncoding  // java.io.UnsupportedEncodingException
    | NoSuchElement        // java.util.NoSuchElementException

  /** A Java method's outcome: its return value, or the exception it throws. */
  datatype Result<+T> = Ok(value: T) | Err(error: Exception)

  /** A Java reference that may be null. */
  datatype Option<+T> = None | Some(value: T)

  /** 2^n. */
  function Pow2(n: nat): (r: nat)
    ensures r >= 1
  {
    if n == 0 then 1 else 2 * Pow2(n - 1)
  }

  lemma {:induction false} Pow2Monotone(m: nat, n: nat)
    requires m <= n
    ensures Pow2(m) <= Pow2(n)
  {
    if m < n {
      Pow2Monotone(m, n - 1);
    }
  }

  lemma {:induction false} Pow2Add(m: nat, n: nat)
    ensures Pow2(m + n) == Pow2(m) * Pow2(n)
  {
    if n > 0 {
      Pow2Add(m, n - 1);
      assert Pow2(m + n) == 2 * Pow2(m + n - 1);
    }
  }

  /** The powers of two that the byte and int widths of the model use. */
  lemma Pow2Values()
    ensures Pow2(4) == 16 && Pow2(7) == 128 && Pow2(8) == 256 && Pow2(16) == 0x1_0000
    ensures Pow2(30) == 0x4000_0000 && Pow2(31) == 0x8000_0000
  {
    assert Pow2(1) == 2;
    assert Pow2(2) == 4;
    assert Pow2(3) == 8;
    assert Pow2(4) == 16;
    assert Pow2(5) == 32;
    assert Pow2(6) == 64;
    assert Pow2(7) == 128;
    assert Pow2(8) == 256;
    Pow2Add(8, 8);
    Pow2Add(16, 7);
    Pow2Add(23, 7);
    assert Pow2(31) == 2 * Pow2(30);
  }

  /** A number below 256 survives the cast to a byte and back. */
  lemma ByteOfInt(n: int)
    requires 0 <= n < 256
    ensures (n as byte) as int == n
  {
    // split the range so that the solver's bit-vector reasoning stays small
    if n < 16 {} else if n < 32 {} else if n < 64 {} else if n < 128 {} else {}
  }

  /** n copies of `false`. */
  function Zeros(n: nat): (r: seq<bool>)
    ensures |r| == n && forall i :: 0 <= i < n ==> !r[i]
  {
    seq(n, _ => false)
  }
}
