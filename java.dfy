/**
 * The pieces of Java semantics the pgvector codecs depend on: the primitive
 * types they store, two's complement `int` arithmetic, integer division,
 * float comparison, and the exceptions the codecs can throw.
 */
module Java {

  /** A Java `int`. */
  type Int32 = x: int | -0x8000_0000 <= x < 0x8000_0000

  /** A Java `short`. */
  type Int16 = x: int | -0x8000 <= x < 0x8000

  /**
   * A Java `float`, kept as its raw IEEE 754 binary32 bit pattern read as an
   * unsigned number: bit 31 is the sign, bits 30-23 the exponent, bits 22-0
   * the fraction.
   */
  type Float32 = x: int | 0 <= x < 0x1_0000_0000

  /** A Java `byte`, kept as the unsigned value of its 8 bits. */
  type Byte = x: int | 0 <= x < 0x100

  const IntMax: int := 0x7FFF_FFFF

  /** The `int` that Java arithmetic yields for the mathematical value `x`. */
  function Wrap32(x: int): (r: Int32)
    ensures (r - x) % 0x1_0000_0000 == 0
    ensures -0x8000_0000 <= x < 0x8000_0000 ==> r == x
  {
    var u := x % 0x1_0000_0000;
    if u < 0x8000_0000 then u else u - 0x1_0000_0000
  }

  /** Adding one and then subtracting one in `int` arithmetic gives the `int` back, even across the wrap. */
  lemma WrapIncDec(i: Int32)
    ensures Wrap32(Wrap32(i + 1) - 1) == i
  {
    if i == IntMax {
      assert Wrap32(i + 1) == -0x8000_0000;
      assert (-0x8000_0001) % 0x1_0000_0000 == 0x7FFF_FFFF;
    }
  }

  /** The `short` that a Java narrowing cast `(short) x` yields. */
  function Wrap16(x: int): (r: Int16)
    ensures (r - x) % 0x1_0000 == 0
    ensures -0x8000 <= x < 0x8000 ==> r == x
  {
    var u := x % 0x1_0000;
    if u < 0x8000 then u else u - 0x1_0000
  }

  /** Java's `a / b` for a positive divisor: the quotient is rounded toward zero. */
  function Quot(a: int, b: int): (q: int)
    requires b > 0
    ensures a >= 0 ==> q == a / b
    ensures a < 0 ==> q == -((-a) / b)
  {
    if a >= 0 then a / b else -((-a) / b)
  }

  /** `f == 0` in Java: true of +0.0 and of -0.0, and never of a NaN. */
  predicate IsZero(f: Float32)
    ensures IsZero(f) <==> f == PositiveZero || f == 0x8000_0000
    ensures IsZero(f) ==> !IsNaN(f)
  {
    f % 0x8000_0000 == 0
  }

  /** The bit pattern is a NaN: all exponent bits set and a nonzero fraction. */
  predicate IsNaN(f: Float32)
  {
    f / 0x80_0000 % 0x100 == 0xFF && f % 0x80_0000 != 0
  }

  /**
   * Java's `a == b` on two floats: false when either is a NaN, true for
   * +0.0 == -0.0, and otherwise true exactly when the bits agree.
   */
  predicate FloatEquals(a: Float32, b: Float32)
    ensures FloatEquals(a, b) ==> !IsNaN(a) && !IsNaN(b)
    ensures a == b && !IsNaN(a) ==> FloatEquals(a, b)
    ensures IsZero(a) && IsZero(b) ==> FloatEquals(a, b)
    ensures FloatEquals(a, b) && !IsZero(a) ==> a == b
  {
    !IsNaN(a) && !IsNaN(b) && (a == b || (IsZero(a) && IsZero(b)))
  }

  /** `new float[n]` fills with +0.0, whose bits are all zero. */
  const PositiveZero: Float32 := 0

  /** `n` copies of the default value: what a fresh Java array holds. */
  function Zeros<T>(n: nat, zero: T): (r: seq<T>)
    ensures |r| == n && forall i :: 0 <= i < n ==> r[i] == zero
  {
    seq(n, _ => zero)
  }

  /** The contents `Arrays.copyOf(a, n)` returns: truncated, or padded with the default value. */
  function Resized<T>(s: seq<T>, n: nat, zero: T): (r: seq<T>)
    ensures |r| == n
    ensures forall i :: 0 <= i < n ==> r[i] == if i < |s| then s[i] else zero
  {
    if n <= |s| then s[..n] else s + Zeros(n - |s|, zero)
  }

  /** `Arrays.copyOf(a, n)`: a new array of length `n` beginning with `a`'s elements. */
  method CopyOf<T>(a: array<T>, n: nat, zero: T) returns (b: array<T>)
    ensures fresh(b)
    ensures b[..] == Resized(a[..], n, zero)
  {
    b := new T[n](i requires 0 <= i < n reads a => if i < a.Length then a[i] else zero);
  }

  /** The exceptions the codecs can end in. */
  datatype Error =
    | NumberFormat        // NumberFormatException from Integer.parseInt or Float.parseFloat
    | IndexOutOfBounds    // ArrayIndexOutOfBoundsException or StringIndexOutOfBoundsException
    | NegativeArraySize   // NegativeArraySizeException from an allocation of negative size
    | NullPointer         // NullPointerException
    | UnexpectedUnused    // the SQLException "expected unused to be 0"

  datatype Option<T> = None | Some(value: T)

  /** A value, or the exception that was thrown instead of producing it. */
  datatype Result<T> = Ok(value: T) | Err(error: Error)

  /** A void method that either returns normally or throws. */
  datatype Outcome = Pass | Fail(error: Error)
}
