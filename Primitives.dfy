/**
 * Machine-level values shared by the Java and the Python implementation:
 * bytes, Java's signed 16- and 32-bit integers, their two's-complement
 * conversions, Java's truncating division, and the usual Option / Result
 * wrappers for the error paths.
 */
module Primitives {

  /** An octet; Java's `byte` and Python's `bytes` elements share this bit pattern. */
  type Byte = bv8

  const TWO_16: int := 0x1_0000
  const TWO_31: int := 0x8000_0000
  const TWO_32: int := 0x1_0000_0000

  /** Java `short`. */
  newtype int16 = x: int | -0x8000 <= x < 0x8000

  /** Java `int`. */
  newtype int32 = x: int | -0x8000_0000 <= x < 0x8000_0000

  /**
   * 32-bit Murmur3 of a key under a seed, as a signed `int`: Guava's
   * `Hashing.murmur3_32(seed).hashString(key, charset).asInt()` and
   * `mmh3.hash(key, seed)` compute the same function.
   */
  type Murmur3 = (int32, string) -> int32

  datatype Option<+T> = None | Some(value: T)

  datatype Result<+T, +E> = Ok(value: T) | Err(error: E)

  /** The Java narrowing cast `(int) x` of a `long`: keep the low 32 bits, read them as signed. */
  function NarrowToInt(x: int): (r: int32)
    ensures (r as int - x) % TWO_32 == 0
  {
    var low := x % TWO_32;
    if low < TWO_31 then low as int32 else (low - TWO_32) as int32
  }

  /** The Java narrowing cast `(short) x` of an `int` or `long`: keep the low 16 bits, read them as signed. */
  function NarrowToShort(x: int): (r: int16)
    ensures (r as int - x) % TWO_16 == 0
  {
    var low := x % TWO_16;
    if low < 0x8000 then low as int16 else (low - TWO_16) as int16
  }

  /** `unsigned(int i)` of BloomFilterImpl: `i & 0xffffffffL`, the 32-bit pattern of `i` read as unsigned. */
  function Unsigned(i: int32): (r: nat)
    ensures r < TWO_32
    ensures (r - i as int) % TWO_32 == 0
    ensures i >= 0 ==> r == i as int
  {
    if i < 0 then i as int + TWO_32 else i as int
  }

  /** The 16-bit pattern of a Java `short`, read as unsigned (what `putShort` writes). */
  function UnsignedShort(s: int16): (r: nat)
    ensures r < TWO_16
    ensures (r - s as int) % TWO_16 == 0
  {
    if s < 0 then s as int + TWO_16 else s as int
  }

  /** Java's integer division `/`, which truncates toward zero (Dafny's `/` is Euclidean). */
  function JavaDiv(x: int, d: int): (q: int)
    requires d > 0
    ensures x >= 0 ==> 0 <= q && q * d <= x < q * d + d
    ensures x < 0 ==> q <= 0 && q * d - d < x <= q * d
  {
    if x >= 0 then x / d else -((-x) / d)
  }

  /** Java's remainder `%`, which takes the sign of the dividend. */
  function JavaRem(x: int, d: int): (r: int)
    requires d > 0
    ensures x == JavaDiv(x, d) * d + r
    ensures x >= 0 ==> 0 <= r < d
    ensures x < 0 ==> -d < r <= 0
  {
    x - JavaDiv(x, d) * d
  }

  /** Reading back a 16-bit pattern as a Java `short` undoes `UnsignedShort`. */
  lemma NarrowUnsignedShort(s: int16)
    ensures NarrowToShort(UnsignedShort(s)) == s
  {
  }

  /** Writing the 16-bit pattern of a value below 2^16 as a `short` keeps the pattern. */
  lemma UnsignedNarrowShort(v: int)
    requires 0 <= v < TWO_16
    ensures UnsignedShort(NarrowToShort(v)) == v
  {
  }

  /** Narrowing a value that is in range of `int` gives it back. */
  lemma NarrowToIntOfUnsigned(i: int32)
    ensures NarrowToInt(Unsigned(i)) == i
  {
  }
}
