/**
 * The Python filter's `bitarray` with little-endian bit order, and its
 * conversions to and from bytes: `tobytes` packs bit `p` into bit `p % 8`
 * (mask `1 << (p % 8)`) of byte `p / 8`, padding the last byte with zero
 * bits; `frombytes` unpacks every byte into 8 bits. This is the same bit
 * numbering as the Java filter's byte array.
 */
module BitArray {
  import opened Primitives
  import opened Bits

  /** The number of bytes `tobytes` gives for `n` bits. */
  function ByteCount(n: nat): (r: nat)
    ensures 8 * r >= n && 8 * (r - 1) < n
  {
    (n + 7) / 8
  }

  /** Bits `8 * k + j` to `8 * k + 7` of `bits` as bits `j` to 7 of a byte; bits past the end are 0. */
  function PackFrom(bits: seq<bool>, k: nat, j: nat): Byte
    requires j <= 8
    decreases 8 - j
  {
    if j == 8 then 0
    else (if 8 * k + j < |bits| && bits[8 * k + j] then Mask(j) else 0) | PackFrom(bits, k, j + 1)
  }

  /** `bitarray.tobytes()`. */
  function ToBytes(bits: seq<bool>): (r: seq<Byte>)
    ensures |r| == ByteCount(|bits|)
  {
    seq(ByteCount(|bits|), k requires 0 <= k => PackFrom(bits, k, 0))
  }

  /** `bitarray.frombytes(b)` on an empty bitarray. */
  function FromBytes(b: seq<Byte>): (r: seq<bool>)
    ensures |r| == 8 * |b|
  {
    seq(8 * |b|, p requires 0 <= p < 8 * |b| => BitAt(b, p))
  }

  /** `n` False bits: `bitarray(n)` after `setall(0)`. */
  function Falses(n: nat): (r: seq<bool>)
    ensures |r| == n && forall i :: 0 <= i < n ==> !r[i]
  {
    seq(n, _ => false)
  }

  /** `x | y` on two bitarrays of the same length. */
  function OrBits(x: seq<bool>, y: seq<bool>): (r: seq<bool>)
    requires |x| == |y|
    ensures |r| == |x| && forall i :: 0 <= i < |x| ==> r[i] == (x[i] || y[i])
  {
    seq(|x|, i requires 0 <= i < |x| => x[i] || y[i])
  }

  lemma MaskOfMask(i: nat, j: nat)
    requires i < 8 && j < 8
    ensures Mask(i) & Mask(j) != 0 <==> i == j
  {
  }

  /** Two bytes with the same 8 bits are equal. */
  lemma ByteExt(x: Byte, y: Byte)
    requires forall j :: 0 <= j < 8 ==> (HasMask(x, Mask(j)) <==> HasMask(y, Mask(j)))
    ensures x == y
  {
    assert HasMask(x, Mask(0)) == HasMask(y, Mask(0));
    assert HasMask(x, Mask(1)) == HasMask(y, Mask(1));
    assert HasMask(x, Mask(2)) == HasMask(y, Mask(2));
    assert HasMask(x, Mask(3)) == HasMask(y, Mask(3));
    assert HasMask(x, Mask(4)) == HasMask(y, Mask(4));
    assert HasMask(x, Mask(5)) == HasMask(y, Mask(5));
    assert HasMask(x, Mask(6)) == HasMask(y, Mask(6));
    assert HasMask(x, Mask(7)) == HasMask(y, Mask(7));
  }

  /** Bit `j` of a packed byte is bit `8 * k + j` of the bitarray, from `j0` on. */
  lemma {:induction false} PackFromBit(bits: seq<bool>, k: nat, j0: nat, j: nat)
    requires j0 <= 8 && j < 8
    ensures HasMask(PackFrom(bits, k, j0), Mask(j)) <==> j0 <= j && 8 * k + j < |bits| && bits[8 * k + j]
    decreases 8 - j0
  {
    if j0 < 8 {
      PackFromBit(bits, k, j0 + 1, j);
      var m: Byte := if 8 * k + j0 < |bits| && bits[8 * k + j0] then Mask(j0) else 0;
      MaskOfOr(m, PackFrom(bits, k, j0 + 1), j);
      MaskOfMask(j0, j);
      MaskOfZero(j);
    }
  }

  /** Bit `j` of byte `k` of `tobytes()` is bit `8 * k + j` of the bitarray, or 0 past its end. */
  lemma ToBytesByteBit(bits: seq<bool>, k: nat, j: nat)
    requires k < ByteCount(|bits|) && j < 8
    ensures HasMask(ToBytes(bits)[k], Mask(j)) <==> 8 * k + j < |bits| && bits[8 * k + j]
  {
    PackFromBit(bits, k, 0, j);
  }

  /** `tobytes()` keeps every bit at its position and pads with zero bits. */
  lemma ToBytesBit(bits: seq<bool>, p: nat)
    requires p < 8 * ByteCount(|bits|)
    ensures BitAt(ToBytes(bits), p) <==> p < |bits| && bits[p]
  {
    ToBytesByteBit(bits, p / 8, p % 8);
  }

  /** Unpacking what was packed gives the bits back, followed by the zero padding. */
  lemma FromToBytes(bits: seq<bool>)
    ensures |FromBytes(ToBytes(bits))| == 8 * ByteCount(|bits|)
    ensures FromBytes(ToBytes(bits))[..|bits|] == bits
    ensures forall p :: |bits| <= p < 8 * ByteCount(|bits|) ==> !FromBytes(ToBytes(bits))[p]
  {
    var r := FromBytes(ToBytes(bits));
    forall p | 0 <= p < 8 * ByteCount(|bits|)
      ensures r[p] <==> p < |bits| && bits[p]
    {
      ToBytesBit(bits, p);
    }
    assert r[..|bits|] == bits;
  }

  /** Packing what was unpacked gives the bytes back. */
  lemma ToFromBytes(b: seq<Byte>)
    ensures ToBytes(FromBytes(b)) == b
  {
    assert ByteCount(8 * |b|) == |b|;
    ToBytesExt(FromBytes(b), b);
  }

  lemma DivMod8(k: nat, j: nat)
    requires j < 8
    ensures (8 * k + j) / 8 == k && (8 * k + j) % 8 == j
  {
  }

  /** A byte with the bits `8 * k` to `8 * k + 7` of `x` is byte `k` of `tobytes()`. */
  lemma PackedByte(x: seq<bool>, k: nat, c: Byte)
    requires k < ByteCount(|x|)
    requires forall j :: 0 <= j < 8 ==> (HasMask(c, Mask(j)) <==> 8 * k + j < |x| && x[8 * k + j])
    ensures ToBytes(x)[k] == c
  {
    forall j | 0 <= j < 8
      ensures HasMask(ToBytes(x)[k], Mask(j)) <==> HasMask(c, Mask(j))
    {
      ToBytesByteBit(x, k, j);
    }
    ByteExt(ToBytes(x)[k], c);
  }

  /** Bytes whose bits are those of `x`, padded with zero bits, are `tobytes()` of `x`. */
  lemma ToBytesExt(x: seq<bool>, b: seq<Byte>)
    requires |b| == ByteCount(|x|)
    requires forall p :: 0 <= p < 8 * |b| ==> (BitAt(b, p) <==> p < |x| && x[p])
    ensures ToBytes(x) == b
  {
    forall k | 0 <= k < |b|
      ensures ToBytes(x)[k] == b[k]
    {
      forall j | 0 <= j < 8
        ensures HasMask(b[k], Mask(j)) <==> 8 * k + j < |x| && x[8 * k + j]
      {
        DivMod8(k, j);
        assert BitAt(b, 8 * k + j) <==> 8 * k + j < |x| && x[8 * k + j];
      }
      PackedByte(x, k, b[k]);
    }
  }

  /** Setting bit `q` of the bitarray sets bit `q` of its bytes. */
  lemma ToBytesSetBit(bits: seq<bool>, q: nat)
    requires q < |bits|
    ensures ToBytes(bits[q := true]) == SetBit(ToBytes(bits), q)
  {
    var b := SetBit(ToBytes(bits), q);
    forall p | 0 <= p < 8 * |b|
      ensures BitAt(b, p) <==> p < |bits| && bits[q := true][p]
    {
      BitAtSetBit(ToBytes(bits), q, p);
      ToBytesBit(bits, p);
    }
    ToBytesExt(bits[q := true], b);
  }

  /** The bytes of the OR of two bitarrays are the byte-wise OR of their bytes. */
  lemma ToBytesOr(x: seq<bool>, y: seq<bool>)
    requires |x| == |y|
    ensures ToBytes(OrBits(x, y)) == OrBytes(ToBytes(x), ToBytes(y))
  {
    var b := OrBytes(ToBytes(x), ToBytes(y));
    forall p | 0 <= p < 8 * |b|
      ensures BitAt(b, p) <==> p < |x| && OrBits(x, y)[p]
    {
      OrBytesBit(ToBytes(x), ToBytes(y), p);
      ToBytesBit(x, p);
      ToBytesBit(y, p);
    }
    ToBytesExt(OrBits(x, y), b);
  }

  /** `n` False bits pack to `ByteCount(n)` zero bytes. */
  lemma ToBytesFalses(n: nat)
    ensures ToBytes(Falses(n)) == Zeros(ByteCount(n))
  {
    var b := Zeros(ByteCount(n));
    forall p | 0 <= p < 8 * |b|
      ensures BitAt(b, p) <==> p < n && Falses(n)[p]
    {
      ZerosBit(ByteCount(n), p);
    }
    ToBytesExt(Falses(n), b);
  }
}
