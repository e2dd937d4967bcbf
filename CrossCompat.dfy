/**
 * The Java and the Python filter side by side. Given the same Murmur3,
 * both probe the same positions; a Java byte array and a Python bitarray
 * hold the same filter when the bitarray's `tobytes()` is the byte array;
 * `add`, `contains` and `union` keep that correspondence, and the two
 * `dump`s of corresponding filters are the same bytes.
 */
module CrossCompat {
  import opened Primitives
  import opened LittleEndian
  import opened Checksum
  import opened DumpFormat
  import opened Bits
  import opened BitArray
  import J = BloomFilterImpl
  import P = PyBloomFilter
  import F = BloomFilterFactory

  /** The low 32 bits of the long `x`, read as unsigned: what `unsigned((int) x)` computes. */
  lemma UnsignedNarrow(x: int)
    ensures Unsigned(NarrowToInt(x)) == x % TWO_32
  {
    var r := NarrowToInt(x);
    assert (Unsigned(r) - r as int) % TWO_32 == 0;
    assert (r as int - x) % TWO_32 == 0;
    ModOfCongruent(Unsigned(r), x);
  }

  lemma ModOfCongruent(u: nat, x: int)
    requires u < TWO_32 && (u - x) % TWO_32 == 0
    ensures u == x % TWO_32
  {
    var k := (u - x) / TWO_32;
    assert u - x == TWO_32 * k;
    assert x == u + TWO_32 * (-k);
    ModOfShift(u, -k);
  }

  lemma ModOfShift(u: nat, k: int)
    requires u < TWO_32
    ensures (u + TWO_32 * k) % TWO_32 == u
  {
  }

  /** `a + i * b` and `h1 + i * h2` agree modulo 2^32 when `a`, `h1` and `b`, `h2` do. */
  lemma SumCongruent(a: int, b: int, h1: int, h2: int, i: nat)
    requires (a - h1) % TWO_32 == 0 && (b - h2) % TWO_32 == 0
    ensures (a + i * b) % TWO_32 == (h1 + i * h2) % TWO_32
  {
    var ka := (a - h1) / TWO_32;
    var kb := (b - h2) / TWO_32;
    assert a == h1 + TWO_32 * ka;
    assert b == h2 + TWO_32 * kb;
    assert i * b == i * h2 + TWO_32 * (i * kb);
    assert a + i * b == (h1 + i * h2) + TWO_32 * (ka + i * kb);
    ShiftMod(h1 + i * h2, ka + i * kb);
  }

  lemma ShiftMod(x: int, k: int)
    ensures (x + TWO_32 * k) % TWO_32 == x % TWO_32
  {
  }

  /** Given the same Murmur3, Python's `_indexes` are Java's probe positions. */
  lemma IndexesAgree(h: Murmur3, key: string, hashes: nat, bits: int32)
    requires bits >= 1
    ensures P.Indexes(h, key, hashes, bits as nat) == J.Probes(h, key, hashes, bits)
  {
    var h1 := h(42, key);
    var a := J.HashA(h, key);
    NarrowToIntOfUnsigned(h1);
    var h2 := h(h1, key);
    var b := J.HashB(h, key);
    assert b == Unsigned(h2);
    var py := P.Indexes(h, key, hashes, bits as nat);
    var java := J.Probes(h, key, hashes, bits);
    forall i | 0 <= i < hashes
      ensures py[i] == java[i]
    {
      UnsignedNarrow(a + i * b);
      SumCongruent(a, b, h1 as int, h2 as int, i);
    }
  }

  /**
   * A Java filter state and a Python one hold the same filter: the same
   * parameters and sizes, a bitarray of `num_bits` bits, and the Java bytes
   * are its `tobytes()`.
   */
  predicate Corresponds(j: J.FilterState, p: P.PyState)
  {
    && j.capacity as int == p.capacity && j.error == p.error
    && j.bits as int == p.numBits && j.hashes as int == p.numHashes
    && |p.data| == p.numBits && j.data == ToBytes(p.data)
  }

  /** Setting the indexed bits of a bitarray sets the same bits of its bytes. */
  lemma {:induction false} SetAllAgrees(d: seq<bool>, idx: seq<nat>)
    requires InRange(idx, |d|)
    ensures 8 * ByteCount(|d|) >= |d|
    ensures ToBytes(P.SetAll(d, idx)) == SetBits(ToBytes(d), idx)
    decreases |idx|
  {
    if idx != [] {
      assert forall i :: 0 <= i < |idx[1..]| ==> idx[1..][i] == idx[i + 1];
      ToBytesSetBit(d, idx[0]);
      SetAllAgrees(d[idx[0] := true], idx[1..]);
    }
  }

  /** The probe positions of a key are the same on both sides. */
  lemma KeyIndexesAgree(j: J.FilterState, p: P.PyState, h: Murmur3, key: string)
    requires J.ValidState(j) && Corresponds(j, p)
    ensures P.Indexes(h, key, p.numHashes, p.numBits) == J.KeyProbes(j, h, key)
  {
    IndexesAgree(h, key, j.hashes as nat, j.bits);
  }

  /** `add` on corresponding filters gives corresponding filters. */
  lemma AddAgrees(j: J.FilterState, p: P.PyState, h: Murmur3, key: string)
    requires J.ValidState(j) && Corresponds(j, p)
    ensures Corresponds(J.Added(j, h, key), p.(data := P.SetAll(p.data, P.Indexes(h, key, p.numHashes, p.numBits))))
  {
    KeyIndexesAgree(j, p, h, key);
    SetAllAgrees(p.data, J.KeyProbes(j, h, key));
  }

  /** `contains` answers the same on corresponding filters. */
  lemma ContainsAgrees(j: J.FilterState, p: P.PyState, h: Murmur3, key: string)
    requires J.ValidState(j) && Corresponds(j, p)
    ensures J.Contains(j, h, key) <==> P.AllSet(p.data, P.Indexes(h, key, p.numHashes, p.numBits)) == Ok(true)
  {
    KeyIndexesAgree(j, p, h, key);
    var ps := J.KeyProbes(j, h, key);
    forall i | 0 <= i < |ps|
      ensures BitAt(j.data, ps[i]) <==> p.data[ps[i]]
    {
      ToBytesBit(p.data, ps[i]);
    }
  }

  /** The data of the union of corresponding filters corresponds. */
  lemma UnionAgrees(ja: J.FilterState, jb: J.FilterState, pa: P.PyState, pb: P.PyState)
    requires Corresponds(ja, pa) && Corresponds(jb, pb) && |pa.data| == |pb.data|
    ensures |ja.data| == |jb.data|
    ensures OrBytes(ja.data, jb.data) == ToBytes(OrBits(pa.data, pb.data))
  {
    ToBytesOr(pa.data, pb.data);
  }

  /** A fresh Java filter (zero bytes) corresponds to a fresh Python one (False bits). */
  lemma CreateAgrees(j: J.FilterState, p: P.PyState)
    requires J.ValidState(j) && j.data == Zeros(j.bytes as int)
    requires j.capacity as int == p.capacity && j.error == p.error
    requires j.bits as int == p.numBits && j.hashes as int == p.numHashes
    requires p.data == Falses(p.numBits)
    ensures Corresponds(j, p)
  {
    ToBytesFalses(p.numBits);
    assert ByteCount(p.numBits) == J.DataBytesSize(j.bits) as int;
  }

  /**
   * Dumps are byte-compatible: the Python `dump` of a filter is the Java
   * `dump` of the corresponding one, with or without gzip.
   */
  lemma DumpsAgree(j: J.FilterState, p: P.PyState, gzipped: bool, gz: Gzip)
    requires J.ValidState(j) && Corresponds(j, p)
    ensures P.ValidState(p)
    ensures P.DumpBytes(p, gzipped, gz) == Ok(J.DumpBytes(j, gzipped, gz))
  {
    assert P.ValidState(p) by {
      assert j.error > J.MIN_ERROR_PRECISION;
    }
    var inv := J.InverseError(j.error);
    assert P.Inverse(p.error) == inv as int;
    assert Unsigned(j.capacity) == p.capacity;
    var payload := J.Payload(j.data, gzipped, gz);
    assert P.PyPayload(p.data, gzipped, gz) == payload;
    ChecksumsAgree(payload);
    assert P.PyHeader(p, gzipped, gz) == J.DumpHeader(j, gzipped, gz);
  }

  /** The Java factory's `load` of a Python dump gives back the corresponding Java filter. */
  lemma JavaLoadsPythonDump(j: J.FilterState, p: P.PyState, gzipped: bool, sizing: J.Sizing, gz: Gzip)
    requires J.ValidState(j) && J.DerivedBy(j, sizing) && Corresponds(j, p) && F.InverseRederives(j.error)
    requires gzipped ==> Lossless(gz)
    ensures P.ValidState(p) && P.DumpBytes(p, gzipped, gz).Ok?
    ensures F.LoadSpec(P.DumpBytes(p, gzipped, gz).value, sizing, gz) == Ok(j)
  {
    DumpsAgree(j, p, gzipped, gz);
    if gzipped {
      F.LoadGzippedDump(j, sizing, gz);
    } else {
      F.LoadDump(j, sizing, gz);
    }
  }

  /** Python's corrected `load` of a Java dump gives back the corresponding Python filter. */
  lemma PythonLoadsJavaDump(j: J.FilterState, p: P.PyState, gzipped: bool, sizing: P.PySizing, gz: Gzip)
    requires J.ValidState(j) && Corresponds(j, p) && P.DerivedBy(p, sizing) && F.InverseRederives(j.error)
    requires gzipped ==> Lossless(gz)
    ensures P.LoadFixed(J.DumpBytes(j, gzipped, gz), sizing, gz) == Ok(p)
  {
    DumpsAgree(j, p, gzipped, gz);
    P.LoadFixedRoundTrip(p, gzipped, sizing, gz);
  }
}
