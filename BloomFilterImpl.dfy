/**
 * The Java filter (BloomFilterImpl): parameters and sizes, the byte array
 * `bf`, the membership engine `checkAdd` behind `add` and `contains`, the
 * dump, `equals` and `union`.
 *
 * The floating-point size formulas (`getDataBitsSize` and the number of
 * hashes) are a parameter `sizing`; Murmur3 is a parameter `h`; gzip is a
 * parameter `gz`.
 */
module BloomFilterImpl {
  import opened Primitives
  import opened LittleEndian
  import opened Checksum
  import opened DumpFormat
  import opened Bits
  import opened ByteBuffer

  /** `MIN_ERROR_PRECISION`: 1 / Short.MAX_VALUE. */
  const MIN_ERROR_PRECISION: real := 1.0 / 32767.0

  /** The checks at the head of `initialize`. */
  predicate ValidParams(capacity: int32, error: real)
  {
    !(capacity < 1 || 1.0 <= error || error <= MIN_ERROR_PRECISION)
  }

  datatype Sizes = Sizes(bits: int32, hashes: int32)

  /**
   * `getDataBitsSize(capacity, error)`, which is
   * `(int) (-capacity * Math.log(error) / Math.pow(Math.log(2), 2) + 1)`,
   * and `(int) (((float) bits * Math.log(2) / capacity) + 1)`. For a rate
   * in (0, 1) the logarithm is negative, so the bit count is at least 1 for
   * a positive capacity and at most 0 for a negative one whose negation
   * does not overflow; for valid parameters the hash count is at least 1.
   */
  type Sizing = f: (int32, real) -> Sizes
    | forall c: int32, e: real :: 0.0 < e < 1.0 ==>
        && (c >= 1 ==> f(c, e).bits >= 1)
        && (c < 0 && c != INT_MIN ==> f(c, e).bits <= 0)
        && (ValidParams(c, e) ==> f(c, e).hashes >= 1)
    witness (c: int32, e: real) => if c < 0 then Sizes(0, 1) else Sizes(1, 1)

  const INT_MIN: int32 := -0x8000_0000
  const INT_MAX: int32 := 0x7FFF_FFFF

  /**
   * The bit count `getDataBitsSize` gives for the infinite rate `1.0 / 0`:
   * the product of `-capacity` (negated in `int` arithmetic) with an
   * infinite logarithm is an infinity of its sign, which the cast
   * saturates, or NaN for a capacity of 0, which the cast makes 0.
   */
  function InfiniteRateBits(capacity: int32): (bits: int32)
    ensures capacity == 0 ==> bits == 0
    ensures capacity > 0 || capacity == INT_MIN ==> bits == INT_MIN
    ensures capacity < 0 && capacity != INT_MIN ==> bits == INT_MAX
  {
    var m := NarrowToInt(-(capacity as int));
    if m < 0 then INT_MIN else if m == 0 then 0 else INT_MAX
  }

  datatype FilterError =
    | InvalidParams
    | LengthMismatch(expected: int, got: int)
    | CapacityMismatch
    | ErrorRateMismatch
    | DataLengthMismatch
    | BufferUnderflow
    | BadChecksum
    | CorruptGzip
    | EndOfStream
    | NegativeArraySize

  /** `getDataBytesSize`: `bits / 8 + (bits % 8 != 0 ? 1 : 0)` in Java's truncating arithmetic. */
  function DataBytesSize(bits: int32): (r: int32)
    ensures bits >= 0 ==> r >= 0 && 8 * (r as int) >= bits as int && 8 * (r as int - 1) < bits as int
    ensures bits < 0 ==> r <= 1
  {
    (JavaDiv(bits as int, 8) + (if JavaRem(bits as int, 8) != 0 then 1 else 0)) as int32
  }

  /** The seed hash `a`: `unsigned(murmur3_32(42)(key))`. */
  function HashA(h: Murmur3, key: string): (a: nat)
    ensures a < TWO_32
  {
    Unsigned(h(42, key))
  }

  /** The second hash `b`: `unsigned(murmur3_32((int) a)(key))`. */
  function HashB(h: Murmur3, key: string): (b: nat)
    ensures b < TWO_32
  {
    Unsigned(h(NarrowToInt(HashA(h, key)), key))
  }

  /** Probe `i`: `unsigned((int) (a + i * b)) % bits`. */
  function Probe(a: nat, b: nat, i: nat, bits: int32): (p: nat)
    requires bits >= 1
    ensures p < bits as int
  {
    Unsigned(NarrowToInt(a + i * b)) % bits as int
  }

  /** The `hashes` probe positions of a key. */
  function Probes(h: Murmur3, key: string, hashes: nat, bits: int32): (ps: seq<nat>)
    requires bits >= 1
    ensures |ps| == hashes
    ensures forall i :: 0 <= i < hashes ==> ps[i] == Probe(HashA(h, key), HashB(h, key), i, bits)
    ensures InRange(ps, bits as int)
  {
    seq(hashes, i requires 0 <= i => Probe(HashA(h, key), HashB(h, key), i, bits))
  }

  /**
   * `a + i * b` is computed in `long` (`i * b` is an `int` times a `long`)
   * and cannot overflow: with `a, b < 2^32` and `i < 2^31` it stays below
   * 2^63, so the narrowing cast sees the exact sum.
   */
  lemma ProbeSumFitsLong(a: nat, b: nat, i: nat)
    requires a < TWO_32 && b < TWO_32 && i < TWO_31
    ensures a + i * b < 0x8000_0000_0000_0000
  {
    MulMonotone(i, b, TWO_31 - 1, TWO_32 - 1);
  }

  lemma MulMonotone(x: nat, y: nat, mx: nat, my: nat)
    requires x <= mx && y <= my
    ensures x * y <= mx * my
  {
    assert x * y <= mx * y;
  }

  /** Every probe lands in the array: its byte index `p >> 3` is below `bytes`. */
  lemma ProbeInBounds(p: nat, bits: int32)
    requires bits >= 1 && p < bits as int
    ensures p / 8 < DataBytesSize(bits) as int
    ensures p < 8 * DataBytesSize(bits) as int
  {
  }

  /** The values of a filter's fields, with the array's contents. */
  datatype FilterState = FilterState(
    capacity: int32, error: real, bits: int32, bytes: int32, hashes: int32, data: seq<Byte>)

  /** What `initialize` establishes. */
  predicate ValidState(st: FilterState)
  {
    ValidParams(st.capacity, st.error) && st.bits >= 1 && st.hashes >= 1
    && st.bytes == DataBytesSize(st.bits) && |st.data| == st.bytes as int
  }

  /** The sizes of `st` are the ones `sizing` derives from its capacity and error rate. */
  predicate DerivedBy(st: FilterState, sizing: Sizing)
  {
    sizing(st.capacity, st.error) == Sizes(st.bits, st.hashes) && st.bytes == DataBytesSize(st.bits)
  }

  /**
   * `initialize(data, capacity, error)` on values: invalid parameters are
   * rejected first, then supplied data of the wrong length; without data the
   * array is `bytes` zero bytes.
   */
  function Init(data: Option<seq<Byte>>, capacity: int32, error: real, sizing: Sizing): (r: Result<FilterState, FilterError>)
    ensures r.Ok? ==> ValidState(r.value) && DerivedBy(r.value, sizing)
    ensures r.Ok? ==> r.value.capacity == capacity && r.value.error == error
    ensures r.Ok? ==> r.value.data == (if data.Some? then data.value else Zeros(r.value.bytes as int))
    ensures r == Err(InvalidParams) <==> !ValidParams(capacity, error)
    ensures r.Err? && ValidParams(capacity, error) ==>
              data.Some? && r.error == LengthMismatch(DataBytesSize(sizing(capacity, error).bits) as int, |data.value|)
    ensures ValidParams(capacity, error) && data.Some? ==>
              (r.Ok? <==> |data.value| == DataBytesSize(sizing(capacity, error).bits) as int)
  {
    if !ValidParams(capacity, error) then Err(InvalidParams)
    else
      var s := sizing(capacity, error);
      var bytes := DataBytesSize(s.bits);
      if data.Some? && |data.value| != bytes as int then Err(LengthMismatch(bytes as int, |data.value|))
      else Ok(FilterState(capacity, error, s.bits, bytes, s.hashes, if data.Some? then data.value else Zeros(bytes as int)))
  }

  /** The probe positions of `key` in a filter in state `st`. */
  function KeyProbes(st: FilterState, h: Murmur3, key: string): (ps: seq<nat>)
    requires ValidState(st)
    ensures |ps| == st.hashes as int
    ensures InRange(ps, 8 * |st.data|)
  {
    var ps := Probes(h, key, st.hashes as nat, st.bits);
    forall i | 0 <= i < |ps| ensures ps[i] < 8 * |st.data| {
      ProbeInBounds(ps[i], st.bits);
    }
    ps
  }

  /** `contains(key)` on a state: every probed bit is set. */
  predicate Contains(st: FilterState, h: Murmur3, key: string)
    requires ValidState(st)
  {
    Member(st.data, KeyProbes(st, h, key))
  }

  /** The state after `add(key)`: the probed bits set. */
  function Added(st: FilterState, h: Murmur3, key: string): (r: FilterState)
    requires ValidState(st)
    ensures ValidState(r)
    ensures r.data == SetBits(st.data, KeyProbes(st, h, key))
    ensures r == st.(data := r.data)
  {
    st.(data := SetBits(st.data, KeyProbes(st, h, key)))
  }

  /** No false negatives: after `add(key)`, `contains(key)` holds. */
  lemma ContainsAfterAdd(st: FilterState, h: Murmur3, key: string)
    requires ValidState(st)
    ensures Contains(Added(st, h, key), h, key)
  {
    SetBitsMember(st.data, KeyProbes(st, h, key));
  }

  /** A key that is contained stays contained after any further `add`. */
  lemma ContainsStable(st: FilterState, h: Murmur3, key: string, other: string)
    requires ValidState(st) && Contains(st, h, key)
    ensures Contains(Added(st, h, other), h, key)
  {
    SetBitsKeepsMember(st.data, KeyProbes(st, h, other), KeyProbes(st, h, key));
  }

  /**
   * `add` only turns bits on: a bit is set afterwards exactly when it was set
   * before or is one of the key's probes.
   */
  lemma AddOnlySetsBits(st: FilterState, h: Murmur3, key: string, q: nat)
    requires ValidState(st) && q < 8 * |st.data|
    ensures BitAt(Added(st, h, key).data, q) <==> BitAt(st.data, q) || q in KeyProbes(st, h, key)
  {
    SetBitsExact(st.data, KeyProbes(st, h, key), q);
  }

  /** `add` leaves every byte that none of the key's probes falls into as it was. */
  lemma AddLeavesOtherBytes(st: FilterState, h: Murmur3, key: string, k: nat)
    requires ValidState(st) && k < |st.data|
    requires forall i :: 0 <= i < st.hashes as int ==> KeyProbes(st, h, key)[i] / 8 != k
    ensures Added(st, h, key).data[k] == st.data[k]
  {
    SetBitsUntouched(st.data, KeyProbes(st, h, key), k);
  }

  /** Adding a key that is already contained changes nothing. */
  lemma AddContained(st: FilterState, h: Murmur3, key: string)
    requires ValidState(st) && Contains(st, h, key)
    ensures Added(st, h, key) == st
  {
    SetBitsOfMember(st.data, KeyProbes(st, h, key));
  }

  /** A filter with no data contains no key (every filter probes at least once). */
  lemma EmptyContainsNothing(st: FilterState, h: Murmur3, key: string)
    requires ValidState(st) && st.data == Zeros(st.bytes as int)
    ensures !Contains(st, h, key)
  {
    ZerosMember(st.bytes as int, KeyProbes(st, h, key));
  }

  /** `(short) (1.0 / error)`: for a valid error rate, the integer part of its inverse. */
  function InverseError(error: real): (r: int16)
    requires MIN_ERROR_PRECISION < error < 1.0
    ensures 1 <= r <= 32766
    ensures r as real <= 1.0 / error < r as real + 1.0
  {
    assert 1.0 / error < 32767.0 by {
      assert error * 32767.0 > 1.0;
    }
    (1.0 / error).Floor as int16
  }

  /** The payload of a dump: the bit array, gzip-compressed when asked. */
  function Payload(data: seq<Byte>, gzipped: bool, gz: Gzip): seq<Byte>
  {
    if gzipped then gz.compress(data) else data
  }

  /** The header `dump` writes for a filter in state `st`. */
  function DumpHeader(st: FilterState, gzipped: bool, gz: Gzip): (hd: Header)
    requires ValidParams(st.capacity, st.error)
    ensures WellFormed(hd)
  {
    Header(UnsignedShort(JavaChecksum(Payload(st.data, gzipped, gz))), if gzipped then 1 else 0,
           UnsignedShort(InverseError(st.error)), Unsigned(st.capacity))
  }

  /** `dump(gzipped)` on values. */
  function DumpBytes(st: FilterState, gzipped: bool, gz: Gzip): (r: seq<Byte>)
    requires ValidParams(st.capacity, st.error)
    ensures |r| == HEADER_SIZE + |Payload(st.data, gzipped, gz)|
    ensures Decode(r) == Some((DumpHeader(st, gzipped, gz), Payload(st.data, gzipped, gz)))
  {
    DecodeEncode(DumpHeader(st, gzipped, gz), Payload(st.data, gzipped, gz));
    Encode(DumpHeader(st, gzipped, gz), Payload(st.data, gzipped, gz))
  }

  /**
   * The dump layout, byte by byte: the checksum of the payload at 0-1, the
   * flag (1 or 0) at 2, the truncated inverse error rate at 3-4, the
   * capacity at 5-8, all little-endian, then the payload.
   */
  lemma DumpLayout(st: FilterState, gzipped: bool, gz: Gzip)
    requires ValidParams(st.capacity, st.error)
    ensures Pow256(2) == TWO_16 && Pow256(4) == TWO_32
    ensures DumpBytes(st, gzipped, gz)[0..2] == LeBytes(UnsignedShort(JavaChecksum(Payload(st.data, gzipped, gz))), 2)
    ensures DumpBytes(st, gzipped, gz)[2] == if gzipped then 1 else 0
    ensures DumpBytes(st, gzipped, gz)[3..5] == LeBytes(UnsignedShort(InverseError(st.error)), 2)
    ensures DumpBytes(st, gzipped, gz)[5..9] == LeBytes(Unsigned(st.capacity), 4)
    ensures DumpBytes(st, gzipped, gz)[9..] == Payload(st.data, gzipped, gz)
  {
    EncodeLayout(DumpHeader(st, gzipped, gz), Payload(st.data, gzipped, gz));
  }

  /**
   * `union(other)` on values: a capacity mismatch is rejected first, then an
   * error-rate mismatch, then a data-length mismatch; otherwise the result is
   * a filter with the same parameters over the byte-wise OR.
   */
  function UnionSpec(a: FilterState, b: FilterState, sizing: Sizing): Result<FilterState, FilterError>
  {
    if a.capacity != b.capacity then Err(CapacityMismatch)
    else if a.error != b.error then Err(ErrorRateMismatch)
    else if |a.data| != |b.data| then Err(DataLengthMismatch)
    else Init(Some(OrBytes(a.data, b.data)), a.capacity, a.error, sizing)
  }

  /**
   * The union of two filters with the same parameters, made with the same
   * sizing, always succeeds; its bytes are the OR of both, and every key
   * either operand contains, the union contains.
   */
  lemma UnionOfCompatible(a: FilterState, b: FilterState, sizing: Sizing, h: Murmur3, key: string)
    requires ValidState(a) && DerivedBy(a, sizing) && ValidState(b) && DerivedBy(b, sizing)
    requires a.capacity == b.capacity && a.error == b.error
    ensures UnionSpec(a, b, sizing).Ok?
    ensures UnionSpec(a, b, sizing).value == a.(data := OrBytes(a.data, b.data))
    ensures Contains(a, h, key) || Contains(b, h, key) ==> Contains(UnionSpec(a, b, sizing).value, h, key)
  {
    var u := UnionSpec(a, b, sizing).value;
    assert KeyProbes(u, h, key) == KeyProbes(a, h, key) == KeyProbes(b, h, key);
    if Contains(a, h, key) || Contains(b, h, key) {
      OrBytesMember(a.data, b.data, KeyProbes(a, h, key));
    }
  }

  /** Each bit of the union is set exactly when it is set in either operand. */
  lemma UnionBits(a: FilterState, b: FilterState, sizing: Sizing, q: nat)
    requires UnionSpec(a, b, sizing).Ok? && q < 8 * |a.data|
    ensures |UnionSpec(a, b, sizing).value.data| == |a.data| == |b.data|
    ensures BitAt(UnionSpec(a, b, sizing).value.data, q) <==> BitAt(a.data, q) || BitAt(b.data, q)
  {
    OrBytesBit(a.data, b.data, q);
  }

  /** The contents of a possibly-null array, as `initialize`'s `data` argument. */
  function Contents(data: array?<Byte>): Option<seq<Byte>>
    reads data
  {
    if data == null then None else Some(data[..])
  }

  class Filter {
    const capacity: int32
    const error: real
    const bits: int32
    const bytes: int32
    const hashes: int32
    /** The bit array; `initialize` may alias the caller's array. */
    const bf: array<Byte>

    /** The invariant `initialize` establishes and no method breaks. */
    predicate Valid()
    {
      ValidParams(capacity, error) && bits >= 1 && hashes >= 1
      && bytes == DataBytesSize(bits) && bf.Length == bytes as int
    }

    function Value(): (st: FilterState)
      reads bf
      ensures Valid() <==> ValidState(st)
    {
      FilterState(capacity, error, bits, bytes, hashes, bf[..])
    }

    /** `initialize(data, capacity, error)` once its checks have passed. */
    constructor Initialize(data: array?<Byte>, capacity: int32, error: real, sizing: Sizing)
      requires ValidParams(capacity, error)
      requires data != null ==> data.Length == DataBytesSize(sizing(capacity, error).bits) as int
      ensures Valid()
      ensures Init(Contents(data), capacity, error, sizing) == Ok(Value())
      ensures data != null ==> bf == data
      ensures data == null ==> fresh(bf)
    {
      this.capacity := capacity;
      this.error := error;
      var s := sizing(capacity, error);
      this.bits := s.bits;
      this.bytes := DataBytesSize(s.bits);
      this.hashes := s.hashes;
      if data != null {
        bf := data;
      } else {
        var zeroed := new Byte[DataBytesSize(s.bits)](_ => 0);
        assert zeroed[..] == Zeros(DataBytesSize(s.bits) as int);
        bf := zeroed;
      }
    }

    /** The probe positions of `key` in this filter. */
    function KeyProbes(h: Murmur3, key: string): (ps: seq<nat>)
      requires Valid()
      ensures InRange(ps, 8 * bf.Length)
      ensures ps == Probes(h, key, hashes as nat, bits)
    {
      var ps := Probes(h, key, hashes as nat, bits);
      forall i | 0 <= i < |ps| ensures ps[i] < 8 * bf.Length {
        ProbeInBounds(ps[i], bits);
      }
      ps
    }

    /**
     * `checkAdd(key, add)`: probes every position, counts the bits already
     * set and, in add mode, sets the ones still clear. The result is whether
     * every probed bit was set before the call.
     */
    method CheckAdd(h: Murmur3, key: string, add: bool) returns (r: bool)
      requires Valid()
      modifies bf
      ensures r <==> Member(old(bf[..]), KeyProbes(h, key))
      ensures bf[..] == if add then SetBits(old(bf[..]), KeyProbes(h, key)) else old(bf[..])
    {
      ghost var ps := KeyProbes(h, key);
      var a := Unsigned(h(42, key));
      var b := Unsigned(h(NarrowToInt(a), key));
      r := ProbeAll(bf, a, b, hashes, bits, add, ps);
    }

    /** `contains(key)`: `checkAdd(key, false)`. */
    method Contains(h: Murmur3, key: string) returns (r: bool)
      requires Valid()
      modifies bf
      ensures r <==> Member(bf[..], KeyProbes(h, key))
      ensures bf[..] == old(bf[..])
    {
      r := CheckAdd(h, key, false);
    }

    /** `add(key)`: `checkAdd(key, true)`; the result says whether the key was already contained. */
    method Add(h: Murmur3, key: string) returns (r: bool)
      requires Valid()
      modifies bf
      ensures r <==> Member(old(bf[..]), KeyProbes(h, key))
      ensures bf[..] == SetBits(old(bf[..]), KeyProbes(h, key))
    {
      r := CheckAdd(h, key, true);
    }

    /** `dump(gzipped)`: the header written through a little-endian buffer, then the payload. */
    method Dump(gzipped: bool, gz: Gzip) returns (out: array<Byte>)
      requires Valid()
      ensures fresh(out)
      ensures out[..] == DumpBytes(Value(), gzipped, gz)
    {
      var data := bf[..];
      if gzipped {
        data := gz.compress(data);
      }
      var checksum := JavaChecksum(data);
      var gzippedByte: Byte := if gzipped then 1 else 0;
      var inverseErrorRate := InverseError(error);
      out := WriteDump(checksum, gzippedByte, inverseErrorRate, capacity, data);
    }

    /** `equals(obj)`: the same class, the same fields and equal arrays. */
    method Equals(other: Filter?) returns (r: bool)
      ensures r <==> other != null && Value() == other.Value()
    {
      if other == null {
        return false;
      }
      r := capacity == other.capacity && error == other.error && bits == other.bits
           && bytes == other.bytes && hashes == other.hashes && bf[..] == other.bf[..];
    }

    /** `union(other)`: the checks in order, then the byte-wise OR into a fresh array. */
    method Union(other: Filter, sizing: Sizing) returns (r: Result<Filter, FilterError>)
      requires Valid() && other.Valid()
      ensures r.Err? <==> UnionSpec(Value(), other.Value(), sizing).Err?
      ensures r.Err? ==> r.error == UnionSpec(Value(), other.Value(), sizing).error
      ensures r.Ok? ==> fresh(r.value) && fresh(r.value.bf) && r.value.Valid()
                        && r.value.Value() == UnionSpec(Value(), other.Value(), sizing).value
    {
      if capacity != other.capacity {
        return Err(CapacityMismatch);
      }
      if error != other.error {
        return Err(ErrorRateMismatch);
      }
      var thisBytes := bf;
      var otherBytes := other.bf;
      if thisBytes.Length != otherBytes.Length {
        return Err(DataLengthMismatch);
      }
      var size := thisBytes.Length;
      var newBytes := new Byte[size];
      for i := 0 to size
        invariant newBytes[..i] == OrBytes(thisBytes[..], otherBytes[..])[..i]
      {
        newBytes[i] := thisBytes[i] | otherBytes[i];
      }
      assert newBytes[..] == newBytes[..size];
      r := NewFilter(newBytes, capacity, error, sizing);
    }
  }

  /**
   * The loop of `checkAdd`: for `i < hashes`, probes bit
   * `unsigned((int) (a + i * b)) % bits`, counts the bits already set and,
   * in add mode, sets the ones still clear.
   */
  method ProbeAll(bf: array<Byte>, a: nat, b: nat, hashes: int32, bits: int32, add: bool, ghost ps: seq<nat>)
    returns (r: bool)
    requires a < TWO_32 && b < TWO_32 && bits >= 1
    requires |ps| == hashes as int && InRange(ps, 8 * bf.Length)
    requires forall j :: 0 <= j < |ps| ==> ps[j] == Probe(a, b, j, bits)
    modifies bf
    ensures r <==> Member(old(bf[..]), ps)
    ensures bf[..] == if add then SetBits(old(bf[..]), ps) else old(bf[..])
  {
    ghost var s0 := bf[..];
    var hits: int32 := 0;
    var i: int32 := 0;
    while i < hashes
      invariant 0 <= i <= hashes
      invariant 0 <= hits <= i
      invariant hits == i <==> MemberUpTo(s0, ps, i as nat)
      invariant !add || hits == i ==> bf[..] == s0
      invariant add ==> SetBits(bf[..], ps[i..]) == SetBits(s0, ps)
    {
      ProbeSumFitsLong(a, b, i as nat);
      var theBit := Probe(a, b, i as nat, bits);
      hits := ProbeStep(bf, theBit, add, hits, s0, ps, i as nat);
      i := i + 1;
    }
    r := hits == hashes;
  }

  /** One round of the loop of `checkAdd`: test bit `ps[i]`, count a hit, set it when adding. */
  method ProbeStep(bf: array<Byte>, theBit: nat, add: bool, hits: int32, ghost s0: seq<Byte>, ghost ps: seq<nat>, ghost i: nat)
    returns (hits': int32)
    requires |s0| == bf.Length && InRange(ps, 8 * bf.Length) && i < |ps| && 0 <= hits as int <= i < TWO_31 - 1
    requires theBit == ps[i]
    requires hits as int == i <==> MemberUpTo(s0, ps, i)
    requires !add || hits as int == i ==> bf[..] == s0
    requires add ==> SetBits(bf[..], ps[i..]) == SetBits(s0, ps)
    modifies bf
    ensures 0 <= hits' as int <= i + 1
    ensures hits' as int == i + 1 <==> MemberUpTo(s0, ps, i + 1)
    ensures !add || hits' as int == i + 1 ==> bf[..] == s0
    ensures add ==> SetBits(bf[..], ps[i + 1..]) == SetBits(s0, ps)
  {
    CheckAddStep(s0, bf[..], ps, i, hits as nat, add);
    var hit := TestAndSet(bf, theBit, add);
    hits' := if hit then hits + 1 else hits;
  }

  /** Reads byte `theBit >> 3`, tests mask `1 << (theBit % 8)` and, in add mode, sets the bit when it is clear. */
  method TestAndSet(bf: array<Byte>, theBit: nat, add: bool) returns (hit: bool)
    requires theBit < 8 * bf.Length
    modifies bf
    ensures hit <==> BitAt(old(bf[..]), theBit)
    ensures bf[..] == if !hit && add then SetBit(old(bf[..]), theBit) else old(bf[..])
  {
    var theByte := theBit / 8;  // theBit >> 3
    var c := bf[theByte];
    var mask := Mask(theBit % 8);
    hit := HasMask(c, mask);
    if !hit && add {
      bf[theByte] := c | mask;
    }
  }

  /** One iteration of the `checkAdd` loop keeps its invariant. */
  lemma CheckAddStep(s0: seq<Byte>, s: seq<Byte>, ps: seq<nat>, i: nat, hits: nat, add: bool)
    requires |s| == |s0| && InRange(ps, 8 * |s|) && i < |ps| && hits <= i
    requires hits == i <==> MemberUpTo(s0, ps, i)
    requires !add || hits == i ==> s == s0
    requires add ==> SetBits(s, ps[i..]) == SetBits(s0, ps)
    ensures var hit := BitAt(s, ps[i]);
            var hits' := if hit then hits + 1 else hits;
            var s' := if !hit && add then SetBit(s, ps[i]) else s;
            && hits' <= i + 1
            && (hits' == i + 1 <==> MemberUpTo(s0, ps, i + 1))
            && (!add || hits' == i + 1 ==> s' == s0)
            && (add ==> SetBits(s', ps[i + 1..]) == SetBits(s0, ps))
  {
    assert ps[i..][1..] == ps[i + 1..];
    if BitAt(s, ps[i]) {
      SetBitIdempotent(s, ps[i]);
    }
  }

  /**
   * `new BloomFilterImpl(data, capacity, error)`: `initialize`, which throws
   * on invalid parameters or on data of the wrong length.
   */
  method NewFilter(data: array?<Byte>, capacity: int32, error: real, sizing: Sizing) returns (r: Result<Filter, FilterError>)
    ensures r.Err? <==> Init(Contents(data), capacity, error, sizing).Err?
    ensures r.Err? ==> r.error == Init(Contents(data), capacity, error, sizing).error
    ensures r.Ok? ==> fresh(r.value) && r.value.Valid()
                      && Init(Contents(data), capacity, error, sizing) == Ok(r.value.Value())
    ensures r.Ok? && data != null ==> r.value.bf == data
    ensures r.Ok? && data == null ==> fresh(r.value.bf)
  {
    if capacity < 1 || 1.0 <= error || error <= MIN_ERROR_PRECISION {
      return Err(InvalidParams);
    }
    var bytes := DataBytesSize(sizing(capacity, error).bits);
    if data != null && bytes as int != data.Length {
      return Err(LengthMismatch(bytes as int, data.Length));
    }
    var f := new Filter.Initialize(data, capacity, error, sizing);
    r := Ok(f);
  }

  /**
   * The buffer part of `dump`: a fresh array of header size plus payload
   * size, into which the checksum, the flag, the inverse error rate, the
   * capacity and the payload are put in that order, little-endian.
   */
  method WriteDump(checksum: int16, gzipped: Byte, inverse: int16, capacity: int32, data: seq<Byte>)
    returns (out: array<Byte>)
    ensures fresh(out)
    ensures out[..] == Encode(Header(UnsignedShort(checksum), gzipped, UnsignedShort(inverse), Unsigned(capacity)), data)
  {
    var bytes := new Byte[HEADER_SIZE + |data|];
    var bb := new LittleEndianBuffer.Wrap(bytes);
    ghost var hd := Header(UnsignedShort(checksum), gzipped, UnsignedShort(inverse), Unsigned(capacity));
    assert bytes[..bb.position] == [];
    bb.PutShort(checksum);
    assert bytes[..bb.position] == LeBytes(hd.checksum, 2);
    bb.PutByte(gzipped);
    assert bytes[..bb.position] == LeBytes(hd.checksum, 2) + [hd.gzipped];
    bb.PutShort(inverse);
    assert bytes[..bb.position] == LeBytes(hd.checksum, 2) + [hd.gzipped] + LeBytes(hd.inverse, 2);
    bb.PutInt(capacity);
    assert bytes[..bb.position] == LeBytes(hd.checksum, 2) + [hd.gzipped] + LeBytes(hd.inverse, 2) + LeBytes(hd.capacity, 4);
    bb.Put(data);
    assert bytes[..bb.position] == Encode(hd, data);
    out := bytes;
    assert out[..] == out[..bb.position];
  }
}
