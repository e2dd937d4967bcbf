/**
 * BloomFilterFactoryImpl: `create` and `load`. `load` reads the header
 * through a little-endian buffer, checks the checksum of the payload before
 * anything else is done with it, decompresses when the flag is 1, and hands
 * the bytes to the constructor, whose length check rejects a payload of the
 * wrong size.
 */
module BloomFilterFactory {
  import opened Primitives
  import opened LittleEndian
  import opened Checksum
  import opened DumpFormat
  import opened Bits
  import opened ByteBuffer
  import opened BloomFilterImpl

  /** `create(capacity, error)`: a filter with no data. */
  method Create(capacity: int32, error: real, sizing: Sizing) returns (r: Result<Filter, FilterError>)
    ensures r.Err? <==> !ValidParams(capacity, error)
    ensures r.Err? ==> r.error == InvalidParams
    ensures r.Ok? ==> fresh(r.value) && fresh(r.value.bf) && r.value.Valid()
                      && Init(None, capacity, error, sizing) == Ok(r.value.Value())
  {
    r := NewFilter(null, capacity, error, sizing);
  }

  /** A created filter has all bytes zero and contains no key. */
  lemma CreatedIsEmpty(capacity: int32, error: real, sizing: Sizing, h: Murmur3, key: string)
    requires ValidParams(capacity, error)
    ensures Init(None, capacity, error, sizing).Ok?
    ensures var st := Init(None, capacity, error, sizing).value;
            st.data == Zeros(st.bytes as int) && !Contains(st, h, key)
  {
    var st := Init(None, capacity, error, sizing).value;
    EmptyContainsNothing(st, h, key);
  }

  /**
   * `load(dump)` on values. The header fields are read as Java reads them:
   * checksum and inverse error as signed `short`, the flag as a `byte`, the
   * capacity as a signed `int`.
   */
  function LoadSpec(dump: seq<Byte>, sizing: Sizing, gz: Gzip): Result<FilterState, FilterError>
  {
    match Decode(dump)
    case None => Err(BufferUnderflow)
    case Some((hd, payload)) =>
      LoadFields(NarrowToShort(hd.checksum), hd.gzipped, NarrowToShort(hd.inverse),
                 NarrowToInt(hd.capacity), payload, sizing, gz)
  }

  /**
   * What `load` does once the header has been read. The error rate is
   * `1.0 / inverse`; an inverse of 0 makes it positive infinity, which the
   * constructor's check rejects.
   */
  function LoadFields(checksum: int16, gzipped: Byte, inverse: int16, cardinality: int32,
                      payload: seq<Byte>, sizing: Sizing, gz: Gzip): Result<FilterState, FilterError>
  {
    if JavaChecksum(payload) != checksum then Err(BadChecksum)
    else if gzipped == 1 then
      if !gz.header(payload) then Err(CorruptGzip)
      else
        var n := DataBytesSize(LoadBitsSize(inverse, cardinality, sizing));
        match ReadFully(payload, n, gz)
        case Err(e) => Err(e)
        case Ok(data) => Construct(data, inverse, cardinality, sizing)
    else Construct(payload, inverse, cardinality, sizing)
  }

  /**
   * `getDataBitsSize(cardinality, 1.0 / inverse)`, fixed exactly wherever
   * the double arithmetic leaves no choice:
   * - the infinite rate of an inverse of 0 is `InfiniteRateBits`;
   * - a negative rate has a NaN logarithm, and `(int) NaN` is 0;
   * - a rate of 1 has logarithm 0, and so does a capacity of 0: both give 1;
   * - `Integer.MIN_VALUE` negates to itself, so with a rate of at most 1/2
   *   the quotient exceeds 3 * 10^9 and the cast saturates at `Integer.MAX_VALUE`.
   * Otherwise it is `sizing`.
   */
  function LoadBitsSize(inverse: int16, cardinality: int32, sizing: Sizing): (bits: int32)
    ensures inverse < 0 ==> bits == 0
    ensures inverse == 1 || (inverse > 0 && cardinality == 0) ==> bits == 1
    ensures inverse > 1 && cardinality < 0 && cardinality != INT_MIN ==> bits <= 0
    ensures inverse > 1 && cardinality == INT_MIN ==> bits == INT_MAX
    ensures inverse > 1 && cardinality >= 1 ==> bits >= 1
  {
    if inverse == 0 then InfiniteRateBits(cardinality)
    else if inverse < 0 then 0
    else if inverse == 1 || cardinality == 0 then 1
    else if cardinality == INT_MIN then INT_MAX
    else sizing(cardinality, 1.0 / inverse as real).bits
  }

  /**
   * `dis.readFully(new byte[n])` on the decompressed stream: a negative `n`
   * fails on the allocation, 0 bytes are read without touching the stream,
   * and otherwise exactly `n` bytes are read and the rest is ignored.
   */
  function ReadFully(payload: seq<Byte>, n: int32, gz: Gzip): (r: Result<seq<Byte>, FilterError>)
    ensures r.Ok? ==> |r.value| == n as int
    ensures n < 0 <==> r == Err(NegativeArraySize)
  {
    if n < 0 then Err(NegativeArraySize)
    else if n == 0 then Ok([])
    else match gz.decompress(payload)
      case None => Err(CorruptGzip)
      case Some(unzipped) =>
        if |unzipped| < n as int then Err(EndOfStream) else Ok(unzipped[..n])
  }

  /** `new BloomFilterImpl(data, cardinality, 1.0 / inverse)`. */
  function Construct(data: seq<Byte>, inverse: int16, cardinality: int32, sizing: Sizing): (r: Result<FilterState, FilterError>)
    ensures inverse == 0 ==> r == Err(InvalidParams)
    ensures inverse != 0 ==> r == Init(Some(data), cardinality, 1.0 / inverse as real, sizing)
  {
    if inverse == 0 then Err(InvalidParams) else Init(Some(data), cardinality, 1.0 / inverse as real, sizing)
  }

  /** `load(dump)`. */
  method Load(dump: array<Byte>, sizing: Sizing, gz: Gzip) returns (r: Result<Filter, FilterError>)
    ensures r.Err? <==> LoadSpec(dump[..], sizing, gz).Err?
    ensures r.Err? ==> r.error == LoadSpec(dump[..], sizing, gz).error
    ensures r.Ok? ==> fresh(r.value) && fresh(r.value.bf) && r.value.Valid()
                      && r.value.Value() == LoadSpec(dump[..], sizing, gz).value
  {
    var bb := new LittleEndianBuffer.Wrap(dump);
    var checksum := bb.GetShort();
    var gzipped := bb.Get();
    var inverse := bb.GetShort();
    var cardinality := bb.GetInt();
    if checksum.None? || gzipped.None? || inverse.None? || cardinality.None? {
      return Err(BufferUnderflow);
    }
    var data := dump[bb.position..];
    assert dump[..][0..2] == dump[0..2] && dump[..][3..5] == dump[3..5] && dump[..][5..9] == dump[5..9];
    assert Decode(dump[..]) == Some((Header(LeValue(dump[0..2]), dump[2], LeValue(dump[3..5]), LeValue(dump[5..9])), data));
    r := LoadPayload(checksum.value, gzipped.value, inverse.value, cardinality.value, data, sizing, gz);
  }

  /** The part of `load` after the header: checksum, decompression and construction. */
  method LoadPayload(checksum: int16, gzipped: Byte, inverse: int16, cardinality: int32,
                     payload: seq<Byte>, sizing: Sizing, gz: Gzip) returns (r: Result<Filter, FilterError>)
    ensures var spec := LoadFields(checksum, gzipped, inverse, cardinality, payload, sizing, gz);
            && (r.Err? <==> spec.Err?)
            && (r.Err? ==> r.error == spec.error)
            && (r.Ok? ==> fresh(r.value) && fresh(r.value.bf) && r.value.Valid() && r.value.Value() == spec.value)
  {
    if JavaChecksum(payload) != checksum {
      return Err(BadChecksum);
    }
    var data := payload;
    if gzipped == 1 {
      if !gz.header(payload) {
        return Err(CorruptGzip);
      }
      var dataBytesSize := DataBytesSize(LoadBitsSize(inverse, cardinality, sizing));
      if dataBytesSize < 0 {
        return Err(NegativeArraySize);
      }
      if dataBytesSize > 0 {
        var unzipped := gz.decompress(payload);
        if unzipped.None? {
          return Err(CorruptGzip);
        }
        if |unzipped.value| < dataBytesSize as int {
          return Err(EndOfStream);
        }
        data := unzipped.value[..dataBytesSize];
      } else {
        data := [];
      }
    }
    if inverse == 0 {
      return Err(InvalidParams);
    }
    var errorRate := 1.0 / inverse as real;
    var bytes := new Byte[|data|](i requires 0 <= i < |data| => data[i]);
    assert bytes[..] == data;
    r := NewFilter(bytes, cardinality, errorRate, sizing);
  }

  /** A dump shorter than the 9-byte header fails on buffer underflow. */
  lemma ShortDumpUnderflows(dump: seq<Byte>, sizing: Sizing, gz: Gzip)
    ensures LoadSpec(dump, sizing, gz) == Err(BufferUnderflow) <==> |dump| < HEADER_SIZE
  {
  }

  /**
   * The checksum is checked before anything else is done with the payload:
   * a dump whose checksum does not match is rejected the same way whatever
   * the flag says, whatever the codec does and whatever the sizes are.
   */
  lemma ChecksumCheckedFirst(dump: seq<Byte>, sizing: Sizing, sizing': Sizing, gz: Gzip, gz': Gzip)
    requires |dump| >= HEADER_SIZE
    requires JavaChecksum(dump[HEADER_SIZE..]) != NarrowToShort(LeValue(dump[0..2]))
    ensures LoadSpec(dump, sizing, gz) == LoadSpec(dump, sizing', gz') == Err(BadChecksum)
  {
  }

  /** Only flag value 1 decompresses: with any other flag the payload itself becomes the filter's bytes. */
  lemma OtherFlagsPassThrough(dump: seq<Byte>, sizing: Sizing, gz: Gzip, gz': Gzip)
    requires |dump| >= HEADER_SIZE && dump[2] != 1
    ensures LoadSpec(dump, sizing, gz) == LoadSpec(dump, sizing, gz')
    ensures LoadSpec(dump, sizing, gz).Ok? ==> LoadSpec(dump, sizing, gz).value.data == dump[HEADER_SIZE..]
  {
  }

  /**
   * On the gzip path the stream's header is read (by `GZIPInputStream`'s
   * constructor) before any size is computed: a payload that does not open
   * with a gzip header is rejected whatever the header's other fields and
   * whatever the sizes.
   */
  lemma GzipHeaderCheckedFirst(dump: seq<Byte>, sizing: Sizing, sizing': Sizing, gz: Gzip)
    requires |dump| >= HEADER_SIZE && dump[2] == 1
    requires JavaChecksum(dump[HEADER_SIZE..]) == NarrowToShort(LeValue(dump[0..2]))
    requires !gz.header(dump[HEADER_SIZE..])
    ensures LoadSpec(dump, sizing, gz) == LoadSpec(dump, sizing', gz) == Err(CorruptGzip)
  {
  }

  /**
   * A negative inverse error gives a negative rate, which `initialize`
   * rejects as invalid; on the gzip path its NaN bit count makes
   * `readFully` read nothing first. The result is the same whatever the
   * sizes, the capacity and the stream after its header.
   */
  lemma NegativeRateInvalid(dump: seq<Byte>, sizing: Sizing, gz: Gzip)
    requires |dump| >= HEADER_SIZE
    requires JavaChecksum(dump[HEADER_SIZE..]) == NarrowToShort(LeValue(dump[0..2]))
    requires NarrowToShort(LeValue(dump[3..5])) < 0
    requires dump[2] == 1 ==> gz.header(dump[HEADER_SIZE..])
    ensures LoadSpec(dump, sizing, gz) == Err(InvalidParams)
  {
    var inverse := NarrowToShort(LeValue(dump[3..5]));
    var cardinality := NarrowToInt(LeValue(dump[5..9]));
    assert !ValidParams(cardinality, 1.0 / inverse as real);
  }

  /**
   * An inverse error of 0 (the rate `1.0 / 0`, positive infinity) on the
   * gzip path: a positive capacity gives `Integer.MIN_VALUE` bits and a
   * negative allocation, a capacity of 0 gives 0 bits and then the
   * constructor's rejection. Without gzip the constructor rejects it at once.
   */
  lemma InfiniteRateRejected(dump: seq<Byte>, sizing: Sizing, gz: Gzip)
    requires |dump| >= HEADER_SIZE
    requires JavaChecksum(dump[HEADER_SIZE..]) == NarrowToShort(LeValue(dump[0..2]))
    requires NarrowToShort(LeValue(dump[3..5])) == 0
    ensures dump[2] != 1 ==> LoadSpec(dump, sizing, gz) == Err(InvalidParams)
    ensures dump[2] == 1 && gz.header(dump[HEADER_SIZE..]) && NarrowToInt(LeValue(dump[5..9])) > 0 ==>
              LoadSpec(dump, sizing, gz) == Err(NegativeArraySize)
    ensures dump[2] == 1 && gz.header(dump[HEADER_SIZE..]) && NarrowToInt(LeValue(dump[5..9])) == 0 ==>
              LoadSpec(dump, sizing, gz) == Err(InvalidParams)
  {
    var cardinality := NarrowToInt(LeValue(dump[5..9]));
    assert cardinality > 0 ==> DataBytesSize(InfiniteRateBits(cardinality)) < 0;
  }

  /**
   * A capacity of 0 with a positive inverse error makes the logarithm's
   * factor 0, so `getDataBitsSize` is 1: one byte is read from the gzip
   * stream before the constructor rejects the capacity.
   */
  lemma ZeroCapacityGzip(dump: seq<Byte>, sizing: Sizing, gz: Gzip)
    requires |dump| >= HEADER_SIZE && dump[2] == 1
    requires JavaChecksum(dump[HEADER_SIZE..]) == NarrowToShort(LeValue(dump[0..2]))
    requires NarrowToShort(LeValue(dump[3..5])) > 0 && NarrowToInt(LeValue(dump[5..9])) == 0
    requires gz.header(dump[HEADER_SIZE..])
    ensures gz.decompress(dump[HEADER_SIZE..]).None? ==> LoadSpec(dump, sizing, gz) == Err(CorruptGzip)
    ensures gz.decompress(dump[HEADER_SIZE..]) == Some([]) ==> LoadSpec(dump, sizing, gz) == Err(EndOfStream)
    ensures gz.decompress(dump[HEADER_SIZE..]).Some? && gz.decompress(dump[HEADER_SIZE..]).value != [] ==>
              LoadSpec(dump, sizing, gz) == Err(InvalidParams)
  {
    assert DataBytesSize(1) == 1;
  }

  /**
   * A payload whose length differs from the byte count the header's
   * capacity and error rate give is rejected by the constructor, after the
   * checksum has passed.
   */
  lemma WrongLengthRejected(dump: seq<Byte>, sizing: Sizing, gz: Gzip)
    requires |dump| >= HEADER_SIZE && dump[2] != 1
    requires JavaChecksum(dump[HEADER_SIZE..]) == NarrowToShort(LeValue(dump[0..2]))
    requires NarrowToShort(LeValue(dump[3..5])) != 0
    requires var errorRate := 1.0 / NarrowToShort(LeValue(dump[3..5])) as real;
             var capacity := NarrowToInt(LeValue(dump[5..9]));
             ValidParams(capacity, errorRate)
             && |dump| - HEADER_SIZE != DataBytesSize(sizing(capacity, errorRate).bits) as int
    ensures LoadSpec(dump, sizing, gz).Err? && LoadSpec(dump, sizing, gz).error.LengthMismatch?
  {
  }

  /**
   * The error rate re-derived from the truncated inverse is the one the
   * filter was made with (true of 0.005, whose inverse is exactly 200).
   */
  predicate InverseRederives(error: real)
  {
    MIN_ERROR_PRECISION < error < 1.0 && 1.0 / InverseError(error) as real == error
  }

  /**
   * Round trip without compression: loading the dump of a filter gives back
   * a filter equal to it in every field and in its bytes, provided the error
   * rate re-derives from its inverse.
   */
  lemma LoadDump(st: FilterState, sizing: Sizing, gz: Gzip)
    requires ValidState(st) && DerivedBy(st, sizing) && InverseRederives(st.error)
    ensures LoadSpec(DumpBytes(st, false, gz), sizing, gz) == Ok(st)
  {
    DumpedFieldsReadBack(st, false, gz);
    InitOfState(st, sizing);
    assert LoadFields(JavaChecksum(st.data), 0, InverseError(st.error), st.capacity, st.data, sizing, gz)
        == Init(Some(st.data), st.capacity, st.error, sizing);
  }

  /** Round trip through gzip, for a codec that gives back what it compressed. */
  lemma LoadGzippedDump(st: FilterState, sizing: Sizing, gz: Gzip)
    requires ValidState(st) && DerivedBy(st, sizing) && InverseRederives(st.error)
    requires Lossless(gz)
    ensures LoadSpec(DumpBytes(st, true, gz), sizing, gz) == Ok(st)
  {
    DumpedFieldsReadBack(st, true, gz);
    var payload := Payload(st.data, true, gz);
    var inverse := InverseError(st.error);
    assert gz.header(payload) && gz.decompress(payload) == Some(st.data);
    assert 1.0 / inverse as real == st.error;
    RederivedInverseAboveOne(st.error);
    assert LoadBitsSize(inverse, st.capacity, sizing) == sizing(st.capacity, st.error).bits;
    assert st.data[..st.bytes] == st.data;
    assert ReadFully(payload, st.bytes, gz) == Ok(st.data);
    InitOfState(st, sizing);
    assert Construct(st.data, inverse, st.capacity, sizing) == Ok(st);
  }

  /** A rate below 1 that re-derives from its inverse has an inverse of at least 2. */
  lemma RederivedInverseAboveOne(error: real)
    requires InverseRederives(error)
    ensures InverseError(error) >= 2
  {
  }

  /** Re-initialising with a valid state's own parameters and bytes gives that state back. */
  lemma InitOfState(st: FilterState, sizing: Sizing)
    requires ValidState(st) && DerivedBy(st, sizing)
    ensures Init(Some(st.data), st.capacity, st.error, sizing) == Ok(st)
  {
  }

  /** The header fields of a dump, read back as Java reads them, are the ones written. */
  lemma DumpedFieldsReadBack(st: FilterState, gzipped: bool, gz: Gzip)
    requires ValidState(st)
    ensures Decode(DumpBytes(st, gzipped, gz)).Some?
    ensures var hd := Decode(DumpBytes(st, gzipped, gz)).value.0;
            && NarrowToShort(hd.checksum) == JavaChecksum(Payload(st.data, gzipped, gz))
            && NarrowToShort(hd.inverse) == InverseError(st.error)
            && NarrowToInt(hd.capacity) == st.capacity
            && hd.gzipped == if gzipped then 1 else 0
  {
    NarrowUnsignedShort(JavaChecksum(Payload(st.data, gzipped, gz)));
    NarrowUnsignedShort(InverseError(st.error));
    NarrowToIntOfUnsigned(st.capacity);
  }
}
