# Cross-language Bloom filter, modelled in Dafny

The cross_bloomfilter library implements one Bloom filter twice, in Java and
in Python, so that a filter dumped by one can be loaded by the other. A
filter is sized from a capacity and a false-positive rate. It has `bits`
bit positions and `hashes` probes per key. Probe `i` of a key is
`unsigned(a + i * b) % bits`, where `a` and `b` are the 32-bit Murmur3 of
the key with seeds 42 and `a`. The dump is a 9-byte little-endian header
followed by the payload. The header holds:

- a 16-bit checksum, the CRC-32 folded to 16 bits;
- a gzip flag;
- the truncated inverse error rate;
- the capacity.

The payload is the bit array, gzip-compressed when asked.

The model has these modules:

- `Primitives`: Java's `short`/`int`, narrowing casts, `unsigned`, and truncating `/` and `%`.
- `LittleEndian`: fixed-width little-endian integers.
- `Checksum`: the bitwise CRC-32 of section 8 of RFC 1952, the 16-bit fold, and Java's and Python's checksums.
- `DumpFormat`: the shared header layout.
- `ByteBuffer`: the little-endian `java.nio.ByteBuffer` that the Java side writes and reads through.
- `Bits`: the Java byte array, where bit `p` is mask `1 << (p % 8)` of byte `p >> 3`.
- `BloomFilterImpl`: the Java filter. It is a class whose `checkAdd` loop updates the byte array in place.
- `BloomFilterFactory`: Java `create` and `load`.
- `BitArray`: Python's little-endian `bitarray` with `tobytes`/`frombytes`.
- `PyBloomFilter`: the Python filter. It is a class whose `add` and `extend` loops update `self.data`.
- `CrossCompat`: the two sides side by side. They probe the same positions, their states stay in correspondence through `add` and `union`, their dumps are the same bytes, and each side loads the other's dump.

Four things become parameters:

- The size formulas (`sizing`), defined at java/impl/BloomFilterImpl.java:69-70 and 82-85 and at python/bloom_filter.py:31 and 38-40. They are parameters because they compute in floating point, which the model does not.
  - The only constraints are the ones the sign of the logarithm decides: for a rate in (0, 1), at least one bit for a positive capacity, at most 0 bits for a negative one, and at least one hash for valid parameters.
  - Where Java's `load` reaches the bit count with a rate whose value the double arithmetic fixes exactly, the model computes it itself. These are a negative, unit or infinite rate, a capacity of 0, and `Integer.MIN_VALUE`.
- Murmur3 (`h`), a library the source calls.
- gzip (`gz`), a library the source calls.
- Where a round trip needs it, the fact that the error rate re-derives from its truncated inverse.

The model follows what the code does, even where the dump format alone would suggest otherwise:

- Java's `load` reads exactly `getDataBytesSize` bytes with `readFully`. Extra decompressed bytes are ignored rather than rejected, and only a short stream fails.
- The format writes the gzip flag as 1 or 0. Python treats any non-zero flag byte as gzipped. Java decompresses only on flag 1 and otherwise takes the payload as is.

The two sides also differ in ways the model keeps:

- Python reads the capacity as unsigned; Java reads it as a signed `int`.
- Python does not reject a dump shorter than the header, because its slices clip. An empty dump fails only on the division by its inverse error of 0. Java fails on buffer underflow.

## Model

| member | source | states |
|---|---|---|
| Primitives.NarrowToInt | java/impl/BloomFilterImpl.java:102 | `(int) x` keeps the low 32 bits: the result is congruent to `x` modulo 2^32 and in `int` range |
| Primitives.NarrowToShort | java/impl/BloomFilterImpl.java:170 | `(short) x` keeps the low 16 bits: congruent to `x` modulo 2^16 |
| Primitives.Unsigned | java/impl/BloomFilterImpl.java:93-95 | `i & 0xffffffffL` is below 2^32, congruent to `i`, and `i` itself when non-negative |
| Primitives.UnsignedShort | java/impl/BloomFilterImpl.java:172 | the unsigned 16-bit pattern `putShort` writes is below 2^16 and congruent to the `short` |
| Primitives.JavaDiv | java/impl/BloomFilterImpl.java:89 | Java `/` truncates toward zero, for both signs of the dividend |
| Primitives.JavaRem | java/impl/BloomFilterImpl.java:89 | Java `%` satisfies `x == (x / d) * d + r` and takes the dividend's sign |
| Primitives.NarrowUnsignedShort | java/impl/BloomFilterFactoryImpl.java:34 | `getShort` of the pattern `putShort` wrote gives back the `short` |
| Primitives.NarrowToIntOfUnsigned | java/impl/BloomFilterImpl.java:102 | `(int) a` of `a = unsigned(x)` is `x` again |
| LittleEndian.LeValueOfBytes | java/impl/BloomFilterFactoryImpl.java:34-37 | reading `n` little-endian bytes gives back the value that was written |
| LittleEndian.LeBytesOfValue | python/bloom_filter.py:144-146 | every byte string is the `to_bytes` of the number `from_bytes` reads from it |
| Checksum.Fold | java/impl/BloomFilterCommons.java:15 | `(crc & 0xFFFF) ^ (crc >> 16)` is below 2^16 |
| Checksum.JavaChecksum | java/impl/BloomFilterCommons.java:11-16 | the `short` checksum has the 16-bit pattern of the fold of the CRC-32 |
| Checksum.PyChecksum | python/bloom_filter.py:138-142 | the Python checksum is the fold as a non-negative number below 2^16 |
| Checksum.ChecksumsAgree | java/impl/BloomFilterCommons.java:11-16 | on every payload, Java's and Python's checksums are the same 16 bits |
| Checksum.Crc32CheckValue | java/impl/BloomFilterCommons.java:12-14 | the CRC-32 of "123456789" is 0xCBF43926, the standard check value |
| DumpFormat.Encode | java/impl/BloomFilterImpl.java:163-176 | a dump is 9 header bytes followed by the payload, unchanged |
| DumpFormat.Decode | java/impl/BloomFilterFactoryImpl.java:31-38 | a dump has a header exactly when it is at least 9 bytes long; the payload is the rest |
| DumpFormat.EncodeLayout | java/impl/BloomFilterImpl.java:172-176 | checksum at bytes 0-1, flag at 2, inverse at 3-4, capacity at 5-8, little-endian, then the payload |
| DumpFormat.DecodeEncode | java/impl/BloomFilterFactoryImpl.java:34-38 | decoding a dump gives back its header and payload |
| DumpFormat.EncodeDecode | python/bloom_filter.py:107-112 | every dump of 9 bytes or more is the encoding of what it decodes to |
| ByteBuffer.LittleEndianBuffer.Wrap | java/impl/BloomFilterImpl.java:165-166 | the buffer writes into the wrapped array, starting at position 0 |
| ByteBuffer.LittleEndianBuffer.Put | java/impl/BloomFilterImpl.java:176 | the bytes land at the cursor, nothing else in the array changes, and the cursor moves past them |
| ByteBuffer.LittleEndianBuffer.PutByte | java/impl/BloomFilterImpl.java:173 | one byte at the cursor |
| ByteBuffer.LittleEndianBuffer.PutShort | java/impl/BloomFilterImpl.java:172 | the 2-byte little-endian pattern of the `short` at the cursor |
| ByteBuffer.LittleEndianBuffer.PutInt | java/impl/BloomFilterImpl.java:175 | the 4-byte little-endian pattern of the `int` at the cursor |
| ByteBuffer.LittleEndianBuffer.GetBytes | java/impl/BloomFilterFactoryImpl.java:34-37 | the next `n` bytes and an advanced cursor; past the end, underflow with the cursor unmoved |
| ByteBuffer.LittleEndianBuffer.Get | java/impl/BloomFilterFactoryImpl.java:35 | the byte at the cursor, or underflow |
| ByteBuffer.LittleEndianBuffer.GetShort | java/impl/BloomFilterFactoryImpl.java:34 | the signed `short` of the next 2 bytes, or underflow |
| ByteBuffer.LittleEndianBuffer.GetInt | java/impl/BloomFilterFactoryImpl.java:37 | the signed `int` of the next 4 bytes, or underflow |
| Bits.SetBit | java/impl/BloomFilterImpl.java:115 | `bf[p >> 3] \|= mask` keeps the array's length |
| Bits.SetBits | java/impl/BloomFilterImpl.java:104-118 | setting a sequence of bits keeps the array's length |
| Bits.OrBytes | java/impl/BloomFilterImpl.java:236-240 | each byte of the union is the OR of the operands' bytes |
| Bits.Zeros | java/impl/BloomFilterImpl.java:78 | `new byte[n]` is `n` zero bytes |
| Bits.BitAtSetBit | java/impl/BloomFilterImpl.java:109-115 | setting bit `p` turns on bit `p` and no other |
| Bits.SetBitIdempotent | java/impl/BloomFilterImpl.java:111-113 | setting a bit that is set changes nothing |
| Bits.SetBitsExact | java/impl/BloomFilterImpl.java:104-118 | after setting the bits at `ps`, a bit is set exactly when it was set before or is in `ps` |
| Bits.SetBitsMember | java/impl/BloomFilterImpl.java:104-118 | after setting the bits at `ps`, every one of them is set |
| Bits.SetBitsMonotone | java/impl/BloomFilterImpl.java:114-116 | setting bits never clears one |
| Bits.SetBitsKeepsMember | java/impl/BloomFilterImpl.java:114-116 | a membership that holds survives further set bits |
| Bits.SetBitsOfMember | java/impl/BloomFilterImpl.java:111-117 | setting bits that are all already set changes nothing |
| Bits.SetBitsUntouched | java/impl/BloomFilterImpl.java:106-116 | a byte that no probe falls into is unchanged |
| Bits.OrBytesBit | java/impl/BloomFilterImpl.java:239 | a bit of the OR is set exactly when it is set in either operand |
| Bits.OrBytesMember | java/impl/BloomFilterImpl.java:236-240 | what is a member of either operand is a member of the OR |
| Bits.ZerosBit | java/impl/BloomFilterImpl.java:78 | no bit of a zeroed array is set |
| Bits.ZerosMember | java/impl/BloomFilterImpl.java:78 | only the empty probe sequence is a member of a zeroed array |
| BloomFilterImpl.DataBytesSize | java/impl/BloomFilterImpl.java:87-91 | for `bits >= 0`, the least number of bytes holding `bits` bits (ceiling of bits / 8) |
| BloomFilterImpl.HashA | java/impl/BloomFilterImpl.java:101 | the first hash is an unsigned 32-bit value |
| BloomFilterImpl.HashB | java/impl/BloomFilterImpl.java:102 | the second hash is an unsigned 32-bit value |
| BloomFilterImpl.Probe | java/impl/BloomFilterImpl.java:105 | each probe is below `bits` |
| BloomFilterImpl.Probes | java/impl/BloomFilterImpl.java:101-105 | `hashes` probes, probe `i` from `a + i * b`, all below `bits` |
| BloomFilterImpl.ProbeSumFitsLong | java/impl/BloomFilterImpl.java:105 | `a + i * b` cannot overflow a `long` |
| BloomFilterImpl.ProbeInBounds | java/impl/BloomFilterImpl.java:106-108 | every probe's byte index `theBit >> 3` is inside the array |
| BloomFilterImpl.Init | java/impl/BloomFilterImpl.java:60-80 | invalid parameters are rejected first (iff), then data of the wrong length (iff); otherwise the fields are the derived sizes and the data, or zeros when no data is given |
| BloomFilterImpl.KeyProbes | java/impl/BloomFilterImpl.java:101-105 | the probes of a key in a state all fall inside its array |
| BloomFilterImpl.Added | java/impl/BloomFilterImpl.java:141-143 | `add` sets the probed bits and changes no other field |
| BloomFilterImpl.ContainsAfterAdd | java/impl/BloomFilterImpl.java:130-143 | no false negatives: after `add(key)`, `contains(key)` |
| BloomFilterImpl.ContainsStable | java/impl/BloomFilterImpl.java:130-143 | a contained key stays contained after any other `add` |
| BloomFilterImpl.AddOnlySetsBits | java/impl/BloomFilterImpl.java:111-117 | after `add`, a bit is set iff it was set or is one of the key's probes |
| BloomFilterImpl.AddLeavesOtherBytes | java/impl/BloomFilterImpl.java:106-116 | `add` leaves bytes that its probes miss as they were |
| BloomFilterImpl.AddContained | java/impl/BloomFilterImpl.java:111-113 | adding a contained key changes nothing |
| BloomFilterImpl.EmptyContainsNothing | java/impl/BloomFilterImpl.java:78 | a fresh filter contains no key |
| BloomFilterImpl.InverseError | java/impl/BloomFilterImpl.java:170 | `(short) (1.0 / error)` is the integer part of the inverse, between 1 and 32766 |
| BloomFilterImpl.DumpHeader | java/impl/BloomFilterImpl.java:168-175 | the header fields fit their widths |
| BloomFilterImpl.DumpBytes | java/impl/BloomFilterImpl.java:151-179 | the dump decodes to its header and payload and is 9 bytes longer than the payload |
| BloomFilterImpl.DumpLayout | java/impl/BloomFilterImpl.java:163-176 | byte by byte: the payload's checksum, flag 1 or 0, the inverse error, the capacity, the payload |
| BloomFilterImpl.UnionOfCompatible | java/impl/BloomFilterImpl.java:222-243 | union of filters with the same parameters succeeds, is the byte-wise OR, and contains every key either operand contains |
| BloomFilterImpl.UnionBits | java/impl/BloomFilterImpl.java:236-240 | each bit of the union is set iff it is set in either operand |
| BloomFilterImpl.Filter.Value | java/impl/BloomFilterImpl.java:28-33 | the object's invariant is exactly the validity of its field values |
| BloomFilterImpl.Filter.Initialize | java/impl/BloomFilterImpl.java:60-80 | the new object's fields are what `Init` computes; given data is aliased, otherwise a fresh zeroed array |
| BloomFilterImpl.Filter.KeyProbes | java/impl/BloomFilterImpl.java:101-105 | the probes of a key in this filter fall inside `bf` |
| BloomFilterImpl.Filter.CheckAdd | java/impl/BloomFilterImpl.java:98-121 | returns whether every probed bit was set before; in add mode the new array has the probed bits set, else it is unchanged |
| BloomFilterImpl.Filter.Contains | java/impl/BloomFilterImpl.java:130-132 | whether every probed bit is set; the array is unchanged |
| BloomFilterImpl.Filter.Add | java/impl/BloomFilterImpl.java:141-144 | sets the probed bits; returns whether they were all set already |
| BloomFilterImpl.Filter.Dump | java/impl/BloomFilterImpl.java:151-179 | a fresh array holding exactly the dump of the filter's state |
| BloomFilterImpl.Filter.Equals | java/impl/BloomFilterImpl.java:201-219 | true iff the other object is non-null and has equal fields and array contents |
| BloomFilterImpl.Filter.Union | java/impl/BloomFilterImpl.java:222-243 | the checks in order (capacity, error rate, length), then a fresh filter over the OR |
| BloomFilterImpl.ProbeAll | java/impl/BloomFilterImpl.java:104-120 | the loop returns whether every probe hit, and in add mode leaves the probed bits set |
| BloomFilterImpl.ProbeStep | java/impl/BloomFilterImpl.java:105-117 | one iteration keeps the loop's invariant: hits count a set prefix, and the bits still to set complete the final array |
| BloomFilterImpl.TestAndSet | java/impl/BloomFilterImpl.java:106-117 | reports whether the bit was set; sets it only when it was clear and adding |
| BloomFilterImpl.CheckAddStep | java/impl/BloomFilterImpl.java:104-118 | the invariant of the `checkAdd` loop carries over one probe |
| BloomFilterImpl.NewFilter | java/impl/BloomFilterImpl.java:55-80 | the constructor throws exactly when `Init` errs, with the same error; otherwise it yields `Init`'s state |
| BloomFilterImpl.WriteDump | java/impl/BloomFilterImpl.java:163-178 | the buffer writes produce exactly the encoding of the header and payload |
| BloomFilterFactory.Create | java/impl/BloomFilterFactoryImpl.java:19-21 | fails iff the parameters are invalid; otherwise a fresh filter with no data |
| BloomFilterFactory.CreatedIsEmpty | java/impl/BloomFilterFactoryImpl.java:19-21 | a created filter has zero bytes and contains no key |
| BloomFilterFactory.Load | java/impl/BloomFilterFactoryImpl.java:30-56 | reads the header through the buffer, failing on underflow; then fails iff `LoadSpec` fails, with the same error; otherwise a fresh filter with `LoadSpec`'s state |
| BloomFilterFactory.LoadPayload | java/impl/BloomFilterFactoryImpl.java:40-55 | the order Java keeps: checksum; on flag 1 the gzip header, then the byte count and its allocation, then `readFully`; then the constructor's checks |
| BloomFilterFactory.LoadBitsSize | java/impl/BloomFilterImpl.java:82-85 | the bit count is 0 for a negative rate and 1 for a rate of 1 or a capacity of 0; for a rate of at most 1/2 it is `Integer.MAX_VALUE` for `Integer.MIN_VALUE`, at most 0 for other negative capacities, and at least 1 for positive ones |
| BloomFilterImpl.InfiniteRateBits | java/impl/BloomFilterImpl.java:83 | for the rate `1.0 / 0`: `Integer.MIN_VALUE` bits for a positive capacity (and `Integer.MIN_VALUE`), `Integer.MAX_VALUE` for other negative ones, 0 for capacity 0 |
| BloomFilterFactory.ReadFully | java/impl/BloomFilterFactoryImpl.java:48-51 | a negative count fails on the allocation and on nothing else; a successful read has exactly `n` bytes |
| BloomFilterFactory.Construct | java/impl/BloomFilterFactoryImpl.java:55 | an infinite rate is rejected as invalid; any other goes to `Init` with `1.0 / inverse` |
| BloomFilterFactory.GzipHeaderCheckedFirst | java/impl/BloomFilterFactoryImpl.java:44-48 | on flag 1, a payload without a gzip header is rejected before any size is computed, whatever the sizing |
| BloomFilterFactory.NegativeRateInvalid | java/impl/BloomFilterFactoryImpl.java:36-55 | a negative inverse error is rejected as invalid parameters whatever the capacity, sizing and stream after its header |
| BloomFilterFactory.InfiniteRateRejected | java/impl/BloomFilterFactoryImpl.java:36-55 | an inverse of 0: invalid at once without gzip; with gzip, a negative allocation for a positive capacity and invalid parameters for capacity 0 |
| BloomFilterFactory.ZeroCapacityGzip | java/impl/BloomFilterFactoryImpl.java:44-55 | a capacity of 0 on flag 1 reads one byte: a corrupt stream, an empty stream and a non-empty one give the three different errors |
| BloomFilterFactory.ShortDumpUnderflows | java/impl/BloomFilterFactoryImpl.java:34-37 | load fails on buffer underflow iff the dump is shorter than 9 bytes |
| BloomFilterFactory.ChecksumCheckedFirst | java/impl/BloomFilterFactoryImpl.java:40-41 | a bad checksum is rejected whatever the flag, codec and sizes |
| BloomFilterFactory.OtherFlagsPassThrough | java/impl/BloomFilterFactoryImpl.java:44-55 | with a flag other than 1 the codec is not used and the payload becomes the data |
| BloomFilterFactory.WrongLengthRejected | java/impl/BloomFilterImpl.java:72-75 | after a good checksum, a payload of the wrong length is rejected with a length mismatch |
| BloomFilterFactory.LoadDump | java/tests/BloomFilterTests.java:68-82 | `load(dump(false))` gives back the same filter |
| BloomFilterFactory.LoadGzippedDump | java/tests/BloomFilterTests.java:84-99 | `load(dump(true))` gives back the same filter, for a lossless codec |
| BloomFilterFactory.InitOfState | java/impl/BloomFilterImpl.java:60-80 | constructing from a valid state's own fields and bytes gives that state back |
| BloomFilterFactory.DumpedFieldsReadBack | java/impl/BloomFilterFactoryImpl.java:34-37 | the signed header fields `load` reads are those `dump` wrote |
| BitArray.ByteCount | python/bloom_filter.py:66 | `tobytes()` uses the least number of bytes that hold the bits |
| BitArray.ToBytes | python/bloom_filter.py:66 | `tobytes()` has `ceil(n / 8)` bytes |
| BitArray.FromBytes | python/bloom_filter.py:122-123 | `frombytes` gives 8 bits per byte |
| BitArray.Falses | python/bloom_filter.py:35-36 | `bitarray(n)` after `setall(0)` is `n` False bits |
| BitArray.OrBits | python/bloom_filter.py:154 | `a \| b` is the elementwise OR |
| BitArray.ToBytesBit | python/bloom_filter.py:66 | bit `p` of the bytes is bit `p` of the bitarray |
| BitArray.FromToBytes | python/bloom_filter.py:122-124 | unpacking packed bits gives the bits followed by False padding up to a whole byte |
| BitArray.ToFromBytes | python/bloom_filter.py:122-123 | packing unpacked bytes gives the bytes back |
| BitArray.ToBytesSetBit | python/bloom_filter.py:50 | setting a bitarray bit sets the same bit of its bytes |
| BitArray.ToBytesOr | python/bloom_filter.py:154 | the bytes of an OR are the OR of the bytes |
| BitArray.ToBytesFalses | python/bloom_filter.py:35-36 | the bytes of all-False bits are zero bytes |
| PyBloomFilter.Init | python/bloom_filter.py:25-40 | a capacity of 0 divides by zero (iff); otherwise the sizes derived; empty data replaced by False bits, other data kept |
| PyBloomFilter.PyUnsigned | python/bloom_filter.py:134-136 | `number & 0xffffffff` is below 2^32 and congruent to the number |
| PyBloomFilter.Indexes | python/bloom_filter.py:42-46 | `num_hashes` indexes, all below `num_bits` |
| PyBloomFilter.KeyIndexes | python/bloom_filter.py:42-46 | the indexes of a key in a state are in range |
| PyBloomFilter.AllSet | python/bloom_filter.py:56-57 | `all(...)` is true iff every index is in range and set; an error only for an index out of range |
| PyBloomFilter.SetAll | python/bloom_filter.py:48-50 | `add` keeps the bitarray's length |
| PyBloomFilter.ExtendAll | python/bloom_filter.py:52-54 | `extend` keeps the bitarray's length |
| PyBloomFilter.SetAllExact | python/bloom_filter.py:48-50 | after `add`, a bit is set iff it was set or is indexed |
| PyBloomFilter.AllSetAfterSetAll | python/bloom_filter.py:48-57 | no false negatives: after `add(key)`, `key in bf` |
| PyBloomFilter.AllSetStable | python/bloom_filter.py:48-57 | a contained key stays contained after further `add`s |
| PyBloomFilter.ExtendKeeps | python/bloom_filter.py:52-54 | a key contained before `extend` is contained after |
| PyBloomFilter.ExtendContainsAll | python/bloom_filter.py:52-57 | after `extend(keys)` every key is contained |
| PyBloomFilter.Inverse | python/bloom_filter.py:72 | `int(1.0 / error)` is the floor of the inverse, at least 1 |
| PyBloomFilter.IntToBytes | python/bloom_filter.py:144-146 | `to_bytes` succeeds iff the number fits the length, and then reads back as the number |
| PyBloomFilter.IntToBytesOfValue | python/bloom_filter.py:144-146 | every byte string is the `to_bytes` of its `from_bytes` |
| PyBloomFilter.PyHeader | python/bloom_filter.py:71-78 | the header fields fit their widths |
| PyBloomFilter.DumpBytes | python/bloom_filter.py:65-89 | fails with OverflowError iff the inverse or capacity does not fit; otherwise the shared layout of header and payload |
| PyBloomFilter.Slice | python/bloom_filter.py:107-110 | `s[i:j]` on a long enough input is the plain slice |
| PyBloomFilter.SliceFrom | python/bloom_filter.py:112 | `s[9:]` is the rest, or empty on a short input |
| PyBloomFilter.ErrorRate | python/bloom_filter.py:120 | `1.0 / inverted_error` is a rate in (0, 1] |
| PyBloomFilter.BloomFilter.Value | python/bloom_filter.py:29-36 | the object's invariant is exactly the validity of its attribute values |
| PyBloomFilter.BloomFilter.constructor | python/bloom_filter.py:25-40 | the new object's attributes are what `Init` computes |
| PyBloomFilter.BloomFilter.Contains | python/bloom_filter.py:56-57 | `key in bf` on a full-length bitarray is whether every indexed bit is set |
| PyBloomFilter.BloomFilter.Add | python/bloom_filter.py:48-50 | succeeds iff every index is in range; the new bits are exactly the indexed ones set; then `key in bf` |
| PyBloomFilter.BloomFilter.Extend | python/bloom_filter.py:52-54 | succeeds iff every key's indexes are in range; the new bits are `extend`'s |
| PyBloomFilter.BloomFilter.Dump | python/bloom_filter.py:65-89 | the `+=` built bytes are exactly the dump of the state |
| PyBloomFilter.NewFilter | python/bloom_filter.py:25-40 | the constructor raises exactly when `Init` errs; otherwise it yields `Init`'s state |
| PyBloomFilter.Load | python/bloom_filter.py:104-126 | the corrected load: fails iff `LoadFixed` fails, with the same error; otherwise its state |
| PyBloomFilter.Union | python/bloom_filter.py:148-155 | the asserts in order, then the length check of `\|`, then a fresh filter over the OR |
| PyBloomFilter.LoadReadsHeader | python/bloom_filter.py:107-112 | on a whole header the slices read the fields of the shared layout |
| PyBloomFilter.PyChecksumCheckedFirst | python/bloom_filter.py:114-115 | a bad checksum is rejected whatever the codec and sizes |
| PyBloomFilter.EmptyDumpDividesByZero | python/bloom_filter.py:107-120 | the empty dump passes the checksum and fails on division by zero |
| PyBloomFilter.DumpedFieldsRead | python/bloom_filter.py:107-112 | `load` reads back each field `dump` wrote |
| PyBloomFilter.LoadDumpedAsWritten | python/bloom_filter.py:104-126 | `load(dump(f))` is `f` with its bits padded to whole bytes |
| PyBloomFilter.AsWrittenRoundTrip | python/bloom_filter.py:122-126 | the as-written round trip holds iff `num_bits` is a multiple of 8 |
| PyBloomFilter.PaddingVanishes | python/bloom_filter.py:122-124 | `frombytes(tobytes(d)) == d` iff the length is a multiple of 8 |
| PyBloomFilter.ExampleFilterIsCreated | python/bloom_filter.py:25-40 | `BloomFilter(1, 0.5)` has two False bits and two hashes |
| PyBloomFilter.RoundTripCounterexample | python/tests/bloom_filter_tests.py:42-51 | that filter does not survive `dump(False)` and `load` |
| PyBloomFilter.LoadFixedRoundTrip | python/tests/bloom_filter_tests.py:42-62 | the corrected `load(dump(f))` is `f`, gzipped or not |
| PyBloomFilter.UnionOfCompatible | python/bloom_filter.py:148-155 | union of filters with equal parameters and lengths is the OR with the same sizes |
| PyBloomFilter.UnionContains | python/bloom_filter.py:154 | a key either operand contains is contained in the union |
| CrossCompat.UnsignedNarrow | java/impl/BloomFilterImpl.java:105 | `unsigned((int) x)` is `x` modulo 2^32 |
| CrossCompat.IndexesAgree | python/bloom_filter.py:42-46 | Python's indexes are Java's probes, given the same Murmur3 |
| CrossCompat.SetAllAgrees | python/bloom_filter.py:48-50 | setting bitarray bits sets the same bits of the bytes |
| CrossCompat.KeyIndexesAgree | python/bloom_filter.py:42-46 | corresponding filters probe the same positions |
| CrossCompat.AddAgrees | python/bloom_filter.py:48-50 | `add` keeps corresponding filters corresponding |
| CrossCompat.ContainsAgrees | python/bloom_filter.py:56-57 | `contains` answers the same on corresponding filters |
| CrossCompat.UnionAgrees | python/bloom_filter.py:154 | the unions of corresponding filters have corresponding data |
| CrossCompat.CreateAgrees | python/bloom_filter.py:34-36 | fresh filters correspond |
| CrossCompat.DumpsAgree | python/bloom_filter.py:65-89 | the Python dump of a filter is the Java dump of the corresponding one |
| CrossCompat.JavaLoadsPythonDump | java/impl/BloomFilterFactoryImpl.java:30-56 | Java's `load` of a Python dump gives the corresponding Java filter |
| CrossCompat.PythonLoadsJavaDump | python/bloom_filter.py:104-126 | the corrected Python `load` of a Java dump gives the corresponding Python filter |

## Left out

- Murmur3 (Guava `murmur3_32`, `mmh3.hash`) is a parameter. The key's charset encoding happens inside it, and Java uses `Charset.defaultCharset()`.
- The floating-point size formulas (`getDataBitsSize`, the hash-count formula, `__init__`'s `num_bits` and `_calc_num_hashes`) are a parameter. Floats are modelled as reals. The parameter is constrained only by what the sign of the logarithm decides. For a rate in (0, 1) and a negative capacity, the exact bit count `load` then allocates (at most 0, so 1, 0 or a negative byte count) is left to it.
- gzip (`GZIPOutputStream`/`GZIPInputStream`, `zip_bytes`/`unzip_bytes`) is a parameter: a header test and a whole-stream decompression. The round trips assume a lossless codec.
- BloomFilterFactory.ReadFully: a stream corrupt only after its first `n` decompressed bytes is rejected as corrupt. Java's `readFully` may stop before the inflater reaches the damage. The model does not split decompression into a readable prefix. `ZipException` and `EOFException` raised by the header read are both `CorruptGzip`.
- BloomFilterFactory.InverseRederives: the round trips assume that `1.0 / (short) (1.0 / e)` is `e`. This holds for the rates the tests use, but double rounding is not modelled.
- PyBloomFilter.LoadFixedRoundTrip: the same assumption appears as `ErrorRate(Inverse(e)) == e`.
- Base64 transport (`dumpToBase64`, `loadFromBase64`, `dump_to_base64_str`, `load_from_base64_str`): RFC 4648 encoding is outside the core.
- `hashCode`, `Serializable`, the getters other than through the state, and the interfaces `BloomFilter` and `BloomFilterFactory` are not part of this model.
- `__len__` (a floating-point estimate of the number of keys) is not part of this model.
- `__eq__`/`__ne__` are not modelled as methods. Equality of filters is equality of their `PyState` values.
- The `endian` argument of the Python code is fixed at `'little'`, the only value the dump format works with.
- PyBloomFilter.Init: the model excludes a negative capacity and an error rate outside (0, 1], which `load` cannot produce. Some of them still make a working filter in Python: `BloomFilter(1, 1.5)` and `BloomFilter(-1, 0.9)` each get 1 bit and 1 hash.
- PyBloomFilter.Init, PyBloomFilter.BloomFilter.constructor, PyBloomFilter.BloomFilter.Dump: Python's default arguments (`capacity=100000, error=0.005` and `gzipped=True`) are not modelled; callers pass every argument explicitly.
- PyBloomFilter.Load: this method follows the corrected `LoadFixed` rather than the source. The source behaviour is `LoadAsWritten`; see Findings.
- Exceptions are modelled as `Err` values. Exception messages are not modelled.

## Findings

| source | as written | input that shows it | evidently intended | confidence | as-written member | corrected member |
|---|---|---|---|---|---|---|
| python/bloom_filter.py:122-126 | `load` rebuilds the bitarray from the whole payload bytes and passes it to the constructor as it is. The `num_bits` computed at line 124 is never used, so the loaded filter has 8 bits per payload byte. | `BloomFilter(capacity=1, error=0.5)`: `num_bits` is 2, and `load(dump(gzipped=False))` gives an 8-bit bitarray, so `__eq__` fails. The round trip fails whenever `num_bits % 8 != 0`. The round-trip tests at python/tests/bloom_filter_tests.py:42-62 use `BloomFilter(100000, 0.005)`, whose 1102776 bits are a multiple of 8, so they do not expose it. | The loaded bitarray cut back to `num_bits`, so that `load(dump(f)) == f` as those tests assert. | not executed | PyBloomFilter.LoadAsWritten, PyBloomFilter.AsWrittenRoundTrip, PyBloomFilter.RoundTripCounterexample | PyBloomFilter.LoadFixed, PyBloomFilter.LoadFixedRoundTrip, PyBloomFilter.Load |
