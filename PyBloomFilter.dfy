/**
 * The Python filter (`BloomFilter` in bloom_filter.py): a `bitarray` of
 * `num_bits` bits probed `num_hashes` times per key, `add`, `extend`,
 * `__contains__`, `dump`, `load` and `union`.
 *
 * As on the Java side, the floating-point size formulas are a parameter
 * `sizing`, `mmh3.hash` is a parameter `h` and gzip is a parameter `gz`.
 * Python integers are unbounded, so `h1 + i * h2` is exact and only
 * `_unsigned` reduces it to 32 bits.
 */
module PyBloomFilter {
  import opened Primitives
  import opened LittleEndian
  import opened Checksum
  import opened DumpFormat
  import opened Bits
  import opened BitArray

  /**
   * The exceptions the Python code raises on its error paths: "Bad checksum",
   * a corrupt gzip stream, a division by zero in `load` (an inverse error of
   * 0) or in `_calc_num_hashes` (a capacity of 0), `to_bytes` overflow, an
   * index past the end of the bitarray, the `assert`s of `union`, and
   * `bitarray.__or__` on arrays of different lengths.
   */
  datatype PyError =
    | BadChecksum
    | CorruptGzip
    | ZeroDivisionError
    | OverflowError
    | IndexError
    | AssertionError
    | ValueError

  datatype PySizes = PySizes(numBits: int, numHashes: int)

  /**
   * Where `__init__`'s formulas are defined and give sizes of at least 1:
   * `math.log(error)` needs `error > 0`, and for `error <= 1` and
   * `capacity >= 1` both `int(...) + 1` come out at least 1.
   */
  predicate PyValidParams(capacity: int, error: real)
  {
    capacity >= 1 && 0.0 < error <= 1.0
  }

  /**
   * `num_bits = int(-capacity * math.log(error) / math.log(2) ** 2) + 1` and
   * `num_hashes = int(num_bits * math.log(2) / float(capacity)) + 1`.
   */
  type PySizing = f: (int, real) -> PySizes
    | forall c: int, e: real :: PyValidParams(c, e) ==> f(c, e).numBits >= 1 && f(c, e).numHashes >= 1
    witness (c: int, e: real) => PySizes(1, 1)

  /** The values of a filter's attributes (`__dict__`), with the bitarray's contents. */
  datatype PyState = PyState(capacity: int, error: real, numBits: nat, numHashes: nat, data: seq<bool>)

  predicate ValidState(st: PyState)
  {
    PyValidParams(st.capacity, st.error) && st.numBits >= 1 && st.numHashes >= 1
  }

  /** The sizes of `st` are the ones `sizing` derives from its capacity and error rate. */
  predicate DerivedBy(st: PyState, sizing: PySizing)
  {
    sizing(st.capacity, st.error) == PySizes(st.numBits, st.numHashes)
  }

  /**
   * `BloomFilter(capacity, error, data=data)` on values, for a capacity and
   * error rate that the float formulas accept (all that `load` can pass): a
   * capacity of 0 divides by zero in `_calc_num_hashes`; an empty (or absent)
   * `data` is replaced by `num_bits` False bits; any other `data` is kept
   * whatever its length.
   */
  function Init(data: seq<bool>, capacity: int, error: real, sizing: PySizing): (r: Result<PyState, PyError>)
    requires capacity >= 0 && 0.0 < error <= 1.0
    ensures r.Err? <==> capacity == 0
    ensures r.Err? ==> r.error == ZeroDivisionError
    ensures r.Ok? ==> ValidState(r.value) && DerivedBy(r.value, sizing)
    ensures r.Ok? ==> r.value.capacity == capacity && r.value.error == error
    ensures r.Ok? ==> r.value.data == if data == [] then Falses(r.value.numBits) else data
  {
    if capacity == 0 then Err(ZeroDivisionError)
    else
      var s := sizing(capacity, error);
      Ok(PyState(capacity, error, s.numBits as nat, s.numHashes as nat,
                 if data == [] then Falses(s.numBits as nat) else data))
  }

  /** `_unsigned(number)`: `number & 0xffffffff`, the low 32 bits of a Python integer. */
  function PyUnsigned(x: int): (r: nat)
    ensures r < TWO_32 && (r - x) % TWO_32 == 0
  {
    x % TWO_32
  }

  /**
   * `_indexes(key)`: with `h1 = mmh3.hash(key, 42)` and
   * `h2 = mmh3.hash(key, h1)`, index `i` is
   * `_unsigned(h1 + i * h2) % num_bits`; every index is below `num_bits`.
   */
  function Indexes(h: Murmur3, key: string, numHashes: nat, numBits: nat): (idx: seq<nat>)
    requires numBits >= 1
    ensures |idx| == numHashes
    ensures InRange(idx, numBits)
  {
    var h1 := h(42, key);
    var h2 := h(h1, key);
    seq(numHashes, i requires 0 <= i => PyUnsigned(h1 as int + i * h2 as int) % numBits)
  }

  /** The indexes of `key` in a filter in state `st`. */
  function KeyIndexes(st: PyState, h: Murmur3, key: string): (idx: seq<nat>)
    requires ValidState(st)
    ensures |idx| == st.numHashes && InRange(idx, st.numBits)
  {
    Indexes(h, key, st.numHashes, st.numBits)
  }

  /**
   * `all(self.data[index] for index in indexes)`: stops at the first False
   * bit; an index past the end of the bitarray raises IndexError when it is
   * reached.
   */
  function AllSet(d: seq<bool>, idx: seq<nat>): (r: Result<bool, PyError>)
    ensures InRange(idx, |d|) ==> r == Ok(forall i :: 0 <= i < |idx| ==> d[idx[i]])
    ensures r.Err? ==> r.error == IndexError && !InRange(idx, |d|)
    ensures r == Ok(true) <==> InRange(idx, |d|) && forall i :: 0 <= i < |idx| ==> d[idx[i]]
    decreases |idx|
  {
    if idx == [] then Ok(true)
    else if idx[0] >= |d| then Err(IndexError)
    else if !d[idx[0]] then Ok(false)
    else AllSet(d, idx[1..])
  }

  /**
   * `for index in indexes: self.data[index] = True`: sets the bits in order;
   * an index past the end raises IndexError there, leaving the bits set so far.
   */
  function SetAll(d: seq<bool>, idx: seq<nat>): (r: seq<bool>)
    ensures |r| == |d|
    decreases |idx|
  {
    if idx == [] || idx[0] >= |d| then d else SetAll(d[idx[0] := true], idx[1..])
  }

  /** `extend(keys)`: `add` of each key in order, stopping at the first exception. */
  function ExtendAll(d: seq<bool>, h: Murmur3, keys: seq<string>, numHashes: nat, numBits: nat): (r: seq<bool>)
    requires numBits >= 1
    ensures |r| == |d|
    decreases |keys|
  {
    if keys == [] then d
    else
      var idx := Indexes(h, keys[0], numHashes, numBits);
      if !InRange(idx, |d|) then SetAll(d, idx)
      else ExtendAll(SetAll(d, idx), h, keys[1..], numHashes, numBits)
  }

  /** `add` sets exactly the indexed bits: a bit is set afterwards when it was set before or is indexed. */
  lemma {:induction false} SetAllExact(d: seq<bool>, idx: seq<nat>, q: nat)
    requires InRange(idx, |d|) && q < |d|
    ensures SetAll(d, idx)[q] <==> d[q] || q in idx
    decreases |idx|
  {
    if idx != [] {
      assert forall i :: 0 <= i < |idx[1..]| ==> idx[1..][i] == idx[i + 1];
      SetAllExact(d[idx[0] := true], idx[1..], q);
      assert idx == [idx[0]] + idx[1..];
    }
  }

  /** After setting the indexed bits, all of them are set. */
  lemma AllSetAfterSetAll(d: seq<bool>, idx: seq<nat>)
    requires InRange(idx, |d|)
    ensures AllSet(SetAll(d, idx), idx) == Ok(true)
  {
    forall i | 0 <= i < |idx|
      ensures SetAll(d, idx)[idx[i]]
    {
      SetAllExact(d, idx, idx[i]);
    }
  }

  /** Setting further bits keeps every set bit set. */
  lemma AllSetStable(d: seq<bool>, idx: seq<nat>, other: seq<nat>)
    requires InRange(idx, |d|) && InRange(other, |d|) && AllSet(d, idx) == Ok(true)
    ensures AllSet(SetAll(d, other), idx) == Ok(true)
  {
    forall i | 0 <= i < |idx|
      ensures SetAll(d, other)[idx[i]]
    {
      SetAllExact(d, other, idx[i]);
    }
  }

  /** A key added earlier stays contained through the rest of `extend`. */
  lemma {:induction false} ExtendKeeps(d: seq<bool>, h: Murmur3, keys: seq<string>, numHashes: nat, numBits: nat, idx: seq<nat>)
    requires numBits >= 1 && |d| >= numBits && InRange(idx, |d|) && AllSet(d, idx) == Ok(true)
    ensures AllSet(ExtendAll(d, h, keys, numHashes, numBits), idx) == Ok(true)
    decreases |keys|
  {
    if keys != [] {
      var other := Indexes(h, keys[0], numHashes, numBits);
      AllSetStable(d, idx, other);
      ExtendKeeps(SetAll(d, other), h, keys[1..], numHashes, numBits, idx);
    }
  }

  /** After `extend(keys)` on a bitarray of at least `num_bits` bits, every key is contained. */
  lemma {:induction false} ExtendContainsAll(d: seq<bool>, h: Murmur3, keys: seq<string>, numHashes: nat, numBits: nat, j: nat)
    requires numBits >= 1 && |d| >= numBits && j < |keys|
    ensures AllSet(ExtendAll(d, h, keys, numHashes, numBits), Indexes(h, keys[j], numHashes, numBits)) == Ok(true)
    decreases |keys|
  {
    var first := Indexes(h, keys[0], numHashes, numBits);
    if j == 0 {
      AllSetAfterSetAll(d, first);
      ExtendKeeps(SetAll(d, first), h, keys[1..], numHashes, numBits, first);
    } else {
      assert keys[1..][j - 1] == keys[j];
      ExtendContainsAll(SetAll(d, first), h, keys[1..], numHashes, numBits, j - 1);
    }
  }

  /** `int(1.0 / error)`: Python's `int` truncates, which for a positive rate is the floor. */
  function Inverse(error: real): (r: int)
    requires error > 0.0
    ensures r >= 0 && r as real <= 1.0 / error < r as real + 1.0
    ensures error <= 1.0 ==> r >= 1
  {
    (1.0 / error).Floor
  }

  /**
   * `_int_to_bytes(number, length)`: `number.to_bytes(length, 'little')`,
   * which raises OverflowError unless `0 <= number < 256^length`; reading
   * the bytes back with `int.from_bytes` gives the number.
   */
  function IntToBytes(n: int, len: nat): (r: Result<seq<Byte>, PyError>)
    ensures r.Ok? <==> 0 <= n < Pow256(len)
    ensures r.Err? ==> r.error == OverflowError
    ensures r.Ok? ==> |r.value| == len && LeValue(r.value) == n
  {
    if 0 <= n < Pow256(len) then
      LeValueOfBytes(n, len);
      Ok(LeBytes(n, len))
    else Err(OverflowError)
  }

  /** Every `len` bytes are what `_int_to_bytes` writes for the number `int.from_bytes` reads from them. */
  lemma IntToBytesOfValue(b: seq<Byte>)
    ensures IntToBytes(LeValue(b), |b|) == Ok(b)
  {
    LeBytesOfValue(b);
  }

  /** The payload of a dump: `tobytes()`, gzip-compressed when asked. */
  function PyPayload(data: seq<bool>, gzipped: bool, gz: Gzip): seq<Byte>
  {
    if gzipped then gz.compress(ToBytes(data)) else ToBytes(data)
  }

  /** The header `dump` writes, for a filter whose inverse error and capacity fit their widths. */
  function PyHeader(st: PyState, gzipped: bool, gz: Gzip): (hd: Header)
    requires ValidState(st) && Inverse(st.error) < TWO_16 && st.capacity < TWO_32
    ensures WellFormed(hd)
  {
    Header(PyChecksum(PyPayload(st.data, gzipped, gz)), if gzipped then 1 else 0, Inverse(st.error), st.capacity)
  }

  /**
   * `dump(gzipped)` on values. It fails with OverflowError exactly when the
   * inverse error does not fit 2 bytes or the capacity 4; otherwise it is
   * the shared dump layout of its header and payload.
   */
  function DumpBytes(st: PyState, gzipped: bool, gz: Gzip): (r: Result<seq<Byte>, PyError>)
    requires ValidState(st)
    ensures r.Err? <==> Inverse(st.error) >= TWO_16 || st.capacity >= TWO_32
    ensures r.Err? ==> r.error == OverflowError
    ensures r.Ok? ==> r.value == Encode(PyHeader(st, gzipped, gz), PyPayload(st.data, gzipped, gz))
  {
    Pow256Widths();
    var dataBytes := PyPayload(st.data, gzipped, gz);
    var checksumBytes := IntToBytes(PyChecksum(dataBytes), 2);
    var gzippedBytes := IntToBytes(if gzipped then 1 else 0, 1);
    var invertedErrorBytes := IntToBytes(Inverse(st.error), 2);
    var capacityBytes := IntToBytes(st.capacity, 4);
    if invertedErrorBytes.Err? || capacityBytes.Err? then Err(OverflowError)
    else
      LeBytesOfValue(checksumBytes.value);
      LeBytesOfValue(gzippedBytes.value);
      LeBytesOfValue(invertedErrorBytes.value);
      LeBytesOfValue(capacityBytes.value);
      assert gzippedBytes.value == [if gzipped then 1 else 0];
      Ok(checksumBytes.value + gzippedBytes.value + invertedErrorBytes.value + capacityBytes.value + dataBytes)
  }

  /** The slice `s[i:j]` for `0 <= i <= j`: Python clips both ends to the length. */
  function Slice(s: seq<Byte>, i: nat, j: nat): (r: seq<Byte>)
    requires i <= j
    ensures |s| >= j ==> r == s[i..j]
  {
    var hi := if j <= |s| then j else |s|;
    var lo := if i <= hi then i else hi;
    s[lo..hi]
  }

  /** The slice `s[i:]`: empty when `i` is past the end. */
  function SliceFrom(s: seq<Byte>, i: nat): (r: seq<Byte>)
    ensures |s| >= i ==> r == s[i..]
    ensures |s| < i ==> r == []
  {
    if i <= |s| then s[i..] else []
  }

  /** `1.0 / inverted_error` for a non-zero 16-bit inverse: a rate in (0, 1]. */
  function ErrorRate(inverse: nat): (e: real)
    requires inverse >= 1
    ensures 0.0 < e <= 1.0
  {
    1.0 / inverse as real
  }

  /**
   * `load(dump_bytes)` as written. Short dumps are not an error: every slice
   * is clipped and `int.from_bytes(b'')` is 0. The checksum is checked
   * before unzipping; any non-zero flag byte means gzipped; an inverse of 0
   * divides by zero. The bitarray is rebuilt from whole bytes and passed
   * to the constructor as it is, so it has 8 bits per payload byte.
   */
  function LoadAsWritten(dump: seq<Byte>, sizing: PySizing, gz: Gzip): Result<PyState, PyError>
  {
    var checksum := LeValue(Slice(dump, 0, 2));
    var gzipped := LeValue(Slice(dump, 2, 3)) != 0;
    var invertedError := LeValue(Slice(dump, 3, 5));
    var capacity := LeValue(Slice(dump, 5, 9));
    var bitarrayData := SliceFrom(dump, 9);
    if checksum != PyChecksum(bitarrayData) then Err(BadChecksum)
    else
      var unzipped := if gzipped then gz.decompress(bitarrayData) else Some(bitarrayData);
      if unzipped.None? then Err(CorruptGzip)
      else if invertedError == 0 then Err(ZeroDivisionError)
      else Init(FromBytes(unzipped.value), capacity, ErrorRate(invertedError), sizing)
  }

  /**
   * `load` with the bitarray cut back to `num_bits`, the length the filter
   * was dumped with (the padding bits of the last byte dropped); a payload
   * too short for `num_bits` is rejected.
   */
  function LoadFixed(dump: seq<Byte>, sizing: PySizing, gz: Gzip): Result<PyState, PyError>
  {
    match LoadAsWritten(dump, sizing, gz)
    case Err(e) => Err(e)
    case Ok(st) =>
      if |st.data| < st.numBits then Err(ValueError)
      else Ok(st.(data := st.data[..st.numBits]))
  }

  /** `union(bloom_a, bloom_b)` on values. */
  function UnionSpec(a: PyState, b: PyState, sizing: PySizing): Result<PyState, PyError>
    requires ValidState(a) && ValidState(b)
  {
    if a.capacity != b.capacity then Err(AssertionError)
    else if a.error != b.error then Err(AssertionError)
    else if |a.data| != |b.data| then Err(ValueError)
    else Ok(Init([], a.capacity, a.error, sizing).value.(data := OrBits(a.data, b.data)))
  }

  class BloomFilter {
    const capacity: int
    const error: real
    const numBits: nat
    const numHashes: nat
    /** `self.data`, the bitarray; `add` and `union` replace its contents. */
    var data: seq<bool>

    ghost predicate Valid()
    {
      PyValidParams(capacity, error) && numBits >= 1 && numHashes >= 1
    }

    function Value(): (st: PyState)
      reads this
      ensures Valid() <==> ValidState(st)
    {
      PyState(capacity, error, numBits, numHashes, data)
    }

    /** `__init__(capacity, error, data=data)` where the float formulas are defined and the capacity is positive. */
    constructor (capacity: int, error: real, data: seq<bool>, sizing: PySizing)
      requires PyValidParams(capacity, error)
      ensures Valid() && Init(data, capacity, error, sizing) == Ok(Value())
    {
      this.capacity := capacity;
      this.error := error;
      var sizes := sizing(capacity, error);
      numBits := sizes.numBits as nat;
      numHashes := sizes.numHashes as nat;
      this.data := data;
      if data == [] {
        this.data := Falses(sizes.numBits as nat);
      }
    }

    /** `key in bf`. */
    function Contains(h: Murmur3, key: string): (r: Result<bool, PyError>)
      reads this
      requires Valid()
      ensures |data| >= numBits ==>
                r == Ok(forall i :: 0 <= i < numHashes ==> data[Indexes(h, key, numHashes, numBits)[i]])
      ensures r.Err? ==> r.error == IndexError && |data| < numBits
    {
      AllSet(data, Indexes(h, key, numHashes, numBits))
    }

    /** `add(key)`. */
    method Add(h: Murmur3, key: string) returns (r: Result<(), PyError>)
      requires Valid()
      modifies this
      ensures r.Ok? <==> InRange(Indexes(h, key, numHashes, numBits), |old(data)|)
      ensures r.Err? ==> r.error == IndexError
      ensures data == SetAll(old(data), Indexes(h, key, numHashes, numBits))
      ensures r.Ok? ==> Contains(h, key) == Ok(true)
    {
      var idx := Indexes(h, key, numHashes, numBits);
      var i := 0;
      while i < |idx|
        invariant 0 <= i <= |idx|
        invariant |data| == |old(data)|
        invariant forall j :: 0 <= j < i ==> idx[j] < |old(data)|
        invariant SetAll(data, idx[i..]) == SetAll(old(data), idx)
      {
        if idx[i] >= |data| {
          return Err(IndexError);
        }
        assert idx[i..][1..] == idx[i + 1..];
        data := data[idx[i] := true];
        i := i + 1;
      }
      AllSetAfterSetAll(old(data), idx);
      r := Ok(());
    }

    /** `extend(keys)`. */
    method Extend(h: Murmur3, keys: seq<string>) returns (r: Result<(), PyError>)
      requires Valid()
      modifies this
      ensures r.Ok? <==> forall j :: 0 <= j < |keys| ==> InRange(Indexes(h, keys[j], numHashes, numBits), |old(data)|)
      ensures r.Err? ==> r.error == IndexError
      ensures data == ExtendAll(old(data), h, keys, numHashes, numBits)
    {
      var i := 0;
      while i < |keys|
        invariant 0 <= i <= |keys|
        invariant |data| == |old(data)|
        invariant forall j :: 0 <= j < i ==> InRange(Indexes(h, keys[j], numHashes, numBits), |old(data)|)
        invariant ExtendAll(data, h, keys[i..], numHashes, numBits) == ExtendAll(old(data), h, keys, numHashes, numBits)
      {
        assert keys[i..][0] == keys[i] && keys[i..][1..] == keys[i + 1..];
        r := Add(h, keys[i]);
        if r.Err? {
          return;
        }
        i := i + 1;
      }
      r := Ok(());
    }

    /** `dump(gzipped)`: the 9-byte header, then the payload, accumulated with `+=`. */
    method Dump(gzipped: bool, gz: Gzip) returns (r: Result<seq<Byte>, PyError>)
      requires Valid()
      ensures r == DumpBytes(Value(), gzipped, gz)
    {
      Pow256Widths();
      var dataBytes := ToBytes(data);
      if gzipped {
        dataBytes := gz.compress(dataBytes);
      }
      var checksum := PyChecksum(dataBytes);
      var invertedError := Inverse(error);
      var checksumBytes := IntToBytes(checksum, 2);
      var gzippedBytes := IntToBytes(if gzipped then 1 else 0, 1);
      var invertedErrorBytes := IntToBytes(invertedError, 2);
      if invertedErrorBytes.Err? {
        return Err(OverflowError);
      }
      var capacityBytes := IntToBytes(capacity, 4);
      if capacityBytes.Err? {
        return Err(OverflowError);
      }
      var dumpedBytes := checksumBytes.value;
      dumpedBytes := dumpedBytes + gzippedBytes.value;
      dumpedBytes := dumpedBytes + invertedErrorBytes.value;
      dumpedBytes := dumpedBytes + capacityBytes.value;
      dumpedBytes := dumpedBytes + dataBytes;
      r := Ok(dumpedBytes);
    }
  }

  /** The constructor with its exception: a capacity of 0 divides by zero. */
  method NewFilter(data: seq<bool>, capacity: nat, error: real, sizing: PySizing) returns (r: Result<BloomFilter, PyError>)
    requires 0.0 < error <= 1.0
    ensures r.Err? <==> Init(data, capacity, error, sizing).Err?
    ensures r.Err? ==> r.error == ZeroDivisionError
    ensures r.Ok? ==> fresh(r.value) && r.value.Valid() && Init(data, capacity, error, sizing) == Ok(r.value.Value())
  {
    if capacity == 0 {
      return Err(ZeroDivisionError);
    }
    var f := new BloomFilter(capacity, error, data, sizing);
    r := Ok(f);
  }

  /** `load(dump_bytes)`, with the bitarray cut back to `num_bits` (see LoadFixed). */
  method Load(dump: seq<Byte>, sizing: PySizing, gz: Gzip) returns (r: Result<BloomFilter, PyError>)
    ensures r.Err? <==> LoadFixed(dump, sizing, gz).Err?
    ensures r.Err? ==> r.error == LoadFixed(dump, sizing, gz).error
    ensures r.Ok? ==> fresh(r.value) && r.value.Valid() && r.value.Value() == LoadFixed(dump, sizing, gz).value
  {
    var checksum := LeValue(Slice(dump, 0, 2));
    var gzipped := LeValue(Slice(dump, 2, 3)) != 0;
    var invertedError := LeValue(Slice(dump, 3, 5));
    var capacity := LeValue(Slice(dump, 5, 9));
    var bitarrayData := SliceFrom(dump, 9);
    if checksum != PyChecksum(bitarrayData) {
      return Err(BadChecksum);
    }
    if gzipped {
      var unzipped := gz.decompress(bitarrayData);
      if unzipped.None? {
        return Err(CorruptGzip);
      }
      bitarrayData := unzipped.value;
    }
    if invertedError == 0 {
      return Err(ZeroDivisionError);
    }
    var error := ErrorRate(invertedError);
    var newBitarray := FromBytes(bitarrayData);
    r := NewFilter(newBitarray, capacity, error, sizing);
    if r.Ok? {
      var f := r.value;
      if |f.data| < f.numBits {
        return Err(ValueError);
      }
      f.data := f.data[..f.numBits];
    }
  }

  /** `union(bloom_a, bloom_b)`. */
  method Union(a: BloomFilter, b: BloomFilter, sizing: PySizing) returns (r: Result<BloomFilter, PyError>)
    requires a.Valid() && b.Valid()
    ensures r.Err? <==> UnionSpec(a.Value(), b.Value(), sizing).Err?
    ensures r.Err? ==> r.error == UnionSpec(a.Value(), b.Value(), sizing).error
    ensures r.Ok? ==> fresh(r.value) && r.value.Valid() && r.value.Value() == UnionSpec(a.Value(), b.Value(), sizing).value
  {
    if a.capacity != b.capacity {
      return Err(AssertionError);
    }
    if a.error != b.error {
      return Err(AssertionError);
    }
    var bloomUnion := new BloomFilter(a.capacity, a.error, [], sizing);
    if |a.data| != |b.data| {
      return Err(ValueError);
    }
    bloomUnion.data := OrBits(a.data, b.data);
    r := Ok(bloomUnion);
  }

  /** `load` reads the fields at the offsets of the shared layout when the dump holds a whole header. */
  lemma LoadReadsHeader(dump: seq<Byte>)
    requires |dump| >= HEADER_SIZE
    ensures var (hd, payload) := Decode(dump).value;
            && LeValue(Slice(dump, 0, 2)) == hd.checksum && LeValue(Slice(dump, 2, 3)) == hd.gzipped as nat
            && LeValue(Slice(dump, 3, 5)) == hd.inverse && LeValue(Slice(dump, 5, 9)) == hd.capacity
            && SliceFrom(dump, 9) == payload
  {
    assert dump[2..3] == [dump[2]];
  }

  /**
   * The checksum is checked before anything else: a dump whose checksum
   * field does not match its payload is rejected the same way whatever the
   * codec and the sizes.
   */
  lemma PyChecksumCheckedFirst(dump: seq<Byte>, sizing: PySizing, sizing': PySizing, gz: Gzip, gz': Gzip)
    requires LeValue(Slice(dump, 0, 2)) != PyChecksum(SliceFrom(dump, 9))
    ensures LoadAsWritten(dump, sizing, gz) == LoadAsWritten(dump, sizing', gz') == Err(BadChecksum)
    ensures LoadFixed(dump, sizing, gz) == Err(BadChecksum)
  {
  }

  /**
   * A dump shorter than the header is not rejected as such: the empty dump
   * reads as checksum 0, which is the checksum of the empty payload, and
   * fails only on the division by its inverse error of 0.
   */
  lemma EmptyDumpDividesByZero(sizing: PySizing, gz: Gzip)
    ensures LoadAsWritten([], sizing, gz) == Err(ZeroDivisionError)
  {
    assert Crc32([]) == 0;
    assert Fold(0) == 0;
  }

  /** `dump` writes, and `load` reads back, each header field and the payload. */
  lemma {:induction false} DumpedFieldsRead(st: PyState, gzipped: bool, gz: Gzip)
    requires ValidState(st) && DumpBytes(st, gzipped, gz).Ok?
    ensures var dump := DumpBytes(st, gzipped, gz).value;
            && LeValue(Slice(dump, 0, 2)) == PyChecksum(PyPayload(st.data, gzipped, gz))
            && LeValue(Slice(dump, 2, 3)) == (if gzipped then 1 else 0)
            && LeValue(Slice(dump, 3, 5)) == Inverse(st.error)
            && LeValue(Slice(dump, 5, 9)) == st.capacity
            && SliceFrom(dump, 9) == PyPayload(st.data, gzipped, gz)
  {
    var hd := PyHeader(st, gzipped, gz);
    var payload := PyPayload(st.data, gzipped, gz);
    var dump := DumpBytes(st, gzipped, gz).value;
    DecodeEncode(hd, payload);
    LoadReadsHeader(dump);
  }

  /**
   * What `load` as written makes of a dump: a filter equal to the dumped
   * one except that its bitarray is the dumped bits followed by the zero
   * padding of the last byte.
   */
  lemma {:induction false} LoadDumpedAsWritten(st: PyState, gzipped: bool, sizing: PySizing, gz: Gzip)
    requires ValidState(st) && DerivedBy(st, sizing) && |st.data| == st.numBits
    requires ErrorRate(Inverse(st.error)) == st.error
    requires DumpBytes(st, gzipped, gz).Ok?
    requires gzipped ==> Lossless(gz)
    ensures LoadAsWritten(DumpBytes(st, gzipped, gz).value, sizing, gz) == Ok(st.(data := FromBytes(ToBytes(st.data))))
  {
    DumpedFieldsRead(st, gzipped, gz);
    var dump := DumpBytes(st, gzipped, gz).value;
    var payload := PyPayload(st.data, gzipped, gz);
    var unzipped := if gzipped then gz.decompress(payload) else Some(payload);
    if gzipped {
      assert gz.decompress(gz.compress(ToBytes(st.data))) == Some(ToBytes(st.data));
    }
    assert unzipped == Some(ToBytes(st.data));
    var loaded := FromBytes(ToBytes(st.data));
    assert |loaded| >= 8;
    assert Init(loaded, st.capacity, st.error, sizing) == Ok(st.(data := loaded));
    assert LoadAsWritten(dump, sizing, gz) == Init(loaded, st.capacity, ErrorRate(Inverse(st.error)), sizing);
  }

  /**
   * The round trip of `load` as written holds exactly when `num_bits` is a
   * multiple of 8: otherwise the loaded bitarray is longer than the dumped
   * one and `__eq__` tells the two filters apart.
   */
  lemma AsWrittenRoundTrip(st: PyState, gzipped: bool, sizing: PySizing, gz: Gzip)
    requires ValidState(st) && DerivedBy(st, sizing) && |st.data| == st.numBits
    requires ErrorRate(Inverse(st.error)) == st.error
    requires DumpBytes(st, gzipped, gz).Ok?
    requires gzipped ==> Lossless(gz)
    ensures LoadAsWritten(DumpBytes(st, gzipped, gz).value, sizing, gz) == Ok(st) <==> st.numBits % 8 == 0
  {
    LoadDumpedAsWritten(st, gzipped, sizing, gz);
    PaddingVanishes(st.data);
    assert st.(data := FromBytes(ToBytes(st.data))) == st <==> FromBytes(ToBytes(st.data)) == st.data;
  }

  /** Unpacking the packed bits gives exactly the bits when their number is a multiple of 8. */
  lemma PaddingVanishes(d: seq<bool>)
    ensures FromBytes(ToBytes(d)) == d <==> |d| % 8 == 0
  {
    FromToBytes(d);
    var loaded := FromBytes(ToBytes(d));
    if |d| % 8 == 0 {
      assert 8 * ByteCount(|d|) == |d|;
      assert loaded == loaded[..|d|];
    } else {
      assert 8 * ByteCount(|d|) != |d|;
    }
  }

  /**
   * The sizes Python's formulas give for capacity 1 and error rate 0.5:
   * `num_bits = int(ln 2 / (ln 2)^2) + 1 = 2` and
   * `num_hashes = int(2 * ln 2 / 1) + 1 = 2`.
   */
  const ExampleSizing: PySizing := (c: int, e: real) => PySizes(2, 2)

  /** `BloomFilter(capacity=1, error=0.5)`: two False bits, probed twice. */
  const ExampleFilter: PyState := PyState(1, 0.5, 2, 2, [false, false])

  lemma ExampleFilterIsCreated()
    ensures Init([], 1, 0.5, ExampleSizing) == Ok(ExampleFilter)
  {
    assert Falses(2) == [false, false];
  }

  /**
   * `BloomFilter(capacity=1, error=0.5)` does not survive `dump(False)`
   * followed by `load`: its 2 bits come back as 8.
   */
  lemma RoundTripCounterexample(st: PyState, gz: Gzip)
    requires st == ExampleFilter
    ensures DumpBytes(st, false, gz).Ok?
    ensures LoadAsWritten(DumpBytes(st, false, gz).value, ExampleSizing, gz) != Ok(st)
  {
    assert ValidState(st) && DerivedBy(st, ExampleSizing) && |st.data| == st.numBits;
    assert Inverse(st.error) == 2 by {
      assert 1.0 / 0.5 == 2.0;
    }
    assert ErrorRate(2) == st.error;
    assert DumpBytes(st, false, gz).Ok?;
    assert st.numBits % 8 != 0;
    AsWrittenRoundTrip(st, false, ExampleSizing, gz);
  }

  /**
   * The round trip of the corrected `load`: loading the dump of a filter
   * gives back a filter equal to it, for every `num_bits`, provided the
   * error rate re-derives from its inverse.
   */
  lemma LoadFixedRoundTrip(st: PyState, gzipped: bool, sizing: PySizing, gz: Gzip)
    requires ValidState(st) && DerivedBy(st, sizing) && |st.data| == st.numBits
    requires ErrorRate(Inverse(st.error)) == st.error
    requires DumpBytes(st, gzipped, gz).Ok?
    requires gzipped ==> Lossless(gz)
    ensures LoadFixed(DumpBytes(st, gzipped, gz).value, sizing, gz) == Ok(st)
  {
    LoadDumpedAsWritten(st, gzipped, sizing, gz);
    FromToBytes(st.data);
  }

  /** The union has the operands' sizes, and every bit set in either operand. */
  lemma UnionOfCompatible(a: PyState, b: PyState, sizing: PySizing)
    requires ValidState(a) && ValidState(b) && DerivedBy(a, sizing)
    requires a.capacity == b.capacity && a.error == b.error && |a.data| == |b.data|
    ensures UnionSpec(a, b, sizing) == Ok(a.(data := OrBits(a.data, b.data)))
  {
  }

  /** A key contained in either operand is contained in their union. */
  lemma UnionContains(a: PyState, b: PyState, sizing: PySizing, h: Murmur3, key: string)
    requires ValidState(a) && ValidState(b) && DerivedBy(a, sizing) && UnionSpec(a, b, sizing).Ok?
    requires AllSet(a.data, KeyIndexes(a, h, key)) == Ok(true) || AllSet(b.data, KeyIndexes(a, h, key)) == Ok(true)
    ensures AllSet(UnionSpec(a, b, sizing).value.data, KeyIndexes(a, h, key)) == Ok(true)
  {
    var idx := KeyIndexes(a, h, key);
    var u := OrBits(a.data, b.data);
    assert UnionSpec(a, b, sizing).value.data == u;
    forall i | 0 <= i < |idx|
      ensures idx[i] < |u| && u[idx[i]]
    {
    }
  }
}
