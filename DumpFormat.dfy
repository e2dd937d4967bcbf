/**
 * The dump byte layout that both implementations read and write: a 9-byte
 * little-endian header followed by the payload (the filter's bit array,
 * possibly gzip-compressed).
 *
 *   offset 0, 2 bytes: checksum of the payload
 *   offset 2, 1 byte : gzip flag
 *   offset 3, 2 bytes: inverse error rate
 *   offset 5, 4 bytes: capacity
 *   offset 9         : payload
 *
 * Header fields are held here as the unsigned value of their bit pattern;
 * each implementation's reading of those patterns (signed in Java, unsigned
 * in Python) is in its own module.
 */
module DumpFormat {
  import opened Primitives
  import opened LittleEndian

  const HEADER_SIZE: nat := 9

  /**
   * A gzip codec (java.util.zip's GZIP streams, Python's `gzip` module),
   * taken as given: `compress` maps bytes to a gzip stream, `header` says
   * whether a stream opens with a gzip header that `GZIPInputStream`'s
   * constructor accepts, and `decompress` maps a stream to the bytes it
   * holds, or None when it is not a valid stream.
   */
  datatype Gzip = Gzip(compress: seq<Byte> -> seq<Byte>, header: seq<Byte> -> bool,
                       decompress: seq<Byte> -> Option<seq<Byte>>)

  /** What was compressed opens with a valid header and decompresses back to itself. */
  ghost predicate Lossless(gz: Gzip)
  {
    forall s :: gz.header(gz.compress(s)) && gz.decompress(gz.compress(s)) == Some(s)
  }

  datatype Header = Header(checksum: nat, gzipped: Byte, inverse: nat, capacity: nat)

  /** Every field fits its width. */
  predicate WellFormed(h: Header)
  {
    h.checksum < TWO_16 && h.inverse < TWO_16 && h.capacity < TWO_32
  }

  lemma Pow256Widths()
    ensures Pow256(1) == 256 && Pow256(2) == TWO_16 && Pow256(4) == TWO_32
  {
    assert Pow256(1) == 256;
    assert Pow256(2) == 256 * 256;
    assert Pow256(3) == 256 * 256 * 256;
  }

  /** The dump of a header and a payload. */
  function Encode(h: Header, payload: seq<Byte>): (r: seq<Byte>)
    requires WellFormed(h)
    ensures |r| == HEADER_SIZE + |payload|
    ensures r[HEADER_SIZE..] == payload
  {
    Pow256Widths();
    LeBytes(h.checksum, 2) + [h.gzipped] + LeBytes(h.inverse, 2) + LeBytes(h.capacity, 4) + payload
  }

  /** Splits a dump into its header and payload; a dump shorter than the header has neither. */
  function Decode(dump: seq<Byte>): (r: Option<(Header, seq<Byte>)>)
    ensures r.None? <==> |dump| < HEADER_SIZE
    ensures r.Some? ==> WellFormed(r.value.0) && |r.value.1| == |dump| - HEADER_SIZE
  {
    if |dump| < HEADER_SIZE then None
    else
      LeValueBound(dump[0..2]);
      LeValueBound(dump[3..5]);
      LeValueBound(dump[5..9]);
      Pow256Widths();
      Some((Header(LeValue(dump[0..2]), dump[2], LeValue(dump[3..5]), LeValue(dump[5..9])), dump[9..]))
  }

  /** Each field sits at its offset, little-endian. */
  lemma {:induction false} EncodeLayout(h: Header, payload: seq<Byte>)
    requires WellFormed(h)
    ensures Pow256(2) == TWO_16 && Pow256(4) == TWO_32
    ensures Encode(h, payload)[0..2] == LeBytes(h.checksum, 2)
    ensures Encode(h, payload)[2] == h.gzipped
    ensures Encode(h, payload)[3..5] == LeBytes(h.inverse, 2)
    ensures Encode(h, payload)[5..9] == LeBytes(h.capacity, 4)
    ensures Encode(h, payload)[9..] == payload
  {
    Pow256Widths();
    var c, i, k := LeBytes(h.checksum, 2), LeBytes(h.inverse, 2), LeBytes(h.capacity, 4);
    var r := Encode(h, payload);
    assert r == c + [h.gzipped] + i + k + payload;
    assert r[0..2] == c;
    assert r[3..5] == i;
    assert r[5..9] == k;
  }

  /** Decoding a dump gives back the header and the payload it was made of. */
  lemma {:induction false} DecodeEncode(h: Header, payload: seq<Byte>)
    requires WellFormed(h)
    ensures Decode(Encode(h, payload)) == Some((h, payload))
  {
    EncodeLayout(h, payload);
    LeValueOfBytes(h.checksum, 2);
    LeValueOfBytes(h.inverse, 2);
    LeValueOfBytes(h.capacity, 4);
  }

  /** Every dump at least as long as the header is the encoding of what it decodes to. */
  lemma {:induction false} EncodeDecode(dump: seq<Byte>)
    requires |dump| >= HEADER_SIZE
    ensures Decode(dump).Some?
    ensures Encode(Decode(dump).value.0, Decode(dump).value.1) == dump
  {
    var (h, payload) := Decode(dump).value;
    EncodeLayout(h, payload);
    LeBytesOfValue(dump[0..2]);
    LeBytesOfValue(dump[3..5]);
    LeBytesOfValue(dump[5..9]);
    var r := Encode(h, payload);
    SplitHeader(r);
    SplitHeader(dump);
  }

  lemma SplitHeader(s: seq<Byte>)
    requires |s| >= HEADER_SIZE
    ensures s == s[0..2] + [s[2]] + s[3..5] + s[5..9] + s[9..]
  {
  }
}
