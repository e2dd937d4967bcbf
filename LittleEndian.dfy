/**
 * Fixed-width little-endian integers: what Java's `ByteBuffer` in
 * LITTLE_ENDIAN order writes and reads, and what Python's
 * `int.to_bytes(n, byteorder='little')` / `int.from_bytes` do.
 */
module LittleEndian {
  import opened Primitives

  /** 256 to the power `n`: one more than the largest value `n` bytes hold. */
  function Pow256(n: nat): (r: nat)
    ensures r >= 1
  {
    if n == 0 then 1 else 256 * Pow256(n - 1)
  }

  /** The `n`-byte little-endian encoding of `v`, least significant byte first. */
  function LeBytes(v: nat, n: nat): (r: seq<Byte>)
    requires v < Pow256(n)
    ensures |r| == n
    decreases n
  {
    if n == 0 then [] else [ByteOf(v % 256)] + LeBytes(v / 256, n - 1)
  }

  /**
   * The byte whose unsigned value is `x` (`(byte) x` for `x < 256`), counted
   * up from zero so that its value is proved by bit-vector increments.
   */
  function ByteOf(x: nat): Byte
    requires x < 256
  {
    if x == 0 then 0 else ByteOf(x - 1) + 1
  }

  lemma SuccByte(b: Byte)
    requires b as nat < 255
    ensures (b + 1) as nat == b as nat + 1
  {
  }

  /** The unsigned value of a little-endian byte string (Python `int.from_bytes(s, 'little')`). */
  function LeValue(s: seq<Byte>): nat
  {
    if s == [] then 0 else s[0] as nat + 256 * LeValue(s[1..])
  }

  /** A byte string of length `n` holds a value below 256^n. */
  lemma {:induction false} LeValueBound(s: seq<Byte>)
    ensures LeValue(s) < Pow256(|s|)
  {
    if s != [] {
      LeValueBound(s[1..]);
    }
  }

  /** `ByteOf(x)` has the value `x`. */
  lemma {:induction false} ByteOfValue(x: nat)
    requires x < 256
    ensures ByteOf(x) as nat == x
    decreases x
  {
    if x > 0 {
      ByteOfValue(x - 1);
      SuccByte(ByteOf(x - 1));
    }
  }

  lemma DivBound(v: nat, p: nat)
    requires v < 256 * p
    ensures v / 256 < p
  {
  }

  /** Decoding undoes encoding. */
  lemma {:induction false} LeValueOfBytes(v: nat, n: nat)
    requires v < Pow256(n)
    ensures LeValue(LeBytes(v, n)) == v
    decreases n
  {
    if n > 0 {
      var r := LeBytes(v, n);
      DivBound(v, Pow256(n - 1));
      var b := ByteOf(v % 256);
      ByteOfValue(v % 256);
      assert r == [b] + LeBytes(v / 256, n - 1);
      assert r[1..] == LeBytes(v / 256, n - 1);
      LeValueOfBytes(v / 256, n - 1);
      assert LeValue(r) == r[0] as nat + 256 * LeValue(r[1..]);
    }
  }

  lemma ByteRoundTrip(x: Byte)
    ensures x as nat < 256
    ensures (x as nat) as Byte == x
  {
  }

  lemma DivModOf(b: nat, t: nat)
    requires b < 256
    ensures (b + 256 * t) % 256 == b && (b + 256 * t) / 256 == t
  {
  }

  /** Encoding undoes decoding: every byte string is the encoding of its value. */
  lemma {:induction false} LeBytesOfValue(s: seq<Byte>)
    ensures LeValue(s) < Pow256(|s|)
    ensures LeBytes(LeValue(s), |s|) == s
  {
    LeValueBound(s);
    if s != [] {
      LeBytesOfValue(s[1..]);
      var v, t := LeValue(s), LeValue(s[1..]);
      ByteRoundTrip(s[0]);
      DivModOf(s[0] as nat, t);
      assert v == s[0] as nat + 256 * t;
      var b := v % 256;
      assert b == s[0] as nat;
      ByteOfValue(b);
      ByteRoundTrip(ByteOf(b));
      assert ByteOf(b) == s[0];
      assert v / 256 == t;
      assert LeBytes(v, |s|) == [ByteOf(b)] + LeBytes(t, |s| - 1);
      assert s == [s[0]] + s[1..];
    }
  }
}
