/**
 * The dump checksum (BloomFilterCommons.computeChecksum and Python's
 * `_compute_checksum`): the CRC-32 of the payload folded to 16 bits by
 * XOR-ing its two halves.
 *
 * The CRC-32 is the one section 8 of RFC 1952 (gzip) specifies: reflected
 * polynomial 0xEDB88320, register preset to all ones, result complemented.
 * It is written out bit by bit here, following that section's table-driven
 * sample code, with each table entry computed by eight shift steps.
 */
module Checksum {
  import opened Primitives

  const CRC_POLY: bv32 := 0xEDB8_8320

  /** One shift step of the reflected CRC register. */
  function CrcShift(c: bv32): bv32
  {
    if c & 1 == 1 then CRC_POLY ^ (c >> 1) else c >> 1
  }

  /** `k` shift steps applied to `c`. */
  function CrcShifts(c: bv32, k: nat): bv32
    decreases k
  {
    if k == 0 then c else CrcShifts(CrcShift(c), k - 1)
  }

  /** Entry `n` of the CRC table: eight shift steps applied to `n`. */
  function CrcTableEntry(n: bv32): bv32
  {
    CrcShifts(n, 8)
  }

  /** Feeds one byte into a CRC register `c` (kept complemented). */
  function CrcByte(c: bv32, b: Byte): bv32
  {
    CrcTableEntry((c ^ b as bv32) & 0xFF) ^ (c >> 8)
  }

  /** Feeds `buf` into a CRC register `c`, one byte at a time. */
  function CrcUpdate(c: bv32, buf: seq<Byte>): bv32
    decreases |buf|
  {
    if buf == [] then c else CrcUpdate(CrcByte(c, buf[0]), buf[1..])
  }

  /** The CRC-32 of `data` (`java.util.zip.CRC32`, `binascii.crc32`). */
  function Crc32(data: seq<Byte>): bv32
  {
    CrcUpdate(0xFFFF_FFFF, data) ^ 0xFFFF_FFFF
  }

  /**
   * The fold as a number: `crc & 0xFFFF` is the low half `c % 2^16`,
   * `crc >> 16` the high half `c / 2^16`, and the two are XOR-ed as 16-bit
   * values.
   */
  function Fold(crc: bv32): (v: nat)
    ensures v < TWO_16
  {
    var c := crc as int;
    ((c % 0x1_0000) as bv16 ^ (c / 0x1_0000) as bv16) as nat
  }

  /**
   * Java `computeChecksum`: the fold cast to `short`. Because the fold is
   * below 2^16 the cast loses nothing: the 16-bit pattern of the result is
   * the fold itself.
   */
  function JavaChecksum(data: seq<Byte>): (r: int16)
    ensures UnsignedShort(r) == Fold(Crc32(data))
  {
    UnsignedNarrowShort(Fold(Crc32(data)));
    NarrowToShort(Fold(Crc32(data)))
  }

  /** Python `_compute_checksum`: the fold as a non-negative integer, so it fits two bytes. */
  function PyChecksum(data: seq<Byte>): (r: nat)
    ensures r < TWO_16
  {
    Fold(Crc32(data))
  }

  /** The two implementations agree on every payload, up to Java's signed reading of the same 16 bits. */
  lemma ChecksumsAgree(data: seq<Byte>)
    ensures UnsignedShort(JavaChecksum(data)) == PyChecksum(data)
    ensures (JavaChecksum(data) as int - PyChecksum(data)) % TWO_16 == 0
  {
  }

  lemma CrcUpdateStep(c: bv32, b: Byte, rest: seq<Byte>)
    ensures CrcUpdate(c, [b] + rest) == CrcUpdate(CrcByte(c, b), rest)
  {
    assert ([b] + rest)[1..] == rest;
  }

  /** The register after each byte of "123456789". */
  lemma CheckValueRegisters()
    ensures CrcByte(0xFFFF_FFFF, 0x31) == 0x7C23_1048
    ensures CrcByte(0x7C23_1048, 0x32) == 0xB0AC_BB32
    ensures CrcByte(0xB0AC_BB32, 0x33) == 0x77B7_9C2D
    ensures CrcByte(0x77B7_9C2D, 0x34) == 0x641C_1F5C
    ensures CrcByte(0x641C_1F5C, 0x35) == 0x340A_C5E3
    ensures CrcByte(0x340A_C5E3, 0x36) == 0xF68D_2C9E
    ensures CrcByte(0xF68D_2C9E, 0x37) == 0xAFFC_9660
    ensures CrcByte(0xAFFC_9660, 0x38) == 0x651F_2550
    ensures CrcByte(0x651F_2550, 0x39) == 0x340B_C6D9
  {
  }

  /**
   * The check value of CRC-32: the CRC of the ASCII digits "123456789" is
   * 0xCBF43926.
   */
  lemma Crc32CheckValue()
    ensures Crc32([0x31, 0x32, 0x33, 0x34, 0x35, 0x36, 0x37, 0x38, 0x39]) == 0xCBF4_3926
  {
    CheckValueRegisters();
    CrcUpdateStep(0xFFFF_FFFF, 0x31, [0x32, 0x33, 0x34, 0x35, 0x36, 0x37, 0x38, 0x39]);
    CrcUpdateStep(0x7C23_1048, 0x32, [0x33, 0x34, 0x35, 0x36, 0x37, 0x38, 0x39]);
    CrcUpdateStep(0xB0AC_BB32, 0x33, [0x34, 0x35, 0x36, 0x37, 0x38, 0x39]);
    CrcUpdateStep(0x77B7_9C2D, 0x34, [0x35, 0x36, 0x37, 0x38, 0x39]);
    CrcUpdateStep(0x641C_1F5C, 0x35, [0x36, 0x37, 0x38, 0x39]);
    CrcUpdateStep(0x340A_C5E3, 0x36, [0x37, 0x38, 0x39]);
    CrcUpdateStep(0xF68D_2C9E, 0x37, [0x38, 0x39]);
    CrcUpdateStep(0xAFFC_9660, 0x38, [0x39]);
    CrcUpdateStep(0x651F_2550, 0x39, []);
  }
}
