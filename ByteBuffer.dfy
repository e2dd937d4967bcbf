/**
 * The part of `java.nio.ByteBuffer` that BloomFilterImpl.dump and
 * BloomFilterFactoryImpl.load use: a buffer that wraps an existing array,
 * in LITTLE_ENDIAN order, with a cursor (`position`) that every relative
 * put and get advances. A get past the end raises BufferUnderflowException
 * and leaves the cursor where it was; here it returns None.
 */
module ByteBuffer {
  import opened Primitives
  import opened LittleEndian

  class LittleEndianBuffer {
    /** The wrapped array; writes go straight into it. */
    const hb: array<Byte>
    var position: nat

    ghost predicate Valid()
      reads this
    {
      position <= hb.Length
    }

    /** `ByteBuffer.wrap(a)` followed by `order(LITTLE_ENDIAN)`. */
    constructor Wrap(a: array<Byte>)
      ensures Valid() && hb == a && position == 0
    {
      hb := a;
      position := 0;
    }

    /** Relative bulk put: writes `bs` at the cursor and moves past it. */
    method Put(bs: seq<Byte>)
      requires Valid() && position + |bs| <= hb.Length
      modifies this, hb
      ensures Valid() && position == old(position) + |bs|
      ensures hb[..] == old(hb[..position]) + bs + old(hb[position + |bs|..])
      ensures hb[..position] == old(hb[..position]) + bs
    {
      var i := 0;
      while i < |bs|
        invariant 0 <= i <= |bs|
        invariant position == old(position)
        invariant forall m :: 0 <= m < hb.Length ==>
                    hb[m] == if position <= m < position + i then bs[m - position] else old(hb[m])
      {
        hb[position + i] := bs[i];
        i := i + 1;
      }
      ghost var before, after := old(hb[..position]), old(hb[position + |bs|..]);
      assert hb[..] == before + bs + after by {
        assert forall m :: 0 <= m < hb.Length ==> hb[..][m] == (before + bs + after)[m];
      }
      position := position + |bs|;
      assert hb[..position] == hb[..][..position];
    }

    /** `put(byte)`. */
    method PutByte(b: Byte)
      requires Valid() && position + 1 <= hb.Length
      modifies this, hb
      ensures Valid() && position == old(position) + 1
      ensures hb[..] == old(hb[..position]) + [b] + old(hb[position + 1..])
      ensures hb[..position] == old(hb[..position]) + [b]
    {
      Put([b]);
    }

    /** `putShort(v)`: the 16-bit pattern of `v`, low byte first. */
    method PutShort(v: int16)
      requires Valid() && position + 2 <= hb.Length
      modifies this, hb
      ensures Valid() && position == old(position) + 2
      ensures Pow256(2) == TWO_16
      ensures hb[..] == old(hb[..position]) + LeBytes(UnsignedShort(v), 2) + old(hb[position + 2..])
      ensures hb[..position] == old(hb[..position]) + LeBytes(UnsignedShort(v), 2)
    {
      assert Pow256(2) == TWO_16;
      Put(LeBytes(UnsignedShort(v), 2));
    }

    /** `putInt(v)`: the 32-bit pattern of `v`, low byte first. */
    method PutInt(v: int32)
      requires Valid() && position + 4 <= hb.Length
      modifies this, hb
      ensures Valid() && position == old(position) + 4
      ensures Pow256(4) == TWO_32
      ensures hb[..] == old(hb[..position]) + LeBytes(Unsigned(v), 4) + old(hb[position + 4..])
      ensures hb[..position] == old(hb[..position]) + LeBytes(Unsigned(v), 4)
    {
      assert Pow256(4) == 256 * 256 * 256 * 256;
      Put(LeBytes(Unsigned(v), 4));
    }

    /** Relative bulk get of `n` bytes; None (underflow) when fewer remain. */
    method GetBytes(n: nat) returns (r: Option<seq<Byte>>)
      requires Valid()
      modifies this
      ensures Valid()
      ensures old(position) + n <= hb.Length ==>
                r == Some(hb[old(position)..old(position) + n]) && position == old(position) + n
      ensures old(position) + n > hb.Length ==> r == None && position == old(position)
    {
      if position + n > hb.Length {
        return None;
      }
      r := Some(hb[position..position + n]);
      position := position + n;
    }

    /** `get()`: one byte. */
    method Get() returns (r: Option<Byte>)
      requires Valid()
      modifies this
      ensures Valid()
      ensures old(position) + 1 <= hb.Length ==> r == Some(hb[old(position)]) && position == old(position) + 1
      ensures old(position) + 1 > hb.Length ==> r == None && position == old(position)
    {
      var bs := GetBytes(1);
      if bs.None? {
        return None;
      }
      r := Some(bs.value[0]);
    }

    /** `getShort()`: two bytes, low byte first, read as a signed `short`. */
    method GetShort() returns (r: Option<int16>)
      requires Valid()
      modifies this
      ensures Valid()
      ensures old(position) + 2 <= hb.Length ==>
                r == Some(NarrowToShort(LeValue(hb[old(position)..old(position) + 2]))) && position == old(position) + 2
      ensures old(position) + 2 > hb.Length ==> r == None && position == old(position)
    {
      var bs := GetBytes(2);
      if bs.None? {
        return None;
      }
      r := Some(NarrowToShort(LeValue(bs.value)));
    }

    /** `getInt()`: four bytes, low byte first, read as a signed `int`. */
    method GetInt() returns (r: Option<int32>)
      requires Valid()
      modifies this
      ensures Valid()
      ensures old(position) + 4 <= hb.Length ==>
                r == Some(NarrowToInt(LeValue(hb[old(position)..old(position) + 4]))) && position == old(position) + 4
      ensures old(position) + 4 > hb.Length ==> r == None && position == old(position)
    {
      var bs := GetBytes(4);
      if bs.None? {
        return None;
      }
      r := Some(NarrowToInt(LeValue(bs.value)));
    }
  }
}
