/**
 * The bit array of the Java filter: a byte array in which bit position `p`
 * is bit `p % 8` (mask `1 << (p % 8)`) of byte `p >> 3`. Setting, testing
 * and OR-ing bits, and the facts the membership engine rests on.
 */
module Bits {
  import opened Primitives

  /** `(byte) (1 << j)`. */
  function Mask(j: nat): Byte
    requires j < 8
  {
    1 << j
  }

  /** `(c & mask) != 0`. */
  predicate HasMask(c: Byte, mask: Byte)
  {
    c & mask != 0
  }

  /** Bit `p` of a byte array. */
  predicate BitAt(s: seq<Byte>, p: nat)
    requires p < 8 * |s|
  {
    HasMask(s[p / 8], Mask(p % 8))
  }

  /** Every position in `ps` is below `n`. */
  predicate InRange(ps: seq<nat>, n: nat)
  {
    forall i :: 0 <= i < |ps| ==> ps[i] < n
  }

  /** `s` with bit `p` set: `bf[p >> 3] = (byte) (bf[p >> 3] | mask)`. */
  function SetBit(s: seq<Byte>, p: nat): (r: seq<Byte>)
    requires p < 8 * |s|
    ensures |r| == |s|
  {
    s[p / 8 := s[p / 8] | Mask(p % 8)]
  }

  /** `s` with the bits at `ps` set, in order. */
  function SetBits(s: seq<Byte>, ps: seq<nat>): (r: seq<Byte>)
    requires InRange(ps, 8 * |s|)
    ensures |r| == |s|
    decreases |ps|
  {
    if ps == [] then s else SetBits(SetBit(s, ps[0]), ps[1..])
  }

  /** Every bit at `ps` is set. */
  predicate Member(s: seq<Byte>, ps: seq<nat>)
    requires InRange(ps, 8 * |s|)
  {
    forall i :: 0 <= i < |ps| ==> BitAt(s, ps[i])
  }

  /** The first `n` bits at `ps` are set. */
  predicate MemberUpTo(s: seq<Byte>, ps: seq<nat>, n: nat)
    requires InRange(ps, 8 * |s|) && n <= |ps|
  {
    forall j :: 0 <= j < n ==> BitAt(s, ps[j])
  }

  /** The byte-wise OR of two arrays of the same length. */
  function OrBytes(x: seq<Byte>, y: seq<Byte>): (r: seq<Byte>)
    requires |x| == |y|
    ensures |r| == |x|
    ensures forall i :: 0 <= i < |r| ==> r[i] == x[i] | y[i]
  {
    seq(|x|, i requires 0 <= i < |x| => x[i] | y[i])
  }

  /** `n` zero bytes: a freshly allocated `new byte[n]`. */
  function Zeros(n: nat): (r: seq<Byte>)
    ensures |r| == n
    ensures forall i :: 0 <= i < n ==> r[i] == 0
  {
    seq(n, _ => 0)
  }

  lemma MaskOr(x: Byte, j: nat, k: nat)
    requires j < 8 && k < 8
    ensures (x | Mask(j)) & Mask(k) != 0 <==> (x & Mask(k) != 0 || j == k)
  {
  }

  lemma MaskIdempotent(x: Byte, j: nat)
    requires j < 8 && x & Mask(j) != 0
    ensures x | Mask(j) == x
  {
  }

  lemma MaskOfOr(x: Byte, y: Byte, k: nat)
    requires k < 8
    ensures (x | y) & Mask(k) != 0 <==> (x & Mask(k) != 0 || y & Mask(k) != 0)
  {
  }

  lemma MaskOfZero(k: nat)
    requires k < 8
    ensures (0 as Byte) & Mask(k) == 0
  {
  }

  /** Setting bit `p` turns on bit `p` and no other. */
  lemma BitAtSetBit(s: seq<Byte>, p: nat, q: nat)
    requires p < 8 * |s| && q < 8 * |s|
    ensures BitAt(SetBit(s, p), q) <==> BitAt(s, q) || q == p
  {
    if p / 8 == q / 8 {
      MaskOr(s[p / 8], p % 8, q % 8);
    }
  }

  /** Setting a bit that is already set changes nothing. */
  lemma SetBitIdempotent(s: seq<Byte>, p: nat)
    requires p < 8 * |s| && BitAt(s, p)
    ensures SetBit(s, p) == s
  {
    var k, j := p / 8, p % 8;
    MaskIdempotent(s[k], j);
    assert SetBit(s, p) == s[k := s[k] | Mask(j)];
  }

  /** After setting the bits at `ps`, a bit is set exactly when it was set before or is one of `ps`. */
  lemma {:induction false} SetBitsExact(s: seq<Byte>, ps: seq<nat>, q: nat)
    requires InRange(ps, 8 * |s|) && q < 8 * |s|
    ensures BitAt(SetBits(s, ps), q) <==> BitAt(s, q) || q in ps
    decreases |ps|
  {
    if ps != [] {
      SetBitsExact(SetBit(s, ps[0]), ps[1..], q);
      BitAtSetBit(s, ps[0], q);
      assert ps == [ps[0]] + ps[1..];
    }
  }

  /** No false negatives: after setting the bits at `ps`, all of them are set. */
  lemma SetBitsMember(s: seq<Byte>, ps: seq<nat>)
    requires InRange(ps, 8 * |s|)
    ensures Member(SetBits(s, ps), ps)
  {
    forall i | 0 <= i < |ps|
      ensures BitAt(SetBits(s, ps), ps[i])
    {
      SetBitsExact(s, ps, ps[i]);
    }
  }

  /** Setting bits never clears one: every bit set before is still set. */
  lemma SetBitsMonotone(s: seq<Byte>, ps: seq<nat>, q: nat)
    requires InRange(ps, 8 * |s|) && q < 8 * |s| && BitAt(s, q)
    ensures BitAt(SetBits(s, ps), q)
  {
    SetBitsExact(s, ps, q);
  }

  /** A membership that holds stays true after further bits are set. */
  lemma SetBitsKeepsMember(s: seq<Byte>, ps: seq<nat>, qs: seq<nat>)
    requires InRange(ps, 8 * |s|) && InRange(qs, 8 * |s|) && Member(s, qs)
    ensures Member(SetBits(s, ps), qs)
  {
    forall i | 0 <= i < |qs|
      ensures BitAt(SetBits(s, ps), qs[i])
    {
      SetBitsMonotone(s, ps, qs[i]);
    }
  }

  /** Setting bits that are all set already changes nothing. */
  lemma {:induction false} SetBitsOfMember(s: seq<Byte>, ps: seq<nat>)
    requires InRange(ps, 8 * |s|) && Member(s, ps)
    ensures SetBits(s, ps) == s
    decreases |ps|
  {
    if ps != [] {
      assert BitAt(s, ps[0]);
      SetBitIdempotent(s, ps[0]);
      assert forall i :: 0 <= i < |ps[1..]| ==> ps[1..][i] == ps[i + 1];
      SetBitsOfMember(s, ps[1..]);
    }
  }

  /** A byte that no position in `ps` falls into is left as it was. */
  lemma {:induction false} SetBitsUntouched(s: seq<Byte>, ps: seq<nat>, k: nat)
    requires InRange(ps, 8 * |s|) && k < |s|
    requires forall i :: 0 <= i < |ps| ==> ps[i] / 8 != k
    ensures SetBits(s, ps)[k] == s[k]
    decreases |ps|
  {
    if ps != [] {
      assert forall i :: 0 <= i < |ps[1..]| ==> ps[1..][i] == ps[i + 1];
      SetBitsUntouched(SetBit(s, ps[0]), ps[1..], k);
    }
  }

  /** A bit of the OR is set exactly when it is set in either operand. */
  lemma OrBytesBit(x: seq<Byte>, y: seq<Byte>, q: nat)
    requires |x| == |y| && q < 8 * |x|
    ensures BitAt(OrBytes(x, y), q) <==> BitAt(x, q) || BitAt(y, q)
  {
    MaskOfOr(x[q / 8], y[q / 8], q % 8);
  }

  /** Whatever is a member of either operand is a member of their OR. */
  lemma OrBytesMember(x: seq<Byte>, y: seq<Byte>, ps: seq<nat>)
    requires |x| == |y| && InRange(ps, 8 * |x|)
    requires Member(x, ps) || Member(y, ps)
    ensures Member(OrBytes(x, y), ps)
  {
    forall i | 0 <= i < |ps|
      ensures BitAt(OrBytes(x, y), ps[i])
    {
      OrBytesBit(x, y, ps[i]);
    }
  }

  /** No bit of a zeroed array is set. */
  lemma ZerosBit(n: nat, q: nat)
    requires q < 8 * n
    ensures !BitAt(Zeros(n), q)
  {
    MaskOfZero(q % 8);
  }

  /** Only the empty probe sequence is a member of a zeroed array. */
  lemma ZerosMember(n: nat, ps: seq<nat>)
    requires InRange(ps, 8 * n)
    ensures Member(Zeros(n), ps) <==> ps == []
  {
    if ps != [] {
      ZerosBit(n, ps[0]);
    }
  }
}
