/** What the unrolled shift-and-mask bodies compute, in positional terms. */
module ShiftMask {
  import opened Arithmetic
  import opened Bits
  import opened Positional

  /** `x & 0xff` stored in an unsigned char. */
  function Low8(x: nat): (b: Byte)
    ensures b == x % 256
  {
    LowByte(x);
    And(x, 0xff)
  }

  lemma LowByte(v: nat)
    ensures And(v, 0xff) == v % 256
  {
    Pow2Bytes(1);
    MaskLow(v, 8);
  }

  /** `(v >> 8*i) & 0xff` is the digit of weight 256^i. */
  lemma {:induction false} ExtractedByte(w: nat, v: nat, i: nat)
    requires i < w
    ensures Low8(Shr(v, 8 * i)) == Digits(w, v)[i]
    ensures i == 0 ==> Low8(v) == Digits(w, v)[i]
  {
    if i > 0 {
      var k := 8 * (i - 1);
      ExtractedByte(w - 1, v / 256, i - 1);
      assert Shr(v, 8 + k) == Shr(v / 256, k) by {
        ShrAdd(v, 8, k);
        ShrByte(v);
      }
    }
  }

  /** The bytes a 2-byte store writes, in either order. */
  lemma Extracted2(v: nat)
    ensures Encode(Little, 2, v) == [Low8(v), Low8(Shr(v, 8))]
    ensures Encode(Big, 2, v) == [Low8(Shr(v, 8)), Low8(v)]
  {
    ExtractedByte(2, v, 0);
    ExtractedByte(2, v, 1);
  }

  /** The bytes a 4-byte store writes, in either order. */
  lemma Extracted4(v: nat)
    ensures Encode(Little, 4, v) == [Low8(v), Low8(Shr(v, 8)), Low8(Shr(v, 16)), Low8(Shr(v, 24))]
    ensures Encode(Big, 4, v) == [Low8(Shr(v, 24)), Low8(Shr(v, 16)), Low8(Shr(v, 8)), Low8(v)]
  {
    ExtractedByte(4, v, 0);
    ExtractedByte(4, v, 1);
    ExtractedByte(4, v, 2);
    ExtractedByte(4, v, 3);
  }

  /** The bytes an 8-byte store writes, in either order. */
  lemma Extracted8(v: nat)
    ensures Encode(Little, 8, v) == [
        Low8(v), Low8(Shr(v, 8)), Low8(Shr(v, 16)), Low8(Shr(v, 24)),
        Low8(Shr(v, 32)), Low8(Shr(v, 40)), Low8(Shr(v, 48)), Low8(Shr(v, 56))]
    ensures Encode(Big, 8, v) == [
        Low8(Shr(v, 56)), Low8(Shr(v, 48)), Low8(Shr(v, 40)), Low8(Shr(v, 32)),
        Low8(Shr(v, 24)), Low8(Shr(v, 16)), Low8(Shr(v, 8)), Low8(v)]
  {
    ExtractedByte(8, v, 0);
    ExtractedByte(8, v, 1);
    ExtractedByte(8, v, 2);
    ExtractedByte(8, v, 3);
    ExtractedByte(8, v, 4);
    ExtractedByte(8, v, 5);
    ExtractedByte(8, v, 6);
    ExtractedByte(8, v, 7);
  }

  /** `bs[0] | (bs[1] << 8) | (bs[2] << 16) | ...`, evaluated from the left in a type of `bits` bits. */
  function OrShifted(bits: nat, bs: seq<Byte>): nat
    requires bs != []
  {
    var n := |bs| - 1;
    if n == 0 then bs[0]
    else Or(OrShifted(bits, bs[..n]), Shl(bits, bs[n], 8 * n))
  }

  /** Adding one more byte on top: no bit is shifted out and no bit is set twice. */
  lemma JoinByte(bits: nat, low: nat, b: Byte, n: nat)
    requires low < Pow256(n) && 8 * (n + 1) <= bits
    ensures Shl(bits, b, 8 * n) == Pow256(n) * b
    ensures And(low, Shl(bits, b, 8 * n)) == 0
    ensures Or(low, Shl(bits, b, 8 * n)) == low + Pow256(n) * b
  {
    Pow2Bytes(n);
    MulRoom(Pow256(n), b, 256);
    Pow2Bytes(n + 1);
    Pow2Monotone(8 * (n + 1), bits);
    ShlExact(bits, b, 8 * n);
    DisjointOr(low, b, 8 * n);
  }

  lemma {:induction false} Pow2Monotone(a: nat, b: nat)
    requires a <= b
    ensures Pow2(a) <= Pow2(b)
  {
    if a < b { Pow2Monotone(a, b - 1); }
  }

  /** The OR of the shifted bytes is their positional value, and it fits the width. */
  lemma {:induction false} OrShiftedIsValue(bits: nat, bs: seq<Byte>)
    requires bs != [] && 8 * |bs| <= bits
    ensures OrShifted(bits, bs) == Value(bs) < Pow256(|bs|)
  {
    var n := |bs| - 1;
    ValueBound(bs);
    if n == 0 {
      assert bs[1..] == [];
    } else {
      var low, top := bs[..n], bs[n];
      OrShiftedIsValue(bits, low);
      JoinByte(bits, Value(low), top, n);
      ValueConcat(low, [top]);
      assert bs == low + [top];
      assert Value([top]) == top;
    }
  }

  /** In one formula: the OR of the shifted bytes is the sum of byte i times 256^i. */
  lemma OrShiftedIsPositionalSum(bits: nat, bs: seq<Byte>)
    requires bs != [] && 8 * |bs| <= bits
    ensures OrShifted(bits, bs) == PositionalSum(bs, |bs|) < Pow256(|bs|)
  {
    OrShiftedIsValue(bits, bs);
    ValueIsPositionalSum(bs, |bs|);
    assert bs[..|bs|] == bs;
  }

  /** The ORed terms of a load pairwise have no bit in common. */
  lemma TermsDisjoint(bits: nat, bs: seq<Byte>, i: nat, j: nat)
    requires i < j < |bs| && 8 * |bs| <= bits
    ensures And(Shl(bits, bs[i], 8 * i), Shl(bits, bs[j], 8 * j)) == 0
  {
    assert 0 < Pow256(i);
    JoinByte(bits, 0, bs[i], i);
    MulRoom(Pow256(i), bs[i], 256);
    Pow2Bytes(i + 1);
    Pow2Monotone(8 * (i + 1), 8 * j);
    Pow2Bytes(j);
    JoinByte(bits, Pow256(i) * bs[i], bs[j], j);
  }

  lemma OrShiftedStep(bits: nat, bs: seq<Byte>, k: nat)
    requires 1 <= k < |bs|
    ensures OrShifted(bits, bs[..k + 1]) == Or(OrShifted(bits, bs[..k]), Shl(bits, bs[k], 8 * k))
  {
    assert bs[..k + 1][..k] == bs[..k];
  }

  /** The 2-byte load expression, written out. */
  lemma Assembled2(bits: nat, bs: seq<Byte>)
    requires |bs| == 2 && 16 <= bits
    ensures Or(bs[0], Shl(bits, bs[1], 8)) == Value(bs) < 0x1_0000
  {
    OrShiftedIsValue(bits, bs);
    OrShiftedStep(bits, bs, 1);
    assert bs[..2] == bs;
    assert OrShifted(bits, bs[..1]) == bs[0];
    Pow256Values();
  }

  /** The first four steps of a load expression. */
  lemma FirstFour(bits: nat, bs: seq<Byte>)
    requires |bs| >= 4
    ensures Or(Or(Or(bs[0], Shl(bits, bs[1], 8)), Shl(bits, bs[2], 16)), Shl(bits, bs[3], 24))
      == OrShifted(bits, bs[..4])
  {
    OrShiftedStep(bits, bs, 1);
    OrShiftedStep(bits, bs, 2);
    OrShiftedStep(bits, bs, 3);
    assert OrShifted(bits, bs[..1]) == bs[0];
  }

  /** Two more steps. */
  lemma TwoMore(bits: nat, bs: seq<Byte>, k: nat, low: nat)
    requires 1 <= k && k + 2 <= |bs| && low == OrShifted(bits, bs[..k])
    ensures Or(Or(low, Shl(bits, bs[k], 8 * k)), Shl(bits, bs[k + 1], 8 * (k + 1))) == OrShifted(bits, bs[..k + 2])
  {
    OrShiftedStep(bits, bs, k);
    OrShiftedStep(bits, bs, k + 1);
  }

  /** The 4-byte load expression, written out. */
  lemma Assembled4(bits: nat, bs: seq<Byte>)
    requires |bs| == 4 && 32 <= bits
    ensures Or(Or(Or(bs[0], Shl(bits, bs[1], 8)), Shl(bits, bs[2], 16)), Shl(bits, bs[3], 24)) == Value(bs) < Pow256(4)
  {
    OrShiftedIsValue(bits, bs);
    FirstFour(bits, bs);
    assert bs[..4] == bs;
  }

  /** The 8-byte load expression, written out. */
  lemma Assembled8(bits: nat, bs: seq<Byte>)
    requires |bs| == 8 && 64 <= bits
    ensures var low := Or(Or(Or(bs[0], Shl(bits, bs[1], 8)), Shl(bits, bs[2], 16)), Shl(bits, bs[3], 24));
      Or(Or(Or(Or(low, Shl(bits, bs[4], 32)), Shl(bits, bs[5], 40)), Shl(bits, bs[6], 48)), Shl(bits, bs[7], 56))
        == Value(bs) < Pow256(8)
  {
    OrShiftedIsValue(bits, bs);
    assert bs[..8] == bs;
    var low := Or(Or(Or(bs[0], Shl(bits, bs[1], 8)), Shl(bits, bs[2], 16)), Shl(bits, bs[3], 24));
    FirstFour(bits, bs);
    var mid := Or(Or(low, Shl(bits, bs[4], 32)), Shl(bits, bs[5], 40));
    TwoMore(bits, bs, 4, low);
    TwoMore(bits, bs, 6, mid);
  }
}
