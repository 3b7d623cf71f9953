/** C's bitwise operators on unsigned operands, defined bit by bit over the naturals. */
module Bits {
  import opened Arithmetic

  /** The bit of weight 2^i. */
  predicate Bit(x: nat, i: nat) {
    if i == 0 then x % 2 == 1 else Bit(x / 2, i - 1)
  }

  /** `a & b` */
  function And(a: nat, b: nat): nat {
    if a == 0 || b == 0 then 0
    else (if a % 2 == 1 && b % 2 == 1 then 1 else 0) + 2 * And(a / 2, b / 2)
  }

  /** `a | b` */
  function Or(a: nat, b: nat): nat
    decreases a + b
  {
    if a == 0 then b
    else if b == 0 then a
    else (if a % 2 == 1 || b % 2 == 1 then 1 else 0) + 2 * Or(a / 2, b / 2)
  }

  /** `x << k` in an unsigned type of the given number of bits: bits shifted out are lost. */
  function Shl(bits: nat, x: nat, k: nat): nat {
    x * Pow2(k) % Pow2(bits)
  }

  /** `x >> k` */
  function Shr(x: nat, k: nat): nat {
    if k == 0 then x else Shr(x / 2, k - 1)
  }

  lemma {:induction false} ZeroBits(i: nat)
    ensures !Bit(0, i)
  {
    if i > 0 { ZeroBits(i - 1); }
  }

  /** `And` and `Or` act on every bit position separately. */
  lemma {:induction false} BitwiseMeaning(a: nat, b: nat, i: nat)
    ensures Bit(And(a, b), i) <==> Bit(a, i) && Bit(b, i)
    ensures Bit(Or(a, b), i) <==> Bit(a, i) || Bit(b, i)
  {
    ZeroBits(i);
    if a != 0 && b != 0 && i > 0 {
      assert And(a, b) / 2 == And(a / 2, b / 2);
      assert Or(a, b) / 2 == Or(a / 2, b / 2);
      BitwiseMeaning(a / 2, b / 2, i - 1);
    }
  }

  lemma MaskOdd(x: nat, p: nat)
    requires p > 0
    ensures And(x, 2 * p - 1) == x % 2 + 2 * And(x / 2, p - 1)
  {
    var m := 2 * p - 1;
    assert m % 2 == 1 && m / 2 == p - 1;
  }

  /** Masking with 2^k - 1 keeps the remainder modulo 2^k. */
  lemma {:induction false} MaskLow(x: nat, k: nat)
    ensures And(x, Pow2(k) - 1) == x % Pow2(k)
  {
    if k > 0 {
      var p := Pow2(k - 1);
      MaskLow(x / 2, k - 1);
      MaskOdd(x, p);
      DivDiv(x, 2, p);
    }
  }

  lemma OrEven(a: nat, c: nat)
    ensures Or(a, 2 * c) == a % 2 + 2 * Or(a / 2, c)
    ensures And(a, 2 * c) == 2 * And(a / 2, c)
  {
    assert (2 * c) % 2 == 0 && 2 * c / 2 == c;
  }

  /** Shifted operands that share no bit: OR is addition and AND is zero. */
  lemma {:induction false} DisjointOr(a: nat, b: nat, k: nat)
    requires a < Pow2(k)
    ensures Or(a, b * Pow2(k)) == a + b * Pow2(k)
    ensures And(a, b * Pow2(k)) == 0
  {
    if k > 0 {
      DisjointOr(a / 2, b, k - 1);
      Pow2Step(b, k);
      OrEven(a, b * Pow2(k - 1));
    }
  }

  /** A left shift that fits its type loses nothing. */
  lemma ShlExact(bits: nat, x: nat, k: nat)
    requires x * Pow2(k) < Pow2(bits)
    ensures Shl(bits, x, k) == x * Pow2(k)
  {
    DivModUnique(x * Pow2(k), Pow2(bits), 0, x * Pow2(k));
  }

  lemma {:induction false} ShrAdd(x: nat, j: nat, k: nat)
    ensures Shr(x, j + k) == Shr(Shr(x, j), k)
  {
    if j > 0 { ShrAdd(x / 2, j - 1, k); }
  }

  lemma ShrNibble(x: nat)
    ensures Shr(x, 4) == x / 16
  {
    assert Shr(x, 4) == Shr(x / 2, 3) == Shr(x / 2 / 2, 2) == Shr(x / 2 / 2 / 2, 1) == Shr(x / 2 / 2 / 2 / 2, 0);
  }

  /** `x >> 8` drops the lowest digit base 256. */
  lemma ShrByte(x: nat)
    ensures Shr(x, 8) == x / 256
  {
    ShrAdd(x, 4, 4);
    ShrNibble(x);
    ShrNibble(x / 16);
  }
}
