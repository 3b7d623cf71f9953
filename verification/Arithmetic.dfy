/** Facts about multiplication, division and powers that the codec proofs need. */
module Arithmetic {

  function Pow2(n: nat): (p: nat)
    ensures p > 0
  {
    if n == 0 then 1 else 2 * Pow2(n - 1)
  }

  function Pow256(n: nat): (p: nat)
    ensures p > 0
  {
    if n == 0 then 1 else 256 * Pow256(n - 1)
  }

  /** Quotient and remainder are the only pair that does their job. */
  lemma DivModUnique(n: int, d: int, q: int, r: int)
    requires 0 <= r < d
    requires n == d * q + r
    ensures n / d == q && n % d == r
  {
    var k := n / d - q;
    assert d * k == r - n % d;
    assert k >= 1 ==> d * k >= d;
    assert k <= -1 ==> d * k <= -d;
  }

  lemma MulAssoc(a: int, b: int, c: int)
    ensures a * (b * c) == (a * b) * c
  {
  }

  lemma MulAdd(a: int, b: int, c: int)
    ensures a * (b + c) == a * b + a * c
  {
  }

  /** Dividing twice is dividing by the product. */
  lemma DivDiv(n: nat, a: nat, b: nat)
    requires a > 0 && b > 0
    ensures a * b > 0
    ensures n / a / b == n / (a * b)
    ensures n % (a * b) == n % a + a * (n / a % b)
  {
    var q, r := n / a, n % a;
    var q2, r2 := q / b, q % b;
    MulRoom(a, r2, b);
    assert a * r2 >= 0;
    assert n == (a * b) * q2 + (a * r2 + r) by {
      assert n == a * q + r && q == b * q2 + r2;
      MulAdd(a, b * q2, r2);
      MulAssoc(a, b, q2);
    }
    DivModUnique(n, a * b, q2, a * r2 + r);
  }

  /** `Pow256` takes its next factor on the left of any product. */
  lemma Pow256Step(n: nat, y: nat)
    requires n > 0
    ensures Pow256(n) * y == 256 * (Pow256(n - 1) * y)
  {
  }

  lemma Pow2Step(b: nat, k: nat)
    requires k > 0
    ensures b * Pow2(k) == 2 * (b * Pow2(k - 1))
  {
  }

  /** A product with a larger factor leaves room for a remainder. */
  lemma MulRoom(p: nat, a: nat, b: nat)
    requires a < b
    ensures p * a + p <= p * b
  {
    assert p * (a + 1) <= p * b;
  }

  /** Taking the lowest digit off `v` takes it off the low part of `v` as well. */
  lemma LowPartStep(v: nat, n: nat)
    requires n > 0
    ensures v % Pow256(n) % 256 == v % 256
    ensures v % Pow256(n) / 256 == v / 256 % Pow256(n - 1)
    ensures v / 256 / Pow256(n - 1) == v / Pow256(n)
  {
    var p := Pow256(n - 1);
    DivDiv(v, 256, p);
    DivModUnique(v % Pow256(n), 256, v / 256 % p, v % 256);
  }

  lemma QuotientFits(v: nat, p: nat, q: nat)
    requires p > 0 && v < p * q
    ensures v / p < q
  {
    var k := v / p;
    assert k >= q ==> p * k >= p * q;
  }

  lemma {:induction false} Pow256Add(a: nat, b: nat)
    ensures Pow256(a + b) == Pow256(a) * Pow256(b)
  {
    if a > 0 {
      Pow256Add(a - 1, b);
      assert Pow256(a + b) == 256 * (Pow256(a - 1) * Pow256(b));
    }
  }

  lemma {:induction false} Pow2Bytes(n: nat)
    ensures Pow2(8 * n) == Pow256(n)
  {
    if n > 0 {
      Pow2Bytes(n - 1);
      var k := 8 * n;
      assert Pow2(k) == 2 * Pow2(k - 1) == 4 * Pow2(k - 2) == 8 * Pow2(k - 3) == 16 * Pow2(k - 4);
      assert Pow2(k - 4) == 2 * Pow2(k - 5) == 4 * Pow2(k - 6) == 8 * Pow2(k - 7) == 16 * Pow2(k - 8);
    }
  }

  /** The three widths of the codec in closed form. */
  lemma Pow256Values()
    ensures Pow256(1) == 0x100
    ensures Pow256(2) == 0x1_0000
    ensures Pow256(4) == 0x1_0000_0000
    ensures Pow256(8) == 0x1_0000_0000_0000_0000
  {
    assert Pow256(1) == 256 * Pow256(0);
    assert Pow256(2) == 256 * Pow256(1);
    assert Pow256(3) == 256 * Pow256(2);
    assert Pow256(4) == 256 * Pow256(3);
    Pow256Add(4, 4);
  }
}
