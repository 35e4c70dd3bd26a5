/**
 The machine arithmetic the kernel relies on: 64-bit and 32-bit wrap-around, and the bitwise operators
 on unsigned integers, each given bit by bit and then tied to the division and remainder it stands for.
 */
module Bits {

  const TWO_32: nat := 0x1_0000_0000
  const TWO_64: nat := 0x1_0000_0000_0000_0000

  /** A uint64_t (and, on this machine, a uintptr_t and a size_t). */
  type Word = x: nat | x < 0x1_0000_0000_0000_0000

  function Wrap32(x: int): nat {
    x % TWO_32
  }

  function Wrap64(x: int): Word {
    x % TWO_64
  }

  function Pow2(n: nat): (p: nat)
    ensures p >= 1
  {
    if n == 0 then 1 else 2 * Pow2(n - 1)
  }

  function And(a: nat, b: nat): (r: nat)
    ensures r <= a && r <= b
  {
    if a == 0 || b == 0 then 0
    else 2 * And(a / 2, b / 2) + (if a % 2 == 1 && b % 2 == 1 then 1 else 0)
  }

  function Or(a: nat, b: nat): (r: nat)
    ensures a <= r <= a + b && b <= r
  {
    if a == 0 then b
    else if b == 0 then a
    else 2 * Or(a / 2, b / 2) + (if a % 2 == 1 || b % 2 == 1 then 1 else 0)
  }

  function Xor(a: nat, b: nat): (r: nat)
    ensures r <= a + b
  {
    if a == 0 then b
    else if b == 0 then a
    else 2 * Xor(a / 2, b / 2) + (if a % 2 != b % 2 then 1 else 0)
  }

  /** The powers of two that occur as masks and page sizes. */
  lemma PowersOfTwo()
    ensures Pow2(9) == 0x200 && Pow2(12) == 0x1000 && Pow2(21) == 0x20_0000 && Pow2(27) == 0x800_0000
    ensures Pow2(36) == 0x10_0000_0000 && Pow2(48) == 0x1_0000_0000_0000 && Pow2(52) == 0x10_0000_0000_0000
    ensures Pow2(53) == 0x20_0000_0000_0000 && Pow2(54) == 0x40_0000_0000_0000
    ensures Pow2(0) == 1 && Pow2(1) == 2 && Pow2(8) == 0x100 && Pow2(10) == 0x400
  {
    assert Pow2(6) == 0x40;
    assert Pow2(17) == 0x2_0000;
    assert Pow2(24) == 0x100_0000;
    assert Pow2(32) == 0x1_0000_0000;
    assert Pow2(40) == 0x100_0000_0000;
    assert Pow2(46) == 0x4000_0000_0000;
  }

  lemma MultipleIsLarge(d: int, m: nat)
    requires d != 0
    ensures d * m >= m || d * m <= 0 - m
  {
    if d > 0 {
      assert (d - 1) * m >= 0;
    } else {
      assert (-d - 1) * m >= 0;
    }
  }

  lemma DivModUnique(x: int, m: nat, q: int, r: nat)
    requires r < m && x == q * m + r
    ensures x / m == q && x % m == r
  {
    var d := x / m - q;
    assert d * m == r - x % m;
    if d != 0 {
      MultipleIsLarge(d, m);
    }
  }

  /** Halving x halves its quotient by an even divisor, and keeps all but the lowest bit of its remainder. */
  lemma HalveDivMod(x: nat, p: nat)
    requires p >= 1
    ensures x / (2 * p) == (x / 2) / p
    ensures x % (2 * p) == 2 * ((x / 2) % p) + x % 2
  {
    var q, r := (x / 2) / p, (x / 2) % p;
    assert x == q * (2 * p) + (2 * r + x % 2);
    DivModUnique(x, 2 * p, q, 2 * r + x % 2);
  }

  /** Masking with k low ones is the remainder by 2^k. */
  lemma {:induction false} AndLowMask(x: nat, k: nat)
    ensures And(x, Pow2(k) - 1) == x % Pow2(k)
  {
    if k > 0 {
      AndLowMask(x / 2, k - 1);
      HalveDivMod(x, Pow2(k - 1));
    }
  }

  /** Masking with k ones above j zeros keeps exactly bits j .. j+k-1, in place. */
  lemma {:induction false} AndFieldMask(x: nat, j: nat, k: nat)
    ensures And(x, Pow2(j) * (Pow2(k) - 1)) == (x / Pow2(j)) % Pow2(k) * Pow2(j)
  {
    if j == 0 {
      AndLowMask(x, k);
    } else {
      var y := Pow2(j - 1) * (Pow2(k) - 1);
      AndFieldMask(x / 2, j - 1, k);
      HalveDivMod(x, Pow2(j - 1));
      AndEven(x, y);
      DoubleProduct(Pow2(j - 1), Pow2(k) - 1);
      DoubleProduct(Pow2(j - 1), (x / Pow2(j)) % Pow2(k));
    }
  }

  lemma DoubleProduct(p: nat, m: nat)
    ensures (2 * p) * m == 2 * (p * m) && m * (2 * p) == 2 * (m * p)
  {
  }

  lemma AndEven(x: nat, y: nat)
    ensures And(x, 2 * y) == 2 * And(x / 2, y)
  {
    assert (2 * y) / 2 == y && (2 * y) % 2 == 0;
  }

  /** Or-ing bit fields that do not overlap adds them. */
  lemma {:induction false} OrDisjoint(x: nat, y: nat, k: nat)
    requires x % Pow2(k) == 0 && y < Pow2(k)
    ensures Or(x, y) == x + y
  {
    if k > 0 && x > 0 && y > 0 {
      HalveDivMod(x, Pow2(k - 1));
      OrDisjoint(x / 2, y / 2, k - 1);
    }
  }

  lemma {:induction false} OrCommutes(a: nat, b: nat)
    ensures Or(a, b) == Or(b, a)
  {
    if a != 0 && b != 0 {
      OrCommutes(a / 2, b / 2);
    }
  }

  lemma OrHalves(x: nat, y: nat)
    ensures Or(x, y) / 2 == Or(x / 2, y / 2)
    ensures Or(x, y) % 2 == if x % 2 == 1 || y % 2 == 1 then 1 else 0
  {
  }

  lemma OrBits(a: nat, b: nat, p: nat, q: nat)
    requires p < 2 && q < 2
    ensures Or(2 * a + p, 2 * b + q) == 2 * Or(a, b) + (if p == 1 || q == 1 then 1 else 0)
  {
    OrHalves(2 * a + p, 2 * b + q);
    assert (2 * a + p) / 2 == a && (2 * b + q) / 2 == b;
  }

  /** Or-ing into the low bits leaves the high ones. */
  lemma {:induction false} OrAligned(q: nat, a: nat, b: nat, k: nat)
    requires a < Pow2(k) && b < Pow2(k)
    ensures Or(q * Pow2(k) + a, b) == q * Pow2(k) + Or(a, b)
  {
    hide Or;
    if k == 0 {
      OrNothing(q);
      OrNothing(0);
    } else {
      var p := Pow2(k - 1);
      OrAligned(q, a / 2, b / 2, k - 1);
      OrBits(q * p + a / 2, b / 2, a % 2, b % 2);
      OrBits(a / 2, b / 2, a % 2, b % 2);
      DoubleProduct(p, q);
    }
  }

  lemma OrNothing(x: nat)
    ensures Or(x, 0) == x && Or(0, x) == x
  {
  }

  lemma {:induction false} XorInvolutive(a: nat, b: nat)
    ensures Xor(Xor(a, b), b) == a
  {
    if a == 0 {
      XorSelf(b);
    } else if b != 0 {
      XorInvolutive(a / 2, b / 2);
      assert Xor(a, b) / 2 == Xor(a / 2, b / 2);
    }
  }

  lemma {:induction false} XorCommutes(a: nat, b: nat)
    ensures Xor(a, b) == Xor(b, a)
  {
    if a != 0 && b != 0 {
      XorCommutes(a / 2, b / 2);
    }
  }

  lemma {:induction false} XorSelf(b: nat)
    ensures Xor(b, b) == 0
  {
    if b != 0 {
      XorSelf(b / 2);
    }
  }
}
