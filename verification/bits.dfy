/** Bitwise operators on natural numbers, defined bit by bit.

Keeping words as numbers lets array sizes, table indices
and bit masks live in one theory. */
module Bits {

  function Xor(x: nat, y: nat): nat {
    if x == 0 && y == 0 then 0 else 2 * Xor(x / 2, y / 2) + (if x % 2 == y % 2 then 0 else 1)
  }

  function And(x: nat, y: nat): nat {
    if x == 0 || y == 0 then 0 else 2 * And(x / 2, y / 2) + (if x % 2 == 1 && y % 2 == 1 then 1 else 0)
  }

  function Or(x: nat, y: nat): nat {
    if x == 0 && y == 0 then 0 else 2 * Or(x / 2, y / 2) + (if x % 2 == 1 || y % 2 == 1 then 1 else 0)
  }

  function Pow2(k: nat): (p: nat)
    ensures p > 0
  {
    if k == 0 then 1 else 2 * Pow2(k - 1)
  }

  /** Shift right, bit by bit. */
  function Shr(x: nat, k: nat): (y: nat)
    ensures y <= x
  {
    if k == 0 then x else Shr(x / 2, k - 1)
  }

  lemma Pow2Values()
    ensures Pow2(8) == 0x100 && Pow2(16) == 0x1_0000 && Pow2(24) == 0x100_0000 && Pow2(32) == 0x1_0000_0000
  {
    assert Pow2(4) == 0x10;
    assert Pow2(12) == 0x1000;
    assert Pow2(20) == 0x10_0000;
    assert Pow2(28) == 0x1000_0000;
  }

  lemma {:induction false} Pow2Grows(x: nat, y: nat)
    requires x <= y
    ensures Pow2(x) <= Pow2(y)
  {
    if x < y {
      Pow2Grows(x, y - 1);
    }
  }

  lemma {:induction false} Pow2Sum(j: nat, k: nat)
    ensures Pow2(j + k) == Pow2(j) * Pow2(k)
  {
    if j > 0 {
      Pow2Sum(j - 1, k);
      assert Pow2(j + k) == 2 * Pow2(j - 1 + k);
    }
  }

  lemma {:induction false} XorZero(x: nat)
    ensures Xor(x, 0) == x && Xor(0, x) == x
  {
    if x != 0 { XorZero(x / 2); }
  }

  lemma {:induction false} XorSelf(x: nat)
    ensures Xor(x, x) == 0
  {
    if x != 0 { XorSelf(x / 2); }
  }

  lemma {:induction false} XorComm(x: nat, y: nat)
    ensures Xor(x, y) == Xor(y, x)
  {
    if x != 0 || y != 0 { XorComm(x / 2, y / 2); }
  }

  lemma {:induction false} XorAssoc(x: nat, y: nat, z: nat)
    ensures Xor(Xor(x, y), z) == Xor(x, Xor(y, z))
    decreases x + y + z
  {
    if x != 0 || y != 0 || z != 0 {
      XorAssoc(x / 2, y / 2, z / 2);
      XorHalf(x, y);
      XorHalf(y, z);
      XorHalf(Xor(x, y), z);
      XorParts(Xor(Xor(x, y), z), x, Xor(y, z));
    }
  }

  /** Xor acts on the lowest bit and on the rest separately. */
  lemma XorHalf(x: nat, y: nat)
    ensures Xor(x, y) / 2 == Xor(x / 2, y / 2)
    ensures Xor(x, y) % 2 == if x % 2 == y % 2 then 0 else 1
  {
  }

  lemma XorParts(z: nat, x: nat, y: nat)
    requires z / 2 == Xor(x / 2, y / 2)
    requires z % 2 == if x % 2 == y % 2 then 0 else 1
    ensures z == Xor(x, y)
  {
    XorHalf(x, y);
  }

  lemma {:induction false} XorCancel(x: nat, r: nat)
    ensures Xor(Xor(x, r), r) == x
  {
    XorAssoc(x, r, r);
    XorSelf(r);
    XorZero(x);
  }

  lemma {:induction false} XorBound(x: nat, y: nat, k: nat)
    requires x < Pow2(k) && y < Pow2(k)
    ensures Xor(x, y) < Pow2(k)
  {
    if k > 0 {
      XorBound(x / 2, y / 2, k - 1);
    }
  }

  /** Xor acts on the low `k` bits and on the rest separately. */
  lemma {:induction false} XorSplit(a: nat, b: nat, c: nat, d: nat, k: nat)
    requires a < Pow2(k) && c < Pow2(k)
    ensures Xor(a + Pow2(k) * b, c + Pow2(k) * d) == Xor(a, c) + Pow2(k) * Xor(b, d)
  {
    if k == 0 {
      assert a == c == 0 && Xor(a, c) == 0;
    } else {
      Pow2Times(k, b);
      Pow2Times(k, d);
      Pow2Times(k, Xor(b, d));
      XorSplit(a / 2, b, c / 2, d, k - 1);
      XorSplitStep(a, Pow2(k - 1) * b, c, Pow2(k - 1) * d, Pow2(k - 1) * Xor(b, d));
    }
  }

  lemma Pow2Times(k: nat, b: nat)
    requires k > 0
    ensures Pow2(k) * b == 2 * (Pow2(k - 1) * b)
    ensures Pow2(k - 1) * b >= 0
  {
  }

  lemma XorSplitStep(a: nat, b: nat, c: nat, d: nat, e: nat)
    requires Xor(a / 2 + b, c / 2 + d) == Xor(a / 2, c / 2) + e
    ensures Xor(a + 2 * b, c + 2 * d) == Xor(a, c) + 2 * e
  {
    XorHalf(a, c);
    var x, y := a + 2 * b, c + 2 * d;
    assert x / 2 == a / 2 + b && y / 2 == c / 2 + d;
    XorParts(Xor(a, c) + 2 * e, x, y);
  }

  /** The lowest bits of a number are its last bit and the lowest bits of its half. */
  lemma Peel(x: nat, p: nat, m: nat)
    requires p > 0 && m == 2 * p
    ensures x % m == 2 * (x / 2 % p) + x % 2
    ensures x / m == x / 2 / p
    ensures x % m / 2 == x / 2 % p && x % m % 2 == x % 2
  {
    var q, r := x / 2 / p, x / 2 % p;
    assert x / 2 == q * p + r;
    assert x == q * m + (2 * r + x % 2) by {
      assert q * m == 2 * (q * p);
    }
    DivModUnique(x, m, q, 2 * r + x % 2);
  }

  lemma DivModUnique(x: nat, d: nat, q: nat, r: nat)
    requires d > 0 && x == q * d + r && r < d
    ensures x / d == q && x % d == r
  {
    var q', r' := x / d, x % d;
    assert x == q' * d + r';
    assert (q - q') * d == q * d - q' * d;
    assert (q' - q) * d == q' * d - q * d;
    if q > q' {
      MulAtLeast(q - q', d);
    } else if q < q' {
      MulAtLeast(q' - q, d);
    }
  }

  lemma MulAtLeast(m: nat, d: nat)
    requires m > 0
    ensures m * d >= d
  {
  }

  /** Masking with `2^k - 1` is the remainder modulo `2^k`. */
  lemma {:induction false} AndMask(x: nat, k: nat)
    ensures And(x, Pow2(k) - 1) == x % Pow2(k)
  {
    if k > 0 {
      var p := Pow2(k - 1);
      assert Pow2(k) == 2 * p;
      hide And, Pow2;
      AndMask(x / 2, k - 1);
      AndOdd(x, p - 1);
      Peel(x, p, 2 * p);
    }
  }

  lemma AndOdd(x: nat, y: nat)
    ensures And(x, 2 * y + 1) == 2 * And(x / 2, y) + x % 2
  {
    assert (2 * y + 1) / 2 == y && (2 * y + 1) % 2 == 1;
  }

  /** Or of bits that do not overlap is a sum. */
  lemma {:induction false} OrDisjoint(x: nat, y: nat, k: nat)
    requires x < Pow2(k)
    ensures Or(x, Pow2(k) * y) == x + Pow2(k) * y
    ensures Or(Pow2(k) * y, x) == x + Pow2(k) * y
  {
    if k == 0 {
      OrZero(y);
    } else {
      var p := Pow2(k - 1);
      assert Pow2(k) * y == 2 * (p * y);
      OrDisjoint(x / 2, y, k - 1);
    }
  }

  lemma {:induction false} OrZero(x: nat)
    ensures Or(x, 0) == x && Or(0, x) == x
  {
    if x != 0 { OrZero(x / 2); }
  }

  lemma {:induction false} OrBound(x: nat, y: nat, k: nat)
    requires x < Pow2(k) && y < Pow2(k)
    ensures Or(x, y) < Pow2(k)
  {
    if k > 0 {
      OrBound(x / 2, y / 2, k - 1);
    }
  }
}
