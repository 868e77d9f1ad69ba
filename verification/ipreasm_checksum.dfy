/** The Internet checksum (section 3.1 of RFC 791), as it is recomputed for reassembled packets. */
module Checksum {
  import opened Bits
  import opened Words

  /** The sum of the big-endian 16-bit words of a header of even length. */
  function WordSum(h: seq<Byte>): nat {
    if |h| < 2 then 0 else WordSum(h[..|h| - 2]) + (h[|h| - 2] as int) * 0x100 + h[|h| - 1]
  }

  /** Adding the carries back in until 16 bits are left. */
  function Fold(x: nat): (y: nat)
    ensures y < 0x1_0000
    ensures y % 0xffff == x % 0xffff && (y == 0 <==> x == 0)
  {
    CarryKeeps(x);
    if x < 0x1_0000 then x else Fold(x % 0x1_0000 + x / 0x1_0000)
  }

  /** Adding a carry back in changes nothing modulo 65535. */
  lemma CarryKeeps(x: nat)
    ensures (x % 0x1_0000 + x / 0x1_0000) % 0xffff == x % 0xffff
  {
    var q, z := x / 0x1_0000, x % 0x1_0000 + x / 0x1_0000;
    assert x == 0xffff * q + z;
    Multiples(q, z);
  }

  lemma Multiples(k: nat, z: nat)
    ensures (0xffff * k + z) % 0xffff == z % 0xffff
  {
    var c, d := z / 0xffff, z % 0xffff;
    assert 0xffff * k + z == (k + c) * 0xffff + d;
    DivModUnique(0xffff * k + z, 0xffff, k + c, d);
  }

  /** A header whose checksum field holds the complement of the folded sum of the rest verifies. */
  lemma ComplementVerifies(sum: nat)
    ensures Fold(sum + (0xffff - Fold(sum))) == 0xffff
  {
    hide Fold;
    var f := Fold(sum);
    var t: nat := sum + (0xffff - f);
    var a, b, r := sum / 0xffff, f / 0xffff, sum % 0xffff;
    assert sum == 0xffff * a + r && f == 0xffff * b + r && b <= 1;
    assert t == 0xffff * (a + 1 - b);
    Multiples(a + 1 - b, 0);
    assert t % 0xffff == 0;
  }

  lemma {:induction false} WordSumBound(h: seq<Byte>)
    ensures WordSum(h) <= |h| * 0x8000
  {
    if |h| >= 2 {
      WordSumBound(h[..|h| - 2]);
    }
  }

  lemma {:induction false} WordSumPositive(h: seq<Byte>)
    requires |h| >= 2 && |h| % 2 == 0 && h[0] != 0
    ensures WordSum(h) > 0
  {
    if |h| > 2 {
      WordSumPositive(h[..|h| - 2]);
    }
  }

  /** A sum verifies with one checksum only, or with 0 and its complement. */
  lemma OneChecksum(sum: nat, c: nat, d: nat)
    requires Fold(sum + c) == Fold(sum + d) == 0xffff && c < 0xffff && d < 0xffff
    ensures c == d
  {
    hide Fold;
    var x, y := sum + c, sum + d;
    assert x % 0xffff == Fold(x) % 0xffff == 0;
    assert y % 0xffff == Fold(y) % 0xffff == 0;
    assert x == 0xffff * (x / 0xffff) && y == 0xffff * (y / 0xffff);
  }

  /** Setting a zero word at an even index adds it to the sum. */
  lemma {:induction false} WordSumSet(h: seq<Byte>, i: nat, hi: Byte, lo: Byte)
    requires i % 2 == 0 && i + 2 <= |h| && |h| % 2 == 0
    requires h[i] == 0 && h[i + 1] == 0
    ensures WordSum(h[i := hi][i + 1 := lo]) == WordSum(h) + (hi as int) * 0x100 + lo
  {
    var g := h[i := hi][i + 1 := lo];
    var n := |h| - 2;
    if i == n {
      assert g[..n] == h[..n];
    } else {
      WordSumSet(h[..n], i, hi, lo);
      assert g[..n] == h[..n][i := hi][i + 1 := lo];
    }
  }
}
