/** Known answers: the checksum and the hash of some messages, as the programs that test them have
it. */
module KnownAnswers {
  import opened Bits
  import opened Words
  import opened Lookup3
  import opened Varint
  import opened StreamSpec
  import opened Container
  import C = Crc32c

  // ---------- Exclusive or of numbers ----------

  predicate IsBit(x: nat, y: nat, z: nat) {
    x < 2 && y < 2 && z == if x == y then 0 else 1
  }

  predicate Digit(x: nat, y: nat, z: nat) {
    && x < 16 && y < 16 && z < 16
    && IsBit(x / 8, y / 8, z / 8) && IsBit(x / 4 % 2, y / 4 % 2, z / 4 % 2)
    && IsBit(x / 2 % 2, y / 2 % 2, z / 2 % 2) && IsBit(x % 2, y % 2, z % 2)
  }

  /** A 32-bit number by its hexadecimal digits. */
  datatype Hex = Hex(d7: nat, d6: nat, d5: nat, d4: nat, d3: nat, d2: nat, d1: nat, d0: nat)
  {
    function High(): nat {
      0x1000 * d7 + 0x100 * d6 + 0x10 * d5 + d4
    }

    function Low(): nat {
      0x1000 * d3 + 0x100 * d2 + 0x10 * d1 + d0
    }

    function Value(): nat {
      0x1_0000 * High() + Low()
    }
  }

  predicate Digits(x: Hex, y: Hex, z: Hex) {
    && Digit(x.d7, y.d7, z.d7) && Digit(x.d6, y.d6, z.d6) && Digit(x.d5, y.d5, z.d5) && Digit(x.d4, y.d4, z.d4)
    && Digit(x.d3, y.d3, z.d3) && Digit(x.d2, y.d2, z.d2) && Digit(x.d1, y.d1, z.d1) && Digit(x.d0, y.d0, z.d0)
  }

  lemma XorBit(x: nat, y: nat, z: nat, a: nat, b: nat, c: nat)
    requires Xor(x, y) == z && IsBit(a, b, c)
    ensures Xor(2 * x + a, 2 * y + b) == 2 * z + c
  {
    hide Xor;
    XorParts(2 * z + c, 2 * x + a, 2 * y + b);
  }

  lemma XorBits(x: nat, y: nat, z: nat, a3: nat, a2: nat, a1: nat, a0: nat, b3: nat, b2: nat, b1: nat, b0: nat,
                c3: nat, c2: nat, c1: nat, c0: nat)
    requires Xor(x, y) == z && IsBit(a3, b3, c3) && IsBit(a2, b2, c2) && IsBit(a1, b1, c1) && IsBit(a0, b0, c0)
    ensures Xor(16 * x + 8 * a3 + 4 * a2 + 2 * a1 + a0, 16 * y + 8 * b3 + 4 * b2 + 2 * b1 + b0)
         == 16 * z + 8 * c3 + 4 * c2 + 2 * c1 + c0
  {
    hide Xor, IsBit;
    XorBit(x, y, z, a3, b3, c3);
    XorBit(2 * x + a3, 2 * y + b3, 2 * z + c3, a2, b2, c2);
    XorBit(4 * x + 2 * a3 + a2, 4 * y + 2 * b3 + b2, 4 * z + 2 * c3 + c2, a1, b1, c1);
    XorBit(8 * x + 4 * a3 + 2 * a2 + a1, 8 * y + 4 * b3 + 2 * b2 + b1, 8 * z + 4 * c3 + 2 * c2 + c1, a0, b0, c0);
  }

  /** One more digit. */
  lemma XorDigit(x: nat, y: nat, z: nat, a: nat, b: nat, c: nat)
    requires Xor(x, y) == z && Digit(a, b, c)
    ensures Xor(16 * x + a, 16 * y + b) == 16 * z + c
  {
    DigitBits(a);
    DigitBits(b);
    DigitBits(c);
    hide Xor, IsBit;
    XorBits(x, y, z, a / 8, a / 4 % 2, a / 2 % 2, a % 2, b / 8, b / 4 % 2, b / 2 % 2, b % 2, c / 8, c / 4 % 2, c / 2 % 2, c % 2);
  }

  lemma DigitBits(a: nat)
    requires a < 16
    ensures a == 8 * (a / 8) + 4 * (a / 4 % 2) + 2 * (a / 2 % 2) + a % 2
  {
  }

  lemma XorHalfWord(x: nat, y: nat, z: nat, p: Hex, q: Hex, r: Hex)
    requires Xor(x, y) == z && Digits(p, q, r)
    ensures Xor(0x1_0000 * x + p.High(), 0x1_0000 * y + q.High()) == 0x1_0000 * z + r.High()
    ensures Xor(0x1_0000 * x + p.Low(), 0x1_0000 * y + q.Low()) == 0x1_0000 * z + r.Low()
  {
    hide Xor, Digit;
    XorFour(x, y, z, p.d7, p.d6, p.d5, p.d4, q.d7, q.d6, q.d5, q.d4, r.d7, r.d6, r.d5, r.d4);
    XorFour(x, y, z, p.d3, p.d2, p.d1, p.d0, q.d3, q.d2, q.d1, q.d0, r.d3, r.d2, r.d1, r.d0);
  }

  lemma XorFour(x: nat, y: nat, z: nat, p3: nat, p2: nat, p1: nat, p0: nat, q3: nat, q2: nat, q1: nat, q0: nat,
                r3: nat, r2: nat, r1: nat, r0: nat)
    requires Xor(x, y) == z && Digit(p3, q3, r3) && Digit(p2, q2, r2) && Digit(p1, q1, r1) && Digit(p0, q0, r0)
    ensures Xor(0x1_0000 * x + 0x1000 * p3 + 0x100 * p2 + 0x10 * p1 + p0, 0x1_0000 * y + 0x1000 * q3 + 0x100 * q2 + 0x10 * q1 + q0)
         == 0x1_0000 * z + 0x1000 * r3 + 0x100 * r2 + 0x10 * r1 + r0
  {
    hide Xor, Digit;
    XorDigit(x, y, z, p3, q3, r3);
    XorDigit(16 * x + p3, 16 * y + q3, 16 * z + r3, p2, q2, r2);
    XorDigit(0x100 * x + 16 * p3 + p2, 0x100 * y + 16 * q3 + q2, 0x100 * z + 16 * r3 + r2, p1, q1, r1);
    XorDigit(0x1000 * x + 0x100 * p3 + 16 * p2 + p1, 0x1000 * y + 0x100 * q3 + 16 * q2 + q1, 0x1000 * z + 0x100 * r3 + 16 * r2 + r1, p0, q0, r0);
  }

  lemma XorIs(x: Hex, y: Hex, z: Hex)
    requires Digits(x, y, z)
    ensures Xor(x.Value(), y.Value()) == z.Value()
  {
    hide Xor, Digits, Hex.High, Hex.Low;
    XorZero(0);
    XorHalfWord(0, 0, 0, x, y, z);
    XorHalfWord(x.High(), y.High(), z.High(), x, y, z);
  }

  // ---------- The checksum ----------

  const POLY := Hex(0x8, 0x2, 0xf, 0x6, 0x3, 0xb, 0x7, 0x8)

  lemma Even(d: nat)
    ensures C.Bit(2 * d) == d
  {
  }

  /** A one is shifted out. */
  lemma Odd(h: Hex, d: Hex)
    requires Digits(h, POLY, d)
    ensures C.Bit(2 * h.Value() + 1) == d.Value()
  {
    assert POLY.Value() == 0x82F6_3B78;
    hide Xor, Digits, Hex.Value;
    XorIs(h, POLY, d);
    assert (2 * h.Value() + 1) / 2 == h.Value();
  }

  lemma EightSteps(c0: nat, c1: nat, c2: nat, c3: nat, c4: nat, c5: nat, c6: nat, c7: nat, c8: nat)
    requires C.Bit(c0) == c1 && C.Bit(c1) == c2 && C.Bit(c2) == c3 && C.Bit(c3) == c4
    requires C.Bit(c4) == c5 && C.Bit(c5) == c6 && C.Bit(c6) == c7 && C.Bit(c7) == c8
    ensures C.ByteSteps(c0, 1) == c8
  {
    hide C.Bit;
    assert C.BitSteps(c4, 4) == c8;
    assert C.BitSteps(c0, 8) == C.BitSteps(c4, 4);
  }

  lemma AddA()
    ensures Xor(0xffff_ffff, 0x61) == 0xffff_ff9e
  {
    hide Xor;
    XorIs(Hex(0xf, 0xf, 0xf, 0xf, 0xf, 0xf, 0xf, 0xf), Hex(0x0, 0x0, 0x0, 0x0, 0x0, 0x0, 0x6, 0x1), Hex(0xf, 0xf, 0xf, 0xf, 0xf, 0xf, 0x9, 0xe));
  }

  lemma StepsOfA()
    ensures C.ByteSteps(0xffff_ff9e, 1) == 0x3e2f_bccf
  {
    hide Xor, C.Bit, C.BitSteps;
    Even(0x7fff_ffcf);
    Odd(Hex(0x3, 0xf, 0xf, 0xf, 0xf, 0xf, 0xe, 0x7), Hex(0xb, 0xd, 0x0, 0x9, 0xc, 0x4, 0x9, 0xf));
    Odd(Hex(0x5, 0xe, 0x8, 0x4, 0xe, 0x2, 0x4, 0xf), Hex(0xd, 0xc, 0x7, 0x2, 0xd, 0x9, 0x3, 0x7));
    Odd(Hex(0x6, 0xe, 0x3, 0x9, 0x6, 0xc, 0x9, 0xb), Hex(0xe, 0xc, 0xc, 0xf, 0x5, 0x7, 0xe, 0x3));
    Odd(Hex(0x7, 0x6, 0x6, 0x7, 0xa, 0xb, 0xf, 0x1), Hex(0xf, 0x4, 0x9, 0x1, 0x9, 0x0, 0x8, 0x9));
    Odd(Hex(0x7, 0xa, 0x4, 0x8, 0xc, 0x8, 0x4, 0x4), Hex(0xf, 0x8, 0xb, 0xe, 0xf, 0x3, 0x3, 0xc));
    Even(0x7c5f_799e);
    Even(0x3e2f_bccf);
    EightSteps(0xffff_ff9e, 0x7fff_ffcf, 0xbd09_c49f, 0xdc72_d937, 0xeccf_57e3,
               0xf491_9089, 0xf8be_f33c, 0x7c5f_799e, 0x3e2f_bccf);
  }

  /** The checksum of "a". */
  lemma ChecksumOfA()
    ensures C.Checksum([0x61]) == 0xc1d0_4330
  {
    hide Xor, C.Bit, C.BitSteps, C.ByteSteps;
    AddA();
    StepsOfA();
    C.FoldIsRemainder(0xffff_ffff, [0x61]);
    C.FoldOne(0xffff_ffff, 0x61);
  }

  lemma AddF()
    ensures Xor(0xffff_ffff, 0x66) == 0xffff_ff99
  {
    hide Xor;
    XorIs(Hex(0xf, 0xf, 0xf, 0xf, 0xf, 0xf, 0xf, 0xf), Hex(0x0, 0x0, 0x0, 0x0, 0x0, 0x0, 0x6, 0x6), Hex(0xf, 0xf, 0xf, 0xf, 0xf, 0xf, 0x9, 0x9));
  }

  lemma StepsOfF()
    ensures C.ByteSteps(0xffff_ff99, 1) == 0xeae5_d824
  {
    hide Xor, C.Bit, C.BitSteps;
    Odd(Hex(0x7, 0xf, 0xf, 0xf, 0xf, 0xf, 0xc, 0xc), Hex(0xf, 0xd, 0x0, 0x9, 0xc, 0x4, 0xb, 0x4));
    Even(0x7e84_e25a);
    Even(0x3f42_712d);
    Odd(Hex(0x1, 0xf, 0xa, 0x1, 0x3, 0x8, 0x9, 0x6), Hex(0x9, 0xd, 0x5, 0x7, 0x0, 0x3, 0xe, 0xe));
    Even(0x4eab_81f7);
    Odd(Hex(0x2, 0x7, 0x5, 0x5, 0xc, 0x0, 0xf, 0xb), Hex(0xa, 0x5, 0xa, 0x3, 0xf, 0xb, 0x8, 0x3));
    Odd(Hex(0x5, 0x2, 0xd, 0x1, 0xf, 0xd, 0xc, 0x1), Hex(0xd, 0x0, 0x2, 0x7, 0xc, 0x6, 0xb, 0x9));
    Odd(Hex(0x6, 0x8, 0x1, 0x3, 0xe, 0x3, 0x5, 0xc), Hex(0xe, 0xa, 0xe, 0x5, 0xd, 0x8, 0x2, 0x4));
    EightSteps(0xffff_ff99, 0xfd09_c4b4, 0x7e84_e25a, 0x3f42_712d, 0x9d57_03ee,
               0x4eab_81f7, 0xa5a3_fb83, 0xd027_c6b9, 0xeae5_d824);
  }

  lemma AddFirstO()
    ensures Xor(0xeae5_d824, 0x6f) == 0xeae5_d84b
  {
    hide Xor;
    XorIs(Hex(0xe, 0xa, 0xe, 0x5, 0xd, 0x8, 0x2, 0x4), Hex(0x0, 0x0, 0x0, 0x0, 0x0, 0x0, 0x6, 0xf), Hex(0xe, 0xa, 0xe, 0x5, 0xd, 0x8, 0x4, 0xb));
  }

  lemma StepsOfFirstO()
    ensures C.ByteSteps(0xeae5_d84b, 1) == 0xd818_535f
  {
    hide Xor, C.Bit, C.BitSteps;
    Odd(Hex(0x7, 0x5, 0x7, 0x2, 0xe, 0xc, 0x2, 0x5), Hex(0xf, 0x7, 0x8, 0x4, 0xd, 0x7, 0x5, 0xd));
    Odd(Hex(0x7, 0xb, 0xc, 0x2, 0x6, 0xb, 0xa, 0xe), Hex(0xf, 0x9, 0x3, 0x4, 0x5, 0x0, 0xd, 0x6));
    Even(0x7c9a_286b);
    Odd(Hex(0x3, 0xe, 0x4, 0xd, 0x1, 0x4, 0x3, 0x5), Hex(0xb, 0xc, 0xb, 0xb, 0x2, 0xf, 0x4, 0xd));
    Odd(Hex(0x5, 0xe, 0x5, 0xd, 0x9, 0x7, 0xa, 0x6), Hex(0xd, 0xc, 0xa, 0xb, 0xa, 0xc, 0xd, 0xe));
    Even(0x6e55_d66f);
    Odd(Hex(0x3, 0x7, 0x2, 0xa, 0xe, 0xb, 0x3, 0x7), Hex(0xb, 0x5, 0xd, 0xc, 0xd, 0x0, 0x4, 0xf));
    Odd(Hex(0x5, 0xa, 0xe, 0xe, 0x6, 0x8, 0x2, 0x7), Hex(0xd, 0x8, 0x1, 0x8, 0x5, 0x3, 0x5, 0xf));
    EightSteps(0xeae5_d84b, 0xf784_d75d, 0xf934_50d6, 0x7c9a_286b, 0xbcbb_2f4d,
               0xdcab_acde, 0x6e55_d66f, 0xb5dc_d04f, 0xd818_535f);
  }

  lemma AddSecondO()
    ensures Xor(0xd818_535f, 0x6f) == 0xd818_5330
  {
    hide Xor;
    XorIs(Hex(0xd, 0x8, 0x1, 0x8, 0x5, 0x3, 0x5, 0xf), Hex(0x0, 0x0, 0x0, 0x0, 0x0, 0x0, 0x6, 0xf), Hex(0xd, 0x8, 0x1, 0x8, 0x5, 0x3, 0x3, 0x0));
  }

  lemma StepsOfSecondO()
    ensures C.ByteSteps(0xd818_5330, 1) == 0x303b_51e2
  {
    hide Xor, C.Bit, C.BitSteps;
    Even(0x6c0c_2998);
    Even(0x3606_14cc);
    Even(0x1b03_0a66);
    Even(0x0d81_8533);
    Odd(Hex(0x0, 0x6, 0xc, 0x0, 0xc, 0x2, 0x9, 0x9), Hex(0x8, 0x4, 0x3, 0x6, 0xf, 0x9, 0xe, 0x1));
    Odd(Hex(0x4, 0x2, 0x1, 0xb, 0x7, 0xc, 0xf, 0x0), Hex(0xc, 0x0, 0xe, 0xd, 0x4, 0x7, 0x8, 0x8));
    Even(0x6076_a3c4);
    Even(0x303b_51e2);
    EightSteps(0xd818_5330, 0x6c0c_2998, 0x3606_14cc, 0x1b03_0a66, 0x0d81_8533,
               0x8436_f9e1, 0xc0ed_4788, 0x6076_a3c4, 0x303b_51e2);
  }

  /** The checksum of "foo". */
  lemma ChecksumOfFoo()
    ensures C.Checksum([0x66, 0x6f, 0x6f]) == 0xcfc4_ae1d
  {
    hide Xor, C.Bit, C.BitSteps, C.ByteSteps;
    AddF();
    StepsOfF();
    AddFirstO();
    StepsOfFirstO();
    AddSecondO();
    StepsOfSecondO();
    C.FoldIsRemainder(0xffff_ffff, [0x66, 0x6f, 0x6f]);
    ThreeBytes(0xffff_ffff, 0x66, 0x6f, 0x6f);
  }

  lemma ThreeBytes(c: nat, x: Byte, y: Byte, z: Byte)
    ensures C.Fold(c, [x, y, z]) == C.ByteSteps(Xor(C.ByteSteps(Xor(C.ByteSteps(Xor(c, x), 1), y), 1), z), 1)
  {
    hide C.ByteSteps, Xor;
    var c1 := C.ByteSteps(Xor(c, x), 1);
    var c2 := C.ByteSteps(Xor(c1, y), 1);
    assert [x, y, z][1..] == [y, z] && [y, z][1..] == [z];
    C.FoldOne(c2, z);
    assert C.Fold(c1, [y, z]) == C.Fold(c2, [z]);
  }

  // ---------- The hash ----------

  lemma PowersOfTwo()
    ensures Pow2(4) == 0x10 && Pow2(6) == 0x40 && Pow2(7) == 0x80 && Pow2(8) == 0x100
    ensures Pow2(11) == 0x800 && Pow2(13) == 0x2000 && Pow2(14) == 0x4000 && Pow2(16) == 0x1_0000
    ensures Pow2(18) == 0x4_0000 && Pow2(19) == 0x8_0000 && Pow2(21) == 0x20_0000 && Pow2(24) == 0x100_0000
    ensures Pow2(25) == 0x200_0000 && Pow2(26) == 0x400_0000 && Pow2(28) == 0x1000_0000
  {
    Pow2Sum(8, 3);
    Pow2Sum(8, 5);
    Pow2Sum(8, 6);
    Pow2Sum(8, 8);
    Pow2Sum(16, 2);
    Pow2Sum(16, 3);
    Pow2Sum(16, 5);
    Pow2Sum(16, 8);
    Pow2Sum(16, 9);
    Pow2Sum(16, 10);
    Pow2Sum(16, 12);
  }

  lemma {:induction false} ShrIs(x: nat, n: nat, hi: nat, lo: nat)
    requires x == Pow2(n) * hi + lo && lo < Pow2(n)
    ensures Shr(x, n) == hi
  {
    if n > 0 {
      var p := Pow2(n - 1);
      assert x == 2 * (p * hi) + lo;
      assert x / 2 == p * hi + lo / 2;
      ShrIs(x / 2, n - 1, hi, lo / 2);
    }
  }

  /** The high bits come in below the others. */
  lemma RotIs(x: Word32, k: nat, hi: nat, lo: nat)
    requires 0 < k < 32 && x == Pow2(32 - k) * hi + lo && lo < Pow2(32 - k) && hi < Pow2(k)
    ensures Rot(x, k) == Pow2(k) * lo + hi
  {
    hide Or, Shr, Pow2;
    Pow2Values();
    Pow2Sum(k, 32 - k);
    var p, q := Pow2(k), Pow2(32 - k);
    ShrIs(x, 32 - k, hi, lo);
    Wrapped(x, p, q, hi, lo);
    OrDisjoint(hi, lo, k);
  }

  lemma Wrapped(x: nat, p: nat, q: nat, hi: nat, lo: nat)
    requires p * q == 0x1_0000_0000 && x == q * hi + lo && lo < q && p > 0
    ensures Low32(x * p) == p * lo
  {
    assert x * p == (q * hi) * p + lo * p;
    assert (q * hi) * p == hi * (p * q);
    assert p * lo < p * q;
    DivModUnique(x * p, 0x1_0000_0000, hi, p * lo);
  }

  /** One line of the mixing macro. */
  lemma LineIs(s: State, k: nat, hi: nat, lo: nat, x: Hex, r: Hex, z: Hex)
    requires 0 < k < 32 && s.c == Pow2(32 - k) * hi + lo && lo < Pow2(32 - k) && hi < Pow2(k)
    requires r.Value() == Pow2(k) * lo + hi && x.Value() == Sub(s.a, s.c) && Digits(x, r, z) && z.Value() < 0x1_0000_0000
    ensures Line(s, k) == State(s.b, Add(s.c, s.b), z.Value())
  {
    hide Pow2, Rot, Digits, Hex.Value, Xor;
    RotIs(s.c, k, hi, lo);
    XorIs(x, r, z);
  }

  /** One line of the last mixing. */
  lemma LastIs(x: Hex, y: Hex, z: Hex, k: nat, hi: nat, lo: nat, r: Word32)
    requires 0 < k < 32 && y.Value() == Pow2(32 - k) * hi + lo && lo < Pow2(32 - k) && hi < Pow2(k)
    requires Digits(x, y, z) && x.Value() < 0x1_0000_0000 && y.Value() < 0x1_0000_0000 && z.Value() < 0x1_0000_0000
    requires r == Pow2(k) * lo + hi
    ensures Sub(Xor32(x.Value(), y.Value()), Rot(y.Value(), k)) == Sub(z.Value(), r)
  {
    hide Pow2, Rot, Digits, Hex.Value, Xor;
    RotIs(y.Value(), k, hi, lo);
    XorIs(x, y, z);
  }

  lemma FirstBlock1()
    ensures Line(Line(Line(State(0x5123_2e53, 0x4e11_322d, 0x3fce_247f), 4), 6), 8) == State(0x7b96_a4d3, 0x8921_12d0, 0x0a39_15a2)
  {
    PowersOfTwo();
    hide Line, Pow2, Xor;
    LineIs(State(0x5123_2e53, 0x4e11_322d, 0x3fce_247f), 4, 0x3, 0xfce247f, Hex(0x1, 0x1, 0x5, 0x5, 0x0, 0x9, 0xd, 0x4),
           Hex(0xf, 0xc, 0xe, 0x2, 0x4, 0x7, 0xf, 0x3), Hex(0xe, 0xd, 0xb, 0x7, 0x4, 0xe, 0x2, 0x7));
    LineIs(State(0x4e11_322d, 0x8ddf_56ac, 0xedb7_4e27), 6, 0x3b, 0x1b74e27, Hex(0x6, 0x0, 0x5, 0x9, 0xe, 0x4, 0x0, 0x6),
           Hex(0x6, 0xd, 0xd, 0x3, 0x8, 0x9, 0xf, 0xb), Hex(0x0, 0xd, 0x8, 0xa, 0x6, 0xd, 0xf, 0xd));
    LineIs(State(0x8ddf_56ac, 0x7b96_a4d3, 0x0d8a_6dfd), 8, 0xd, 0x8a6dfd, Hex(0x8, 0x0, 0x5, 0x4, 0xe, 0x8, 0xa, 0xf),
           Hex(0x8, 0xa, 0x6, 0xd, 0xf, 0xd, 0x0, 0xd), Hex(0x0, 0xa, 0x3, 0x9, 0x1, 0x5, 0xa, 0x2));
  }

  lemma FirstBlock2()
    ensures Line(Line(Line(State(0x7b96_a4d3, 0x8921_12d0, 0x0a39_15a2), 16), 19), 4) == State(0xf859_ad7a, 0x04bc_57ae, 0x40dd_dd7e)
  {
    PowersOfTwo();
    hide Line, Pow2, Xor;
    LineIs(State(0x7b96_a4d3, 0x8921_12d0, 0x0a39_15a2), 16, 0xa39, 0x15a2, Hex(0x7, 0x1, 0x5, 0xd, 0x8, 0xf, 0x3, 0x1),
           Hex(0x1, 0x5, 0xa, 0x2, 0x0, 0xa, 0x3, 0x9), Hex(0x6, 0x4, 0xf, 0xf, 0x8, 0x5, 0x0, 0x8));
    LineIs(State(0x8921_12d0, 0x935a_2872, 0x64ff_8508), 19, 0x327fc, 0x508, Hex(0x2, 0x4, 0x2, 0x1, 0x8, 0xd, 0xc, 0x8),
           Hex(0x2, 0x8, 0x4, 0x3, 0x2, 0x7, 0xf, 0xc), Hex(0x0, 0xc, 0x6, 0x2, 0xa, 0xa, 0x3, 0x4));
    LineIs(State(0x935a_2872, 0xf859_ad7a, 0x0c62_aa34), 4, 0x0, 0xc62aa34, Hex(0x8, 0x6, 0xf, 0x7, 0x7, 0xe, 0x3, 0xe),
           Hex(0xc, 0x6, 0x2, 0xa, 0xa, 0x3, 0x4, 0x0), Hex(0x4, 0x0, 0xd, 0xd, 0xd, 0xd, 0x7, 0xe));
  }

  lemma SecondBlock1()
    ensures Line(Line(Line(State(0x6b7a_11e8, 0x7321_ce13, 0xa243_569e), 4), 6), 8) == State(0x0268_f751, 0xc952_4a99, 0xa728_99af)
  {
    PowersOfTwo();
    hide Line, Pow2, Xor;
    LineIs(State(0x6b7a_11e8, 0x7321_ce13, 0xa243_569e), 4, 0xa, 0x243569e, Hex(0xc, 0x9, 0x3, 0x6, 0xb, 0xb, 0x4, 0xa),
           Hex(0x2, 0x4, 0x3, 0x5, 0x6, 0x9, 0xe, 0xa), Hex(0xe, 0xd, 0x0, 0x3, 0xd, 0x2, 0xa, 0x0));
    LineIs(State(0x7321_ce13, 0x1565_24b1, 0xed03_d2a0), 6, 0x3b, 0x103d2a0, Hex(0x8, 0x6, 0x1, 0xd, 0xf, 0xb, 0x7, 0x3),
           Hex(0x4, 0x0, 0xf, 0x4, 0xa, 0x8, 0x3, 0xb), Hex(0xc, 0x6, 0xe, 0x9, 0x5, 0x3, 0x4, 0x8));
    LineIs(State(0x1565_24b1, 0x0268_f751, 0xc6e9_5348), 8, 0xc6, 0xe95348, Hex(0x4, 0xe, 0x7, 0xb, 0xd, 0x1, 0x6, 0x9),
           Hex(0xe, 0x9, 0x5, 0x3, 0x4, 0x8, 0xc, 0x6), Hex(0xa, 0x7, 0x2, 0x8, 0x9, 0x9, 0xa, 0xf));
  }

  lemma SecondBlock2()
    ensures Line(Line(Line(State(0x0268_f751, 0xc952_4a99, 0xa728_99af), 16), 19), 4) == State(0x336a_ded2, 0x059f_2642, 0xbd02_ebd5)
  {
    PowersOfTwo();
    hide Line, Pow2, Xor;
    LineIs(State(0x0268_f751, 0xc952_4a99, 0xa728_99af), 16, 0xa728, 0x99af, Hex(0x5, 0xb, 0x4, 0x0, 0x5, 0xd, 0xa, 0x2),
           Hex(0x9, 0x9, 0xa, 0xf, 0xa, 0x7, 0x2, 0x8), Hex(0xc, 0x2, 0xe, 0xf, 0xf, 0xa, 0x8, 0xa));
    LineIs(State(0xc952_4a99, 0x707a_e448, 0xc2ef_fa8a), 19, 0x6177f, 0x1a8a, Hex(0x0, 0x6, 0x6, 0x2, 0x5, 0x0, 0x0, 0xf),
           Hex(0xd, 0x4, 0x5, 0x6, 0x1, 0x7, 0x7, 0xf), Hex(0xd, 0x2, 0x3, 0x4, 0x4, 0x7, 0x7, 0x0));
    LineIs(State(0x707a_e448, 0x336a_ded2, 0xd234_4770), 4, 0xd, 0x2344770, Hex(0x9, 0xe, 0x4, 0x6, 0x9, 0xc, 0xd, 0x8),
           Hex(0x2, 0x3, 0x4, 0x4, 0x7, 0x7, 0x0, 0xd), Hex(0xb, 0xd, 0x0, 0x2, 0xe, 0xb, 0xd, 0x5));
  }

  lemma LastBlock1()
    ensures Sub(Xor32(0xbd02_ebd5, 0x059f_95a9), Rot(0x059f_95a9, 14)) == 0xd333_3d15
    ensures Sub(Xor32(0x948b_5244, 0xd333_3d15), Rot(0xd333_3d15, 11)) == 0xadcf_c0b8
    ensures Sub(Xor32(0x059f_95a9, 0xadcf_c0b8), Rot(0xadcf_c0b8, 25)) == 0x36f4_b590
    ensures Sub(Xor32(0xd333_3d15, 0x36f4_b590), Rot(0x36f4_b590, 16)) == 0x3037_5191
  {
    PowersOfTwo();
    hide Xor32, Pow2, Rot, Xor;
    LastIs(Hex(0xb, 0xd, 0x0, 0x2, 0xe, 0xb, 0xd, 0x5), Hex(0x0, 0x5, 0x9, 0xf, 0x9, 0x5, 0xa, 0x9),
           Hex(0xb, 0x8, 0x9, 0xd, 0x7, 0xe, 0x7, 0xc), 14, 0x167, 0x395a9, 0xe56a_4167);
    LastIs(Hex(0x9, 0x4, 0x8, 0xb, 0x5, 0x2, 0x4, 0x4), Hex(0xd, 0x3, 0x3, 0x3, 0x3, 0xd, 0x1, 0x5),
           Hex(0x4, 0x7, 0xb, 0x8, 0x6, 0xf, 0x5, 0x1), 11, 0x699, 0x133d15, 0x99e8_ae99);
    LastIs(Hex(0x0, 0x5, 0x9, 0xf, 0x9, 0x5, 0xa, 0x9), Hex(0xa, 0xd, 0xc, 0xf, 0xc, 0x0, 0xb, 0x8),
           Hex(0xa, 0x8, 0x5, 0x0, 0x5, 0x5, 0x1, 0x1), 25, 0x15b9f81, 0x38, 0x715b_9f81);
    LastIs(Hex(0xd, 0x3, 0x3, 0x3, 0x3, 0xd, 0x1, 0x5), Hex(0x3, 0x6, 0xf, 0x4, 0xb, 0x5, 0x9, 0x0),
           Hex(0xe, 0x5, 0xc, 0x7, 0x8, 0x8, 0x8, 0x5), 16, 0x36f4, 0xb590, 0xb590_36f4);
  }

  lemma LastBlock2()
    ensures Sub(Xor32(0xadcf_c0b8, 0x3037_5191), Rot(0x3037_5191, 4)) == 0x9a83_7816
    ensures Sub(Xor32(0x36f4_b590, 0x9a83_7816), Rot(0x9a83_7816, 14)) == 0xce72_26e6
    ensures Sub(Xor32(0x3037_5191, 0xce72_26e6), Rot(0xce72_26e6, 24)) == 0x1777_0551
  {
    PowersOfTwo();
    hide Xor32, Pow2, Rot, Xor;
    LastIs(Hex(0xa, 0xd, 0xc, 0xf, 0xc, 0x0, 0xb, 0x8), Hex(0x3, 0x0, 0x3, 0x7, 0x5, 0x1, 0x9, 0x1),
           Hex(0x9, 0xd, 0xf, 0x8, 0x9, 0x1, 0x2, 0x9), 4, 0x3, 0x375191, 0x0375_1913);
    LastIs(Hex(0x3, 0x6, 0xf, 0x4, 0xb, 0x5, 0x9, 0x0), Hex(0x9, 0xa, 0x8, 0x3, 0x7, 0x8, 0x1, 0x6),
           Hex(0xa, 0xc, 0x7, 0x7, 0xc, 0xd, 0x8, 0x6), 14, 0x26a0, 0x37816, 0xde05_a6a0);
    LastIs(Hex(0x3, 0x0, 0x3, 0x7, 0x5, 0x1, 0x9, 0x1), Hex(0xc, 0xe, 0x7, 0x2, 0x2, 0x6, 0xe, 0x6),
           Hex(0xf, 0xe, 0x4, 0x5, 0x7, 0x7, 0x7, 0x7), 24, 0xce7226, 0xe6, 0xe6ce_7226);
  }

  lemma LastBlock()
    ensures Final(State(0x948b_5244, 0x059f_95a9, 0xbd02_ebd5)) == State(0x9a83_7816, 0xce72_26e6, 0x1777_0551)
  {
    hide Xor32, Rot;
    LastBlock1();
    LastBlock2();
  }

  const FOUR_SCORE: seq<Byte> :=
    [0x46, 0x6f, 0x75, 0x72, 0x20, 0x73, 0x63, 0x6f, 0x72, 0x65, 0x20, 0x61, 0x6e, 0x64, 0x20,
     0x73, 0x65, 0x76, 0x65, 0x6e, 0x20, 0x79, 0x65, 0x61, 0x72, 0x73, 0x20, 0x61, 0x67, 0x6f]

  const FOUR_SCORE_WORDS: seq<Word32> :=
    [0x7275_6f46, 0x6f63_7320, 0x6120_6572, 0x7320_646e,
     0x6e65_7665, 0x6165_7920, 0x6120_7372, 0x0000_6f67]

  lemma FourScoreWords()
    ensures WordsOf(FOUR_SCORE) == FOUR_SCORE_WORDS
  {
  }

  /** The hash of "Four score and seven years ago". */
  lemma HashOfFourScore()
    ensures HashLittle(FOUR_SCORE, 0) == 0x1777_0551 && HashLittle2(FOUR_SCORE, 0, 0) == (0x1777_0551, 0xce72_26e6)
  {
    hide Line, Final, WordsOf;
    FourScoreWords();
    FirstBlock1();
    FirstBlock2();
    SecondBlock1();
    SecondBlock2();
    LastBlock();
  }

  /** Hashes of the empty key, with other seeds. */
  lemma HashOfNothing()
    ensures HashLittle2([], 0, 0) == (0xdead_beef, 0xdead_beef)
    ensures HashLittle2([], 0, 0xdead_beef) == (0xbd5b_7dde, 0xdead_beef)
    ensures HashLittle2([], 0xdead_beef, 0xdead_beef) == (0x9c09_3ccd, 0xbd5b_7dde)
  {
  }

  // ---------- Formats ----------

  /** A varint of two bytes, the low bits first. */
  lemma VarintOf300()
    ensures Encoded(300) == [0xac, 0x02]
  {
  }

  /** A container of the newer kind is its magic number, flags, version, length with the high byte
  first, and its body; the estimate has room for all before the body. */
  lemma HeaderIs(flags: Byte, body: seq<Byte>)
    requires |body| == 0x1_0203
    ensures Encode(V2(flags, body)) == [0x4e, 0x4d, 0x53, 0x47, flags, 2, 0, 1, 2, 3] + body
    ensures |Encode(V2(flags, body))| == HDRLSZ_V2 + |body|
  {
  }

  /** A container of the older kind. */
  lemma OldHeaderIs(body: seq<Byte>)
    requires |body| == 0x203
    ensures Encode(V1(body)) == [0x4e, 0x4d, 0x53, 0x47, 0, 1, 2, 3] + body
  {
  }
}
