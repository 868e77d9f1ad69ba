/** CRC32C: one bit at a time, one byte at a time, eight bytes at a time, and by instruction. */
module Crc32c {
  import opened Bits
  import opened Words

  // ---------- By bits ----------

  /** The remainder moved on by one bit; the lowest bit stands for the highest power. */
  function Bit(c: nat): nat {
    if c % 2 == 0 then c / 2 else Xor(c / 2, 0x82F6_3B78)
  }

  function BitSteps(c: nat, k: nat): nat
    decreases k
  {
    if k == 0 then c else BitSteps(Bit(c), k - 1)
  }

  /** The low `k` bits of `v` taken into the remainder, the lowest first. */
  function Serial(c: nat, v: nat, k: nat): nat
    decreases k
  {
    if k == 0 then c else Serial(Bit(Xor(c, v % 2)), v / 2, k - 1)
  }

  /** The remainder after a message, by the definition. */
  function Remainder(c: nat, bytes: seq<Byte>): nat
    decreases |bytes|
  {
    if bytes == [] then c else Remainder(Serial(c, bytes[0], 8), bytes[1..])
  }

  /** The checksum of a message. */
  function Checksum(bytes: seq<Byte>): int {
    0xffff_ffff - Remainder(0xffff_ffff, bytes)
  }

  lemma BitLinear(x: nat, y: nat)
    ensures Bit(Xor(x, y)) == Xor(Bit(x), Bit(y))
  {
    var p := 0x82F6_3B78;
    var a, b := x / 2, y / 2;
    XorHalf(x, y);
    if x % 2 == 1 && y % 2 == 1 {
      XorAssoc(a, p, Xor(b, p));
      XorComm(b, p);
      XorAssoc(p, p, b);
      XorSelf(p);
      XorZero(b);
    } else if x % 2 == 1 {
      XorAssoc(a, p, b);
      XorComm(p, b);
      XorAssoc(a, b, p);
    } else if y % 2 == 1 {
      XorAssoc(a, b, p);
    }
  }

  lemma BitOfEven(y: nat)
    ensures Bit(2 * y) == y
  {
  }

  lemma {:induction false} StepsLinear(x: nat, y: nat, k: nat)
    ensures BitSteps(Xor(x, y), k) == Xor(BitSteps(x, k), BitSteps(y, k))
    decreases k
  {
    if k > 0 {
      BitLinear(x, y);
      StepsLinear(Bit(x), Bit(y), k - 1);
    }
  }

  lemma {:induction false} StepsShift(y: nat, k: nat)
    ensures BitSteps(Pow2(k) * y, k) == y
    decreases k
  {
    if k > 0 {
      Pow2Times(k, y);
      BitOfEven(Pow2(k - 1) * y);
      StepsShift(y, k - 1);
    }
  }

  lemma {:induction false} StepsSum(c: nat, j: nat, k: nat)
    ensures BitSteps(BitSteps(c, j), k) == BitSteps(c, j + k)
    decreases j
  {
    if j > 0 {
      StepsSum(Bit(c), j - 1, k);
    }
  }

  lemma {:induction false} StepsBound(c: nat, k: nat)
    requires c < Pow2(32)
    ensures BitSteps(c, k) < Pow2(32)
    decreases k
  {
    if k > 0 {
      Pow2Values();
      XorBound(c / 2, 0x82F6_3B78, 32);
      StepsBound(Bit(c), k - 1);
    }
  }

  /** Taking in bits one after the other is the same as adding them all and moving on. */
  lemma {:induction false} SerialIsSteps(c: nat, v: nat, k: nat)
    requires v < Pow2(k)
    ensures Serial(c, v, k) == BitSteps(Xor(c, v), k)
    decreases k
  {
    hide Xor, Bit;
    if k == 0 {
      XorZero(c);
    } else {
      var low, rest := v % 2, v / 2;
      XorLow(low, rest, 1);
      XorAssoc(c, low, 2 * rest);
      BitLinear(Xor(c, low), 2 * rest);
      BitOfEven(rest);
      SerialIsSteps(Bit(Xor(c, low)), rest, k - 1);
    }
  }

  /** Low and high bits put together. */
  lemma XorLow(low: nat, high: nat, k: nat)
    requires low < Pow2(k)
    ensures Xor(low, Pow2(k) * high) == low + Pow2(k) * high
  {
    hide Xor, Pow2;
    var p := Pow2(k);
    XorSplit(low, 0, 0, high, k);
    XorZero(low);
    XorZero(high);
    assert low + p * 0 == low && 0 + p * high == p * high;
  }

  // ---------- By bytes ----------

  function ByteSteps(c: nat, n: nat): nat {
    BitSteps(c, 8 * n)
  }

  lemma ByteOnce(c: nat, n: nat)
    ensures ByteSteps(ByteSteps(c, 1), n) == ByteSteps(c, n + 1)
  {
    StepsSum(c, 8, 8 * n);
  }

  /** A byte at a time, without tables. */
  function Fold(c: nat, bytes: seq<Byte>): nat
    decreases |bytes|
  {
    if bytes == [] then c else Fold(ByteSteps(Xor(c, bytes[0]), 1), bytes[1..])
  }

  lemma {:induction false} FoldIsRemainder(c: nat, bytes: seq<Byte>)
    ensures Fold(c, bytes) == Remainder(c, bytes)
    decreases |bytes|
  {
    if bytes != [] {
      Pow2Values();
      SerialIsSteps(c, bytes[0], 8);
      FoldIsRemainder(ByteSteps(Xor(c, bytes[0]), 1), bytes[1..]);
    }
  }

  lemma {:induction false} FoldBound(c: nat, bytes: seq<Byte>)
    requires c < Pow2(32)
    ensures Fold(c, bytes) < Pow2(32)
    decreases |bytes|
  {
    if bytes != [] {
      Pow2Values();
      XorBound(c, bytes[0], 32);
      StepsBound(Xor(c, bytes[0]), 8);
      FoldBound(ByteSteps(Xor(c, bytes[0]), 1), bytes[1..]);
    }
  }

  lemma {:induction false} FoldConcat(c: nat, a: seq<Byte>, b: seq<Byte>)
    ensures Fold(c, a + b) == Fold(Fold(c, a), b)
    decreases |a|
  {
    if a == [] {
      assert a + b == b;
    } else {
      assert (a + b)[1..] == a[1..] + b;
      FoldConcat(ByteSteps(Xor(c, a[0]), 1), a[1..], b);
    }
  }

  /** The number whose bytes, lowest first, are given. */
  function Little(bytes: seq<Byte>): nat {
    if bytes == [] then 0 else bytes[0] + 0x100 * Little(bytes[1..])
  }

  /** Moving on by bytes: the lowest byte and the rest. */
  lemma StepsByByte(low: nat, rest: nat, n: nat)
    requires low < 0x100
    ensures ByteSteps(low + 0x100 * rest, n + 1) == Xor(ByteSteps(low, n + 1), ByteSteps(rest, n))
  {
    Pow2Values();
    XorLow(low, rest, 8);
    StepsLinear(low, 0x100 * rest, 8 * (n + 1));
    StepsShift(rest, 8);
    StepsSum(0x100 * rest, 8, 8 * n);
  }

  lemma StepsNone(c: nat)
    ensures ByteSteps(c, 0) == c
  {
  }

  /** Bytes can be added all at once. */
  lemma {:induction false} FoldIsSteps(c: nat, bytes: seq<Byte>)
    ensures Fold(c, bytes) == ByteSteps(Xor(c, Little(bytes)), |bytes|)
    decreases |bytes|
  {
    hide Xor, BitSteps;
    if bytes == [] {
      StepsNone(Xor(c, 0));
      XorZero(c);
    } else {
      var b, rest, n := bytes[0], Little(bytes[1..]), |bytes| - 1;
      Pow2Values();
      XorLow(b, rest, 8);
      XorAssoc(c, b, 0x100 * rest);
      StepsLinear(Xor(c, b), 0x100 * rest, 8);
      StepsShift(rest, 8);
      ByteOnce(Xor(c, Little(bytes)), n);
      FoldIsSteps(ByteSteps(Xor(c, b), 1), bytes[1..]);
    }
  }

  // ---------- By tables ----------

  /** Entry `i` of table `k`. */
  function Entry(k: nat, i: nat): nat {
    if k == 0 then ByteSteps(i, 1)
    else
      var e := Entry(k - 1, i);
      Xor(e / 0x100, Entry(0, e % 0x100))
  }

  /** One byte through the first table. */
  lemma ByTable(c: nat)
    ensures ByteSteps(c, 1) == Xor(c / 0x100, Entry(0, c % 0x100))
  {
    hide Xor, ByteSteps, Entry;
    assert c == c % 0x100 + 0x100 * (c / 0x100);
    StepsByByte(c % 0x100, c / 0x100, 0);
    StepsNone(c / 0x100);
    FirstTable(c % 0x100);
    XorComm(c / 0x100, Entry(0, c % 0x100));
  }

  lemma FirstTable(i: nat)
    ensures Entry(0, i) == ByteSteps(i, 1)
  {
  }

  lemma EntryNext(k: nat, i: nat)
    requires k > 0
    ensures var e := Entry(k - 1, i); Entry(k, i) == Xor(e / 0x100, Entry(0, e % 0x100))
  {
  }

  /** Table `k` moves a byte on by `k + 1` bytes. */
  lemma {:induction false} EntryIs(k: nat, i: nat)
    ensures Entry(k, i) == ByteSteps(i, k + 1)
  {
    hide ByteSteps, Xor, Entry;
    if k > 0 {
      EntryIs(k - 1, i);
      EntryNext(k, i);
      ByTable(ByteSteps(i, k));
      StepsLater(i, k);
    } else {
      FirstTable(i);
    }
  }

  lemma StepsLater(c: nat, n: nat)
    ensures ByteSteps(ByteSteps(c, n), 1) == ByteSteps(c, n + 1)
  {
    StepsSum(c, 8 * n, 8);
  }

  /** A number of `n` bytes moved on by `n` bytes, each byte through its table. */
  function Sliced(x: nat, n: nat): nat
    decreases n
  {
    if n == 0 then 0 else Xor(Entry(n - 1, x % 0x100), Sliced(x / 0x100, n - 1))
  }

  lemma {:induction false} SlicedIsSteps(x: nat, n: nat)
    requires x < Pow2(8 * n)
    ensures Sliced(x, n) == ByteSteps(x, n)
    decreases n
  {
    hide Entry, Xor;
    if n == 0 {
      StepsNone(x);
    } else {
      Pow2Values();
      Pow2Sum(8, 8 * (n - 1));
      SlicedIsSteps(x / 0x100, n - 1);
      EntryIs(n - 1, x % 0x100);
      StepsByByte(x % 0x100, x / 0x100, n - 1);
    }
  }

  /** A byte of the message through the first table. */
  function Feed(c: nat, b: Byte): nat {
    Xor(Entry(0, Xor(c, b) % 0x100), c / 0x100)
  }

  lemma FeedIs(c: nat, b: Byte)
    ensures Feed(c, b) == ByteSteps(Xor(c, b), 1)
  {
    hide Xor, Entry, ByteSteps;
    ByTable(Xor(c, b));
    XorByte(c, b);
    XorComm(c / 0x100, Entry(0, Xor(c, b) % 0x100));
  }

  /** A byte changes the low bits only. */
  lemma XorByte(c: nat, b: Byte)
    ensures Xor(c, b) / 0x100 == c / 0x100
  {
    hide Xor;
    Pow2Values();
    var low, high := c % 0x100, c / 0x100;
    XorBound(low, b, 8);
    XorSplit(low, high, b, 0, 8);
    XorZero(high);
    assert c == low + 0x100 * high;
    assert Xor(c, b) == Xor(low, b) + 0x100 * high;
  }

  /** Eight terms, however the parentheses are put. */
  lemma EightTerms(t0: nat, t1: nat, t2: nat, t3: nat, t4: nat, t5: nat, t6: nat, t7: nat)
    ensures Xor(Xor(Xor(Xor(Xor(Xor(Xor(t0, t1), t2), t3), t4), t5), t6), t7)
         == Xor(t0, Xor(t1, Xor(t2, Xor(t3, Xor(t4, Xor(t5, Xor(t6, Xor(t7, 0))))))))
  {
    hide Xor;
    var l1 := Xor(t0, t1);
    var l2 := Xor(l1, t2);
    var l3 := Xor(l2, t3);
    var l4 := Xor(l3, t4);
    var l5 := Xor(l4, t5);
    var l6 := Xor(l5, t6);
    XorZero(t7);
    var r6 := Xor(t6, t7);
    var r5 := Xor(t5, r6);
    var r4 := Xor(t4, r5);
    var r3 := Xor(t3, r4);
    var r2 := Xor(t2, r3);
    XorAssoc(l5, t6, t7);
    XorAssoc(l4, t5, r6);
    XorAssoc(l3, t4, r5);
    XorAssoc(l2, t3, r4);
    XorAssoc(l1, t2, r3);
    XorAssoc(t0, t1, r2);
  }

  /** One step of slicing: two words of the message, the first added to the remainder. */
  function Slice(crc: nat, next: nat): nat {
    Xor(Xor(Xor(Xor(Xor(Xor(Xor(
      Entry(7, crc % 0x100),
      Entry(6, crc / 0x100 % 0x100)),
      Entry(5, crc / 0x1_0000 % 0x100)),
      Entry(4, crc / 0x100_0000)),
      Entry(3, next % 0x100)),
      Entry(2, next / 0x100 % 0x100)),
      Entry(1, next / 0x1_0000 % 0x100)),
      Entry(0, next / 0x100_0000))
  }

  lemma SlicedStep(x: nat, n: nat, low: nat, rest: nat)
    requires low < 0x100 && x == low + 0x100 * rest
    ensures Sliced(x, n + 1) == Xor(Entry(n, low), Sliced(rest, n))
  {
    hide Xor, Entry;
    assert x % 0x100 == low && x / 0x100 == rest;
  }

  lemma SliceIsSliced(a: Word32, b: Word32)
    ensures Slice(a, b) == Sliced(a + 0x1_0000_0000 * b, 8)
  {
    hide Xor, Entry, Sliced;
    BytesOfWord(a);
    BytesOfWord(b);
    SlicedStep(a + 0x1_0000_0000 * b, 7, a % 0x100, a / 0x100 + 0x100_0000 * b);
    SlicedStep(a / 0x100 + 0x100_0000 * b, 6, a / 0x100 % 0x100, a / 0x1_0000 + 0x1_0000 * b);
    SlicedStep(a / 0x1_0000 + 0x1_0000 * b, 5, a / 0x1_0000 % 0x100, a / 0x100_0000 + 0x100 * b);
    SlicedStep(a / 0x100_0000 + 0x100 * b, 4, a / 0x100_0000, b);
    SlicedWord(b);
    EightTerms(Entry(7, a % 0x100), Entry(6, a / 0x100 % 0x100), Entry(5, a / 0x1_0000 % 0x100), Entry(4, a / 0x100_0000),
               Entry(3, b % 0x100), Entry(2, b / 0x100 % 0x100), Entry(1, b / 0x1_0000 % 0x100), Entry(0, b / 0x100_0000));
  }

  lemma BytesOfWord(a: Word32)
    ensures a == a % 0x100 + 0x100 * (a / 0x100) && a / 0x100_0000 < 0x100
    ensures a / 0x100 == a / 0x100 % 0x100 + 0x100 * (a / 0x1_0000)
    ensures a / 0x1_0000 == a / 0x1_0000 % 0x100 + 0x100 * (a / 0x100_0000)
  {
  }

  lemma SlicedWord(b: Word32)
    ensures Sliced(b, 4) ==
            Xor(Entry(3, b % 0x100), Xor(Entry(2, b / 0x100 % 0x100), Xor(Entry(1, b / 0x1_0000 % 0x100), Xor(Entry(0, b / 0x100_0000), 0))))
  {
    hide Xor, Entry, Sliced;
    BytesOfWord(b);
    SlicedStep(b, 3, b % 0x100, b / 0x100);
    SlicedStep(b / 0x100, 2, b / 0x100 % 0x100, b / 0x1_0000);
    SlicedStep(b / 0x1_0000, 1, b / 0x1_0000 % 0x100, b / 0x100_0000);
    SlicedStep(b / 0x100_0000, 0, b / 0x100_0000, 0);
    SlicedNone(0);
  }

  lemma SlicedNone(x: nat)
    ensures Sliced(x, 0) == 0
  {
  }

  /** Eight bytes of the message at once. */
  lemma SliceIsFold(c: Word32, bytes: seq<Byte>)
    requires |bytes| == 8
    ensures Slice(Xor(c, Little(bytes[..4])), Little(bytes[4..])) == Fold(c, bytes)
  {
    hide Slice, Sliced, Fold, Xor, ByteSteps, Little;
    var a, b := Little(bytes[..4]), Little(bytes[4..]);
    LittleBound(bytes[..4]);
    LittleBound(bytes[4..]);
    LittleConcat(bytes[..4], bytes[4..]);
    assert bytes[..4] + bytes[4..] == bytes;
    Pow2Values();
    XorBound(c, a, 32);
    XorSplit(c, 0, a, b, 32);
    XorZero(b);
    SliceIsSliced(Xor(c, a), b);
    Pow2Sum(32, 32);
    LittleBound(bytes);
    XorBound(c, Little(bytes), 64);
    SlicedIsSteps(Xor(c, Little(bytes)), 8);
    FoldIsSteps(c, bytes);
  }

  lemma {:induction false} LittleBound(bytes: seq<Byte>)
    ensures Little(bytes) < Pow2(8 * |bytes|)
  {
    if bytes != [] {
      LittleBound(bytes[1..]);
      Pow2Values();
      Pow2Sum(8, 8 * (|bytes| - 1));
    }
  }

  lemma {:induction false} LittleConcat(a: seq<Byte>, b: seq<Byte>)
    ensures Little(a + b) == Little(a) + Pow2(8 * |a|) * Little(b)
  {
    if a == [] {
      assert a + b == b;
    } else {
      assert (a + b)[1..] == a[1..] + b;
      LittleConcat(a[1..], b);
      Pow2Values();
      Pow2Sum(8, 8 * (|a| - 1));
      var p, l := Pow2(8 * (|a| - 1)), Little(b);
      assert Pow2(8 * |a|) == 0x100 * p;
      LittleStep(a[0], Little(a[1..]), p, l);
    }
  }

  lemma LittleStep(low: nat, rest: nat, p: nat, l: nat)
    ensures low + 0x100 * (rest + p * l) == low + 0x100 * rest + (0x100 * p) * l
  {
    assert (0x100 * p) * l == 0x100 * (p * l);
  }

  lemma FoldStep(c: nat, bytes: seq<Byte>, i: nat)
    requires i < |bytes|
    ensures Fold(c, bytes[..i + 1]) == ByteSteps(Xor(Fold(c, bytes[..i]), bytes[i]), 1)
  {
    assert bytes[..i + 1] == bytes[..i] + [bytes[i]];
    FoldConcat(c, bytes[..i], [bytes[i]]);
    FoldOne(Fold(c, bytes[..i]), bytes[i]);
  }

  lemma FoldOne(c: nat, b: Byte)
    ensures Fold(c, [b]) == ByteSteps(Xor(c, b), 1)
  {
    assert [b][1..] == [];
  }

  lemma FoldPart(c: nat, bytes: seq<Byte>, i: nat, n: nat)
    requires i + n <= |bytes|
    ensures Fold(c, bytes[..i + n]) == Fold(Fold(c, bytes[..i]), bytes[i..i + n])
  {
    assert bytes[..i + n] == bytes[..i] + bytes[i..i + n];
    FoldConcat(c, bytes[..i], bytes[i..i + n]);
  }

  lemma Finished(bytes: seq<Byte>)
    ensures 0xffff_ffff - Fold(0xffff_ffff, bytes) == Checksum(bytes)
    ensures 0 <= Checksum(bytes) <= 0xffff_ffff
  {
    Pow2Values();
    FoldIsRemainder(0xffff_ffff, bytes);
    FoldBound(0xffff_ffff, bytes);
  }

  /** A word as it is loaded from memory, lowest byte first. */
  function Load32(p: seq<Byte>, at: nat): Word32
    requires at + 4 <= |p|
  {
    Word(p[at], p[at + 1], p[at + 2], p[at + 3])
  }

  lemma LoadIsLittle(p: seq<Byte>, at: nat)
    requires at + 4 <= |p|
    ensures Load32(p, at) == Little(p[at..at + 4])
  {
    var w := p[at..at + 4];
    assert w[1..][1..] == w[2..] && w[2..][1..] == w[3..] && w[3..][1..] == [];
    assert Little(w[3..]) == w[3];
    assert Little(w[2..]) == w[2] + 0x100 * Little(w[3..]);
    assert Little(w[1..]) == w[1] + 0x100 * Little(w[2..]);
  }

  lemma LoadsSlice(c: Word32, p: seq<Byte>, at: nat)
    requires at + 8 <= |p|
    ensures Slice(Xor(c, Load32(p, at)), Load32(p, at + 4)) == Fold(c, p[at..at + 8])
  {
    hide Slice, Fold, Little, Load32, Xor;
    var w := p[at..at + 8];
    assert w[..4] == p[at..at + 4];
    assert w[4..] == p[at + 4..at + 8];
    LoadIsLittle(p, at);
    LoadIsLittle(p, at + 4);
    SliceIsFold(c, w);
  }

  /** The checksum by tables, eight bytes at a time; `address` is where the chunk starts. */
  method Slicing(chunk: seq<Byte>, address: nat) returns (sum: int)
    ensures sum == Checksum(chunk)
  {
    hide Fold, Feed, Slice, Load32, Xor, ByteSteps, Checksum;
    var crc: nat, p: nat, len: nat := 0xffff_ffff, 0, |chunk|;
    FoldNone(crc);
    assert chunk[..0] == [];
    while (address + p) % 4 != 0 && len > 0
      invariant p + len == |chunk| && crc == Fold(0xffff_ffff, chunk[..p])
      decreases len
    {
      FoldStep(0xffff_ffff, chunk, p);
      FeedIs(crc, chunk[p]);
      crc := Feed(crc, chunk[p]);
      p, len := p + 1, len - 1;
    }
    var nqwords := len / 8;
    ghost var p0 := p;
    while nqwords > 0
      invariant 0 <= nqwords && p == p0 + 8 * (len / 8 - nqwords) && crc == Fold(0xffff_ffff, chunk[..p])
      decreases nqwords
    {
      Pow2Values();
      FoldBound(0xffff_ffff, chunk[..p]);
      LoadsSlice(crc, chunk, p);
      FoldPart(0xffff_ffff, chunk, p, 8);
      crc := Slice(Xor(crc, Load32(chunk, p)), Load32(chunk, p + 4));
      p := p + 8;
      nqwords := nqwords - 1;
    }
    len := len % 8;
    while len > 0
      invariant p + len == |chunk| && crc == Fold(0xffff_ffff, chunk[..p])
      decreases len
    {
      FoldStep(0xffff_ffff, chunk, p);
      FeedIs(crc, chunk[p]);
      crc := Feed(crc, chunk[p]);
      p, len := p + 1, len - 1;
    }
    assert chunk[..p] == chunk;
    Finished(chunk);
    sum := 0xffff_ffff - crc;
  }

  lemma FoldNone(c: nat)
    ensures Fold(c, []) == c
  {
  }

  // ---------- By instruction ----------

  /** The instruction, on a value of `n` bytes: its bytes in turn, the lowest first. */
  function Instruction(c: nat, value: nat, n: nat): nat
    decreases n
  {
    if n == 0 then c else Instruction(ByteSteps(Xor(c, value % 0x100), 1), value / 0x100, n - 1)
  }

  lemma {:induction false} InstructionIsFold(c: nat, bytes: seq<Byte>)
    ensures Instruction(c, Little(bytes), |bytes|) == Fold(c, bytes)
    decreases |bytes|
  {
    hide ByteSteps, Xor;
    if bytes != [] {
      assert Little(bytes) % 0x100 == bytes[0] && Little(bytes) / 0x100 == Little(bytes[1..]);
      InstructionIsFold(ByteSteps(Xor(c, bytes[0]), 1), bytes[1..]);
    }
  }

  /** The instruction on the `n` bytes at `at`. */
  function OnBytes(c: nat, p: seq<Byte>, at: nat, n: nat): nat
    requires at + n <= |p|
  {
    Instruction(c, Little(p[at..at + n]), n)
  }

  lemma OnBytesIsFold(c: nat, p: seq<Byte>, at: nat, n: nat)
    requires at + n <= |p| && c == Fold(0xffff_ffff, p[..at])
    ensures OnBytes(c, p, at, n) == Fold(0xffff_ffff, p[..at + n])
  {
    InstructionIsFold(c, p[at..at + n]);
    FoldPart(0xffff_ffff, p, at, n);
  }

  /** The checksum by instruction, with the rest of at most seven bytes taken in few instructions. */
  method Sse42(buf: seq<Byte>) returns (sum: int)
    ensures sum == Checksum(buf)
  {
    hide Fold, OnBytes, Checksum;
    var crc: nat, p := 0xffff_ffff, 0;
    FoldNone(crc);
    assert buf[..0] == [];
    var i := 0;
    while i < |buf| / 8
      invariant 0 <= i <= |buf| / 8 && p == 8 * i && crc == Fold(0xffff_ffff, buf[..p])
    {
      OnBytesIsFold(crc, buf, p, 8);
      crc := OnBytes(crc, buf, p, 8);
      p := p + 8;
      i := i + 1;
    }
    crc := Tail(buf, p, crc);
    Finished(buf);
    sum := 0xffff_ffff - crc;
  }

  method Tail(buf: seq<Byte>, at: nat, crc64: nat) returns (crc: nat)
    requires at <= |buf| < at + 8 && crc64 == Fold(0xffff_ffff, buf[..at])
    ensures crc == Fold(0xffff_ffff, buf)
  {
    hide Fold, OnBytes;
    var p: nat, len: nat := at, |buf| - at;
    crc := Low32(crc64);
    FitsWord(buf[..at]);
    // the cases from 7 and from 3 fall through to the next smaller ones listed with them, 5 to 1
    if len == 7 || len == 3 {
      OnBytesIsFold(crc, buf, p, 1);
      crc := OnBytes(crc, buf, p, 1);
      p := p + 1;
    }
    if len == 7 || len == 6 || len == 3 || len == 2 {
      OnBytesIsFold(crc, buf, p, 2);
      crc := OnBytes(crc, buf, p, 2);
      p := p + 2;
    }
    if len == 7 || len == 6 || len == 4 || len == 5 {
      OnBytesIsFold(crc, buf, p, 4);
      crc := OnBytes(crc, buf, p, 4);
      p := p + 4;
    }
    if len == 5 || len == 1 {
      OnBytesIsFold(crc, buf, p, 1);
      crc := OnBytes(crc, buf, p, 1);
      p := p + 1;
    }
    assert buf[..p] == buf;
  }

  lemma FitsWord(bytes: seq<Byte>)
    ensures Low32(Fold(0xffff_ffff, bytes)) == Fold(0xffff_ffff, bytes)
  {
    hide Fold, Low32;
    Pow2Values();
    FoldBound(0xffff_ffff, bytes);
    LowOfWord(Fold(0xffff_ffff, bytes));
  }

  lemma LowOfWord(x: Word32)
    ensures Low32(x) == x
  {
  }
}
