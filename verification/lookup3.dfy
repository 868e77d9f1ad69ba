/** Bob Jenkins' lookup3 hash: one specification, and the word, halfword and byte readers
that must all compute it. Memory is little-endian. */
module Lookup3 {
  import opened Bits
  import opened Words

  datatype State = State(a: Word32, b: Word32, c: Word32)

  // ---------- Mixing ----------

  /** One line of the mixing macro. The words change roles from line to line: on the next
  line the second word comes first, then the third, then the first. */
  function Line(s: State, k: nat): State
    requires 0 < k < 32
  {
    State(s.b, Add(s.c, s.b), Xor32(Sub(s.a, s.c), Rot(s.c, k)))
  }

  function Mix(s: State): State {
    Line(Line(Line(Line(Line(Line(s, 4), 6), 8), 16), 19), 4)
  }

  /** The mixing macro as it is written: eighteen assignments. */
  method MixMacro(s: State) returns (r: State)
    ensures r == Mix(s)
  {
    var a, b, c := s.a, s.b, s.c;
    a := Sub(a, c); a := Xor32(a, Rot(c, 4));  c := Add(c, b);
    ghost var r1 := Line(s, 4);
    assert r1 == State(b, c, a);
    b := Sub(b, a); b := Xor32(b, Rot(a, 6));  a := Add(a, c);
    ghost var r2 := Line(r1, 6);
    assert r2 == State(c, a, b);
    c := Sub(c, b); c := Xor32(c, Rot(b, 8));  b := Add(b, a);
    ghost var r3 := Line(r2, 8);
    assert r3 == State(a, b, c);
    a := Sub(a, c); a := Xor32(a, Rot(c, 16)); c := Add(c, b);
    ghost var r4 := Line(r3, 16);
    assert r4 == State(b, c, a);
    b := Sub(b, a); b := Xor32(b, Rot(a, 19)); a := Add(a, c);
    ghost var r5 := Line(r4, 19);
    assert r5 == State(c, a, b);
    c := Sub(c, b); c := Xor32(c, Rot(b, 4));  b := Add(b, a);
    r := State(a, b, c);
  }

  function Unline(s: State, k: nat): State
    requires 0 < k < 32
  {
    var c := Sub(s.b, s.a);
    State(Add(Xor32(s.c, Rot(c, k)), c), s.a, c)
  }

  function Unmix(s: State): State {
    Unline(Unline(Unline(Unline(Unline(Unline(s, 4), 19), 16), 8), 6), 4)
  }

  lemma LineInverse(s: State, k: nat)
    requires 0 < k < 32
    ensures Unline(Line(s, k), k) == s && Line(Unline(s, k), k) == s
  {
    SubAdd(s.c, s.b);
    SubAdd(s.a, s.c);
    XorTwice(Sub(s.a, s.c), Rot(s.c, k));
    var c := Sub(s.b, s.a);
    var x := Xor32(s.c, Rot(c, k));
    SubAdd(s.b, s.a);
    SubAdd(x, c);
    XorTwice(s.c, Rot(c, k));
  }

  /** Mixing loses nothing: it is a bijection on the three words. */
  lemma MixIsBijection(s: State)
    ensures Unmix(Mix(s)) == s && Mix(Unmix(s)) == s
  {
    var r1 := Line(s, 4);
    var r2 := Line(r1, 6);
    var r3 := Line(r2, 8);
    var r4 := Line(r3, 16);
    var r5 := Line(r4, 19);
    LineInverse(s, 4); LineInverse(r1, 6); LineInverse(r2, 8);
    LineInverse(r3, 16); LineInverse(r4, 19); LineInverse(r5, 4);
    var u1 := Unline(s, 4);
    var u2 := Unline(u1, 19);
    var u3 := Unline(u2, 16);
    var u4 := Unline(u3, 8);
    var u5 := Unline(u4, 6);
    LineInverse(u1, 19); LineInverse(u2, 16);
    LineInverse(u3, 8); LineInverse(u4, 6); LineInverse(u5, 4);
  }

  /** The last mixing; the empty key is the only one that skips it. */
  function Final(s: State): State {
    var c := Sub(Xor32(s.c, s.b), Rot(s.b, 14));
    var a := Sub(Xor32(s.a, c), Rot(c, 11));
    var b := Sub(Xor32(s.b, a), Rot(a, 25));
    var c := Sub(Xor32(c, b), Rot(b, 16));
    var a := Sub(Xor32(a, c), Rot(c, 4));
    var b := Sub(Xor32(b, a), Rot(a, 14));
    State(a, b, Sub(Xor32(c, b), Rot(b, 24)))
  }

  // ---------- Specification ----------

  /** Words are absorbed three at a time; the last one to three are mixed in by Final. */
  function Digest(s: State, ws: seq<Word32>): State
    decreases |ws|
  {
    if |ws| > 3 then Digest(Mix(AddWords(s, ws[..3])), ws[3..])
    else if ws == [] then s
    else Final(AddWords(s, ws))
  }

  function AddWords(s: State, ws: seq<Word32>): State
    requires 1 <= |ws| <= 3
  {
    var s := State(Add(s.a, ws[0]), s.b, s.c);
    var s := if |ws| > 1 then s.(b := Add(s.b, ws[1])) else s;
    if |ws| > 2 then s.(c := Add(s.c, ws[2])) else s
  }

  function Start(length: nat, pc: Word32, pb: Word32): State {
    var x := Low32(0xdeadbeef + length + pc);
    State(x, x, Add(x, pb))
  }

  /** Byte `i` of a key padded with zeros. */
  function Pad(key: seq<Byte>, i: nat): Byte {
    if i < |key| then key[i] else 0
  }

  function WordAt(key: seq<Byte>, i: nat): Word32 {
    Word(Pad(key, i), Pad(key, i + 1), Pad(key, i + 2), Pad(key, i + 3))
  }

  function NumWords(length: nat): nat {
    (length + 3) / 4
  }

  /** The key as little-endian words, the last one padded with zeros. */
  function WordsOf(key: seq<Byte>): (ws: seq<Word32>)
    ensures |ws| == NumWords(|key|)
  {
    seq(NumWords(|key|), j requires 0 <= j => WordAt(key, 4 * j))
  }

  function HashLittle2(key: seq<Byte>, pc: Word32, pb: Word32): (Word32, Word32) {
    var s := Digest(Start(|key|, pc, pb), WordsOf(key));
    (s.c, s.b)
  }

  function Seed(length: nat, initval: Word32): State {
    var x := Low32(0xdeadbeef + length + initval);
    State(x, x, x)
  }

  function HashLittle(key: seq<Byte>, initval: Word32): Word32 {
    Digest(Seed(|key|, initval), WordsOf(key)).c
  }

  /** With secondary seed 0 the two-valued form gives the same primary hash. */
  lemma SecondarySeedZero(key: seq<Byte>, initval: Word32)
    ensures HashLittle2(key, initval, 0).0 == HashLittle(key, initval)
  {
    assert Start(|key|, initval, 0) == Seed(|key|, initval);
  }

  // ---------- Reading whole words ----------

  /** The words a key is hashed from, read from an array of words. */
  method DigestWords(k: seq<Word32>, s0: State) returns (s: State)
    ensures s == Digest(s0, k)
  {
    s := s0;
    var p := k;
    while |p| > 3
      invariant Digest(s, p) == Digest(s0, k)
      decreases |p|
    {
      s := Mix(State(Add(s.a, p[0]), Add(s.b, p[1]), Add(s.c, p[2])));
      p := p[3..];
    }
    var a, b, c := s.a, s.b, s.c;
    if |p| >= 3 { c := Add(c, p[2]); }
    if |p| >= 2 { b := Add(b, p[1]); }
    if |p| >= 1 { a := Add(a, p[0]); s := Final(State(a, b, c)); }
  }

  // ---------- Reading a key of bytes ----------

  /** The part of a word read that belongs to a key with `n` more bytes. */
  function Keep(w: Word32, n: nat): nat {
    match n
    case 1 => And(w, 0xff)
    case 2 => And(w, 0xffff)
    case 3 => And(w, 0xffffff)
    case _ => w
  }

  ghost predicate KeepAll(k: seq<Word32>, length: nat, ws: seq<Word32>) {
    && |k| == |ws| == NumWords(length)
    && forall j :: 0 <= j < |ws| ==> Keep(k[j], length - 4 * j) == ws[j]
  }

  lemma KeepShift(k: seq<Word32>, length: nat, ws: seq<Word32>)
    requires KeepAll(k, length, ws) && length > 12
    ensures KeepAll(k[3..], length - 12, ws[3..])
    ensures k[..3] == ws[..3]
  {
    forall j | 0 <= j < 3
      ensures k[j] == ws[j]
    {
      assert Keep(k[j], length - 4 * j) == ws[j];
    }
  }

  /** Aligned 32-bit reads. The last word may reach beyond the key; what does is masked off. */
  method DigestAligned(k: seq<Word32>, length: nat, s0: State, ghost ws: seq<Word32>) returns (s: State)
    requires KeepAll(k, length, ws)
    ensures s == Digest(s0, ws)
  {
    s := s0;
    var p := k;
    var len: nat := length;
    ghost var r := ws;
    while len > 12
      invariant KeepAll(p, len, r)
      invariant Digest(s, r) == Digest(s0, ws)
      decreases len
    {
      KeepShift(p, len, r);
      assert p[0] == p[..3][0] && p[1] == p[..3][1] && p[2] == p[..3][2];
      s := Mix(State(Add(s.a, p[0]), Add(s.b, p[1]), Add(s.c, p[2])));
      len := len - 12;
      p, r := p[3..], r[3..];
    }
    if len > 0 {
      s := LastAligned(p, len, s, r);
      s := Final(s);
    }
  }

  method LastAligned(k: seq<Word32>, len: nat, s: State, ghost ws: seq<Word32>) returns (r: State)
    requires 1 <= len <= 12 && KeepAll(k, len, ws)
    ensures r == AddWords(s, ws)
  {
    var a, b, c := s.a, s.b, s.c;
    match len {
      case 12 => c := Add(c, k[2]); b := Add(b, k[1]); a := Add(a, k[0]);
      case 11 => c := Add(c, Keep(k[2], 3)); b := Add(b, k[1]); a := Add(a, k[0]);
      case 10 => c := Add(c, Keep(k[2], 2)); b := Add(b, k[1]); a := Add(a, k[0]);
      case 9 => c := Add(c, Keep(k[2], 1)); b := Add(b, k[1]); a := Add(a, k[0]);
      case 8 => b := Add(b, k[1]); a := Add(a, k[0]);
      case 7 => b := Add(b, Keep(k[1], 3)); a := Add(a, k[0]);
      case 6 => b := Add(b, Keep(k[1], 2)); a := Add(a, k[0]);
      case 5 => b := Add(b, Keep(k[1], 1)); a := Add(a, k[0]);
      case 4 => a := Add(a, k[0]);
      case 3 => a := Add(a, Keep(k[0], 3));
      case 2 => a := Add(a, Keep(k[0], 2));
      case 1 => a := Add(a, Keep(k[0], 1));
    }
    r := State(a, b, c);
  }

  type Half = x: nat | x < 0x1_0000

  function Pair(lo: nat, hi: nat): nat {
    lo + 0x1_0000 * hi
  }

  /** Word `j` of a key is made of two halves, of one half and a byte, of one half, or of a byte. */
  ghost predicate HalvesMake(k: seq<Half>, k8: seq<Byte>, j: nat, w: Word32)
    requires |k| == |k8| / 2 && j < NumWords(|k8|)
  {
    var n := |k8| - 4 * j;
    if n >= 4 then w == Pair(k[2 * j], k[2 * j + 1])
    else if n == 3 then w == Pair(k[2 * j], k8[4 * j + 2])
    else if n == 2 then w == k[2 * j]
    else w == k8[4 * j]
  }

  ghost predicate HalvesMakeAll(k: seq<Half>, k8: seq<Byte>, ws: seq<Word32>) {
    && |k| == |k8| / 2
    && |ws| == NumWords(|k8|)
    && forall j :: 0 <= j < |ws| ==> HalvesMake(k, k8, j, ws[j])
  }

  lemma HalvesShift(k: seq<Half>, k8: seq<Byte>, ws: seq<Word32>)
    requires HalvesMakeAll(k, k8, ws) && |k8| > 12
    ensures HalvesMakeAll(k[6..], k8[12..], ws[3..])
    ensures ws[0] == Pair(k[0], k[1]) && ws[1] == Pair(k[2], k[3]) && ws[2] == Pair(k[4], k[5])
  {
    assert HalvesMake(k, k8, 0, ws[0]) && HalvesMake(k, k8, 1, ws[1]) && HalvesMake(k, k8, 2, ws[2]);
    forall j | 0 <= j < |ws[3..]|
      ensures HalvesMake(k[6..], k8[12..], j, ws[3..][j])
    {
      assert HalvesMake(k, k8, j + 3, ws[j + 3]);
    }
  }

  /** 16-bit reads, and 8-bit reads at the end of a key of odd length. */
  method DigestHalves(k: seq<Half>, k8: seq<Byte>, s0: State, ghost ws: seq<Word32>) returns (s: State)
    requires HalvesMakeAll(k, k8, ws)
    ensures s == Digest(s0, ws)
  {
    s := s0;
    var p, p8 := k, k8;
    ghost var r := ws;
    while |p8| > 12
      invariant HalvesMakeAll(p, p8, r)
      invariant Digest(s, r) == Digest(s0, ws)
      decreases |p8|
    {
      HalvesShift(p, p8, r);
      s := Mix(State(Add(s.a, Pair(p[0], p[1])), Add(s.b, Pair(p[2], p[3])), Add(s.c, Pair(p[4], p[5]))));
      p, p8, r := p[6..], p8[12..], r[3..];
    }
    if |p8| > 0 {
      s := LastHalves(p, p8, s, r);
      s := Final(s);
    }
  }

  method LastHalves(k: seq<Half>, k8: seq<Byte>, s: State, ghost ws: seq<Word32>) returns (r: State)
    requires HalvesMakeAll(k, k8, ws) && 1 <= |k8| <= 12
    ensures r == AddWords(s, ws)
  {
    assert HalvesMake(k, k8, 0, ws[0]);
    assert |ws| > 1 ==> HalvesMake(k, k8, 1, ws[1]);
    assert |ws| > 2 ==> HalvesMake(k, k8, 2, ws[2]);
    var a, b, c := s.a, s.b, s.c;
    match |k8| {
      case 12 => c := Add(c, Pair(k[4], k[5])); b := Add(b, Pair(k[2], k[3])); a := Add(a, Pair(k[0], k[1]));
      case 11 => c := Add(c, Pair(0, k8[10])); c := Add(c, k[4]);
        b := Add(b, Pair(k[2], k[3])); a := Add(a, Pair(k[0], k[1]));
      case 10 => c := Add(c, k[4]); b := Add(b, Pair(k[2], k[3])); a := Add(a, Pair(k[0], k[1]));
      case 9 => c := Add(c, k8[8]); b := Add(b, Pair(k[2], k[3])); a := Add(a, Pair(k[0], k[1]));
      case 8 => b := Add(b, Pair(k[2], k[3])); a := Add(a, Pair(k[0], k[1]));
      case 7 => b := Add(b, Pair(0, k8[6])); b := Add(b, k[2]); a := Add(a, Pair(k[0], k[1]));
      case 6 => b := Add(b, k[2]); a := Add(a, Pair(k[0], k[1]));
      case 5 => b := Add(b, k8[4]); a := Add(a, Pair(k[0], k[1]));
      case 4 => a := Add(a, Pair(k[0], k[1]));
      case 3 => a := Add(a, Pair(0, k8[2])); a := Add(a, k[0]);
      case 2 => a := Add(a, k[0]);
      case 1 => a := Add(a, k8[0]);
    }
    r := State(a, b, c);
  }

  /** Adding up to four bytes to a word, the way the fall-through cases do: highest byte first. */
  method FallThrough(x: Word32, k: seq<Byte>) returns (y: Word32)
    requires 1 <= |k| <= 4
    ensures y == Add(x, WordAt(k, 0))
  {
    y := x;
    if |k| >= 4 { y := Add(y, 0x100_0000 * (k[3] as int)); }
    ghost var h := if |k| >= 4 then 0x100_0000 * (k[3] as int) else 0;
    assert y == Add(x, h);
    if |k| >= 3 { AddTwice(x, h, 0x1_0000 * (k[2] as int)); y := Add(y, 0x1_0000 * (k[2] as int)); }
    h := h + if |k| >= 3 then 0x1_0000 * (k[2] as int) else 0;
    assert y == Add(x, h);
    if |k| >= 2 { AddTwice(x, h, 0x100 * (k[1] as int)); y := Add(y, 0x100 * (k[1] as int)); }
    h := h + if |k| >= 2 then 0x100 * (k[1] as int) else 0;
    assert y == Add(x, h);
    AddTwice(x, h, k[0]);
    y := Add(y, k[0]);
  }

  /** Adding four bytes to a word, lowest byte first. */
  method AddBytes(x: Word32, b0: Byte, b1: Byte, b2: Byte, b3: Byte) returns (y: Word32)
    ensures y == Add(x, Word(b0, b1, b2, b3))
  {
    var h1, h2, h3 := 0x100 * (b1 as int), 0x1_0000 * (b2 as int), 0x100_0000 * (b3 as int);
    y := Add(Add(Add(Add(x, b0), h1), h2), h3);
    AddTwice(x, b0, h1);
    AddTwice(x, b0 + h1, h2);
    AddTwice(x, b0 + h1 + h2, h3);
  }

  lemma WordsOfShift(key: seq<Byte>)
    requires |key| > 12
    ensures WordsOf(key[12..]) == WordsOf(key)[3..]
    ensures forall j :: 0 <= j < 3 ==> WordsOf(key)[j] == Word(key[4 * j], key[4 * j + 1], key[4 * j + 2], key[4 * j + 3])
  {
    var ws, rest := WordsOf(key), WordsOf(key[12..]);
    forall j | 0 <= j < |rest|
      ensures rest[j] == ws[j + 3]
    {
      assert rest[j] == WordAt(key[12..], 4 * j) == WordAt(key, 4 * (j + 3));
    }
  }

  /** Reading the key one byte at a time. */
  method DigestBytes(k: seq<Byte>, s0: State) returns (s: State)
    ensures s == Digest(s0, WordsOf(k))
  {
    s := s0;
    var p := k;
    while |p| > 12
      invariant Digest(s, WordsOf(p)) == Digest(s0, WordsOf(k))
      decreases |p|
    {
      var a := AddBytes(s.a, p[0], p[1], p[2], p[3]);
      var b := AddBytes(s.b, p[4], p[5], p[6], p[7]);
      var c := AddBytes(s.c, p[8], p[9], p[10], p[11]);
      ghost var ws := WordsOf(p);
      assert State(a, b, c) == AddWords(s, ws[..3]) by { WordsOfShift(p); }
      assert WordsOf(p[12..]) == ws[3..] by { WordsOfShift(p); }
      s := Mix(State(a, b, c));
      p := p[12..];
    }
    if |p| > 0 {
      s := LastBytes(p, s);
      s := Final(s);
    }
  }

  method LastBytes(k: seq<Byte>, s: State) returns (r: State)
    requires 1 <= |k| <= 12
    ensures r == AddWords(s, WordsOf(k))
  {
    hide Word, Add;
    var a, b, c := s.a, s.b, s.c;
    ghost var ws := WordsOf(k);
    if |k| > 8 { assert ws[2] == WordAt(k[8..], 0); c := FallThrough(c, k[8..]); }
    if |k| > 4 {
      var four := if |k| > 8 then k[4..8] else k[4..];
      assert ws[1] == WordAt(four, 0);
      b := FallThrough(b, four);
    }
    var four := if |k| > 4 then k[..4] else k;
    assert ws[0] == WordAt(four, 0);
    a := FallThrough(a, four);
    r := State(a, b, c);
  }

  // ---------- Whole keys in memory ----------

  function Load16(mem: seq<Byte>, i: nat): Half
    requires i + 2 <= |mem|
  {
    mem[i] + 0x100 * (mem[i + 1] as int)
  }

  function Load32(mem: seq<Byte>, i: nat): Word32
    requires i + 4 <= |mem|
  {
    Word(mem[i], mem[i + 1], mem[i + 2], mem[i + 3])
  }

  /** Aligned words of memory hold a key, whatever follows it in its last word. */
  lemma MemoryKeeps(mem: seq<Byte>, length: nat, k: seq<Word32>)
    requires length <= |mem| && 4 * NumWords(length) <= |mem|
    requires |k| == NumWords(length) && forall j :: 0 <= j < |k| ==> k[j] == Load32(mem, 4 * j)
    ensures KeepAll(k, length, WordsOf(mem[..length]))
  {
    var key := mem[..length];
    forall j | 0 <= j < |k|
      ensures Keep(k[j], length - 4 * j) == WordAt(key, 4 * j)
    {
      KeepWord(mem, length, j);
    }
  }

  lemma KeepWord(mem: seq<Byte>, length: nat, j: nat)
    requires 4 * j + 4 <= |mem| && 4 * j < length <= |mem|
    ensures Keep(Load32(mem, 4 * j), length - 4 * j) == WordAt(mem[..length], 4 * j)
  {
    hide Word, And;
    var i, w, n := 4 * j, Load32(mem, 4 * j), length - 4 * j;
    MaskBits(w);
    WordMod(mem[i], mem[i + 1], mem[i + 2], mem[i + 3]);
  }

  lemma MaskBits(w: Word32)
    ensures And(w, 0xff) == w % 0x100 && And(w, 0xffff) == w % 0x1_0000 && And(w, 0xffffff) == w % 0x100_0000
  {
    Pow2Values();
    assert And(w, 0xffffff) == w % 0x100_0000 by { AndMask(w, 24); }
    assert And(w, 0xffff) == w % 0x1_0000 by { AndMask(w, 16); }
    assert And(w, 0xff) == w % 0x100 by { AndMask(w, 8); }
  }

  lemma WordMod(b0: Byte, b1: Byte, b2: Byte, b3: Byte)
    ensures Word(b0, b1, b2, b3) % 0x100_0000 == Word(b0, b1, b2, 0)
    ensures Word(b0, b1, b2, b3) % 0x1_0000 == Word(b0, b1, 0, 0)
    ensures Word(b0, b1, b2, b3) % 0x100 == Word(b0, 0, 0, 0)
  {
    var w := Word(b0, b1, b2, b3);
    LowPart(w, 0x100_0000, b3, Word(b0, b1, b2, 0));
    LowPart(w, 0x1_0000, b2 + 0x100 * b3, Word(b0, b1, 0, 0));
    LowPart(w, 0x100, b1 + 0x100 * b2 + 0x1_0000 * b3, Word(b0, 0, 0, 0));
  }

  lemma LowPart(x: nat, m: nat, q: nat, r: nat)
    requires r < m && x == q * m + r
    ensures x % m == r
  {
    DivModUnique(x, m, q, r);
  }

  lemma MemoryHalves(mem: seq<Byte>, length: nat, k: seq<Half>)
    requires length <= |mem|
    requires |k| == length / 2 && forall j :: 0 <= j < |k| ==> k[j] == Load16(mem, 2 * j)
    ensures HalvesMakeAll(k, mem[..length], WordsOf(mem[..length]))
  {
    var key := mem[..length];
    forall j | 0 <= j < NumWords(length)
      ensures HalvesMake(k, key, j, WordAt(key, 4 * j))
    {
      if length - 4 * j >= 2 { assert k[2 * j] == Load16(mem, 2 * (2 * j)); }
      if length - 4 * j >= 4 { assert k[2 * j + 1] == Load16(mem, 2 * (2 * j + 1)); }
    }
  }

  /** Which reader is used depends on the address only, never the result. */
  method DigestMemory(mem: seq<Byte>, addr: nat, length: nat, s0: State) returns (s: State)
    requires length <= |mem| && (addr % 4 == 0 ==> 4 * NumWords(length) <= |mem|)
    ensures s == Digest(s0, WordsOf(mem[..length]))
  {
    if addr % 4 == 0 {
      var k := seq(NumWords(length), j requires 0 <= j < NumWords(length) => Load32(mem, 4 * j));
      MemoryKeeps(mem, length, k);
      s := DigestAligned(k, length, s0, WordsOf(mem[..length]));
    } else if addr % 2 == 0 {
      var k := seq(length / 2, j requires 0 <= j < length / 2 => Load16(mem, 2 * j));
      MemoryHalves(mem, length, k);
      s := DigestHalves(k, mem[..length], s0, WordsOf(mem[..length]));
    } else {
      s := DigestBytes(mem[..length], s0);
    }
  }

  method HashMemory(mem: seq<Byte>, addr: nat, length: nat, initval: Word32) returns (h: Word32)
    requires length <= |mem| && (addr % 4 == 0 ==> 4 * NumWords(length) <= |mem|)
    ensures h == HashLittle(mem[..length], initval)
  {
    var s := DigestMemory(mem, addr, length, Seed(length, initval));
    h := s.c;
  }

  method HashMemory2(mem: seq<Byte>, addr: nat, length: nat, pc: Word32, pb: Word32) returns (c: Word32, b: Word32)
    requires length <= |mem| && (addr % 4 == 0 ==> 4 * NumWords(length) <= |mem|)
    ensures (c, b) == HashLittle2(mem[..length], pc, pb)
  {
    var s := DigestMemory(mem, addr, length, Start(length, pc, pb));
    c, b := s.c, s.b;
  }

  // ---------- Keys given as words ----------

  function BytesOf(k: seq<Word32>): (bs: seq<Byte>)
    ensures |bs| == 4 * |k|
  {
    if k == [] then []
    else
      var w := k[0];
      [w % 0x100, w / 0x100 % 0x100, w / 0x1_0000 % 0x100, w / 0x100_0000] + BytesOf(k[1..])
  }

  lemma {:induction false} WordsOfBytes(k: seq<Word32>)
    ensures WordsOf(BytesOf(k)) == k
  {
    if k != [] {
      WordsOfBytes(k[1..]);
      WordOfItsBytes(k[0]);
      WordsOfCons(BytesOf(k), BytesOf(k[1..]), k);
    }
  }

  lemma WordOfItsBytes(w: Word32)
    ensures Word(w % 0x100, w / 0x100 % 0x100, w / 0x1_0000 % 0x100, w / 0x100_0000) == w
  {
    var b1, b2 := w / 0x100 % 0x100, w / 0x1_0000 % 0x100;
    assert w == w % 0x100 + 0x100 * (w / 0x100);
    assert w / 0x100 == b1 + 0x100 * (w / 0x1_0000);
    assert w / 0x1_0000 == b2 + 0x100 * (w / 0x100_0000);
  }

  lemma WordsOfCons(bs: seq<Byte>, rest: seq<Byte>, k: seq<Word32>)
    requires k != [] && |bs| == 4 * |k| && rest == bs[4..]
    requires WordAt(bs, 0) == k[0] && WordsOf(rest) == k[1..]
    ensures WordsOf(bs) == k
  {
    hide Word;
    forall j | 1 <= j < |k|
      ensures WordsOf(bs)[j] == k[j]
    {
      assert WordAt(bs, 4 * j) == WordAt(rest, 4 * (j - 1)) == WordsOf(rest)[j - 1];
    }
  }

  /** Hashing an array of words is hashing its bytes. */
  method HashWord(k: seq<Word32>, initval: Word32) returns (h: Word32)
    ensures h == HashLittle(BytesOf(k), initval)
  {
    var s := DigestWords(k, Seed(4 * |k|, initval));
    h := s.c;
    WordsOfBytes(k);
  }
}
