/** Bytes and 32-bit words, with the wrap-around of unsigned arithmetic written out. */
module Words {
  import opened Bits

  type Byte = x: nat | x < 256
  type Word32 = x: nat | x < 0x1_0000_0000

  function Low32(x: int): Word32 {
    x % 0x1_0000_0000
  }

  function Add(x: Word32, y: Word32): Word32 {
    if x + y < 0x1_0000_0000 then x + y else x + y - 0x1_0000_0000
  }

  function Sub(x: Word32, y: Word32): Word32 {
    if x >= y then x - y else x - y + 0x1_0000_0000
  }

  function Xor32(x: Word32, y: Word32): Word32 {
    Pow2Values();
    XorBound(x, y, 32);
    Xor(x, y)
  }

  function Rot(x: Word32, k: nat): Word32
    requires 0 < k < 32
  {
    Pow2Values();
    OrBound(Low32(x * Pow2(k)), Shr(x, 32 - k), 32);
    Or(Low32(x * Pow2(k)), Shr(x, 32 - k))
  }

  lemma SubAdd(x: Word32, y: Word32)
    ensures Sub(Add(x, y), y) == x && Add(Sub(x, y), y) == x
  {
  }

  /** Two additions of numbers that do not overflow together are one. */
  lemma AddTwice(x: Word32, y: Word32, z: Word32)
    requires y + z < 0x1_0000_0000
    ensures Add(Add(x, y), z) == Add(x, y + z)
  {
  }

  lemma XorTwice(x: Word32, r: Word32)
    ensures Xor32(Xor32(x, r), r) == x
  {
    XorCancel(x, r);
  }

  /** The 32-bit number whose bytes, lowest first, are given. */
  function Word(b0: Byte, b1: Byte, b2: Byte, b3: Byte): Word32 {
    b0 + 0x100 * b1 + 0x1_0000 * b2 + 0x100_0000 * b3
  }
}
