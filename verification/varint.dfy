/** Numbers in bytes of seven bits each, the highest bit of a byte saying that more follow. */
module Varint {
  import opened Bits
  import opened Words

  type Word64 = x: nat | x < 0x1_0000_0000_0000_0000

  // ---------- What the bytes mean ----------

  function Encoded(v: nat): (bytes: seq<Byte>)
    ensures bytes != []
  {
    if v < 0x80 then [v] else [v % 0x80 + 0x80] + Encoded(v / 0x80)
  }

  function Value(bytes: seq<Byte>): nat {
    if bytes == [] then 0 else bytes[0] % 0x80 + 0x80 * Value(bytes[1..])
  }

  /** All bytes but the last say that more follow. */
  ghost predicate Whole(bytes: seq<Byte>) {
    bytes != [] && bytes[|bytes| - 1] < 0x80 && forall i :: 0 <= i < |bytes| - 1 ==> bytes[i] >= 0x80
  }

  lemma {:induction false} EncodedIs(v: nat)
    ensures Whole(Encoded(v)) && Value(Encoded(v)) == v
  {
    if v >= 0x80 {
      var b, rest := v % 0x80 + 0x80, Encoded(v / 0x80);
      EncodedIs(v / 0x80);
      assert ([b] + rest)[1..] == rest;
      WholeCons(b, rest);
    } else {
      assert [v][1..] == [];
    }
  }

  lemma WholeCons(b: Byte, rest: seq<Byte>)
    requires b >= 0x80 && Whole(rest)
    ensures Whole([b] + rest)
  {
  }

  function Power(n: nat): (p: nat)
    ensures p > 0
  {
    if n == 0 then 1 else 0x80 * Power(n - 1)
  }

  /** How long the encoding is. */
  lemma {:induction false} EncodedLength(v: nat, n: nat)
    requires n > 0
    ensures |Encoded(v)| <= n <==> v < Power(n)
  {
    if n == 1 {
      assert Power(1) == 0x80;
    } else if v >= 0x80 {
      EncodedLength(v / 0x80, n - 1);
    } else {
      assert Power(n) >= 0x80 * Power(n - 1);
    }
  }

  lemma Powers()
    ensures Power(1) == 0x80 && Power(2) == 0x4000 && Power(3) == 0x20_0000 && Power(4) == 0x1000_0000
    ensures Power(5) > 0x1_0000_0000 && Power(10) > 0x1_0000_0000_0000_0000
  {
    assert Power(5) == 0x8_0000_0000;
    assert Power(7) == 0x80 * 0x80 * 0x8_0000_0000;
    assert Power(10) == 0x80 * 0x80 * 0x80 * Power(7);
  }

  // ---------- Lengths ----------

  method Length(v: Word64) returns (len: nat)
    ensures len == |Encoded(v)|
  {
    len := 1;
    var w: nat := v;
    while w >= 0x80
      invariant len + |Encoded(w)| == 1 + |Encoded(v)|
      decreases w
    {
      w := w / 0x80;
      len := len + 1;
    }
  }

  /** The encoding at the start of the data, if it ends within the first `n` bytes. */
  function Prefix(data: seq<Byte>, n: nat): (bytes: seq<Byte>)
    ensures |bytes| <= n && bytes <= data
  {
    if n == 0 || data == [] then []
    else if data[0] < 0x80 then [data[0]]
    else
      var rest := Prefix(data[1..], n - 1);
      if rest == [] then [] else [data[0]] + rest
  }

  /** The data can be read: it is long enough, or an encoding in it ends. */
  predicate Readable(data: seq<Byte>, n: nat) {
    n <= |data| || exists i :: 0 <= i < |data| && data[i] < 0x80
  }

  method LengthPacked(data: seq<Byte>, n: nat) returns (len: nat)
    requires Readable(data, n)
    ensures len == |Prefix(data, n)|
  {
    hide Prefix, Readable;
    var i: nat, left: nat := 0, n;
    assert data[0..] == data;
    while left > 0
      invariant i <= |data| && left + i == n && Readable(data[i..], left)
      invariant |Prefix(data, n)| == if |Prefix(data[i..], left)| == 0 then 0 else i + |Prefix(data[i..], left)|
    {
      PrefixAt(data, i, left);
      if data[i] < 0x80 {
        return i + 1;
      }
      i, left := i + 1, left - 1;
    }
    NoPrefix(data[i..]);
    len := 0;
  }

  lemma NoPrefix(data: seq<Byte>)
    ensures Prefix(data, 0) == []
  {
  }

  /** The next byte decides, or the rest does. */
  lemma PrefixAt(data: seq<Byte>, i: nat, left: nat)
    requires i <= |data| && left > 0 && Readable(data[i..], left)
    ensures i < |data|
    ensures data[i] < 0x80 ==> |Prefix(data[i..], left)| == 1
    ensures data[i] >= 0x80 ==>
              var k := |Prefix(data[i + 1..], left - 1)|;
              Readable(data[i + 1..], left - 1) && |Prefix(data[i..], left)| == if k == 0 then 0 else 1 + k
  {
    ReadOn(data[i..], left);
    assert data[i..][0] == data[i] && data[i..][1..] == data[i + 1..];
    hide Readable;
  }

  lemma ReadOn(data: seq<Byte>, n: nat)
    requires Readable(data, n) && n > 0
    ensures data != []
    ensures data[0] >= 0x80 ==> Readable(data[1..], n - 1)
  {
    if data[0] >= 0x80 && n > |data| {
      var i :| 0 <= i < |data| && data[i] < 0x80;
      assert data[1..][i - 1] < 0x80;
    }
  }

  /** An encoding is found whatever follows it. */
  lemma {:induction false} PrefixOfWhole(bytes: seq<Byte>, rest: seq<Byte>, n: nat)
    requires Whole(bytes) && |bytes| <= n
    ensures Prefix(bytes + rest, n) == bytes && Readable(bytes + rest, n)
  {
    var data := bytes + rest;
    assert data[|bytes| - 1] < 0x80;
    if |bytes| > 1 {
      assert data[1..] == bytes[1..] + rest;
      PrefixOfWhole(bytes[1..], rest, n - 1);
    } else {
      assert bytes == [bytes[0]];
    }
  }

  // ---------- Encoding ----------

  /** `v | B` as a byte. */
  function More(v: nat): Byte {
    v % 0x80 + 0x80
  }

  method Encode32(buf: array<Byte>, v: Word32) returns (n: nat)
    requires buf.Length >= |Encoded(v)|
    modifies buf
    ensures n == |Encoded(v)| && buf[..n] == Encoded(v) && buf[n..] == old(buf[n..])
  {
    Powers();
    EncodedParts(v);
    if v < 0x80 {
      buf[0] := v;
      n := 1;
    } else if v < 0x4000 {
      buf[0] := More(v);
      buf[1] := v / 0x80;
      n := 2;
    } else if v < 0x20_0000 {
      buf[0] := More(v);
      buf[1] := More(v / 0x80);
      buf[2] := v / 0x4000;
      n := 3;
    } else if v < 0x1000_0000 {
      buf[0] := More(v);
      buf[1] := More(v / 0x80);
      buf[2] := More(v / 0x4000);
      buf[3] := v / 0x20_0000;
      n := 4;
    } else {
      buf[0] := More(v);
      buf[1] := More(v / 0x80);
      buf[2] := More(v / 0x4000);
      buf[3] := More(v / 0x20_0000);
      buf[4] := v / 0x1000_0000;
      n := 5;
    }
  }

  /** The bytes one by one. */
  lemma EncodedParts(v: Word32)
    ensures Encoded(v) ==
            if v < 0x80 then [v]
            else if v < 0x4000 then [More(v), v / 0x80]
            else if v < 0x20_0000 then [More(v), More(v / 0x80), v / 0x4000]
            else if v < 0x1000_0000 then [More(v), More(v / 0x80), More(v / 0x4000), v / 0x20_0000]
            else [More(v), More(v / 0x80), More(v / 0x4000), More(v / 0x20_0000), v / 0x1000_0000]
  {
    hide Encoded, More;
    assert v / 0x80 / 0x80 == v / 0x4000 && v / 0x4000 / 0x80 == v / 0x20_0000 && v / 0x20_0000 / 0x80 == v / 0x1000_0000;
    EncodedStep(v);
    EncodedStep(v / 0x80);
    EncodedStep(v / 0x4000);
    EncodedStep(v / 0x20_0000);
    EncodedStep(v / 0x1000_0000);
  }

  lemma EncodedStep(v: nat)
    ensures Encoded(v) == if v < 0x80 then [v] else [More(v)] + Encoded(v / 0x80)
  {
  }

  method Encode64(buf: array<Byte>, v: Word64) returns (n: nat)
    requires buf.Length >= |Encoded(v)|
    modifies buf
    ensures n == |Encoded(v)| && buf[..n] == Encoded(v) && buf[n..] == old(buf[n..])
  {
    n := 0;
    var w: nat := v;
    while w >= 0x80
      invariant n + |Encoded(w)| == |Encoded(v)| && buf[..n] + Encoded(w) == Encoded(v)
      invariant buf[n..] == old(buf[n..])
      decreases w
    {
      ghost var before := buf[..n];
      buf[n] := More(w);
      assert buf[..n + 1] == before + [More(w)];
      assert buf[n + 1..] == old(buf[n..])[1..];
      w := w / 0x80;
      n := n + 1;
    }
    ghost var before := buf[..n];
    buf[n] := w;
    assert buf[..n + 1] == before + [w];
    assert buf[n + 1..] == old(buf[n..])[1..];
    n := n + 1;
  }

  // ---------- Decoding ----------

  function Low64(x: nat): Word64 {
    x % 0x1_0000_0000_0000_0000
  }

  /** Or of bits above `k` others is a sum. */
  lemma OrAbove(val: nat, x: nat, k: nat)
    requires val < Pow2(k)
    ensures Or(val, x * Pow2(k)) == val + x * Pow2(k)
  {
    OrDisjoint(val, x, k);
  }

  /** The bits of one byte, put above `shift` others. */
  function Above(b: Byte, shift: nat): nat {
    b % 0x80 * Pow2(shift)
  }

  lemma {:induction false} ValueBound(bytes: seq<Byte>)
    ensures Value(bytes) < Pow2(7 * |bytes|)
  {
    if bytes != [] {
      ValueBound(bytes[1..]);
      assert Pow2(7) == 0x80;
      Pow2Sum(7, 7 * (|bytes| - 1));
    }
  }

  /** One more byte adds its bits above those of the others. */
  lemma {:induction false} ValueSnoc(bytes: seq<Byte>, b: Byte)
    ensures Value(bytes + [b]) == Value(bytes) + Above(b, 7 * |bytes|)
    ensures Or(Value(bytes), Above(b, 7 * |bytes|)) == Value(bytes + [b])
  {
    ValueBound(bytes);
    OrAbove(Value(bytes), b % 0x80, 7 * |bytes|);
    ValueLast(bytes, b);
  }

  lemma {:induction false} ValueLast(bytes: seq<Byte>, b: Byte)
    ensures Value(bytes + [b]) == Value(bytes) + Above(b, 7 * |bytes|)
  {
    if bytes == [] {
      assert [b][1..] == [];
    } else {
      assert (bytes + [b])[1..] == bytes[1..] + [b];
      ValueLast(bytes[1..], b);
      assert Pow2(7) == 0x80;
      Pow2Sum(7, 7 * (|bytes| - 1));
      Shifted(b % 0x80, Pow2(7 * (|bytes| - 1)));
    }
  }

  lemma Shifted(x: nat, p: nat)
    ensures 0x80 * (x * p) == x * (0x80 * p)
  {
  }

  lemma Single(b: Byte)
    ensures Value([b]) == b % 0x80
  {
    assert [b][1..] == [];
  }

  lemma Snoc(data: seq<Byte>, i: nat)
    requires i < |data|
    ensures Value(data[..i + 1]) == Value(data[..i]) + Above(data[i], 7 * i)
    ensures Or(Value(data[..i]), Above(data[i], 7 * i)) == Value(data[..i + 1])
  {
    assert data[..i + 1] == data[..i] + [data[i]];
    ValueSnoc(data[..i], data[i]);
  }

  lemma AboveWhole(b: Byte, shift: nat)
    requires b < 0x80
    ensures Above(b, shift) == b * Pow2(shift)
  {
  }

  /** The last byte that fits partly: the bits above the word are dropped. */
  lemma SnocCut(data: seq<Byte>, i: nat, bits: nat, rest: nat)
    requires i < |data| && data[i] < 0x80 && 7 * i + rest == bits
    ensures Or(Value(data[..i]), data[i] * Pow2(7 * i) % Pow2(bits)) == Value(data[..i + 1]) % Pow2(bits)
  {
    hide Value, Or, Pow2, Above;
    Snoc(data, i);
    ValueBound(data[..i]);
    var p, v, d: nat := Pow2(7 * i), Value(data[..i]), data[i];
    Pow2Sum(7 * i, rest);
    AboveWhole(d, 7 * i);
    assert Pow2(bits) == p * Pow2(rest);
    Parts(d, p, Pow2(rest), v);
    OrAbove(v, d % Pow2(rest), 7 * i);
  }

  /** Dropping multiples of `p * m` from `d * p`, with something below `p` added or not. */
  lemma Parts(d: nat, p: nat, m: nat, v: nat)
    requires p > 0 && m > 0 && v < p
    ensures p * m > 0
    ensures d * p % (p * m) == d % m * p
    ensures (v + d * p) % (p * m) == v + d % m * p
  {
    var q, r := d / m, d % m;
    assert p * m > 0;
    DivModUnique(d, m, q, r);
    assert d == q * m + r;
    Spread(p, q, m, r);
    assert r + 1 <= m;
    MulMonotone(r + 1, m, p);
    assert (r + 1) * p == r * p + p;
    assert m * p == p * m;
    DivModUnique(d * p, p * m, q, r * p);
    DivModUnique(v + d * p, p * m, q, v + r * p);
  }

  lemma MulMonotone(a: nat, b: nat, p: nat)
    requires a <= b
    ensures a * p <= b * p
  {
  }

  lemma Spread(p: nat, q: nat, m: nat, r: nat)
    ensures (q * m + r) * p == q * (p * m) + r * p
  {
    assert (q * m + r) * p == (q * m) * p + r * p;
    assert (q * m) * p == q * (p * m);
  }

  lemma {:induction false} PrefixIs(data: seq<Byte>, n: nat)
    ensures var bytes := Prefix(data, n); bytes == data[..|bytes|] && (bytes != [] ==> Whole(bytes))
    decreases n
  {
    if n > 0 && data != [] && data[0] >= 0x80 {
      PrefixIs(data[1..], n - 1);
    }
  }

  lemma {:induction false} PrefixShorter(data: seq<Byte>, n: nat, k: nat)
    requires k <= n
    ensures Prefix(data, k) == if |Prefix(data, n)| <= k then Prefix(data, n) else []
    decreases k
  {
    if k > 0 && data != [] && data[0] >= 0x80 {
      PrefixShorter(data[1..], n - 1, k - 1);
    }
  }

  /** Decodes a number of at most five bytes, the bits above the 32nd dropped. For data in which no
  number ends the length is 0. */
  method Decode32(data: seq<Byte>) returns (val: Word32, len: nat)
    requires Readable(data, 5) && data != []
    ensures len == |Prefix(data, 5)| && len <= |data|
    ensures val == if len > 0 then Value(data[..len]) % 0x1_0000_0000 else data[0] % 0x80
  {
    hide Value, Above, Readable, Prefix;
    Pow2Values();
    len := LengthPacked(data, 5);
    PrefixIs(data, 5);
    var v: nat := data[0] % 0x80;
    assert data[..1] == [data[0]];
    Single(data[0]);
    if len > 1 {
      Snoc(data, 1);
      v := Or(v, Above(data[1], 7));
      if len > 2 {
        Snoc(data, 2);
        v := Or(v, Above(data[2], 14));
        if len > 3 {
          Snoc(data, 3);
          v := Or(v, Above(data[3], 21));
          if len > 4 {
            SnocCut(data, 4, 32, 4);
            v := Or(v, Low32(data[4] * Pow2(28)));
          }
        }
      }
    }
    if 0 < len <= 4 {
      Short(data[..len], 32);
    }
    val := v;
  }

  lemma Short(bytes: seq<Byte>, bits: nat)
    requires 7 * |bytes| <= bits
    ensures Value(bytes) < Pow2(bits) && Value(bytes) % Pow2(bits) == Value(bytes)
  {
    ValueBound(bytes);
    Pow2Grows(7 * |bytes|, bits);
    DivModUnique(Value(bytes), Pow2(bits), 0, Value(bytes));
  }

  /** Decodes a number of at most ten bytes, the bits above the 64th dropped. */
  method Decode64(data: seq<Byte>) returns (val: Word64, len: nat)
    requires Readable(data, 10) && data != []
    ensures len == |Prefix(data, 10)| && len <= |data|
    ensures val == if len > 0 then Value(data[..len]) % 0x1_0000_0000_0000_0000 else data[0] % 0x80
  {
    hide Value, Above, Prefix;
    Pow2Sixtyfour();
    len := LengthPacked(data, 10);
    PrefixIs(data, 10);
    PrefixShorter(data, 10, 5);
    if len < 5 {
      var tmp, tmpLen := Decode32(data);
      if len > 0 {
        Short(data[..len], 32);
        Short(data[..len], 64);
        Pow2Values();
      }
      return tmp, tmpLen;
    }
    assert data[..1] == [data[0]];
    Single(data[0]);
    Snoc(data, 1);
    Snoc(data, 2);
    Snoc(data, 3);
    var v: nat := Or(Or(Or(data[0] % 0x80, Above(data[1], 7)), Above(data[2], 14)), Above(data[3], 21));
    Short(data[..4], 64);
    var shift, i := 28, 4;
    while i < len
      invariant 4 <= i <= len && shift == 7 * i
      invariant v == Value(data[..i]) % Pow2(64)
    {
      Shift64(data, i, len);
      v := Or(v, Low64(Above(data[i], shift)));
      shift := shift + 7;
      i := i + 1;
    }
    val := v;
  }

  lemma Pow2Sixtyfour()
    ensures Pow2(64) == 0x1_0000_0000_0000_0000
  {
    Pow2Values();
    Pow2Sum(32, 32);
  }

  /** One round of the loop. */
  lemma Shift64(data: seq<Byte>, i: nat, len: nat)
    requires i < len <= |data| && len <= 10 && Whole(data[..len])
    ensures Or(Value(data[..i]) % Pow2(64), Low64(Above(data[i], 7 * i))) == Value(data[..i + 1]) % Pow2(64)
  {
    hide Value, Or;
    Pow2Sixtyfour();
    Short(data[..i], 64);
    if i < 9 {
      Short(data[..i + 1], 64);
      Snoc(data, i);
      assert Above(data[i], 7 * i) <= Value(data[..i + 1]);
      DivModUnique(Above(data[i], 7 * i), Pow2(64), 0, Above(data[i], 7 * i));
    } else {
      assert data[..len][9] < 0x80;
      SnocCut(data, 9, 64, 1);
    }
  }

  // ---------- Round trips ----------

  /** The start of the data is found to be the encoding that was put there, with its value. */
  lemma RoundTrip(v: nat, rest: seq<Byte>, n: nat)
    requires n > 0 && v < Power(n)
    ensures var data := Encoded(v) + rest; var len := |Encoded(v)|;
            && len <= n && Readable(data, n) && |Prefix(data, n)| == len && data[..len] == Encoded(v) && Value(data[..len]) == v
  {
    EncodedIs(v);
    EncodedLength(v, n);
    PrefixOfWhole(Encoded(v), rest, n);
    assert (Encoded(v) + rest)[..|Encoded(v)|] == Encoded(v);
  }

  /** What was encoded, and what follows it, is decoded to what it was. */
  method RoundTrip32(v: Word32, rest: seq<Byte>) returns (val: Word32, len: nat)
    ensures val == v && len == |Encoded(v)| <= 5
  {
    Powers();
    RoundTrip(v, rest, 5);
    var buf := new Byte[|Encoded(v)|](_ => 0);
    var n := Encode32(buf, v);
    assert buf[..] == buf[..n];
    val, len := Decode32(buf[..] + rest);
  }

  method RoundTrip64(v: Word64, rest: seq<Byte>) returns (val: Word64, len: nat)
    ensures val == v && len == |Encoded(v)| <= 10
  {
    Powers();
    RoundTrip(v, rest, 10);
    var buf := new Byte[|Encoded(v)|](_ => 0);
    var n := Encode64(buf, v);
    assert buf[..] == buf[..n];
    val, len := Decode64(buf[..] + rest);
  }
}
