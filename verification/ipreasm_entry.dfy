/** One packet being reassembled: accepting a fragment, and writing the packet out. */
module ReasmEntry {
  import opened Wrappers
  import opened Words
  import opened ReasmSpec
  import opened Checksum

  datatype Proto = V4 | V6

  class Entry {
    const proto: Proto
    var len: nat
    var holes: int
    var frags: seq<Frag>
    var fragCount: nat
    ghost var bare: bool

    ghost function State(): Asm
      reads this
    {
      Asm(len, holes, frags, fragCount, bare)
    }

    constructor (proto: Proto, head: Frag)
      requires IsHead(head)
      ensures State() == Fresh(head) && this.proto == proto
    {
      this.proto := proto;
      len, holes, frags, fragCount, bare := 0, 1, [head], 0, false;
    }

    /** Inserts a fragment at its place in the list and updates the number of holes; refuses it
    if it does not fit. */
    method Accept(frag: Frag, last: bool) returns (ok: bool)
      requires frags != []
      modifies this
      ensures frags != []
      ensures (ok, State()) == AddFragment(old(State()), frag, last)
    {
      hide Insert;
      if !last && frag.len % 8 != 0 {
        return false;
      }
      if len != 0 && frag.len + frag.offset > len {
        return false;
      }
      var fitLeft, fitRight := false, false;
      if last {
        if len != 0 {
          return false;
        }
        len := frag.offset + frag.len;
        fitRight := true;
      }
      var cur := FindPosition(frag.offset);
      if frags[cur].offset + frags[cur].len > frag.offset {
        return false;
      } else if frags[cur].offset + frags[cur].len == frag.offset {
        fitLeft := true;
      }
      if cur + 1 < |frags| {
        var next := frags[cur + 1];
        if last {
          return false;
        }
        if frag.offset + frag.len > next.offset {
          return false;
        } else if frag.offset + frag.len == next.offset {
          fitRight := true;
        }
      }
      if frag.len != 0 {
        frags := Insert(frags, cur, frag);
        if fitLeft && fitRight {
          holes := holes - 1;
        } else if !fitLeft && !fitRight {
          holes := holes + 1;
        }
        fragCount := fragCount + 1;
      } else {
        if last && fitLeft {
          holes := holes - 1;
        }
        bare := bare || (last && !fitLeft);
      }
      ok := true;
    }

    method FindPosition(offset: nat) returns (cur: nat)
      requires frags != []
      ensures cur == Position(frags, offset, 0)
    {
      cur := 0;
      while cur + 1 < |frags| && frags[cur + 1].offset <= offset
        invariant cur < |frags|
        invariant Position(frags, offset, cur) == Position(frags, offset, 0)
      {
        cur := cur + 1;
      }
    }
  }

  // ---------- Assembly ----------

  /** Copies `src` to position `at` of the output. */
  method MemCpy(out: array<Byte>, at: nat, src: seq<Byte>)
    requires at + |src| <= out.Length
    modifies out
    ensures out[..] == old(out[..at]) + src + old(out[at + |src|..])
  {
    var i := 0;
    while i < |src|
      invariant i <= |src|
      invariant forall k :: 0 <= k < out.Length ==> out[k] == if at <= k < at + i then src[k - at] else old(out[k])
    {
      out[at + i] := src[i];
      i := i + 1;
    }
    CopiedIs(old(out[..]), out[..], at, src);
    assert old(out[..at]) == old(out[..])[..at] && old(out[at + |src|..]) == old(out[..])[at + |src|..];
  }

  lemma CopiedIs(before: seq<Byte>, after: seq<Byte>, at: nat, src: seq<Byte>)
    requires at + |src| <= |before| == |after|
    requires forall k :: 0 <= k < |after| ==> after[k] == if at <= k < at + |src| then src[k - at] else before[k]
    ensures after == before[..at] + src + before[at + |src|..]
  {
  }

  /** The payloads of the first `k` listed fragments are in place, the payload starting at `base`. */
  ghost predicate Placed(out: seq<Byte>, base: nat, fs: seq<Frag>, k: nat)
    requires k <= |fs|
  {
    forall j :: 1 <= j < k ==>
                  fs[j].Sound() && base + fs[j].End() <= |out| && out[base + fs[j].offset..base + fs[j].End()] == fs[j].Payload()
  }

  lemma PlacedStays(before: seq<Byte>, out: seq<Byte>, base: nat, fs: seq<Frag>, k: nat)
    requires Sorted(fs) && 1 <= k < |fs| && Placed(before, base, fs, k)
    requires fs[k].Sound() && base + fs[k].End() <= |before|
    requires out == before[..base + fs[k].offset] + fs[k].Payload() + before[base + fs[k].End()..]
    ensures Placed(out, base, fs, k + 1)
  {
    forall j | 1 <= j < k + 1
      ensures fs[j].Sound() && base + fs[j].End() <= |out| && out[base + fs[j].offset..base + fs[j].End()] == fs[j].Payload()
    {
      if j < k {
        assert InOrder(fs[j], fs[k]);
        assert out[base + fs[j].offset..base + fs[j].End()] == before[base + fs[j].offset..base + fs[j].End()];
      }
    }
  }

  /** Copies the payload of every fragment to its place. */
  method JoinPayloads(out: array<Byte>, base: nat, fs: seq<Frag>, len: nat)
    requires Sorted(fs) && fs != [] && base + len <= out.Length
    requires forall j :: 1 <= j < |fs| ==> fs[j].Sound() && fs[j].End() <= len
    modifies out
    ensures Placed(out[..], base, fs, |fs|)
    ensures out[..base] == old(out[..base]) && out[base + len..] == old(out[base + len..])
  {
    hide Sorted;
    var k := 1;
    while k < |fs|
      invariant 1 <= k <= |fs|
      invariant Placed(out[..], base, fs, k)
      invariant out[..base] == old(out[..base]) && out[base + len..] == old(out[base + len..])
    {
      ghost var before := out[..];
      MemCpy(out, base + fs[k].offset, fs[k].Payload());
      PlacedStays(before, out[..], base, fs, k);
      assert out[..][..base] == before[..base];
      assert out[..][base + len..] == before[base + len..];
      k := k + 1;
    }
  }

  // ---------- Headers ----------

  function Hi(x: nat): Byte {
    x / 0x100 % 0x100
  }

  function Lo(x: nat): Byte {
    x % 0x100
  }

  /** An IPv4 header before its checksum is put in. */
  function Unsummed(h: seq<Byte>, total: nat): seq<Byte>
    requires |h| >= 20
  {
    h[2 := Hi(total)][3 := Lo(total)][6 := 0][7 := 0][10 := 0][11 := 0]
  }

  /** The header of a reassembled IPv4 packet: its length, no fragment offset, a checksum that verifies. */
  ghost predicate Header4(h: seq<Byte>, g: seq<Byte>, total: nat) {
    && 20 <= |h| == |g|
    && (forall i :: 0 <= i < |h| && i !in {2, 3, 6, 7, 10, 11} ==> g[i] == h[i])
    && g[2] == Hi(total) && g[3] == Lo(total) && g[6] == 0 && g[7] == 0
    && Fold(WordSum(g)) == 0xffff
    && (h[0] != 0 ==> (g[10] as int) * 0x100 + g[11] != 0xffff)
  }

  /** The sum of a header, the way it is added up and folded. */
  method SumHeader(h: seq<Byte>) returns (sum: nat)
    requires |h| % 2 == 0 && |h| <= 60
    ensures sum == Fold(WordSum(h))
  {
    sum := 0;
    var i := 0;
    while i < |h|
      invariant 0 <= i <= |h| && i % 2 == 0
      invariant sum == WordSum(h[..i])
    {
      var cur := (h[i] as int) * 0x100 + h[i + 1];
      sum := sum + cur;
      assert h[..i + 2][..i] == h[..i];
      WordSumBound(h[..i + 2]);
      assert sum < 0x8000_0000; // a signed 32-bit sum never overflows
      i := i + 2;
    }
    assert h[..i] == h;
    while sum / 0x1_0000 != 0
      invariant Fold(sum) == Fold(WordSum(h))
      decreases sum
    {
      sum := sum % 0x1_0000 + sum / 0x1_0000;
    }
  }

  /** Updates length and offset and recomputes the checksum of the header in `out[..hl]`. */
  method FixHeader4(out: array<Byte>, hl: nat, total: nat)
    requires 20 <= hl <= out.Length && hl <= 60 && hl % 2 == 0
    modifies out
    ensures Header4(old(out[..hl]), out[..hl], total)
    ensures out[hl..] == old(out[hl..])
  {
    hide Header4, WordSum, Fold;
    ghost var h: seq<Byte> := out[..hl];
    out[2], out[3] := Hi(total), Lo(total);
    out[6], out[7] := 0, 0;
    out[10], out[11] := 0, 0;
    ghost var u: seq<Byte> := out[..hl];
    assert u == Unsummed(h, total);
    var sum := SumHeader(out[..hl]);
    var inverse := 0xffff - sum;
    out[10], out[11] := Hi(inverse), Lo(inverse);
    assert out[..hl] == u[10 := Hi(inverse)][11 := Lo(inverse)];
    Header4Made(h, out[..hl], total, inverse);
  }

  lemma Header4Made(h: seq<Byte>, g: seq<Byte>, total: nat, inverse: nat)
    requires 20 <= |h| && |h| % 2 == 0 && inverse == 0xffff - Fold(WordSum(Unsummed(h, total)))
    requires inverse < 0x1_0000 && g == Unsummed(h, total)[10 := Hi(inverse)][11 := Lo(inverse)]
    ensures Header4(h, g, total)
  {
    hide WordSum, Fold;
    var u := Unsummed(h, total);
    WordSumSet(u, 10, Hi(inverse), Lo(inverse));
    ComplementVerifies(WordSum(u));
    if h[0] != 0 {
      WordSumPositive(u);
    }
  }

  /** The header of a reassembled IPv6 packet: the fragment header is gone, so the header before
  it names what came after, and the payload length is set. */
  ghost predicate Header6(h: seq<Byte>, g: seq<Byte>, total: nat, lastNxt: nat, nxt: Byte)
    requires total >= 40
  {
    && 40 <= |h| == |g|
    && (forall i :: 0 <= i < |h| && i !in {4, 5, lastNxt} ==> g[i] == h[i])
    && (lastNxt < |h| && lastNxt !in {4, 5} ==> g[lastNxt] == nxt)
    && g[4] == Hi(total - 40) && g[5] == Lo(total - 40)
  }

  /** Where the payload of the reassembled packet starts. */
  function Base(proto: Proto, f: Frag): int {
    if proto == V4 then f.dataOffset else f.dataOffset - 8
  }

  /** The headers of a fragment are complete. */
  predicate Headed(proto: Proto, f: Frag) {
    && f.Sound()
    && match proto
       case V4 => 20 <= f.dataOffset <= 60 && f.dataOffset % 2 == 0
       case V6 => 48 <= f.dataOffset && f.lastNxt < f.dataOffset - 8 && f.lastNxt !in {4, 5}
  }

  /** A complete entry has a fragment. */
  lemma CompleteHasFragment(a: Asm)
    requires Inv(a) && Complete(a)
    ensures |a.frags| >= 2 && a.frags[1].offset == 0 && Reach(a.frags) <= a.len
  {
    CompleteIsCovered(a);
    assert Covered(a.frags, 0);
    var i :| 0 <= i < |a.frags| && Covers(a.frags[i], 0);
    assert i > 1 ==> InOrder(a.frags[1], a.frags[i]);
  }

  /** Writes out the packet: the header of the first fragment, corrected, and all the payloads. */
  method Assemble(e: Entry, out: array<Byte>, outputLen: nat) returns (n: nat)
    requires Inv(e.State()) && Complete(e.State()) && outputLen <= out.Length
    requires forall j :: 1 <= j < |e.frags| ==> Headed(e.proto, e.frags[j])
    modifies out
    ensures |e.frags| >= 2 && e.frags[1].offset == 0 && 0 <= Base(e.proto, e.frags[1])
    ensures var f, base := e.frags[1], Base(e.proto, e.frags[1]);
            if e.len + base > outputLen then n == 0 && out[..] == old(out[..])
            else
              && n == base + e.len && n <= out.Length
              && Placed(out[..], base, e.frags, |e.frags|)
              && base <= |f.data|
              && (e.proto == V4 ==> Header4(f.data[..base], out[..base], n))
              && (e.proto == V6 ==> base >= 40 && Header6(f.data[..base], out[..base], n, f.lastNxt, f.nxt))
  {
    hide Inv, Complete, Sorted, Placed, Header4, Header6;
    ghost var a := e.State();
    CompleteHasFragment(a);
    InvSorted(a);
    var frag := e.frags[1];
    var base := if e.proto == V4 then frag.dataOffset else frag.dataOffset - 8;
    if e.len + base > outputLen {
      return 0;
    }
    n := e.len + base;
    MemCpy(out, 0, frag.data[..base]);
    assert out[..base] == frag.data[..base];
    if e.proto == V6 {
      out[frag.lastNxt] := frag.nxt;
    }
    JoinPayloads(out, base, e.frags, e.len);
    ghost var before := out[..];
    FixHeader(e.proto, out, base, n, frag);
    PlacedApart(before, out[..], base, e.frags);
  }

  /** Updates the copied header of the first fragment. */
  method FixHeader(proto: Proto, out: array<Byte>, base: nat, total: nat, frag: Frag)
    requires Headed(proto, frag) && base == Base(proto, frag) && base <= total && base <= out.Length
    requires proto == V4 ==> out[..base] == frag.data[..base]
    requires proto == V6 ==> out[..base] == frag.data[..base][frag.lastNxt := frag.nxt]
    modifies out
    ensures out[base..] == old(out[base..])
    ensures proto == V4 ==> Header4(frag.data[..base], out[..base], total)
    ensures proto == V6 ==> base >= 40 && Header6(frag.data[..base], out[..base], total, frag.lastNxt, frag.nxt)
  {
    hide Header4, Header6;
    ghost var h := out[..base];
    match proto {
      case V4 => FixHeader4(out, base, total);
      case V6 =>
        var plen := total - 40;
        out[4], out[5] := Hi(plen), Lo(plen);
        Header6Made(frag.data[..base], h, out[..base], total, frag.lastNxt, frag.nxt);
    }
  }

  lemma InvSorted(a: Asm)
    requires Inv(a) && Reach(a.frags) <= a.len
    ensures Sorted(a.frags) && forall j :: 1 <= j < |a.frags| ==> a.frags[j].End() <= a.len
  {
    AllEnd(a.frags, Some(a.len));
  }

  lemma Header6Made(h0: seq<Byte>, h: seq<Byte>, g: seq<Byte>, total: nat, lastNxt: nat, nxt: Byte)
    requires 40 <= |h0| && total >= 40 && lastNxt < |h0| && lastNxt !in {4, 5}
    requires h == h0[lastNxt := nxt] && g == h[4 := Hi(total - 40)][5 := Lo(total - 40)]
    ensures Header6(h0, g, total, lastNxt, nxt)
  {
  }

  /** Changes before `base` leave the payloads alone. */
  lemma PlacedApart(before: seq<Byte>, out: seq<Byte>, base: nat, fs: seq<Frag>)
    requires Placed(before, base, fs, |fs|)
    requires |out| == |before| && base <= |out| && out[base..] == before[base..]
    ensures Placed(out, base, fs, |fs|)
  {
    forall x | base <= x < |out|
      ensures out[x] == before[x]
    {
      assert out[base..][x - base] == before[base..][x - base];
    }
    forall j | 1 <= j < |fs|
      ensures fs[j].Sound() && base + fs[j].End() <= |out| && out[base + fs[j].offset..base + fs[j].End()] == fs[j].Payload()
    {
      assert out[base + fs[j].offset..base + fs[j].End()] == before[base + fs[j].offset..base + fs[j].End()];
    }
  }

  // ---------- The whole packet ----------

  /** The fragments of a list carry the bytes of `payload` at their places. */
  ghost predicate Carries(fs: seq<Frag>, payload: seq<Byte>) {
    forall j :: 1 <= j < |fs| ==>
                  fs[j].Sound() && fs[j].End() <= |payload| && payload[fs[j].offset..fs[j].End()] == fs[j].Payload()
  }

  /** Payloads in place that cover everything make up the payload. */
  lemma PlacedIsPayload(out: seq<Byte>, base: nat, a: Asm, payload: seq<Byte>)
    requires Inv(a) && Complete(a) && a.len == |payload| && Carries(a.frags, payload)
    requires base + a.len <= |out| && Placed(out, base, a.frags, |a.frags|)
    ensures out[base..base + a.len] == payload
  {
    hide Inv, Complete;
    CompleteIsCovered(a);
    forall x | 0 <= x < a.len
      ensures out[base + x] == payload[x]
    {
      assert Covered(a.frags, x);
      var j :| 0 <= j < |a.frags| && Covers(a.frags[j], x);
      HeadCoversNothing(a, j, x);
      var f := a.frags[j];
      assert out[base + f.offset..base + f.End()][x - f.offset] == f.Payload()[x - f.offset];
      assert payload[f.offset..f.End()][x - f.offset] == f.Payload()[x - f.offset];
    }
  }

  lemma HeadCoversNothing(a: Asm, j: nat, x: nat)
    requires Inv(a) && j < |a.frags| && Covers(a.frags[j], x)
    ensures j > 0
  {
  }
}
