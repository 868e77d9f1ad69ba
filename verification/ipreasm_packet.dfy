/** From the fragments of a packet to the packet: what is written out byte for byte. */
module ReasmPacket {
  import opened Wrappers
  import opened Words
  import opened ReasmSpec
  import opened ReasmEntry
  import opened ReasmDelivery
  import opened ReasmRun
  import opened ReasmAssembled
  import opened ReasmInterleaved
  import opened Checksum

  // ---------- IPv6 ----------

  /** The fragment has the headers `h`, except for the payload length and for what the last of them
  says comes next, and then a fragment header of eight bytes. */
  ghost predicate Headers6(f: Frag, h: seq<Byte>) {
    && 40 <= |h| && f.Sound() && f.dataOffset == |h| + 8
    && f.lastNxt < |h| && f.lastNxt !in {4, 5} && f.nxt == h[f.lastNxt]
    && forall i :: 0 <= i < |h| && i !in {4, 5, f.lastNxt} ==> f.data[i] == h[i]
  }

  /** The headers with the length of the whole packet. */
  function Whole6(h: seq<Byte>, payload: seq<Byte>): seq<Byte>
    requires |h| >= 40
  {
    var plen := |h| + |payload| - 40;
    h[4 := plen / 0x100 % 0x100][5 := plen % 0x100] + payload
  }

  /** What is written is the packet: its headers with the new length, without a fragment header, and
  the payload. */
  lemma Packet6(a: Asm, h: seq<Byte>, payload: seq<Byte>, before: seq<Byte>, out: seq<Byte>, room: nat, n: nat)
    requires Inv(a) && Complete(a) && a.len == |payload| && Carries(a.frags, payload)
    requires |a.frags| >= 2 ==> Headers6(a.frags[1], h)
    requires Written(V6, a, before, out, room, n)
    ensures |h| >= 40
    ensures if |h| + |payload| > room then n == 0 && out == before
            else n == |h| + |payload| <= |out| && out[..n] == Whole6(h, payload)
  {
    hide Inv, Complete, Placed, Carries;
    if |h| + |payload| <= room {
      PlacedIsPayload(out, |h|, a, payload);
      HeaderBytes6(a.frags[1], h, out[..|h|], n);
      assert out[..n] == out[..|h|] + out[|h|..n];
    }
  }

  lemma HeaderBytes6(f: Frag, h: seq<Byte>, g: seq<Byte>, total: nat)
    requires Headers6(f, h) && total >= 40 && Header6(f.data[..|h|], g, total, f.lastNxt, f.nxt)
    ensures var plen := total - 40; g == h[4 := plen / 0x100 % 0x100][5 := plen % 0x100]
  {
  }

  /** If the length in the headers was right, it is the packet that was cut. */
  lemma Original6(h: seq<Byte>, payload: seq<Byte>)
    requires |h| >= 40 && (h[4] as int) * 0x100 + h[5] == |h| + |payload| - 40
    ensures Whole6(h, payload) == h + payload
  {
  }

  /** In every run in which the pieces of a packet all come in time and once, the packet is written
  out with the last of them. */
  lemma ComesBack6(t: Table, ttl: int, es: seq<Event>, start: int, key: Key, fs: seq<Frag>, order: seq<nat>,
                   h: seq<Byte>, payload: seq<Byte>, before: seq<Byte>, out: seq<Byte>, room: nat, n: nat)
    requires WellFormed(t, start + ttl) && HasHeads(t.recs) && Lookup(t.recs, key) == None
    requires Orderly(es, start) && Cut(fs, |payload|) && CutFrom(fs, payload) && AllOnce(order, |fs|)
    requires Script(es, key, fs, order) && InTime(es, key, |fs|, order, ttl)
    requires es != [] && Concerns(es[|es| - 1], key) && Headers6(fs[0], h)
    ensures Run(t, ttl, es).1.Some?
    ensures Written(V6, Run(t, ttl, es).1.value, before, out, room, n) ==>
              if |h| + |payload| > room then n == 0 && out == before
              else n == |h| + |payload| <= |out| && out[..n] == Whole6(h, payload)
  {
    hide WellFormed, HasHeads, Orderly, Cut, CutFrom, Script, InTime, Run, Tracks, Holds, Complete, Inv, Carries, Written, Headers6;
    OnePacketAlone(order, |fs|);
    InterleavedDelivery(t, ttl, es, start, key, fs, |payload|, order);
    var a := Run(t, ttl, es).1.value;
    HeldIsSound(a, fs, payload, order);
    if Written(V6, a, before, out, room, n) {
      Packet6(a, h, payload, before, out, room, n);
    }
  }

  lemma OnePacketAlone(order: seq<nat>, n: nat)
    requires AllOnce(order, n)
    ensures OnePacket(order, n)
  {
  }

  /** The complete entry holds the pieces, the first of them in front. */
  lemma HeldIsSound(a: Asm, fs: seq<Frag>, payload: seq<Byte>, order: seq<nat>)
    requires Cut(fs, |payload|) && CutFrom(fs, payload) && Holds(a, fs, |payload|, order) && Complete(a)
    ensures Inv(a) && a.len == |payload| && Carries(a.frags, payload)
    ensures |a.frags| >= 2 && a.frags[1] == fs[0]
  {
    hide Complete, Inv;
    CompleteHasFragment(a);
    CompleteIffAll(a, fs, |payload|, order);
    var i :| i in order && i < |fs| && a.frags[1] == fs[i];
    if i > 0 {
      CutInOrder(fs, |payload|, 0, i);
    }
  }

  // ---------- IPv4 ----------

  /** The fragment has the header `h`, except for length, offset and checksum. */
  ghost predicate Header4Of(f: Frag, h: seq<Byte>) {
    && 20 <= |h| == f.dataOffset == 4 * (h[0] % 16) && f.Sound()
    && forall i :: 0 <= i < |h| && i !in {2, 3, 6, 7, 10, 11} ==> f.data[i] == h[i]
  }

  /** `g` is the header of the whole packet: `h` with its length, no offset, and a checksum that verifies. */
  ghost predicate Whole4(h: seq<Byte>, g: seq<Byte>, total: nat) {
    && 20 <= |h| == |g|
    && (forall i :: 0 <= i < |h| && i !in {2, 3, 6, 7, 10, 11} ==> g[i] == h[i])
    && g[2] == total / 0x100 % 0x100 && g[3] == total % 0x100 && g[6] == 0 && g[7] == 0
    && Fold(WordSum(g)) == 0xffff
    && (h[0] != 0 ==> (g[10] as int) * 0x100 + g[11] != 0xffff)
  }

  lemma Packet4(a: Asm, h: seq<Byte>, payload: seq<Byte>, before: seq<Byte>, out: seq<Byte>, room: nat, n: nat)
    requires Inv(a) && Complete(a) && a.len == |payload| && Carries(a.frags, payload)
    requires |a.frags| >= 2 ==> Header4Of(a.frags[1], h)
    requires Written(V4, a, before, out, room, n)
    ensures |h| >= 20
    ensures if |h| + |payload| > room then n == 0 && out == before
            else n == |h| + |payload| <= |out| && Whole4(h, out[..|h|], n) && out[|h|..n] == payload
  {
    hide Inv, Complete, Placed, Carries, Fold, WordSum;
    if |h| + |payload| <= room {
      PlacedIsPayload(out, |h|, a, payload);
    }
  }

  /** A header with the right length, no offset and flags, and the usual checksum comes back as it was. */
  lemma Original4(h: seq<Byte>, g: seq<Byte>, total: nat)
    requires Whole4(h, g, total) && |h| % 2 == 0 && h[0] != 0
    requires (h[2] as int) * 0x100 + h[3] == total && h[6] == 0 && h[7] == 0
    requires Fold(WordSum(h)) == 0xffff && (h[10] as int) * 0x100 + h[11] != 0xffff
    ensures g == h
  {
    hide Fold, WordSum;
    var u: seq<Byte> := h[10 := 0][11 := 0];
    PutBack(h, h, u);
    PutBack(h, g, u);
    hide Whole4;
    WordSumSet(u, 10, h[10], h[11]);
    WordSumSet(u, 10, g[10], g[11]);
    OneChecksum(WordSum(u), (h[10] as int) * 0x100 + h[11], (g[10] as int) * 0x100 + g[11]);
  }

  lemma PutBack(h: seq<Byte>, g: seq<Byte>, u: seq<Byte>)
    requires 20 <= |h| == |g| && forall i :: 0 <= i < |h| && i !in {10, 11} ==> g[i] == h[i]
    requires u == h[10 := 0][11 := 0]
    ensures u[10 := g[10]][11 := g[11]] == g
  {
  }

  lemma ComesBack4(t: Table, ttl: int, es: seq<Event>, start: int, key: Key, fs: seq<Frag>, order: seq<nat>,
                   h: seq<Byte>, payload: seq<Byte>, before: seq<Byte>, out: seq<Byte>, room: nat, n: nat)
    requires WellFormed(t, start + ttl) && HasHeads(t.recs) && Lookup(t.recs, key) == None
    requires Orderly(es, start) && Cut(fs, |payload|) && CutFrom(fs, payload) && AllOnce(order, |fs|)
    requires Script(es, key, fs, order) && InTime(es, key, |fs|, order, ttl)
    requires es != [] && Concerns(es[|es| - 1], key) && Header4Of(fs[0], h)
    ensures Run(t, ttl, es).1.Some?
    ensures Written(V4, Run(t, ttl, es).1.value, before, out, room, n) ==>
              if |h| + |payload| > room then n == 0 && out == before
              else n == |h| + |payload| <= |out| && Whole4(h, out[..|h|], n) && out[|h|..n] == payload
  {
    hide WellFormed, HasHeads, Orderly, Cut, CutFrom, Script, InTime, Run, Tracks, Holds, Complete, Inv, Carries, Written, Header4Of, Whole4;
    OnePacketAlone(order, |fs|);
    InterleavedDelivery(t, ttl, es, start, key, fs, |payload|, order);
    var a := Run(t, ttl, es).1.value;
    HeldIsSound(a, fs, payload, order);
    if Written(V4, a, before, out, room, n) {
      Packet4(a, h, payload, before, out, room, n);
    }
  }
}
