/** Reading IP fragments: where the payload of a fragment lies and where it belongs. */
module ReasmParse {
  import opened Wrappers
  import opened Words
  import opened ReasmSpec
  import opened ReasmEntry
  import opened ReasmRun
  import opened ReasmPacket

  function Net16(p: seq<Byte>, i: nat): nat
    requires i + 2 <= |p|
  {
    (p[i] as int) * 0x100 + p[i + 1]
  }

  function Net32(p: seq<Byte>, i: nat): nat
    requires i + 4 <= |p|
  {
    Net16(p, i) * 0x1_0000 + Net16(p, i + 2)
  }

  // ---------- IPv4 ----------

  const MORE_FRAGMENTS: nat := 0x2000

  /** Reads an IPv4 packet; nothing comes of one that is cut short or is no fragment. */
  method Parse4(p: seq<Byte>) returns (x: Option<Input>)
    requires |p| >= 20 && 4 * (p[0] % 16) <= Net16(p, 2)
    ensures x.Some? <==> |p| >= Net16(p, 2) && (Net16(p, 6) / 0x2000 % 2 == 1 || Net16(p, 6) % 0x2000 != 0)
    ensures x.Some? ==> IsParsed4(p, x.value)
  {
    var off := Net16(p, 6);
    if |p| < Net16(p, 2) || off % 0x4000 == 0 {
      return None;
    }
    var hl, len := 4 * (p[0] % 16), Net16(p, 2);
    var frag := new Frag(off % MORE_FRAGMENTS * 8, len - hl, hl, p[..len], 0, 0);
    var head := new Frag(0, 0, 0, [], 0, 0);
    x := Some(Input(Key4(p[12..16], p[16..20], Net16(p, 4), p[9]), frag, off / MORE_FRAGMENTS % 2 == 0, head));
  }

  ghost predicate IsParsed4(p: seq<Byte>, x: Input)
    requires |p| >= 20
  {
    var f, len, off := x.frag, Net16(p, 2), Net16(p, 6);
    && len <= |p| && f.data == p[..len]
    && f.dataOffset == 4 * (p[0] % 16) && f.dataOffset + f.len == len
    && f.offset == off % 0x2000 * 8 && x.last == (off / 0x2000 % 2 == 0)
    && x.key == Key4(p[12..16], p[16..20], Net16(p, 4), p[9]) && IsHead(x.head)
  }

  /** The bytes of an IPv4 fragment: the header but for length, offset and checksum, then `n` bytes
  of the payload. The offset counts in eights; the flag that more follows is above it. */
  ghost predicate Fragment4(p: seq<Byte>, h: seq<Byte>, payload: seq<Byte>, from: nat, n: nat, more: bool) {
    && 20 <= |h| == 4 * (h[0] % 16) && |h| + n <= |p| && from + n <= |payload|
    && (forall i :: 0 <= i < |h| && i !in {2, 3, 6, 7, 10, 11} ==> p[i] == h[i])
    && Net16(p, 2) == |h| + n
    && from % 8 == 0 && from / 8 < 0x2000 && Net16(p, 6) == from / 8 + (if more then 0x2000 else 0)
    && p[|h|..|h| + n] == payload[from..from + n]
  }

  /** A fragment is read as the piece of the payload it was cut to be, with the key of its packet. */
  lemma PieceIsRead4(p: seq<Byte>, h: seq<Byte>, payload: seq<Byte>, from: nat, n: nat, more: bool, x: Input)
    requires Fragment4(p, h, payload, from, n, more) && IsParsed4(p, x)
    ensures Headed(V4, x.frag) && Header4Of(x.frag, h) && x.frag.offset == from && x.frag.len == n && x.last == !more
    ensures x.frag.Sound() && x.frag.Payload() == payload[from..from + n]
    ensures x.key == Key4(h[12..16], h[16..20], Net16(h, 4), h[9])
  {
    assert p[12..16] == h[12..16] && p[16..20] == h[16..20];
    assert x.frag.Payload() == p[|h|..|h| + n];
  }

  /** A piece of a packet that is more than one piece is taken for a fragment. */
  lemma PieceIsFragment4(p: seq<Byte>, h: seq<Byte>, payload: seq<Byte>, from: nat, n: nat, more: bool)
    requires Fragment4(p, h, payload, from, n, more) && (more || from > 0)
    ensures |p| >= Net16(p, 2) && 4 * (p[0] % 16) <= Net16(p, 2)
    ensures Net16(p, 6) / 0x2000 % 2 == 1 || Net16(p, 6) % 0x2000 != 0
  {
  }

  // ---------- IPv6 ----------

  const EXTENSIONS: set<Byte> := {0, 43, 60}

  /** Where the walk along the extension headers ends: where the type of the next header is, where
  that header starts, and its type. */
  datatype End = End(last: nat, off: nat, nxt: Byte)

  /** Steps over the extension headers of a packet of `total` bytes. */
  function Walk(p: seq<Byte>, total: nat, nxt: Byte, last: nat, off: nat): (r: Option<End>)
    requires total <= |p|
    ensures r.Some? ==> r.value.off >= off
    decreases if off <= total then total - off else 0
  {
    if nxt !in EXTENSIONS then Some(End(last, off, nxt))
    else if off + 2 > total then None
    else
      var len := 8 + 8 * (p[off + 1] as int);
      if off + len > total then None else Walk(p, total, p[off], off, off + len)
  }

  method WalkHeaders(p: seq<Byte>, total: nat) returns (r: Option<End>)
    requires 40 <= |p| && total <= |p|
    ensures r == Walk(p, total, p[6], 6, 40)
  {
    var nxt, last, off := p[6], 6, 40;
    while nxt in EXTENSIONS
      invariant Walk(p, total, nxt, last, off) == Walk(p, total, p[6], 6, 40)
      decreases if off <= total then total - off else 0
    {
      if off + 2 > total {
        return None;
      }
      var len := 8 + 8 * (p[off + 1] as int);
      if off + len > total {
        return None;
      }
      nxt, last, off := p[off], off, off + len;
    }
    r := Some(End(last, off, nxt));
  }

  /** Reads an IPv6 packet; nothing comes of one that is cut short, has an unknown header before the
  fragment header, or has none. Its length is kept in 16 bits. */
  method Parse6(p: seq<Byte>) returns (x: Option<Input>)
    requires |p| >= 40
    ensures |p| < Net16(p, 4) + 40 ==> x == None
    ensures |p| >= Net16(p, 4) + 40 ==>
              var total := (Net16(p, 4) + 40) % 0x1_0000; var end := Walk(p, total, p[6], 6, 40);
              && (x.Some? <==> end.Some? && end.value.nxt == 44 && end.value.off + 8 <= total)
              && (x.Some? ==> IsParsed6(p, end.value, total, x.value))
  {
    var plen := Net16(p, 4);
    if |p| < plen + 40 {
      return None;
    }
    var total := (plen + 40) % 0x1_0000;
    var end := WalkHeaders(p, total);
    if end == None || end.value.nxt != 44 {
      return None;
    }
    var off := end.value.off;
    if off + 8 > total {
      return None;
    }
    var offlg := Net16(p, off + 2);
    var frag := new Frag(offlg / 8 * 8, total - (off + 8), off + 8, p[..total], end.value.last, p[off]);
    var head := new Frag(0, 0, 0, [], 0, 0);
    x := Some(Input(Key6(p[8..24], p[24..40], Net32(p, off + 4)), frag, offlg % 2 == 0, head));
  }

  ghost predicate IsParsed6(p: seq<Byte>, end: End, total: nat, x: Input)
    requires 40 <= |p| && total <= |p|
  {
    var f, off := x.frag, end.off;
    && off + 8 <= total && f.data == p[..total]
    && f.dataOffset == off + 8 && f.dataOffset + f.len == total
    && f.lastNxt == end.last && f.nxt == p[off]
    && f.offset == Net16(p, off + 2) / 8 * 8 && x.last == (p[off + 3] % 2 == 0)
    && x.key == Key6(p[8..24], p[24..40], Net32(p, off + 4)) && IsHead(x.head)
  }

  /** The headers from `off` on are extension headers up to the end, the last of which is named at
  `last'` before it. */
  ghost predicate Extensions(h: seq<Byte>, last: nat, off: nat, end: nat)
    decreases if off <= |h| then |h| - off else 0
  {
    && last < off <= |h|
    && if off == |h| then last == end
       else
         && h[last] in EXTENSIONS && off + 2 <= |h| && off + 8 + 8 * (h[off + 1] as int) <= |h|
         && Extensions(h, off, off + 8 + 8 * (h[off + 1] as int), end)
  }

  /** The bytes of an IPv6 fragment: the headers but for the payload length and for the type of what
  comes next, the fragment header, then `n` bytes of the payload. */
  ghost predicate Fragment6(p: seq<Byte>, h: seq<Byte>, end: nat, payload: seq<Byte>, from: nat, n: nat, more: bool, id: nat) {
    && 40 <= |h| && Extensions(h, 6, 40, end) && |h| + 8 + n <= |p| && from + n <= |payload|
    && (forall i :: 0 <= i < |h| && i !in {4, 5, end} ==> p[i] == h[i])
    && end < |h| && p[end] == 44 && p[|h|] == h[end]
    && Net16(p, 4) + 40 == |h| + 8 + n < 0x1_0000
    && from % 8 == 0 && Net16(p, |h| + 2) == from + (if more then 1 else 0) && Net32(p, |h| + 4) == id
    && p[|h| + 8..|h| + 8 + n] == payload[from..from + n]
  }

  lemma {:induction false} ExtensionsEnd(h: seq<Byte>, last: nat, off: nat, end: nat)
    requires Extensions(h, last, off, end)
    ensures last <= end < |h| && (end == last || end >= off)
    decreases |h| - off
  {
    if off < |h| {
      ExtensionsEnd(h, off, off + 8 + 8 * (h[off + 1] as int), end);
    }
  }

  /** The walk ends at the fragment header. */
  lemma {:induction false} WalkIs(p: seq<Byte>, h: seq<Byte>, total: nat, last: nat, off: nat, end: nat)
    requires |h| <= total <= |p| && Extensions(h, last, off, end) && off >= 40 && last !in {4, 5}
    requires forall i :: 0 <= i < |h| && i !in {4, 5, end} ==> p[i] == h[i]
    requires end < |h| && p[end] == 44
    ensures Walk(p, total, p[last], last, off) == Some(End(end, |h|, 44))
    decreases |h| - off
  {
    ExtensionsEnd(h, last, off, end);
    if off < |h| {
      var next := off + 8 + 8 * (h[off + 1] as int);
      ExtensionsEnd(h, off, next, end);
      WalkIs(p, h, total, off, next, end);
      StepsOver(p, h, total, last, off, end);
    }
  }

  lemma StepsOver(p: seq<Byte>, h: seq<Byte>, total: nat, last: nat, off: nat, end: nat)
    requires |h| <= total <= |p| && off < |h| && Extensions(h, last, off, end) && off >= 40 && last !in {4, 5}
    requires forall i :: 0 <= i < |h| && i !in {4, 5, end} ==> p[i] == h[i]
    ensures Walk(p, total, p[last], last, off) == Walk(p, total, p[off], off, off + 8 + 8 * (h[off + 1] as int))
  {
    var next := off + 8 + 8 * (h[off + 1] as int);
    ExtensionsEnd(h, off, next, end);
    assert end == off || end >= next;
    assert p[last] == h[last] && p[off + 1] == h[off + 1];
  }

  /** A fragment is read as the piece of the payload it was cut to be, with the key of its packet. */
  lemma PieceIsRead6(p: seq<Byte>, h: seq<Byte>, end: nat, payload: seq<Byte>, from: nat, n: nat, more: bool, id: nat)
    requires Fragment6(p, h, end, payload, from, n, more, id)
    ensures var total := |h| + 8 + n;
            && |p| >= Net16(p, 4) + 40 && (Net16(p, 4) + 40) % 0x1_0000 == total
            && Walk(p, total, p[6], 6, 40) == Some(End(end, |h|, 44))
    ensures forall x :: IsParsed6(p, End(end, |h|, 44), |h| + 8 + n, x) ==>
                          && Headed(V6, x.frag) && Headers6(x.frag, h) && x.frag.offset == from && x.frag.len == n && x.last == !more
                          && x.frag.Sound() && x.frag.Payload() == payload[from..from + n]
                          && x.key == Key6(h[8..24], h[24..40], id)
  {
    ExtensionsEnd(h, 6, 40, end);
    WalkIs(p, h, |h| + 8 + n, 6, 40, end);
    hide Walk, Extensions;
    forall x | IsParsed6(p, End(end, |h|, 44), |h| + 8 + n, x)
      ensures Headed(V6, x.frag) && Headers6(x.frag, h) && x.frag.offset == from && x.frag.len == n && x.last == !more
      ensures x.frag.Sound() && x.frag.Payload() == payload[from..from + n]
      ensures x.key == Key6(h[8..24], h[24..40], id)
    {
      ReadAs6(p, h, end, payload, from, n, more, id, x);
    }
  }

  lemma ReadAs6(p: seq<Byte>, h: seq<Byte>, end: nat, payload: seq<Byte>, from: nat, n: nat, more: bool, id: nat, x: Input)
    requires Fragment6(p, h, end, payload, from, n, more, id) && IsParsed6(p, End(end, |h|, 44), |h| + 8 + n, x)
    ensures Headed(V6, x.frag) && Headers6(x.frag, h) && x.frag.offset == from && x.frag.len == n && x.last == !more
    ensures x.frag.Sound() && x.frag.Payload() == payload[from..from + n]
    ensures x.key == Key6(h[8..24], h[24..40], id)
  {
    ExtensionsEnd(h, 6, 40, end);
    assert p[8..24] == h[8..24] && p[24..40] == h[24..40];
    assert x.frag.Payload() == p[|h| + 8..|h| + 8 + n];
    hide Extensions;
  }
}
