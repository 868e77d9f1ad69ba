/** Batching messages into containers, and writing the containers out. */
module Container {
  import opened Wrappers
  import opened Bits
  import opened Words
  import opened Varint

  /** A payload: its contents, if any, and all other fields as they are packed. */
  datatype Payload = Payload(others: seq<Byte>, contents: Option<seq<Byte>>)

  const HDRLSZ_V2: nat := 10
  const WBUFSZ_MIN: nat := 512
  const WBUFSZ_MAX: nat := 0x10_0000

  datatype Result = Success | Full | Overfull | Errno

  // ---------- The container ----------

  function One(b: bool): nat {
    if b then 1 else 0
  }

  /** The size of a payload, as it is estimated: the field with the contents packed as if they were
  empty, then their length, with up to two more bytes for it. */
  function NpLen(p: Payload): nat {
    match p.contents
    case None => |p.others|
    case Some(c) => |p.others| + 2 + |c| + One(|c| >= 0x80) + One(|c| >= 0x4000)
  }

  /** The estimate for the field that holds a payload: the payload, tag and length. */
  function FieldEstimate(len: nat): nat {
    len + 2 + One(len >= 0x80) + One(len >= 0x4000) + One(len >= 0x20_0000)
  }

  /** What a payload of the given size adds to the estimate. */
  function Growth(len: nat, doSequence: bool): nat {
    FieldEstimate(len) + 6 + if doSequence then 18 else 0
  }

  function Estimate(ps: seq<Payload>, doSequence: bool): nat {
    if ps == [] then HDRLSZ_V2
    else Estimate(ps[..|ps| - 1], doSequence) + Growth(NpLen(ps[|ps| - 1]), doSequence)
  }

  class Container {
    const bufsz: nat
    const doSequence: bool
    var payloads: seq<Payload>
    var estsz: nat

    ghost predicate Valid()
      reads this
    {
      bufsz >= WBUFSZ_MIN && estsz == Estimate(payloads, doSequence)
    }

    constructor (bufsz: nat, doSequence: bool)
      requires bufsz >= WBUFSZ_MIN
      ensures Valid() && payloads == [] && estsz == HDRLSZ_V2
      ensures this.bufsz == bufsz && this.doSequence == doSequence
    {
      this.bufsz, this.doSequence := bufsz, doSequence;
      payloads, estsz := [], HDRLSZ_V2;
    }

    /** Adds a payload. A container that is not empty refuses one that may not fit; an empty one
    takes anything, but says when it is too much. */
    method Add(np: Payload) returns (res: Result)
      requires Valid()
      modifies this
      ensures Valid() && res in {Success, Full, Overfull}
      ensures res == Full ==> payloads == old(payloads) && payloads != []
      ensures res != Full ==> payloads == old(payloads) + [np]
      ensures res == Overfull ==> old(payloads) == []
      ensures res == Success <==> res != Full && estsz <= bufsz
      ensures res == Full <==> old(payloads) != [] && old(estsz) + NpLen(np) + 32 >= bufsz
    {
      EmptyEstimate(payloads, doSequence);
      hide NpLen;
      var npLen := NpLen(np);
      if estsz != HDRLSZ_V2 && estsz + npLen + 32 >= bufsz {
        return Full;
      }
      assert (payloads + [np])[..|payloads|] == payloads;
      payloads := payloads + [np];
      estsz := estsz + Growth(npLen, doSequence);
      return if estsz > bufsz then Overfull else Success;
    }
  }

  /** Only an empty container has the estimate of an empty container. */
  lemma EmptyEstimate(ps: seq<Payload>, doSequence: bool)
    ensures Estimate(ps, doSequence) >= HDRLSZ_V2
    ensures Estimate(ps, doSequence) == HDRLSZ_V2 <==> ps == []
  {
  }

  // ---------- How much is written ----------

  /** A field of the given size: tag, length, contents. */
  function FieldSize(len: nat): nat {
    1 + |Encoded(len)| + len
  }

  function Len(p: Payload): nat {
    if p.contents.None? then 0 else |p.contents.value|
  }

  function PayloadSize(p: Payload): nat {
    |p.others| + if p.contents.None? then 0 else FieldSize(Len(p))
  }

  function PayloadsSize(ps: seq<Payload>): nat {
    if ps == [] then 0 else PayloadsSize(ps[..|ps| - 1]) + FieldSize(PayloadSize(ps[|ps| - 1]))
  }

  function CrcsSize(crcs: seq<Word32>): nat {
    if crcs == [] then 0 else CrcsSize(crcs[..|crcs| - 1]) + 1 + |Encoded(crcs[|crcs| - 1])|
  }

  /** The size of the serialized container without its header: the payloads, a checksum for each,
  and the sequence number and identifier. */
  function PackedSize(ps: seq<Payload>, crcs: seq<Word32>, doSequence: bool, sequence: Word32, id: Word64): nat {
    PayloadsSize(ps) + CrcsSize(crcs) + if doSequence then 1 + |Encoded(sequence)| + 1 + |Encoded(id)| else 0
  }

  // ---------- When the estimate suffices ----------

  function Over(n: nat, m: nat): nat {
    if n > m then n - m else 0
  }

  /** How much larger than estimated the field of a payload is: a byte for every 7 bits of the length
  of the contents above 21, and for every 7 bits of the length of the payload above 28. */
  function Surplus(p: Payload): nat {
    Over(|Encoded(Len(p))|, 3) + Over(|Encoded(PayloadSize(p))|, 4)
  }

  lemma {:induction false} LengthSize(len: nat)
    ensures len < 0x20_0000 ==> |Encoded(len)| == 1 + One(len >= 0x80) + One(len >= 0x4000)
    ensures len < 0x1000_0000 ==> |Encoded(len)| == 1 + One(len >= 0x80) + One(len >= 0x4000) + One(len >= 0x20_0000)
    ensures len >= 0x20_0000 ==> |Encoded(len)| >= 4
    ensures len >= 0x1000_0000 ==> |Encoded(len)| >= 5
  {
    Powers();
    EncodedLength(len, 1);
    EncodedLength(len, 2);
    EncodedLength(len, 3);
    EncodedLength(len, 4);
  }

  lemma NpLenIs(p: Payload)
    ensures PayloadSize(p) == NpLen(p) + Over(|Encoded(Len(p))|, 3)
    ensures NpLen(p) >= Len(p)
  {
    LengthSize(Len(p));
  }

  lemma FieldExcess(p: Payload)
    ensures FieldSize(PayloadSize(p)) == FieldEstimate(NpLen(p)) + Surplus(p)
  {
    hide PayloadSize, NpLen, Len;
    NpLenIs(p);
    LengthSize(Len(p));
    LengthSize(PayloadSize(p));
  }

  /** How much larger than estimated the fields of all payloads are. */
  function Excess(ps: seq<Payload>): int {
    if ps == [] then 0
    else
      var p := ps[|ps| - 1];
      Excess(ps[..|ps| - 1]) + FieldSize(PayloadSize(p)) - FieldEstimate(NpLen(p))
  }

  lemma {:induction false} ExcessIs(ps: seq<Payload>, doSequence: bool)
    ensures HDRLSZ_V2 + PayloadsSize(ps) + 6 * |ps| + (if doSequence then 18 * |ps| else 0) == Estimate(ps, doSequence) + Excess(ps)
  {
    if ps != [] {
      hide FieldSize, FieldEstimate, PayloadSize, NpLen;
      ExcessIs(ps[..|ps| - 1], doSequence);
    }
  }

  lemma NumberFits(x: Word32)
    ensures 1 + |Encoded(x)| <= 6 && (x >= 0x1000_0000 ==> 1 + |Encoded(x)| == 6)
  {
    Powers();
    EncodedLength(x, 4);
    EncodedLength(x, 5);
  }

  lemma IdFits(x: Word64)
    ensures 1 + |Encoded(x)| <= 11 && (x >= 0x8000_0000_0000_0000 ==> 1 + |Encoded(x)| == 11)
  {
    Powers();
    assert Power(9) == 0x8000_0000_0000_0000;
    EncodedLength(x, 9);
    EncodedLength(x, 10);
  }

  lemma {:induction false} CrcsFit(crcs: seq<Word32>)
    ensures CrcsSize(crcs) <= 6 * |crcs|
    ensures (forall i :: 0 <= i < |crcs| ==> crcs[i] >= 0x1000_0000) ==> CrcsSize(crcs) == 6 * |crcs|
  {
    if crcs != [] {
      NumberFits(crcs[|crcs| - 1]);
      CrcsFit(crcs[..|crcs| - 1]);
    }
  }

  /** Whatever the checksums and the sequence fields are, the container takes at most `room` bytes. */
  ghost predicate AlwaysFits(ps: seq<Payload>, doSequence: bool, header: bool, room: int) {
    forall crcs, sequence, id :: |crcs| == |ps| ==>
                                   (if header then HDRLSZ_V2 else 0) + PackedSize(ps, crcs, doSequence, sequence, id) <= room
  }

  /** What the estimate has beyond the payload fields and does not need: all but one of the sequence
  fields, a byte of that one, and the header if there is none. */
  function Slack(n: nat, doSequence: bool, header: bool): int {
    (if doSequence then 18 * n - 17 else 0) + (if header then 0 else HDRLSZ_V2)
  }

  /** The buffer of the estimated size is large enough for a container, whatever its checksums and
  sequence fields are, if and only if the excess of its payload fields is within the slack. */
  lemma EstimateSuffices(ps: seq<Payload>, doSequence: bool, header: bool)
    ensures AlwaysFits(ps, doSequence, header, Estimate(ps, doSequence)) <==> Excess(ps) <= Slack(|ps|, doSequence, header)
  {
    hide AlwaysFits, Slack, Excess, Estimate;
    if AlwaysFits(ps, doSequence, header, Estimate(ps, doSequence)) {
      LargestNumbers(ps, doSequence, header);
    }
    if Excess(ps) <= Slack(|ps|, doSequence, header) {
      SmallExcess(ps, doSequence, header);
    }
  }

  lemma LargestNumbers(ps: seq<Payload>, doSequence: bool, header: bool)
    requires AlwaysFits(ps, doSequence, header, Estimate(ps, doSequence))
    ensures Excess(ps) <= Slack(|ps|, doSequence, header)
  {
    hide Excess, Estimate, PayloadsSize, CrcsSize;
    ExcessIs(ps, doSequence);
    var crcs: seq<Word32> := seq(|ps|, _ => 0xffff_ffff);
    var sequence: Word32, id: Word64 := 0xffff_ffff, 0xffff_ffff_ffff_ffff;
    CrcsFit(crcs);
    NumberFits(sequence);
    IdFits(id);
    assert (if header then HDRLSZ_V2 else 0) + PackedSize(ps, crcs, doSequence, sequence, id) <= Estimate(ps, doSequence);
  }

  lemma SmallExcess(ps: seq<Payload>, doSequence: bool, header: bool)
    requires Excess(ps) <= Slack(|ps|, doSequence, header)
    ensures AlwaysFits(ps, doSequence, header, Estimate(ps, doSequence))
  {
    hide Excess, Estimate, PayloadsSize, CrcsSize;
    ExcessIs(ps, doSequence);
    forall crcs, sequence, id | |crcs| == |ps|
      ensures (if header then HDRLSZ_V2 else 0) + PackedSize(ps, crcs, doSequence, sequence, id) <= Estimate(ps, doSequence)
    {
      CrcsFit(crcs);
      NumberFits(sequence);
      IdFits(id);
    }
  }

  // ---------- In terms of lengths ----------

  /** The estimate for the field of a payload is exact. */
  predicate Exact(p: Payload) {
    Len(p) < 0x20_0000 && PayloadSize(p) < 0x1000_0000
  }

  /** It is too small by at most one byte. */
  predicate Close(p: Payload) {
    PayloadSize(p) < if Len(p) < 0x20_0000 then 0x8_0000_0000 else 0x1000_0000
  }

  lemma SurplusOfLengths(p: Payload)
    ensures Surplus(p) == 0 <==> Exact(p)
    ensures Surplus(p) <= 1 <==> Close(p)
  {
    hide PayloadSize, Len;
    Powers();
    assert Power(5) == 0x8_0000_0000;
    LenIsPart(p);
    EncodedLength(Len(p), 3);
    EncodedLength(Len(p), 4);
    EncodedLength(PayloadSize(p), 4);
    EncodedLength(PayloadSize(p), 5);
  }

  lemma LenIsPart(p: Payload)
    ensures Len(p) <= PayloadSize(p)
  {
  }

  lemma {:induction false} ExcessOfLengths(ps: seq<Payload>)
    ensures Excess(ps) >= 0
    ensures Excess(ps) == 0 <==> forall i :: 0 <= i < |ps| ==> Exact(ps[i])
    ensures (forall i :: 0 <= i < |ps| ==> Close(ps[i])) ==> Excess(ps) <= |ps|
  {
    if ps != [] {
      hide FieldSize, FieldEstimate, PayloadSize, NpLen, Exact, Close, Surplus;
      var m := |ps| - 1;
      FieldExcess(ps[m]);
      SurplusOfLengths(ps[m]);
      ExcessOfLengths(ps[..m]);
      assert forall i :: 0 <= i < m ==> ps[..m][i] == ps[i];
    }
  }

  lemma ExcessOfOne(p: Payload)
    ensures Excess([p]) == Surplus(p)
  {
    hide FieldSize, FieldEstimate, PayloadSize, NpLen, Surplus;
    FieldExcess(p);
    assert [p][..0] == [];
  }

  /** Without sequence numbers the estimate is enough exactly if all contents are shorter than 2^21
  bytes and all payloads shorter than 2^28. */
  lemma SufficesWithoutSequence(ps: seq<Payload>)
    ensures AlwaysFits(ps, false, true, Estimate(ps, false)) <==> forall i :: 0 <= i < |ps| ==> Exact(ps[i])
  {
    hide AlwaysFits, Excess, Exact, Estimate;
    EstimateSuffices(ps, false, true);
    ExcessOfLengths(ps);
  }

  /** With sequence numbers there is a spare byte for each payload. */
  lemma SufficesWithSequence(ps: seq<Payload>)
    requires ps != [] && forall i :: 0 <= i < |ps| ==> Close(ps[i])
    ensures AlwaysFits(ps, true, true, Estimate(ps, true))
  {
    hide AlwaysFits, Excess, Close, Estimate;
    EstimateSuffices(ps, true, true);
    ExcessOfLengths(ps);
  }

  /** A container of one payload with sequence numbers has just the one. */
  lemma OneWithSequence(p: Payload)
    ensures AlwaysFits([p], true, true, Estimate([p], true)) <==> Close(p)
  {
    hide AlwaysFits, Excess, Close, Estimate, Surplus;
    EstimateSuffices([p], true, true);
    ExcessOfOne(p);
    SurplusOfLengths(p);
  }

  /** Without a header, as it is cut into fragments, a single payload has room for all lengths that
  there are. */
  lemma OneInFragments(p: Payload, doSequence: bool)
    requires PayloadSize(p) < 0x100_0000_0000_0000
    ensures AlwaysFits([p], doSequence, false, Estimate([p], doSequence))
  {
    hide AlwaysFits, Excess, Estimate, PayloadSize, Len;
    EstimateSuffices([p], doSequence, false);
    ExcessOfOne(p);
    LenIsPart(p);
    Power8();
    EncodedLength(Len(p), 8);
    EncodedLength(PayloadSize(p), 8);
  }

  lemma Power8()
    ensures Power(8) == 0x100_0000_0000_0000
  {
    Powers();
  }

  /** Contents of 2^21 bytes with a large checksum: a byte more than estimated. */
  lemma OneByteShort(p: Payload, crc: Word32, sequence: Word32, id: Word64)
    requires Len(p) == 0x20_0000 && PayloadSize(p) < 0x1000_0000 && crc >= 0x1000_0000
    ensures HDRLSZ_V2 + PackedSize([p], [crc], false, sequence, id) == Estimate([p], false) + 1
  {
    hide Estimate, PayloadsSize, Excess, PayloadSize, Len;
    SurplusOfLengths(p);
    ExcessOfOne(p);
    ExcessIs([p], false);
    CrcsFit([crc]);
  }

  /** Contents of 2^28 bytes and large numbers: two bytes more, even with sequence numbers. */
  lemma TwoBytesShort(p: Payload)
    requires Len(p) == 0x1000_0000 && PayloadSize(p) < 0x8_0000_0000
    ensures HDRLSZ_V2 + PackedSize([p], [0xffff_ffff], true, 0xffff_ffff, 0xffff_ffff_ffff_ffff) == Estimate([p], true) + 2
  {
    hide Estimate, PayloadsSize, Excess, PayloadSize, Len;
    Powers();
    assert Power(5) == 0x8_0000_0000;
    LenIsPart(p);
    EncodedLength(Len(p), 4);
    EncodedLength(Len(p), 5);
    EncodedLength(PayloadSize(p), 4);
    EncodedLength(PayloadSize(p), 5);
    ExcessOfOne(p);
    ExcessIs([p], true);
    CrcsFit([0xffff_ffff]);
    NumberFits(0xffff_ffff);
    IdFits(0xffff_ffff_ffff_ffff);
  }

  // ---------- Writing ----------

  /** A container that was written, in one piece or in fragments, with its sequence number. */
  datatype Emission = Emission(payloads: seq<Payload>, sequence: Word32, whole: bool)

  function Flatten(sent: seq<Emission>): seq<Payload> {
    if sent == [] then [] else Flatten(sent[..|sent| - 1]) + sent[|sent| - 1].payloads
  }

  /** The sequence number `n` after the first. */
  function Numbered(first: Word32, n: nat): Word32 {
    Low32(first + n)
  }

  lemma NumberedNext(first: Word32, n: nat)
    ensures Add(Numbered(first, n), 1) == Numbered(first, n + 1)
  {
  }

  lemma FlattenSnoc(sent: seq<Emission>, e: Emission)
    ensures Flatten(sent + [e]) == Flatten(sent) + e.payloads
  {
    assert (sent + [e])[..|sent|] == sent;
  }

  /** A container is written in one piece if its estimate is within the buffer size, and cut into
  fragments if it holds one payload that is too large. */
  predicate Sized(e: Emission, doSequence: bool, bufsz: nat) {
    if e.whole then e.payloads != [] && Estimate(e.payloads, doSequence) <= bufsz
    else |e.payloads| == 1 && Estimate(e.payloads, doSequence) > bufsz
  }

  /** A container takes another payload if it is empty or has 32 bytes to spare. */
  predicate HasRoom(ps: seq<Payload>, np: Payload, doSequence: bool, bufsz: nat) {
    ps == [] || Estimate(ps, doSequence) + NpLen(np) + 32 < bufsz
  }

  /** Behind every container that was sent in one piece comes a payload that it had no room for. */
  ghost predicate Tight(sent: seq<Emission>, waiting: seq<Payload>, doSequence: bool, bufsz: nat) {
    && (forall i, j :: 0 <= i < j < |sent| && j == i + 1 ==> Apart(sent[i], sent[j].payloads, doSequence, bufsz))
    && (sent != [] ==> Apart(sent[|sent| - 1], waiting, doSequence, bufsz))
  }

  /** What a message that is written to a buffered output adds. */
  lemma TightNext(before: seq<Emission>, held: seq<Payload>, np: Payload, after: seq<Emission>, waiting: seq<Payload>, doSequence: bool, bufsz: nat)
    requires Tight(before, held, doSequence, bufsz)
    requires HasRoom(held, np, doSequence, bufsz) ==>
               || (after == before && waiting == held + [np])
               || (waiting == [] && |after| == |before| + 1 && before <= after && after[|before|].payloads == held + [np] && !after[|before|].whole)
    requires !HasRoom(held, np, doSequence, bufsz) ==>
               && |after| > |before| && before <= after && after[|before|].payloads == held
               && ((|after| == |before| + 1 && waiting == [np]) ||
                   (|after| == |before| + 2 && !after[|before| + 1].whole && after[|before| + 1].payloads == [np] && waiting == []))
    ensures Tight(after, waiting, doSequence, bufsz)
  {
    hide HasRoom;
  }

  lemma TightToTheEnd(before: seq<Emission>, held: seq<Payload>, after: seq<Emission>, doSequence: bool, bufsz: nat)
    requires Tight(before, held, doSequence, bufsz) && before <= after && |after| <= |before| + 1
    requires |after| > |before| ==> after[|before|].payloads == held
    ensures forall i, j :: 0 <= i < j < |after| && j == i + 1 ==> Apart(after[i], after[j].payloads, doSequence, bufsz)
  {
    hide Apart;
  }

  lemma Nothing(doSequence: bool, bufsz: nat)
    ensures Flatten([]) == [] && Tight([], [], doSequence, bufsz)
  {
  }

  predicate Apart(e: Emission, next: seq<Payload>, doSequence: bool, bufsz: nat) {
    e.whole ==> next != [] && !HasRoom(e.payloads, next[0], doSequence, bufsz)
  }

  lemma {:induction false} Shorter(ps: seq<Payload>, doSequence: bool, i: nat)
    requires i < |ps|
    ensures NpLen(ps[i]) < Estimate(ps, doSequence)
  {
    hide NpLen;
    EmptyEstimate(ps[..|ps| - 1], doSequence);
    if i < |ps| - 1 {
      Shorter(ps[..|ps| - 1], doSequence, i);
    }
  }

  lemma ShortIsExact(p: Payload)
    requires NpLen(p) < 0x20_0000
    ensures Exact(p)
  {
    NpLenIs(p);
    LengthSize(Len(p));
    hide NpLen, PayloadSize, Len;
  }

  /** What is written in one piece, with its header, is within the buffer size: that is small enough
  for the estimate to be exact. */
  lemma OnePieceFits(ps: seq<Payload>, doSequence: bool, bufsz: nat)
    requires ps != [] && Estimate(ps, doSequence) <= bufsz <= WBUFSZ_MAX
    ensures AlwaysFits(ps, doSequence, true, Estimate(ps, doSequence))
    ensures AlwaysFits(ps, doSequence, true, bufsz)
  {
    hide Estimate, Excess, Exact, NpLen, PackedSize;
    forall i | 0 <= i < |ps|
      ensures Exact(ps[i])
    {
      Shorter(ps, doSequence, i);
      ShortIsExact(ps[i]);
    }
    ExcessOfLengths(ps);
    EstimateSuffices(ps, doSequence, true);
  }

  /** Nothing that is written needs more than the buffer of the estimated size. */
  lemma NothingOverruns(e: Emission, doSequence: bool, bufsz: nat)
    requires Sized(e, doSequence, bufsz) && bufsz <= WBUFSZ_MAX
    requires forall i :: 0 <= i < |e.payloads| ==> PayloadSize(e.payloads[i]) < 0x100_0000_0000_0000
    ensures AlwaysFits(e.payloads, doSequence, e.whole, Estimate(e.payloads, doSequence))
  {
    hide AlwaysFits, Estimate, PayloadSize;
    if e.whole {
      OnePieceFits(e.payloads, doSequence, bufsz);
    } else {
      assert e.payloads == [e.payloads[0]];
      OneInFragments(e.payloads[0], doSequence);
    }
  }

  lemma PackedPositive(ps: seq<Payload>, crcs: seq<Word32>, doSequence: bool, sequence: Word32, id: Word64)
    requires |crcs| == |ps| > 0
    ensures PackedSize(ps, crcs, doSequence, sequence, id) > 0
  {
  }

  /** What is returned for a container written in fragments. */
  function Told(oks: seq<bool>): Result
    requires oks != []
  {
    if oks[|oks| - 1] then Success else Errno
  }

  /** Whenever one of `n` writes fails, the caller is told. */
  ghost predicate FailureIsTold(n: nat) {
    forall oks: seq<bool> :: |oks| == n && false in oks ==> Told(oks) == Errno
  }

  /** A fragment that is lost without the caller being told. */
  lemma LossUntold()
    ensures Told([false, true]) == Success && false in [false, true]
  {
  }

  /** A failed write is always told if and only if there is only one. */
  lemma ToldIff(n: nat)
    requires n > 0
    ensures FailureIsTold(n) <==> n == 1
  {
    if n == 1 {
      forall oks: seq<bool> | |oks| == n && false in oks
        ensures Told(oks) == Errno
      {
      }
    } else {
      var oks := [false] + seq(n - 1, _ => true);
      assert |oks| == n && oks[0] == false && Told(oks) == Success;
    }
  }

  /** How many fragments a container takes that is serialized in `len` bytes. */
  function Writes(len: nat, bufsz: nat): nat
    requires bufsz > 32
  {
    len / (bufsz - 32) + if len % (bufsz - 32) == 0 then 0 else 1
  }

  lemma WritesPositive(len: nat, bufsz: nat)
    requires bufsz > 32 && len > 0
    ensures Writes(len, bufsz) > 0
    ensures Writes(len, bufsz) == 1 <==> len <= bufsz - 32
  {
    var max: nat := bufsz - 32;
    if len < max {
      DivModUnique(len, max, 0, len);
    } else if len == max {
      DivModUnique(len, max, 1, 0);
    } else {
      MoreThanOne(len, max, len / max, len % max);
    }
  }

  lemma MoreThanOne(len: nat, max: nat, q: nat, r: nat)
    requires len > max && len == q * max + r && r < max
    ensures q > 0 && (q == 1 ==> r > 0)
  {
  }

  /** In terms of the container: exactly if it fits into one fragment. */
  lemma ToldIffOneFragment(len: nat, bufsz: nat)
    requires bufsz >= WBUFSZ_MIN && len > 0
    ensures FailureIsTold(Writes(len, bufsz)) <==> len <= bufsz - 32
  {
    hide Writes, FailureIsTold;
    WritesPositive(len, bufsz);
    ToldIff(Writes(len, bufsz));
  }

  class Output {
    const bufsz: nat
    const buffered: bool
    const doSequence: bool
    const sequenceId: Word64
    const first: Word32 // the sequence number at the start
    var c: Container
    var sequence: Word32
    ghost var sent: seq<Emission>
    ghost var failed: bool // a write to the stream has failed

    /** All but the size of what is waiting. */
    ghost predicate Open()
      reads this, c
    {
      && WBUFSZ_MIN <= bufsz <= WBUFSZ_MAX && c.Valid() && c.bufsz == bufsz && c.doSequence == doSequence
      && sequence == (if doSequence then Numbered(first, |sent|) else first)
      && (forall i :: 0 <= i < |sent| ==> sent[i].sequence == if doSequence then Numbered(first, i) else first)
      && (forall i :: 0 <= i < |sent| ==> Sized(sent[i], doSequence, bufsz))
    }

    ghost predicate Valid()
      reads this, c
    {
      Open() && c.estsz <= bufsz
    }

    /** All payloads written so far: sent in containers, or waiting in one. */
    ghost function Written(): seq<Payload>
      reads this, c
    {
      Flatten(sent) + c.payloads
    }

    constructor (bufsz: nat, buffered: bool, doSequence: bool, sequenceId: Word64, first: Word32)
      ensures Valid() && fresh(c) && Written() == [] && !failed && sent == []
      ensures this.bufsz == if bufsz < 512 then 512 else if bufsz > 1048576 then 1048576 else bufsz
      ensures this.buffered == buffered && this.doSequence == doSequence && this.sequenceId == sequenceId
      ensures sequence == this.first == first
    {
      var size := if bufsz < WBUFSZ_MIN then WBUFSZ_MIN else if bufsz > WBUFSZ_MAX then WBUFSZ_MAX else bufsz;
      this.bufsz, this.buffered, this.doSequence, this.sequenceId, this.first := size, buffered, doSequence, sequenceId, first;
      c := new Container(size, doSequence);
      sequence, sent, failed := first, [], false;
    }

    /** Hands the container to the stream. */
    ghost method Emit(whole: bool)
      requires Open() && Sized(Emission(c.payloads, sequence, whole), doSequence, bufsz)
      modifies this`sent
      ensures sent == old(sent) + [Emission(c.payloads, sequence, whole)]
      ensures Flatten(sent) == old(Written())
      ensures forall i :: 0 <= i < |sent| ==> Sized(sent[i], doSequence, bufsz)
    {
      hide Sized, Numbered, Estimate;
      FlattenSnoc(sent, Emission(c.payloads, sequence, whole));
      sent := sent + [Emission(c.payloads, sequence, whole)];
    }

    /** Writes the container in one piece, within the buffer size. What is returned tells whether the
    stream took it. */
    method WriteContainer() returns (res: Result)
      requires Valid() && c.payloads != []
      modifies this`c, this`sequence, this`sent, this`failed
      ensures Valid() && fresh(c) && c.payloads == [] && res in {Success, Errno}
      ensures sent == old(sent) + [Emission(old(c.payloads), old(sequence), true)]
      ensures AlwaysFits(old(c.payloads), doSequence, true, bufsz)
      ensures sequence == if doSequence then Add(old(sequence), 1) else old(sequence)
      ensures Written() == old(Written())
      ensures failed == (old(failed) || res == Errno)
    {
      hide Numbered, Flatten, Estimate, AlwaysFits;
      OnePieceFits(c.payloads, doSequence, bufsz);
      Emit(true);
      hide Sized;
      NumberedNext(first, |sent| - 1);
      if doSequence {
        sequence := Add(sequence, 1);
      }
      var ok: bool := *; // whether the stream took the bytes
      failed := failed || !ok;
      res := if ok then Success else Errno;
      c := new Container(bufsz, doSequence);
    }

    /** The size of the container without a header, with the given checksums. */
    ghost function Serialized(crcs: seq<Word32>): nat
      reads this, c
    {
      PackedSize(c.payloads, crcs, doSequence, sequence, sequenceId)
    }

    /** Writes the container in fragments; `oks` says which of the writes the stream takes. What is
    returned is what became of the last of them. */
    method WriteFragments(ghost crcs: seq<Word32>, oks: seq<bool>) returns (res: Result)
      requires Open() && |c.payloads| == 1 && c.estsz > bufsz
      requires |crcs| == 1 && |oks| == Writes(Serialized(crcs), bufsz)
      modifies this`c, this`sequence, this`sent, this`failed
      ensures Valid() && fresh(c) && c.payloads == []
      ensures sent == old(sent) + [Emission(old(c.payloads), old(sequence), false)]
      ensures sequence == if doSequence then Add(old(sequence), 1) else old(sequence)
      ensures Written() == old(Written())
      ensures oks != [] && res == Told(oks)
      ensures failed == (old(failed) || false in oks)
    {
      hide Numbered, Flatten, Estimate, PackedSize, Writes;
      PackedPositive(c.payloads, crcs, doSequence, sequence, sequenceId);
      WritesPositive(Serialized(crcs), bufsz);
      Emit(false);
      hide Sized;
      NumberedNext(first, |sent| - 1);
      if doSequence {
        sequence := Add(sequence, 1);
      }
      res := Success;
      var i := 0;
      while i < |oks|
        invariant 0 <= i <= |oks|
        invariant i > 0 ==> res == Told(oks[..i])
        invariant failed == (old(failed) || false in oks[..i])
        invariant Open() && c == old(c) && Flatten(sent) == old(Written())
        invariant sent == old(sent) + [Emission(old(c.payloads), old(sequence), false)]
        invariant sequence == if doSequence then Add(old(sequence), 1) else old(sequence)
      {
        assert oks[..i + 1] == oks[..i] + [oks[i]];
        res := if oks[i] then Success else Errno;
        failed := failed || !oks[i];
        i := i + 1;
      }
      assert oks[..i] == oks;
      c := new Container(bufsz, doSequence);
    }

    /** Writes a message: to the container, and the container to the stream if need be. It never
    says that the container is full, and it loses and reorders nothing unless the stream fails. What
    is buffered waits until there is no room for the next message. */
    method Write(np: Payload) returns (res: Result)
      requires Valid()
      modifies this`c, this`sequence, this`sent, this`failed, c
      ensures Valid() && (c == old(c) || fresh(c))
      ensures res in {Success, Errno} && (res == Errno ==> failed)
      ensures !failed ==> !old(failed) && res == Success
      ensures res == Success ==> Written() == old(Written()) + [np]
      ensures HasRoom(old(c.payloads), np, doSequence, bufsz) ==>
                var ps := old(c.payloads) + [np];
                if Estimate(ps, doSequence) > bufsz then sent == old(sent) + [Emission(ps, old(sequence), false)] && c.payloads == []
                else if buffered then sent == old(sent) && c.payloads == ps && res == Success && failed == old(failed)
                else sent == old(sent) + [Emission(ps, old(sequence), true)] && c.payloads == []
      ensures !HasRoom(old(c.payloads), np, doSequence, bufsz) ==>
                var first := old(sent) + [Emission(old(c.payloads), old(sequence), true)];
                if res == Errno && sent == first then c.payloads == []
                else if Estimate([np], doSequence) <= bufsz then sent == first && c.payloads == [np] && res == Success
                else sent == first + [Emission([np], Numbering(old(sequence)), false)] && c.payloads == []
    {
      hide Flatten, Estimate, Numbered, NpLen, Sized, AlwaysFits;
      res := c.Add(np);
      if res == Full {
        res := WriteContainer();
        if res != Success {
          return;
        }
        res := c.Add(np);
        assert c.payloads == [np];
        if res == Overfull {
          res := FragmentContainer();
        }
      } else if res == Success && !buffered {
        res := WriteContainer();
      } else if res == Overfull {
        res := FragmentContainer();
      }
    }

    /** The sequence number after another. */
    function Numbering(x: Word32): Word32 {
      if doSequence then Add(x, 1) else x
    }

    /** Writes the container in as many fragments as its serialized form takes. */
    method FragmentContainer() returns (res: Result)
      requires Open() && |c.payloads| == 1 && c.estsz > bufsz
      modifies this`c, this`sequence, this`sent, this`failed
      ensures Valid() && fresh(c) && c.payloads == [] && res in {Success, Errno}
      ensures Written() == old(Written())
      ensures sent == old(sent) + [Emission(old(c.payloads), old(sequence), false)]
      ensures !failed ==> !old(failed) && res == Success
      ensures res == Errno ==> failed
    {
      hide Flatten, PackedSize, Writes, Estimate, Numbered, Sized;
      var crc: Word32 := *;
      var len := PackedSize(c.payloads, [crc], doSequence, sequence, sequenceId);
      var oks := Outcomes(Writes(len, bufsz));
      res := WriteFragments([crc], oks);
    }

    /** What becomes of a number of writes is up to the stream. */
    method Outcomes(n: nat) returns (oks: seq<bool>)
      ensures |oks| == n
    {
      oks := [];
      while |oks| < n
        invariant |oks| <= n
      {
        var ok: bool := *;
        oks := oks + [ok];
      }
    }

    /** Writes what is waiting. */
    method Flush() returns (res: Result)
      requires Valid()
      modifies this`c, this`sequence, this`sent, this`failed
      ensures Valid() && (c == old(c) || fresh(c)) && c.payloads == [] && res in {Success, Errno}
      ensures Written() == old(Written()) && Flatten(sent) == Written()
      ensures sent == old(sent) + if old(c.payloads) == [] then [] else [Emission(old(c.payloads), old(sequence), true)]
      ensures failed == (old(failed) || res == Errno)
    {
      res := Success;
      if |c.payloads| > 0 {
        res := WriteContainer();
      }
    }

    lemma SomethingWritten()
      requires Valid()
      ensures sent != [] || c.payloads != [] ==> Written() != []
    {
      if sent != [] {
        assert Sized(sent[|sent| - 1], doSequence, bufsz);
      }
    }

    /** Writes some messages and what is waiting at the end: if the stream does not fail, exactly
    those went out, in order, in containers numbered one after the other. No container of a buffered
    output could have taken the first message of the next one. */
    method WriteAll(nps: seq<Payload>)
      requires Valid() && Written() == []
      modifies this`c, this`sequence, this`sent, this`failed, c
      ensures Valid()
      ensures !failed ==> Flatten(sent) == nps
      ensures !failed && buffered ==>
                forall i, j :: 0 <= i < j < |sent| && j == i + 1 ==> Apart(sent[i], sent[j].payloads, doSequence, bufsz)
    {
      hide Open, Apart, Tight, HasRoom, Estimate, Flatten;
      SomethingWritten();
      Nothing(doSequence, bufsz);
      var i := 0;
      while i < |nps|
        invariant 0 <= i <= |nps| && Valid() && (c == old(c) || fresh(c))
        invariant !failed ==> Written() == nps[..i]
        invariant !failed && buffered ==> Tight(sent, c.payloads, doSequence, bufsz)
      {
        ghost var before, held := sent, c.payloads;
        var _ := Write(nps[i]);
        if buffered && !failed {
          TightNext(before, held, nps[i], sent, c.payloads, doSequence, bufsz);
        }
        i := i + 1;
      }
      ghost var before, held := sent, c.payloads;
      var _ := Flush();
      if !failed && buffered {
        TightToTheEnd(before, held, sent, doSequence, bufsz);
      }
    }
  }
}
