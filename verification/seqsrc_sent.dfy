/** Sender and receiver together: what is counted of the containers that were sent. */
module SeqSrcSent {
  import opened Words
  import opened SeqSrc
  import opened Container

  /** The counts after containers with the given numbers on the wire. */
  ghost function Counted(c: Counts, id: nat, wires: seq<Word32>): Counts {
    if wires == [] then c else Update(Counted(c, id, wires[..|wires| - 1]), id, wires[|wires| - 1]).0
  }

  /** The numbers on the containers that arrive, given their places among those sent. */
  ghost function Arriving(sent: seq<Emission>, ks: seq<nat>): seq<Word32>
    requires forall i :: 0 <= i < |ks| ==> ks[i] < |sent|
  {
    if ks == [] then [] else Arriving(sent, ks[..|ks| - 1]) + [sent[ks[|ks| - 1]].sequence]
  }

  /** The sequence numbers of the places, not wrapped. */
  ghost function Unwrapped(first: Word32, ks: seq<nat>): (ss: seq<nat>)
    ensures |ss| == |ks| && forall i :: 0 <= i < |ks| ==> ss[i] == first + ks[i]
  {
    if ks == [] then [] else Unwrapped(first, ks[..|ks| - 1]) + [first + ks[|ks| - 1]]
  }

  lemma {:induction false} CountedIsAfter(c: Counts, id: nat, sent: seq<Emission>, first: Word32, ks: seq<nat>)
    requires forall i :: 0 <= i < |ks| ==> ks[i] < |sent|
    requires forall i :: 0 <= i < |sent| ==> sent[i].sequence == Numbered(first, i)
    ensures Counted(c, id, Arriving(sent, ks)) == After(c, id, Unwrapped(first, ks))
  {
    hide Update;
    if ks != [] {
      var m := |ks| - 1;
      CountedIsAfter(c, id, sent, first, ks[..m]);
      CountedSnoc(c, id, Arriving(sent, ks[..m]), sent[ks[m]].sequence);
      AfterSnoc(c, id, Unwrapped(first, ks[..m]), first + ks[m]);
    }
  }

  lemma CountedSnoc(c: Counts, id: nat, wires: seq<Word32>, wire: Word32)
    ensures Counted(c, id, wires + [wire]) == Update(Counted(c, id, wires), id, wire).0
  {
    assert (wires + [wire])[..|wires|] == wires;
  }

  lemma AfterSnoc(c: Counts, id: nat, ss: seq<nat>, s: nat)
    ensures After(c, id, ss + [s]) == Update(After(c, id, ss), id, Wire(s)).0
  {
    assert (ss + [s])[..|ss|] == ss;
  }

  /** Of the containers that a sender numbers one after the other some arrive, in order: those are
  counted as received, and those missing between them as dropped, exactly if no more than 1048576
  are missing at once. */
  lemma LossIsCounted(sent: seq<Emission>, first: Word32, ks: seq<nat>, id: nat)
    requires forall i :: 0 <= i < |sent| ==> sent[i].sequence == Numbered(first, i)
    requires ks != [] && Increasing(ks) && forall i :: 0 <= i < |ks| ==> ks[i] < |sent|
    ensures var r := Counted(NewCounts, id, Arriving(sent, ks)); var span := ks[|ks| - 1] - ks[0] + 1;
            && (r.count + r.dropped == span <==> SmallGaps(ks))
            && (SmallGaps(ks) ==> r.count == |ks| && r.dropped == span - |ks|)
  {
    var ss := Unwrapped(first, ks);
    CountedIsAfter(NewCounts, id, sent, first, ks);
    Accounting(NewCounts, id, ss);
    assert SmallGaps(ss) <==> SmallGaps(ks) by { SameGaps(first, ks, ss); }
  }

  lemma SameGaps(first: nat, ks: seq<nat>, ss: seq<nat>)
    requires |ss| == |ks| && forall i :: 0 <= i < |ks| ==> ss[i] == first + ks[i]
    ensures SmallGaps(ss) <==> SmallGaps(ks)
  {
    assert forall i, j :: 0 <= i < j < |ks| ==> ss[j] + ks[i] == ss[i] + ks[j];
  }
}
