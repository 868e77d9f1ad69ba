/** The engine that puts packets together itself and writes them out at once. */
module ReasmAssembled {
  import opened Wrappers
  import opened Words
  import opened ReasmSpec
  import opened ReasmEntry
  import opened ReasmRun
  import opened ReasmTable

  /** The fragments of a list have whole headers. */
  ghost predicate AllHeaded(proto: Proto, fs: seq<Frag>) {
    forall k :: 1 <= k < |fs| ==> Headed(proto, fs[k])
  }

  ghost predicate RecHeaded(r: Rec) {
    r.active ==> AllHeaded(ProtoOf(r.key), r.asm.frags)
  }

  ghost predicate Ready(recs: seq<Rec>) {
    forall i :: 0 <= i < |recs| ==> RecHeaded(recs[i])
  }

  lemma AddKeepsHeaded(a: Asm, f: Frag, last: bool, proto: Proto)
    requires a.frags != [] && AllHeaded(proto, a.frags) && Headed(proto, f)
    ensures AllHeaded(proto, AddFragment(a, f, last).1.frags)
  {
    hide Headed;
    var p := Position(a.frags, f.offset, 0);
    var gs := AddFragment(a, f, last).1.frags;
    if gs != a.frags {
      forall k | 1 <= k < |gs|
        ensures Headed(proto, gs[k])
      {
        InsertAt(a.frags, p, f, k);
      }
    }
  }

  lemma OfferKeepsReady(t: ReasmRun.Table, i: nat, f: Frag, last: bool)
    requires Ready(t.recs) && i < |t.recs| && t.recs[i].asm.frags != [] && Headed(ProtoOf(t.recs[i].key), f)
    ensures var (u, out) := Offer(t, i, f, last);
            Ready(u.recs) && (out.Some? ==> AllHeaded(ProtoOf(t.recs[i].key), out.value.frags))
  {
    hide AddFragment, AllHeaded, Headed, Complete;
    var r := t.recs[i];
    assert RecHeaded(r);
    if r.active {
      AddKeepsHeaded(r.asm, f, last, ProtoOf(r.key));
    }
  }

  lemma EnterKeepsReady(t: ReasmRun.Table, key: Key, head: Frag, timeout: int)
    requires Ready(t.recs)
    ensures Ready(Enter(t, key, head, timeout).recs)
  {
  }

  lemma {:induction false} ExpireKeepsReady(t: ReasmRun.Table, now: int)
    requires Ready(t.recs)
    ensures Ready(Expire(t, now).recs)
    decreases |t.recs|
  {
    if t.recs != [] && t.recs[0].timeout < now {
      ExpireKeepsReady(t.(recs := t.recs[1..], timedOut := t.timedOut + 1), now);
    }
  }

  /** What every packet keeps, and what is known of an entry that it completes. */
  lemma StepKeepsReady(t: ReasmRun.Table, ttl: int, e: Event)
    requires HasHeads(t.recs) && Ready(t.recs)
    requires e.input.Some? ==> Headed(ProtoOf(e.input.value.key), e.input.value.frag)
    ensures var (u, out) := Step(t, ttl, e);
            && Ready(u.recs)
            && (out.Some? ==> e.input.Some? && AllHeaded(ProtoOf(e.input.value.key), out.value.frags))
  {
    hide Ready, Headed, AllHeaded, Expire, Enter, Offer;
    ExpireKeepsReady(t, e.now);
    if e.input.Some? {
      var x, u := e.input.value, Expire(t, e.now);
      EnterKeepsReady(u, x.key, x.head, e.now + ttl);
      var w := Enter(u, x.key, x.head, e.now + ttl);
      OfferKeepsReady(w, Find(w.recs, x.key), x.frag, x.last);
    }
  }

  /** An entry that a packet completes is sound. */
  lemma StepGivesSound(t: ReasmRun.Table, ttl: int, e: Event, latest: int)
    requires HasHeads(t.recs) && WellFormed(t, latest)
    requires e.input.Some? ==> IsHead(e.input.value.head) && (e.input.value.last ==> e.input.value.frag.End() > 0)
    requires latest <= e.now + ttl
    ensures var out := Step(t, ttl, e).1; out.Some? ==> Inv(out.value) && Complete(out.value)
  {
    hide WellFormed, Inv, AddFragment, Complete, Expire, Enter, Find;
    if e.input.Some? {
      var x, u := e.input.value, Expire(t, e.now);
      TimelyLater(t, latest, e.now + ttl);
      ExpireKeeps(t, e.now, e.now + ttl);
      EnterKeeps(u, x.key, x.head, e.now + ttl);
      var w := Enter(u, x.key, x.head, e.now + ttl);
      OfferGivesSound(w, Find(w.recs, x.key), x.frag, x.last, e.now + ttl);
    }
  }

  lemma OfferGivesSound(t: ReasmRun.Table, i: nat, f: Frag, last: bool, latest: int)
    requires WellFormed(t, latest) && i < |t.recs| && t.recs[i].asm.frags != [] && (last ==> f.End() > 0)
    ensures var out := Offer(t, i, f, last).1; out.Some? ==> Inv(out.value) && Complete(out.value)
  {
    hide Inv, AddFragment, Complete;
    var r := t.recs[i];
    assert RecInv(r);
    if r.active && AddFragment(r.asm, f, last).0 {
      AddKeeps(r.asm, f, last);
    }
  }

  /** What is written when an entry is complete: the header of its first fragment, corrected, and
  all payloads in place; nothing if it does not fit. */
  ghost predicate Written(proto: Proto, a: Asm, before: seq<Byte>, out: seq<Byte>, room: nat, n: nat) {
    && |a.frags| >= 2 && a.frags[1].offset == 0 && Base(proto, a.frags[1]) >= 0
    && var f, base := a.frags[1], Base(proto, a.frags[1]);
       if a.len + base > room then n == 0 && out == before
       else
         && n == base + a.len && n <= |out|
         && Placed(out, base, a.frags, |a.frags|)
         && base <= |f.data|
         && (proto == V4 ==> Header4(f.data[..base], out[..base], n))
         && (proto == V6 ==> base >= 40 && Header6(f.data[..base], out[..base], n, f.lastNxt, f.nxt))
  }

  /** One packet: if it completes an entry, the whole packet is written out and the entry is gone,
  even if there was no room for it. */
  method NextAssembled(t: ReasmTable.Table, now: int, input: Option<Input>, out: array<Byte>, room: nat)
    returns (recognized: bool, n: nat)
    requires t.Valid() && HasHeads(Records(t.time)) && room <= out.Length
    requires Ready(Records(t.time)) && WellFormed(t.Value(), now + t.ttl)
    requires input.Some? ==> IsKey(input.value.key) && IsHead(input.value.head)
    requires input.Some? ==> Headed(ProtoOf(input.value.key), input.value.frag) && (input.value.last ==> input.value.frag.End() > 0)
    modifies t, t.table, t.Items(), (set x | x in t.time :: x.asm), out
    ensures t.Valid() && recognized == input.Some?
    ensures t.Value() == Step(old(t.Value()), t.ttl, Event(now, input)).0
    ensures var (u, done) := Step(old(t.Value()), t.ttl, Event(now, input));
            match done
            case None => n == 0 && out[..] == old(out[..])
            case Some(a) => input.Some? && Written(ProtoOf(input.value.key), a, old(out[..]), out[..], room, n)
  {
    hide WellFormed, HasHeads, Ready, Inv, Complete, Headed, Placed, Header4, Header6, Records, Step, Agree, Apart, ReasmTable.Table.Threaded, IsKey, IsHead;
    ghost var was := t.Value();
    StepGivesSound(was, t.ttl, Event(now, input), now + t.ttl);
    StepKeepsReady(was, t.ttl, Event(now, input));
    var item;
    recognized, item := t.Next(now, input);
    n := 0;
    if item.Some? {
      ghost var items := t.Items();
      n := Assemble(item.value.asm, out, room);
      assert t.Items() == items;
    }
  }
}
