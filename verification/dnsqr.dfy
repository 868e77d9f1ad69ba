/** Matching DNS responses to queries: the table and list operations, and one call of the
packet loop. */
module Dnsqr {
  import opened Wrappers
  import opened ProbeTable
  import opened DnsqrSpec
  import opened DnsqrShape
  import Lookup3

  class Context {
    const numSlots: nat
    const maxValues: nat
    const queryTimeout: nat
    const filtered: DnsQR -> bool                // a query without response is not reported
    const filteredPair: (DnsQR, DnsQR) -> bool   // nor a query with its response
    const filteredResponse: DnsQR -> bool        // nor a response without query
    const home: DnsQR -> nat // the slot a message hashes to
    const table: array<HashEntry>
    var head: ListEntry?
    var tail: ListEntry?
    var count: nat
    var stop: bool
    var now: int
    ghost var shape: Shape

    /** The unanswered queries, oldest first. */
    ghost function Queue(): seq<DnsQR>
      reads this`shape
    {
      shape.queue
    }

    function Cfg(): Config {
      Config(maxValues, queryTimeout, filtered, filteredPair, filteredResponse)
    }

    ghost function State(): Status
      reads this
    {
      Status(Queue(), stop, now)
    }

    /** Messages that match hash to the same slot. */
    ghost predicate HashOk() {
      && (forall d :: home(d) < numSlots)
      && (forall d1, d2, rcode :: Eq(d1, d2, rcode) ==> home(d1) == home(d2))
    }

    /** The shape says what is in memory. */
    ghost predicate Rep()
      reads this`head, this`tail, this`shape, table, shape.links.Keys
    {
      && head == shape.head && tail == shape.tail
      && 0 < numSlots == table.Length == |shape.tab| == |shape.view|
      && (forall s :: 0 <= s < numSlots ==> table[s] == shape.tab[s])
      && LinksRep(shape.links)
    }

    /** The links say what is in the list entries. */
    static ghost predicate LinksRep(links: map<ListEntry, Links>)
      reads links.Keys
    {
      forall e :: e in links ==> Links(e.prev, e.next, e.he, links[e].stamp) == links[e]
    }

    ghost predicate Valid()
      reads this`head, this`tail, this`shape, this`count, table, shape.links.Keys
    {
      HashOk() && Rep() && shape.Wf(home) && count == |Queue()|
    }

    constructor (c: Config)
      requires c.maxValues >= 1
      ensures Valid() && State() == Status([], false, 0)
      ensures Cfg() == c && numSlots == 2 * maxValues
      ensures fresh(table) && shape.links.Keys == {}
      ensures forall d :: home(d) == Lookup3.HashLittle(KeyBytes(d), 0) % numSlots
    {
      var n := 2 * c.maxValues;
      numSlots, maxValues, queryTimeout := n, c.maxValues, c.queryTimeout;
      filtered, filteredPair, filteredResponse := c.filtered, c.filteredPair, c.filteredResponse;
      home := d => Lookup3.HashLittle(KeyBytes(d), 0) % n;
      table := new HashEntry[n](_ => EMPTY);
      head, tail, count, stop, now := null, null, 0, false, 0;
      shape := Nothing(n);
      new;
      NothingWf(n, home);
      hide Shape.Wf;
    }

    // ---------- Insertion ----------

    /** Going once around the table from `start` meets an empty slot if there is one. */
    lemma SomeEmpty(start: nat, slot: nat)
      requires Valid() && count < numSlots
      requires start < numSlots && slot < numSlots
      requires forall t :: 0 <= t < numSlots && Before(start, t, slot, numSlots) ==> shape.view[t].Full?
      requires shape.view[slot].Full?
      ensures Dist(start, slot, numSlots) < numSlots - 1
      ensures forall t :: 0 <= t < numSlots && Before(start, t, Next(slot, numSlots), numSlots) ==> shape.view[t].Full?
    {
      if Dist(start, slot, numSlots) == numSlots - 1 {
        assert forall t :: 0 <= t < numSlots && t != slot ==> Before(start, t, slot, numSlots);
        AllFull(shape.view);
      }
    }

    method FindEmpty(start: nat) returns (slot: nat)
      requires Valid() && count < numSlots && start < numSlots
      ensures slot < numSlots && shape.view[slot].Empty?
      ensures forall t :: 0 <= t < numSlots && Before(start, t, slot, numSlots) ==> shape.view[t].Full?
    {
      slot := start;
      var slotStop := if slot > 0 then slot - 1 else numSlots - 1;
      while table[slot].dnsqr.Some?
        invariant slot < numSlots
        invariant forall t :: 0 <= t < numSlots && Before(start, t, slot, numSlots) ==> shape.view[t].Full?
        decreases numSlots - Dist(start, slot, numSlots)
      {
        SomeEmpty(start, slot);
        assert slot != slotStop;
        slot := slot + 1;
        if slot >= numSlots {
          slot := 0;
        }
      }
    }

    method Append(d: DnsQR, slot: nat, ghost stamp: nat) returns (le: ListEntry)
      requires Rep() && slot < numSlots && (tail != null ==> tail in shape.links)
      modifies this`head, this`tail, this`shape, table
      modifies (if tail == null then {} else {tail})`next
      ensures Rep() && fresh(le)
      ensures shape == old(shape).Place(d, home(d), stamp, slot, le)
    {
      le := new ListEntry(slot, tail);
      table[slot] := HashEntry(Some(d), le);
      if tail != null {
        tail.next := le;
      } else {
        head := le;
      }
      tail := le;
      shape := shape.Place(d, home(d), stamp, slot, le);
    }

    /** Stores a query that waits for its response. */
    method InsertQuery(d: DnsQR)
      requires Valid() && Addressed(d) && count < numSlots
      modifies this, table, shape.links.Keys
      ensures Valid() && Queue() == old(Queue()) + [d]
      ensures stop == old(stop) && now == old(now)
      ensures fresh(shape.links.Keys - old(shape.links.Keys))
    {
      hide Shape.Wf, Shape.Linked;
      WfBasics(shape, home);
      var slot := FindEmpty(home(d));
      count := count + 1;
      ghost var h := shape;
      var le := Append(d, slot, NewStamp(h));
      assert shape.links.Keys == h.links.Keys + {le};
      PlaceWf(h, d, home, slot, le);
    }

    // ---------- Deletion ----------

    /** Takes entry `p` out of the list and empties its slot. */
    method Unlink(slot: nat, ghost p: nat)
      requires Rep() && slot < numSlots && UnlinkOk(shape, p)
      requires shape.tab[slot].le == shape.order[p] && shape.links[shape.order[p]].he == slot
      modifies this`head, this`tail, this`shape, table, shape.links.Keys
      ensures Rep() && shape == old(shape).Unlink(p)
    {
      hide Bypass, Without, LinksRep;
      var le := table[slot].le;
      LinkIs(shape.links, le);
      PassBy(le);
      table[slot] := EMPTY;
      shape := shape.Unlink(p);
    }

    static lemma LinkIs(links: map<ListEntry, Links>, e: ListEntry)
      requires LinksRep(links) && e in links
      ensures e.prev == links[e].prev && e.next == links[e].next
    {
    }

    /** Makes the neighbours of an entry, or the ends of the list, point past it. */
    method PassBy(le: ListEntry)
      requires LinksRep(shape.links) && le in shape.links
      requires le.next != null ==> le.next in shape.links
      requires le.prev != null ==> le.prev in shape.links
      modifies this`head, this`tail, shape.links.Keys`prev, shape.links.Keys`next
      ensures var l := shape.links[le];
              && (l.next != null ==> l.next in shape.links) && (l.prev != null ==> l.prev in shape.links)
              && LinksRep(Bypass(shape.links, le))
              && head == (if l.prev == null then l.next else old(head))
              && tail == (if l.next == null then l.prev else old(tail))
    {
      hide Bypass;
      BypassIs(shape.links, le);
      if le.next != null {
        le.next.prev := le.prev;
      } else {
        tail := le.prev;
      }
      if le.prev != null {
        le.prev.next := le.next;
      } else {
        head := le.next;
      }
    }

    /** Moves the entry in slot `k` up to the empty slot `i`. */
    method MoveUp(i: nat, k: nat)
      requires Rep() && i < numSlots && k < numSlots && i != k
      requires shape.tab[k].le != null && shape.tab[k].le in shape.links
      modifies this`shape, table, shape.links.Keys`he
      ensures Rep() && shape == old(shape).Move(i, k)
    {
      table[i] := table[k];
      table[k] := EMPTY;
      table[i].le.he := i;
      shape := shape.Move(i, k);
    }

    /** One step of the scan behind the hole `i`, from slot `j` to the next. */
    method ShiftStep(i: nat, j: nat) returns (done: bool, i': nat, j': nat)
      requires HashOk() && Rep() && Mid(shape, home, i, j)
      modifies this`shape, table, shape.links.Keys`he
      ensures Rep() && j' == Next(j, numSlots)
      ensures done == old(shape).view[j'].Empty?
      ensures (shape, i') == if done then (old(shape), i) else Advance(old(shape), i, j)
    {
      i', j' := i, Next(j, numSlots);
      done := table[j'].dnsqr.None?;
      if !done {
        var k := home(table[j'].dnsqr.value);
        if MustMove(i, j', k) {
          MoveUp(i, j');
          i' := j';
        }
      }
    }

    /** The step keeps the deletion's invariant and gets closer to its end. */
    method ShiftStepMid(i: nat, j: nat) returns (done: bool, i': nat, j': nat)
      requires HashOk() && Rep() && Mid(shape, home, i, j)
      modifies this`shape, table, shape.links.Keys`he
      ensures Rep() && i' < numSlots && j' == Next(j, numSlots) && Homed(shape.view)
      ensures Queue() == old(Queue()) && shape.links.Keys == old(shape.links.Keys)
      ensures if done then shape.Wf(home) else Mid(shape, home, i', j')
      ensures || done
              || (shape == old(shape) && i' == i && j' != i)
              || TotalDisplacement(shape.view) < TotalDisplacement(old(shape).view)
    {
      ghost var h := shape;
      if shape.view[Next(j, numSlots)].Full? {
        MidAdvances(h, home, i, j);
      } else {
        MidEnds(h, home, i, j);
      }
      done, i', j' := ShiftStep(i, j);
    }

    lemma RepBasics()
      requires Rep()
      ensures 0 < numSlots == |shape.view|
    {
    }

    /** Closes the hole at `slot` by moving up entries that are probed past it. */
    method ShiftBack(slot: nat)
      requires HashOk() && Rep() && Mid(shape, home, slot, slot)
      modifies this`shape, table, shape.links.Keys`he
      ensures Rep() && shape.Wf(home)
      ensures Queue() == old(Queue()) && shape.links.Keys == old(shape.links.Keys)
    {
      hide Shape.Wf, Mid, Rep, HashOk;
      MidBasics(shape, home, slot, slot);
      RepBasics();
      var i: nat, j: nat, done := slot, slot, false;
      while !done
        invariant Rep() && i < numSlots && j < numSlots && Homed(shape.view)
        invariant Queue() == old(Queue()) && shape.links.Keys == old(shape.links.Keys)
        invariant if done then shape.Wf(home) else Mid(shape, home, i, j)
        decreases !done, TotalDisplacement(shape.view), if i == j then numSlots else Dist(j, i, numSlots)
      {
        done, i, j := ShiftStepMid(i, j);
      }
    }

    /** Removes the entry in `slot`, which is entry `p` of the list. */
    method Remove(slot: nat, ghost p: nat)
      requires Valid() && p < |shape.order| == |Queue()| && shape.links[shape.order[p]].he == slot
      modifies this`head, this`tail, this`shape, this`count, table, shape.links.Keys
      ensures Valid() && Queue() == Without(old(Queue()), p)
      ensures shape.links.Keys <= old(shape.links.Keys)
    {
      hide Shape.Wf, Mid;
      count := count - 1;
      UnlinkMid(slot, p);
      ShiftBack(slot);
    }

    method UnlinkMid(slot: nat, ghost p: nat)
      requires HashOk() && Rep() && shape.Wf(home) && p < |shape.order| && shape.links[shape.order[p]].he == slot
      modifies this`head, this`tail, this`shape, table, shape.links.Keys
      ensures Rep() && Mid(shape, home, slot, slot)
      ensures Queue() == Without(old(Queue()), p)
      ensures shape.links.Keys <= old(shape.links.Keys)
    {
      MidStarts(shape, home, p);
      Unlink(slot, p);
    }

    // ---------- Search ----------

    lemma PassNext(d: DnsQR, rcode: nat, slot: nat)
      requires Valid() && count < numSlots
      requires slot < numSlots && Passed(shape, home(d), d, rcode, slot)
      requires shape.tab[slot].dnsqr.Some? && !Eq(d, shape.tab[slot].dnsqr.value, rcode)
      ensures Dist(home(d), slot, numSlots) < numSlots - 1
      ensures Passed(shape, home(d), d, rcode, Next(slot, numSlots))
    {
      hide Shape.Linked, Homed, Probes, Aged, NumFull, Eq;
      SomeEmpty(home(d), slot);
    }

    /** The query at place `p` of the queue is stored in `slot`. */
    ghost predicate InSlot(p: nat, slot: nat)
      reads this`shape
    {
      p < |shape.order| && shape.order[p] in shape.links && shape.links[shape.order[p]].he == slot
    }

    /** Looks for the oldest stored query that `d` answers. */
    method FindMatch(d: DnsQR, rcode: nat) returns (found: bool, slot: nat)
      requires Valid() && count < numSlots
      ensures found == (OldestMatch(Queue(), d, rcode) < |Queue()|)
      ensures found ==> slot < numSlots && InSlot(OldestMatch(Queue(), d, rcode), slot)
    {
      hide Shape.Linked;
      slot := home(d);
      var slotStop := if slot > 0 then slot - 1 else numSlots - 1;
      while table[slot].dnsqr.Some? && !Eq(d, table[slot].dnsqr.value, rcode)
        invariant slot < numSlots
        invariant Passed(shape, home(d), d, rcode, slot)
        decreases numSlots - Dist(home(d), slot, numSlots)
      {
        PassNext(d, rcode, slot);
        assert slot != slotStop;
        slot := slot + 1;
        if slot >= numSlots {
          slot := 0;
        }
      }
      found := table[slot].dnsqr.Some?;
      if found {
        ghost var p := OldestFound(shape, home, d, rcode, slot);
      } else {
        NothingFound(shape, home, d, rcode, slot);
      }
    }

    /** Finds and removes the oldest stored query that `d` answers. */
    method Retrieve(d: DnsQR, rcode: nat) returns (query: Option<DnsQR>)
      requires Valid() && Addressed(d) && count < numSlots
      modifies this`head, this`tail, this`shape, this`count, table, shape.links.Keys
      ensures Valid() && shape.links.Keys <= old(shape.links.Keys)
      ensures var q, p := old(Queue()), OldestMatch(old(Queue()), d, rcode);
              if p == |q| then query == None && Queue() == q
              else query == Some(q[p]) && Queue() == Without(q, p)
      ensures query == None ==> NoneAgrees(old(Queue()), d, rcode)
      ensures query.Some? ==> exists p: nat ::
                OldestAgreeing(old(Queue()), d, rcode, p) && query.value == old(Queue())[p] &&
                Queue() == old(Queue())[..p] + old(Queue())[p + 1..]
    {
      OldestMatchMeans(Queue(), d, rcode);
      hide Agrees, Eq;
      var found, slot := FindMatch(d, rcode);
      if !found {
        return None;
      }
      query := table[slot].dnsqr;
      Remove(slot, OldestMatch(Queue(), d, rcode));
    }

    // ---------- The packet loop ----------

    /** Removes the oldest query if there are too many, if input has ended or if it is too old. */
    method Trim() returns (d: Option<DnsQR>)
      requires Valid()
      modifies this`head, this`tail, this`shape, this`count, table, shape.links.Keys
      ensures Valid() && shape.links.Keys <= old(shape.links.Keys)
      ensures if Expired(Cfg(), old(State())) then d == Some(old(Queue())[0]) && Queue() == old(Queue())[1..]
              else d == None && Queue() == old(Queue())
    {
      hide Shape.Wf, Without;
      NoHead(shape, home);
      d := None;
      if head != null {
        var he := head.he;
        HeadIsOldest(shape, home);
        var q := table[he].dnsqr.value;
        if count > maxValues || stop || now - q.time > queryTimeout {
          d := Some(q);
          WithoutFirst(Queue());
          Remove(he, 0);
        }
      }
    }

    /** Takes one parsed packet. */
    method DoPacket(p: Packet, sec: int) returns (out: Outcome, ghost left: Option<DnsQR>)
      requires Valid() && count < numSlots
      requires p.Query? ==> Addressed(p.q)
      requires p.Response? ==> Addressed(p.r)
      modifies this, table, shape.links.Keys
      ensures Valid() && fresh(shape.links.Keys - old(shape.links.Keys))
      ensures Call(State(), out, left) == ProcessPacket(Cfg(), old(State()), p, sec)
    {
      hide Shape.Wf, Context.Rep;
      left := None;
      match p {
        case Malformed(code) => out := Error(code);
        case Ignored(code) => now := sec; out := Error(code);
        case PassedOn => now := sec; out := Emit(Other);
        case Query(q) =>
          now := sec;
          InsertQuery(q);
          out := Again;
        case Response(r, rcode) =>
          now := sec;
          var query := Retrieve(r, rcode);
          left := query;
          if query == None {
            out := if filteredResponse(r) then Again else Emit(Unsolicited(r));
          } else {
            out := if filteredPair(query.value, r) then Again else Emit(Answered(query.value, r));
          }
      }
    }

    /** One call: a trimmed query is returned unless it is filtered; otherwise the packet source
    is read, unless it has ended and nothing is left to trim. */
    method PktToPayload(r: Read) returns (out: Outcome, ghost entered: seq<DnsQR>, ghost left: seq<DnsQR>)
      requires Valid() && |Queue()| <= maxValues + 1 && numSlots == 2 * maxValues > 0
      requires r.Got? && r.packet.Query? ==> Addressed(r.packet.q)
      requires r.Got? && r.packet.Response? ==> Addressed(r.packet.r)
      modifies this, table, shape.links.Keys
      ensures Valid() && |Queue()| <= maxValues + 1
      ensures fresh(shape.links.Keys - old(shape.links.Keys))
      ensures Turn(State(), out, entered, left) == DnsqrSpec.PktToPayload(Cfg(), old(State()), r)
    {
      hide Shape.Wf, Context.Rep, ProcessPacket;
      var d := Trim();
      entered, left := [], Listed(d);
      if d.Some? {
        if !filtered(d.value) {
          out := Emit(Unanswered(d.value));
          return;
        }
      } else if stop {
        out := Eof;
        return;
      }
      entered := Entering(r);
      match r {
        case Got(p, sec) =>
          ghost var gone;
          PacketAddsOne(Cfg(), State(), p, sec);
          out, gone := DoPacket(p, sec);
          left := left + Listed(gone);
        case EndOfInput => stop := true; out := Again;
        case ReadError(code) => out := Error(code);
      }
    }
  }
}
