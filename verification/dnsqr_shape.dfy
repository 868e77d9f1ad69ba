/** The matcher's hash table and insertion-order list as one value, and what every change of a
few pointers does to it. Table slots and list entries point at each other. */
module DnsqrShape {
  import opened Wrappers
  import opened ProbeTable
  import opened DnsqrSpec

  class ListEntry {
    var prev: ListEntry?
    var next: ListEntry?
    var he: nat // the table slot that points back here

    constructor (he: nat, prev: ListEntry?)
      ensures this.he == he && this.prev == prev && this.next == null
    {
      this.he, this.prev, this.next := he, prev, null;
    }
  }

  datatype HashEntry = HashEntry(dnsqr: Option<DnsQR>, le: ListEntry?)

  const EMPTY: HashEntry := HashEntry(None, null)

  /** The fields of a list entry; the stamp grows with insertion time. */
  datatype Links = Links(prev: ListEntry?, next: ListEntry?, he: nat, stamp: nat)

  /** The entries of `order` are linked in that order, which is the order of their stamps. */
  ghost predicate Chain(order: seq<ListEntry>, links: map<ListEntry, Links>) {
    && (forall i :: 0 <= i < |order| ==> order[i] in links)
    && (order != [] ==> links[order[0]].prev == null && links[order[|order| - 1]].next == null)
    && (forall i, j :: 0 <= i < j < |order| ==> links[order[i]].stamp < links[order[j]].stamp)
    && (forall i, j :: 0 <= i < j < |order| && j == i + 1 ==>
                         links[order[i]].next == order[j] && links[order[j]].prev == order[i])
  }

  /** The links that remain after entry `e` is taken out. */
  ghost function Bypass(links: map<ListEntry, Links>, e: ListEntry): map<ListEntry, Links>
    requires e in links
    requires links[e].next != null ==> links[e].next in links
    requires links[e].prev != null ==> links[e].prev in links
  {
    var l := links[e];
    var a := if l.next == null then links else links[l.next := links[l.next].(prev := l.prev)];
    var b := if l.prev == null then a else a[l.prev := a[l.prev].(next := l.next)];
    b - {e}
  }

  /** What is left of the other entries. */
  lemma BypassIs(links: map<ListEntry, Links>, x: ListEntry)
    requires x in links
    requires links[x].next != null ==> links[x].next in links
    requires links[x].prev != null ==> links[x].prev in links
    ensures Bypass(links, x).Keys == links.Keys - {x}
    ensures forall e :: e in links && e != x ==>
                          var l := links[e];
                          Bypass(links, x)[e] ==
                          Links(if e == links[x].next then links[x].prev else l.prev,
                                if e == links[x].prev then links[x].next else l.next, l.he, l.stamp)
  {
  }

  ghost predicate Ends(order: seq<ListEntry>, head: ListEntry?, tail: ListEntry?) {
    if order == [] then head == null && tail == null else head == order[0] && tail == order[|order| - 1]
  }

  datatype Shape = Shape(
    head: ListEntry?, tail: ListEntry?, links: map<ListEntry, Links>, tab: seq<HashEntry>,
    order: seq<ListEntry>, queue: seq<DnsQR>, view: seq<Slot>)
  {
    ghost predicate Linked() {
      && Chain(order, links)
      && Ends(order, head, tail)
      && (forall e :: e in links ==> e in order)
    }

    /** Full slots and list entries point at each other, in the order of the queue. */
    ghost predicate Threaded(home: DnsQR -> nat) {
      && |tab| == |view|
      && |order| == |queue|
      && (forall i :: 0 <= i < |order| ==>
            order[i] in links && links[order[i]].he < |tab| && tab[links[order[i]].he] == HashEntry(Some(queue[i]), order[i]))
      && (forall s :: 0 <= s < |tab| && tab[s].dnsqr.None? ==> tab[s].le == null && view[s] == Empty)
      && (forall s :: 0 <= s < |tab| && tab[s].dnsqr.Some? ==>
            && tab[s].le != null && tab[s].le in links && links[tab[s].le].he == s
            && view[s] == Full(home(tab[s].dnsqr.value), links[tab[s].le].stamp))
    }

    ghost predicate Wf(home: DnsQR -> nat) {
      && Linked()
      && Threaded(home)
      && |queue| == NumFull(view)
      && Homed(view) && Probes(view) && Aged(view)
    }

    /** Filling `slot` and appending the entry `le`. */
    ghost function Place(d: DnsQR, home: nat, stamp: nat, slot: nat, le: ListEntry): Shape
      requires slot < |tab| == |view|
      requires tail != null ==> tail in links
    {
      var grown := links[le := Links(tail, null, slot, stamp)];
      Shape(
        if tail == null then le else head, le,
        if tail == null then grown else grown[tail := links[tail].(next := le)],
        tab[slot := HashEntry(Some(d), le)],
        order + [le], queue + [d], view[slot := Full(home, stamp)])
    }

    /** Taking entry `p` out of the list and emptying its slot. */
    ghost function Unlink(p: nat): Shape
      requires p < |order| == |queue| && |tab| == |view|
      requires order[p] in links && links[order[p]].he < |tab|
      requires links[order[p]].next != null ==> links[order[p]].next in links
      requires links[order[p]].prev != null ==> links[order[p]].prev in links
    {
      var e := links[order[p]];
      Shape(
        if e.prev == null then e.next else head,
        if e.next == null then e.prev else tail,
        Bypass(links, order[p]), tab[e.he := EMPTY], Without(order, p), Without(queue, p), view[e.he := Empty])
    }

    /** Moving the entry in slot `k` to the empty slot `i`. */
    ghost function Move(i: nat, k: nat): Shape
      requires i < |tab| == |view| && k < |tab|
      requires tab[k].le in links
    {
      this.(
        tab := tab[i := tab[k]][k := EMPTY],
        view := view[i := view[k]][k := Empty],
        links := links[tab[k].le := links[tab[k].le].(he := i)])
    }
  }

  /** Nothing stored in a table of `n` slots. */
  ghost function Nothing(n: nat): Shape {
    Shape(null, null, map[], seq(n, _ => EMPTY), [], [], seq(n, _ => Empty))
  }

  lemma NothingWf(n: nat, home: DnsQR -> nat)
    ensures Nothing(n).Wf(home)
  {
    NoneFull(Nothing(n).view);
  }

  /** A stamp newer than all others. */
  ghost function NewStamp(h: Shape): nat
    requires h.Linked()
  {
    if h.order == [] then 0 else h.links[h.order[|h.order| - 1]].stamp + 1
  }

  lemma PlaceLinked(h: Shape, d: DnsQR, home: nat, slot: nat, le: ListEntry)
    requires h.Linked() && slot < |h.tab| == |h.view| && le !in h.links
    ensures h.Place(d, home, NewStamp(h), slot, le).Linked()
  {
    var g := h.Place(d, home, NewStamp(h), slot, le);
    forall i, j | 0 <= i < j < |g.order|
      ensures g.order[i] in g.links && g.order[j] in g.links
      ensures g.links[g.order[i]].stamp < g.links[g.order[j]].stamp
      ensures j == i + 1 ==> g.links[g.order[i]].next == g.order[j] && g.links[g.order[j]].prev == g.order[i]
    {
      PlacePair(h, d, home, slot, le, i, j);
    }
    hide NewStamp;
  }

  lemma PlacePair(h: Shape, d: DnsQR, home: nat, slot: nat, le: ListEntry, i: nat, j: nat)
    requires h.Linked() && slot < |h.tab| == |h.view| && le !in h.links && i < j <= |h.order|
    ensures var g := h.Place(d, home, NewStamp(h), slot, le);
            && g.order[i] in g.links && g.order[j] in g.links
            && g.links[g.order[i]].stamp < g.links[g.order[j]].stamp
            && (j == i + 1 ==> g.links[g.order[i]].next == g.order[j] && g.links[g.order[j]].prev == g.order[i])
  {
    var g, n := h.Place(d, home, NewStamp(h), slot, le), |h.order|;
    assert forall e :: e in h.links && e != h.tail ==> g.links[e] == h.links[e];
    assert g.order[i] == h.order[i];
    assert i < n - 1 ==> h.links[h.order[i]].stamp < h.links[h.order[n - 1]].stamp;
    if j < n {
      assert g.order[j] == h.order[j];
    }
  }

  lemma PlaceThreaded(h: Shape, d: DnsQR, home: DnsQR -> nat, slot: nat, le: ListEntry)
    requires h.Wf(home) && slot < |h.tab| && le !in h.links && h.view[slot].Empty?
    ensures h.Place(d, home(d), NewStamp(h), slot, le).Threaded(home)
  {
    hide Shape.Linked, Shape.Wf, Shape.Place, NewStamp;
    WfIs(h, home);
    TailIn(h);
    var g := h.Place(d, home(d), NewStamp(h), slot, le);
    PlaceSizes(h, d, home(d), NewStamp(h), slot, le);
    forall i | 0 <= i < |g.order|
      ensures g.order[i] in g.links && g.links[g.order[i]].he < |g.tab|
      ensures g.tab[g.links[g.order[i]].he] == HashEntry(Some(g.queue[i]), g.order[i])
    {
      PlaceEntry(h, d, home, NewStamp(h), slot, le, i);
    }
    forall t | 0 <= t < |g.tab|
      ensures g.tab[t].dnsqr.None? ==> g.tab[t].le == null && g.view[t] == Empty
      ensures g.tab[t].dnsqr.Some? ==>
                && g.tab[t].le != null && g.tab[t].le in g.links && g.links[g.tab[t].le].he == t
                && g.view[t] == Full(home(g.tab[t].dnsqr.value), g.links[g.tab[t].le].stamp)
    {
      PlaceSlot(h, d, home, NewStamp(h), slot, le, t);
    }
  }

  lemma WfIs(h: Shape, home: DnsQR -> nat)
    requires h.Wf(home)
    ensures h.Linked() && h.Threaded(home)
  {
  }

  lemma TailIn(h: Shape)
    requires h.Linked()
    ensures h.tail != null ==> h.tail in h.links
  {
  }

  lemma PlaceSizes(h: Shape, d: DnsQR, home: nat, stamp: nat, slot: nat, le: ListEntry)
    requires slot < |h.tab| == |h.view| && |h.order| == |h.queue| && (h.tail != null ==> h.tail in h.links)
    ensures var g := h.Place(d, home, stamp, slot, le);
            && |g.tab| == |g.view| == |h.tab|
            && |g.order| == |g.queue| == |h.order| + 1
  {
  }

  /** What an entry names is not changed by appending another. */
  lemma PlaceFields(h: Shape, d: DnsQR, home: nat, stamp: nat, slot: nat, le: ListEntry, e: ListEntry)
    requires slot < |h.tab| == |h.view| && le !in h.links && (h.tail != null ==> h.tail in h.links)
    ensures var l := h.Place(d, home, stamp, slot, le).links;
            && le in l && l[le].he == slot && l[le].stamp == stamp
            && (e in h.links ==> e in l && l[e].he == h.links[e].he && l[e].stamp == h.links[e].stamp)
  {
  }

  lemma PlaceEntry(h: Shape, d: DnsQR, home: DnsQR -> nat, stamp: nat, slot: nat, le: ListEntry, i: nat)
    requires h.Threaded(home) && slot < |h.tab| && le !in h.links && h.view[slot].Empty? && i <= |h.order|
    requires h.tail != null ==> h.tail in h.links
    ensures var g := h.Place(d, home(d), stamp, slot, le);
            && |g.order| == |g.queue| == |h.order| + 1
            && g.order[i] in g.links && g.links[g.order[i]].he < |g.tab|
            && g.tab[g.links[g.order[i]].he] == HashEntry(Some(g.queue[i]), g.order[i])
  {
    PlaceFields(h, d, home(d), stamp, slot, le, if i < |h.order| then h.order[i] else le);
    if i < |h.order| {
      assert h.tab[h.links[h.order[i]].he].dnsqr.Some?;
      assert h.links[h.order[i]].he != slot;
    }
  }

  lemma PlaceSlot(h: Shape, d: DnsQR, home: DnsQR -> nat, stamp: nat, slot: nat, le: ListEntry, t: nat)
    requires h.Threaded(home) && slot < |h.tab| && le !in h.links && t < |h.tab|
    requires h.tail != null ==> h.tail in h.links
    ensures var g := h.Place(d, home(d), stamp, slot, le);
            && (g.tab[t].dnsqr.None? ==> g.tab[t].le == null && g.view[t] == Empty)
            && (g.tab[t].dnsqr.Some? ==>
                  && g.tab[t].le != null && g.tab[t].le in g.links && g.links[g.tab[t].le].he == t
                  && g.view[t] == Full(home(g.tab[t].dnsqr.value), g.links[g.tab[t].le].stamp))
  {
    if t != slot && h.tab[t].dnsqr.Some? {
      PlaceFields(h, d, home(d), stamp, slot, le, h.tab[t].le);
    } else {
      PlaceFields(h, d, home(d), stamp, slot, le, le);
    }
  }

  /** Filling the first empty slot on the probe path of `d` keeps a shape well-formed. */
  lemma PlaceWf(h: Shape, d: DnsQR, home: DnsQR -> nat, slot: nat, le: ListEntry)
    requires h.Wf(home) && home(d) < |h.tab| && slot < |h.tab| && le !in h.links && h.view[slot].Empty?
    requires forall t :: 0 <= t < |h.view| && Before(home(d), t, slot, |h.view|) ==> h.view[t].Full?
    ensures h.Place(d, home(d), NewStamp(h), slot, le).Wf(home)
  {
    PlaceLinked(h, d, home(d), slot, le);
    PlaceThreaded(h, d, home, slot, le);
    StampIsNew(h, home);
    InsertKeeps(h.view, home(d), slot, NewStamp(h));
    NumFullUpdate(h.view, slot, Full(home(d), NewStamp(h)));
  }

  lemma StampIsNew(h: Shape, home: DnsQR -> nat)
    requires h.Linked() && h.Threaded(home)
    ensures forall t :: 0 <= t < |h.view| && h.view[t].Full? ==> h.view[t].stamp < NewStamp(h)
  {
  }

  lemma BypassOk(order: seq<ListEntry>, links: map<ListEntry, Links>, p: nat)
    requires Chain(order, links) && p < |order|
    ensures links[order[p]].next == if p == |order| - 1 then null else order[p + 1]
    ensures links[order[p]].prev == if p == 0 then null else order[p - 1]
  {
  }

  /** What bypassing entry `p` leaves in entry `i`. */
  lemma BypassFields(order: seq<ListEntry>, links: map<ListEntry, Links>, p: nat, i: nat)
    requires Chain(order, links) && p < |order| && i < |order| && i != p
    requires links[order[p]].next == if p == |order| - 1 then null else order[p + 1]
    requires links[order[p]].prev == if p == 0 then null else order[p - 1]
    ensures order[i] in Bypass(links, order[p])
    ensures var l, e := links[order[i]], links[order[p]];
            Bypass(links, order[p])[order[i]] ==
            Links(if i == p + 1 then e.prev else l.prev, if i + 1 == p then e.next else l.next, l.he, l.stamp)
  {
    Distinct(order, links, i, p);
    if p > 0 && i != p - 1 { Distinct(order, links, i, p - 1); }
    if p < |order| - 1 && i != p + 1 { Distinct(order, links, i, p + 1); }
    if 0 < p < |order| - 1 { Distinct(order, links, p - 1, p + 1); }
  }

  lemma Distinct(order: seq<ListEntry>, links: map<ListEntry, Links>, i: nat, j: nat)
    requires Chain(order, links) && i < |order| && j < |order| && i != j
    ensures order[i] != order[j]
  {
  }

  /** An entry at index `i` of the shorter list was at index Old(i, p) of the longer one. */
  function Old(i: nat, p: nat): nat {
    if i < p then i else i + 1
  }

  lemma BypassPair(order: seq<ListEntry>, links: map<ListEntry, Links>, p: nat, i: nat, j: nat)
    requires Chain(order, links) && p < |order| && i < j < |order| - 1
    requires links[order[p]].next == if p == |order| - 1 then null else order[p + 1]
    requires links[order[p]].prev == if p == 0 then null else order[p - 1]
    ensures var o, l := Without(order, p), Bypass(links, order[p]);
            && o[i] in l && o[j] in l && l[o[i]].stamp < l[o[j]].stamp
            && (j == i + 1 ==> l[o[i]].next == o[j] && l[o[j]].prev == o[i])
  {
    BypassFields(order, links, p, Old(i, p));
    BypassFields(order, links, p, Old(j, p));
    assert Without(order, p)[i] == order[Old(i, p)] && Without(order, p)[j] == order[Old(j, p)];
  }

  lemma BypassEnds(order: seq<ListEntry>, links: map<ListEntry, Links>, p: nat, head: ListEntry?, tail: ListEntry?)
    requires Chain(order, links) && p < |order| && Ends(order, head, tail)
    requires links[order[p]].next == if p == |order| - 1 then null else order[p + 1]
    requires links[order[p]].prev == if p == 0 then null else order[p - 1]
    ensures var o, l, e := Without(order, p), Bypass(links, order[p]), links[order[p]];
            && Ends(o, if e.prev == null then e.next else head, if e.next == null then e.prev else tail)
            && (o != [] ==> o[0] in l && l[o[0]].prev == null)
            && (o != [] ==> o[|o| - 1] in l && l[o[|o| - 1]].next == null)
  {
    var n := |order|;
    if n > 1 {
      BypassFields(order, links, p, Old(0, p));
      BypassFields(order, links, p, Old(n - 2, p));
      assert Without(order, p)[0] == order[Old(0, p)] && Without(order, p)[n - 2] == order[Old(n - 2, p)];
    }
  }

  lemma BypassCovers(order: seq<ListEntry>, links: map<ListEntry, Links>, p: nat)
    requires Chain(order, links) && p < |order|
    requires links[order[p]].next == if p == |order| - 1 then null else order[p + 1]
    requires links[order[p]].prev == if p == 0 then null else order[p - 1]
    requires forall e :: e in links ==> e in order
    ensures forall e :: e in Bypass(links, order[p]) ==> e in Without(order, p)
  {
    hide Bypass, Without;
    BypassOk(order, links, p);
    BypassIs(links, order[p]);
    forall e | e in Bypass(links, order[p])
      ensures e in Without(order, p)
    {
      InWithout(order, p, e);
    }
  }

  lemma InWithout(order: seq<ListEntry>, p: nat, e: ListEntry)
    requires p < |order| && e in order && e != order[p]
    ensures e in Without(order, p)
  {
    var i :| 0 <= i < |order| && order[i] == e;
    assert Without(order, p)[if i < p then i else i - 1] == e;
  }

  lemma BypassChain(order: seq<ListEntry>, links: map<ListEntry, Links>, p: nat, head: ListEntry?, tail: ListEntry?)
    requires Chain(order, links) && p < |order| && Ends(order, head, tail)
    requires links[order[p]].next == if p == |order| - 1 then null else order[p + 1]
    requires links[order[p]].prev == if p == 0 then null else order[p - 1]
    ensures Chain(Without(order, p), Bypass(links, order[p]))
  {
    var o, l := Without(order, p), Bypass(links, order[p]);
    BypassEnds(order, links, p, head, tail);
    forall i | 0 <= i < |o| ensures o[i] in l {
      BypassFields(order, links, p, Old(i, p));
      assert o[i] == order[Old(i, p)];
    }
    forall i, j | 0 <= i < j < |o|
      ensures l[o[i]].stamp < l[o[j]].stamp
      ensures j == i + 1 ==> l[o[i]].next == o[j] && l[o[j]].prev == o[i]
    {
      BypassPair(order, links, p, i, j);
    }
  }

  /** Entry `p` and its neighbours are in memory. */
  ghost predicate UnlinkOk(h: Shape, p: nat) {
    && p < |h.order| == |h.queue| && |h.tab| == |h.view|
    && h.order[p] in h.links && h.links[h.order[p]].he < |h.tab|
    && (h.links[h.order[p]].next != null ==> h.links[h.order[p]].next in h.links)
    && (h.links[h.order[p]].prev != null ==> h.links[h.order[p]].prev in h.links)
  }

  lemma UnlinkLinked(h: Shape, p: nat)
    requires h.Linked() && p < |h.order| == |h.queue| && |h.tab| == |h.view| && h.links[h.order[p]].he < |h.tab|
    ensures UnlinkOk(h, p) && h.Unlink(p).Linked()
  {
    BypassOk(h.order, h.links, p);
    BypassChain(h.order, h.links, p, h.head, h.tail);
    BypassEnds(h.order, h.links, p, h.head, h.tail);
    BypassCovers(h.order, h.links, p);
  }

  lemma MoveLinked(h: Shape, i: nat, k: nat)
    requires h.Linked() && i < |h.tab| == |h.view| && k < |h.tab| && h.tab[k].le in h.links
    ensures h.Move(i, k).Linked()
  {
  }

  lemma MoveThreaded(h: Shape, home: DnsQR -> nat, i: nat, k: nat)
    requires h.Threaded(home) && i < |h.tab| && k < |h.tab|
    requires h.view[i].Empty? && h.view[k].Full?
    ensures h.tab[k].le in h.links
    ensures h.Move(i, k).Threaded(home)
  {
  }

  /** Unlinking keeps every other entry and its slot paired. */
  lemma UnlinkThreaded(h: Shape, home: DnsQR -> nat, p: nat)
    requires h.Linked() && h.Threaded(home) && p < |h.order|
    ensures UnlinkOk(h, p) && h.Unlink(p).Threaded(home)
  {
    BypassOk(h.order, h.links, p);
    UnlinkSizes(h, p);
    hide Bypass, Without, Shape.Linked, Shape.Unlink, Chain;
    var g := h.Unlink(p);
    forall i | 0 <= i < |g.order|
      ensures g.order[i] in g.links && g.links[g.order[i]].he < |g.tab|
      ensures g.tab[g.links[g.order[i]].he] == HashEntry(Some(g.queue[i]), g.order[i])
    {
      UnlinkEntry(h, home, p, i);
    }
    forall t | 0 <= t < |g.tab| && g.tab[t].dnsqr.Some?
      ensures g.tab[t].le != null && g.tab[t].le in g.links && g.links[g.tab[t].le].he == t
      ensures g.view[t] == Full(home(g.tab[t].dnsqr.value), g.links[g.tab[t].le].stamp)
    {
      UnlinkKept(h, home, p, t);
    }
    forall t | 0 <= t < |g.tab| && g.tab[t].dnsqr.None?
      ensures g.tab[t].le == null && g.view[t] == Empty
    {
      UnlinkEmpty(h, home, p, t);
    }
  }

  lemma UnlinkSizes(h: Shape, p: nat)
    requires UnlinkOk(h, p) && |h.order| == |h.queue|
    ensures var g := h.Unlink(p);
            && |g.tab| == |g.view| == |h.tab|
            && |g.order| == |g.queue| == |h.order| - 1
  {
    hide Bypass;
  }

  lemma UnlinkEmpty(h: Shape, home: DnsQR -> nat, p: nat, t: nat)
    requires h.Threaded(home) && UnlinkOk(h, p) && t < |h.tab|
    requires h.Unlink(p).tab[t].dnsqr.None?
    ensures h.Unlink(p).tab[t].le == null && h.Unlink(p).view[t] == Empty
  {
    hide Bypass, Without;
  }

  lemma UnlinkEntry(h: Shape, home: DnsQR -> nat, p: nat, i: nat)
    requires h.Linked() && h.Threaded(home) && p < |h.order| && i < |h.order| - 1
    ensures UnlinkOk(h, p)
    ensures var g := h.Unlink(p);
            && g.order[i] in g.links && g.links[g.order[i]].he < |g.tab|
            && g.tab[g.links[g.order[i]].he] == HashEntry(Some(g.queue[i]), g.order[i])
  {
    hide Without, Bypass, Chain;
    BypassOk(h.order, h.links, p);
    BypassFields(h.order, h.links, p, Old(i, p));
    Distinct(h.order, h.links, p, Old(i, p));
    WithoutAt(h.order, p, i);
    WithoutAt(h.queue, p, i);
  }

  lemma WithoutAt<T>(q: seq<T>, p: nat, i: nat)
    requires p < |q| && i < |q| - 1
    ensures |Without(q, p)| == |q| - 1 && Without(q, p)[i] == q[Old(i, p)]
  {
  }

  lemma UnlinkKept(h: Shape, home: DnsQR -> nat, p: nat, t: nat)
    requires h.Linked() && h.Threaded(home) && UnlinkOk(h, p) && t < |h.tab|
    requires h.Unlink(p).tab[t].dnsqr.Some?
    ensures var g := h.Unlink(p);
            && g.tab[t].le != null && g.tab[t].le in g.links && g.links[g.tab[t].le].he == t
            && t < |g.view| && g.view[t] == Full(home(g.tab[t].dnsqr.value), g.links[g.tab[t].le].stamp)
  {
    hide Bypass, Without, Shape.Linked, Chain;
    UnlinkSlot(h, home, p, t);
  }

  lemma UnlinkSlot(h: Shape, home: DnsQR -> nat, p: nat, t: nat)
    requires h.Linked() && h.Threaded(home) && p < |h.order|
    requires t < |h.tab| && t != h.links[h.order[p]].he && h.tab[t].dnsqr.Some?
    ensures UnlinkOk(h, p)
    ensures var l := h.Unlink(p).links;
            && h.tab[t].le in l && l[h.tab[t].le].he == t
            && h.view[t] == Full(home(h.tab[t].dnsqr.value), l[h.tab[t].le].stamp)
  {
    BypassOk(h.order, h.links, p);
    var i :| 0 <= i < |h.order| && h.order[i] == h.tab[t].le;
    BypassFields(h.order, h.links, p, i);
  }

  // ---------- Deletion ----------

  /** A deletion in progress: slot `i` is the hole and the scan has reached slot `j`. */
  ghost predicate Mid(h: Shape, home: DnsQR -> nat, i: nat, j: nat) {
    && h.Linked()
    && h.Threaded(home)
    && |h.queue| == NumFull(h.view)
    && Homed(h.view)
    && i < |h.view| && j < |h.view|
    && Holed(h.view, i, j)
  }

  lemma MidStarts(h: Shape, home: DnsQR -> nat, p: nat)
    requires h.Wf(home) && p < |h.order|
    ensures UnlinkOk(h, p)
    ensures var s := h.links[h.order[p]].he; Mid(h.Unlink(p), home, s, s)
  {
    UnlinkLinked(h, p);
    UnlinkThreaded(h, home, p);
    var s := h.links[h.order[p]].he;
    HoleOpens(h.view, s);
    NumFullUpdate(h.view, s, Empty);
  }

  /** The scan looks at the slot after `j`: its entry moves into the hole, leaving a new hole, or stays. */
  ghost function Advance(h: Shape, i: nat, j: nat): (Shape, nat)
    requires i < |h.tab| == |h.view| && j < |h.view|
  {
    var k := Next(j, |h.view|);
    if h.view[k].Full? && MustMove(i, k, h.view[k].home) && h.tab[k].le in h.links then (h.Move(i, k), k) else (h, i)
  }

  lemma MidAdvances(h: Shape, home: DnsQR -> nat, i: nat, j: nat)
    requires Mid(h, home, i, j) && h.view[Next(j, |h.view|)].Full?
    ensures var (g, i') := Advance(h, i, j);
            && Mid(g, home, i', Next(j, |h.view|))
            && g.queue == h.queue && g.links.Keys == h.links.Keys
            && ((g == h && i' == i && Next(j, |h.view|) != i) ||
                TotalDisplacement(g.view) < TotalDisplacement(h.view))
  {
    var k := Next(j, |h.view|);
    hide Mid, MustMove, TotalDisplacement, Shape.Move, Next;
    MidBasics(h, home, i, j);
    if MustMove(i, k, h.view[k].home) {
      MidMoves(h, home, i, j);
      MoveSame(h, i, k);
    } else {
      MidStays(h, home, i, j);
    }
  }

  lemma MoveSame(h: Shape, i: nat, k: nat)
    requires i < |h.tab| == |h.view| && k < |h.tab| && h.tab[k].le in h.links
    ensures h.Move(i, k).queue == h.queue && h.Move(i, k).links.Keys == h.links.Keys
  {
  }

  lemma MidStays(h: Shape, home: DnsQR -> nat, i: nat, j: nat)
    requires Mid(h, home, i, j)
    requires var k := Next(j, |h.view|); h.view[k].Full? && !MustMove(i, k, h.view[k].home)
    ensures Mid(h, home, i, Next(j, |h.view|)) && Next(j, |h.view|) != i
  {
    hide Shape.Linked, Shape.Threaded, Homed;
    HoleStays(h.view, i, j);
  }

  lemma MidBasics(h: Shape, home: DnsQR -> nat, i: nat, j: nat)
    requires Mid(h, home, i, j)
    ensures i < |h.tab| == |h.view| && j < |h.view| && Homed(h.view)
  {
  }

  lemma HomeExists(v: seq<Slot>, k: nat)
    requires Homed(v) && k < |v| && v[k].Full?
    ensures v[k].home < |v|
  {
  }

  lemma MidMoves(h: Shape, home: DnsQR -> nat, i: nat, j: nat)
    requires Mid(h, home, i, j)
    requires var k := Next(j, |h.view|); h.view[k].Full? && MustMove(i, k, h.view[k].home)
    ensures var k := Next(j, |h.view|);
            && h.tab[k].le != null && h.tab[k].le in h.links
            && Mid(h.Move(i, k), home, k, k)
            && TotalDisplacement(h.Move(i, k).view) < TotalDisplacement(h.view)
  {
    hide Homed, TotalDisplacement, Shape.Linked;
    var v, k := h.view, Next(j, |h.view|);
    MoveThreaded(h, home, i, k);
    MoveLinked(h, i, k);
    HoleMoves(v, i, j);
    NumFullUpdate(v, i, v[k]);
    NumFullUpdate(v[i := v[k]], k, Empty);
    HomeExists(v, k);
    MustMoveMeaning(i, k, v[k].home, |v|);
    MoveShrinks(v, i, k);
  }

  lemma MidEnds(h: Shape, home: DnsQR -> nat, i: nat, j: nat)
    requires Mid(h, home, i, j) && h.view[Next(j, |h.view|)].Empty?
    ensures h.Wf(home)
  {
    HoleCloses(h.view, i, j);
  }

  // ---------- Search ----------

  /** Everything probed from the home of `d` before `slot` is full and does not match `d`. */
  ghost predicate Passed(h: Shape, start: nat, d: DnsQR, rcode: nat, slot: nat)
    requires |h.tab| == |h.view| && start < |h.view| && slot < |h.view|
  {
    forall t :: 0 <= t < |h.view| && Before(start, t, slot, |h.view|) ==>
                  h.view[t].Full? && h.tab[t].dnsqr.Some? && !Eq(d, h.tab[t].dnsqr.value, rcode)
  }

  /** Entry `i`, if it matches, is not probed before `slot`. */
  lemma MatchNotPassed(h: Shape, home: DnsQR -> nat, d: DnsQR, rcode: nat, slot: nat, i: nat)
    requires h.Wf(home) && home(d) < |h.view| && slot < |h.view| && Passed(h, home(d), d, rcode, slot)
    requires i < |h.queue| && Eq(d, h.queue[i], rcode) && home(h.queue[i]) == home(d)
    ensures var s := h.links[h.order[i]].he; s == slot || Before(home(d), slot, s, |h.view|)
    ensures h.view[slot].Full?
  {
    var s := h.links[h.order[i]].he;
    assert h.tab[s] == HashEntry(Some(h.queue[i]), h.order[i]);
    assert h.view[s].Full? && h.view[s].home == home(d);
    assert !Before(home(d), s, slot, |h.view|);
  }

  lemma NothingFound(h: Shape, home: DnsQR -> nat, d: DnsQR, rcode: nat, slot: nat)
    requires h.Wf(home) && home(d) < |h.view| && slot < |h.view| && Passed(h, home(d), d, rcode, slot)
    requires forall e :: Eq(d, e, rcode) ==> home(e) == home(d)
    requires h.view[slot].Empty?
    ensures OldestMatch(h.queue, d, rcode) == |h.queue|
  {
    var p := OldestMatch(h.queue, d, rcode);
    if p < |h.queue| {
      MatchNotPassed(h, home, d, rcode, slot, p);
    }
  }

  /** The first match on the probe path is the oldest in the queue. */
  lemma OldestFound(h: Shape, home: DnsQR -> nat, d: DnsQR, rcode: nat, slot: nat) returns (p: nat)
    requires h.Wf(home) && home(d) < |h.view| && slot < |h.view| && Passed(h, home(d), d, rcode, slot)
    requires forall e :: Eq(d, e, rcode) ==> home(e) == home(d)
    requires h.tab[slot].dnsqr.Some? && Eq(d, h.tab[slot].dnsqr.value, rcode)
    ensures p == OldestMatch(h.queue, d, rcode) < |h.queue|
    ensures h.links[h.order[p]].he == slot
  {
    var i :| 0 <= i < |h.order| && h.order[i] == h.tab[slot].le;
    assert h.queue[i] == h.tab[slot].dnsqr.value;
    p := OldestMatch(h.queue, d, rcode);
    MatchNotPassed(h, home, d, rcode, slot, p);
    if p < i {
      AgesFollowProbes(h, home, slot, p, i);
    }
  }

  lemma AgesFollowProbes(h: Shape, home: DnsQR -> nat, slot: nat, p: nat, i: nat)
    requires h.Wf(home) && p < i < |h.queue| && h.links[h.order[i]].he == slot
    requires home(h.queue[p]) == home(h.queue[i]) < |h.view|
    ensures !Before(home(h.queue[i]), slot, h.links[h.order[p]].he, |h.view|)
    ensures slot != h.links[h.order[p]].he
  {
    var s := h.links[h.order[p]].he;
    assert h.tab[s] == HashEntry(Some(h.queue[p]), h.order[p]);
    assert h.tab[slot] == HashEntry(Some(h.queue[i]), h.order[i]);
    assert h.view[s] == Full(home(h.queue[p]), h.links[h.order[p]].stamp);
    assert h.view[slot] == Full(home(h.queue[i]), h.links[h.order[i]].stamp);
    assert h.links[h.order[p]].stamp < h.links[h.order[i]].stamp;
    assert Before(h.view[slot].home, slot, s, |h.view|) ==> SameHome(h.view, slot, s);
  }

  lemma WfBasics(h: Shape, home: DnsQR -> nat)
    requires h.Wf(home)
    ensures h.Linked() && |h.order| == |h.queue| && |h.tab| == |h.view|
    ensures h.tail != null ==> h.tail in h.links
  {
  }

  lemma NoHead(h: Shape, home: DnsQR -> nat)
    requires h.Wf(home)
    ensures h.head == null <==> h.queue == []
  {
  }

  lemma HeadIsOldest(h: Shape, home: DnsQR -> nat)
    requires h.Wf(home) && h.head != null
    ensures |h.queue| == |h.order| > 0 && h.head == h.order[0] && h.head in h.links && h.links[h.head].he < |h.tab|
    ensures h.tab[h.links[h.head].he] == HashEntry(Some(h.queue[0]), h.head)
  {
  }
}
