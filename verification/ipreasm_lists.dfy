/** Entries linked both ways, in a hash chain and in a list ordered by time. */
module ReasmLists {
  import opened ReasmEntry
  import opened ReasmRun

  class Item {
    const key: Key
    const timeout: int
    const asm: Entry
    var active: bool
    var prev: Item?
    var next: Item?
    var timePrev: Item?
    var timeNext: Item?

    constructor (key: Key, timeout: int, asm: Entry)
      ensures this.key == key && this.timeout == timeout && this.asm == asm && active
    {
      this.key, this.timeout, this.asm, this.active := key, timeout, asm, true;
      prev, next, timePrev, timeNext := null, null, null, null;
    }
  }

  // ---------- Sequences of entries ----------

  /** A list without an element. */
  function Drop(s: seq<Item>, x: Item): (r: seq<Item>)
  {
    if s == [] then [] else if s[0] == x then s[1..] else [s[0]] + Drop(s[1..], x)
  }

  ghost predicate NoTwice(s: seq<Item>) {
    forall i, j :: 0 <= i < j < |s| ==> s[i] != s[j]
  }

  lemma {:induction false} DropAt(s: seq<Item>, i: nat)
    requires NoTwice(s) && i < |s|
    ensures Drop(s, s[i]) == s[..i] + s[i + 1..]
  {
    if i > 0 {
      DropAt(s[1..], i - 1);
      assert s[1..][..i - 1] == s[1..i];
    }
  }

  lemma {:induction false} DropKeepsOthers(s: seq<Item>, x: Item, y: Item)
    requires NoTwice(s)
    ensures y in Drop(s, x) <==> y in s && y != x
  {
    if s != [] && s[0] != x {
      DropKeepsOthers(s[1..], x, y);
      assert forall i :: 1 <= i < |s| ==> s[1..][i - 1] == s[i];
    }
  }

  lemma {:induction false} DropNoTwice(s: seq<Item>, x: Item)
    requires NoTwice(s)
    ensures NoTwice(Drop(s, x))
  {
    if x in s {
      var i :| 0 <= i < |s| && s[i] == x;
      DropAt(s, i);
    } else {
      DropNothing(s, x);
    }
  }

  lemma {:induction false} DropNothing(s: seq<Item>, x: Item)
    requires x !in s
    ensures Drop(s, x) == s
  {
    if s != [] {
      DropNothing(s[1..], x);
    }
  }

  // ---------- Pointers ----------

  /** The pointers of one kind of list. */
  datatype Links = Links(next: map<Item, Item?>, prev: map<Item, Item?>)

  function At(s: seq<Item>, i: int): Item? {
    if 0 <= i < |s| then s[i] else null
  }

  predicate Has(l: Links, x: Item) {
    x in l.next && x in l.prev
  }

  /** Every entry of the list points to the ones before and behind it. */
  ghost predicate IsList(l: Links, s: seq<Item>) {
    forall i :: 0 <= i < |s| ==> Has(l, s[i]) && l.next[s[i]] == At(s, i + 1) && l.prev[s[i]] == At(s, i - 1)
  }

  function SetNext(l: Links, x: Item?, y: Item?): Links {
    if x == null then l else l.(next := l.next[x := y])
  }

  function SetPrev(l: Links, x: Item?, y: Item?): Links {
    if x == null then l else l.(prev := l.prev[x := y])
  }

  /** The neighbours of `x` made to point to each other. */
  function Unlink(l: Links, x: Item): Links
    requires Has(l, x)
  {
    SetPrev(SetNext(l, l.prev[x], l.next[x]), l.next[x], l.prev[x])
  }

  /** `x` between `p` and `n`. */
  function Link(l: Links, x: Item, p: Item?, n: Item?): Links {
    SetPrev(SetNext(Links(l.next[x := n], l.prev[x := p]), p, x), n, x)
  }

  function Without(s: seq<Item>, p: nat): (r: seq<Item>)
    requires p < |s|
    ensures |r| == |s| - 1
  {
    s[..p] + s[p + 1..]
  }

  lemma WithoutAt(s: seq<Item>, p: nat, i: int)
    requires p < |s|
    ensures At(Without(s, p), i) == if i < p then At(s, i) else At(s, i + 1)
  {
  }

  lemma Differ(s: seq<Item>, i: nat, j: nat)
    requires NoTwice(s) && i < |s| && j < |s|
    ensures s[i] == s[j] <==> i == j
  {
  }

  lemma Linked(l: Links, s: seq<Item>)
    requires forall i :: 0 <= i < |s| ==> Has(l, s[i]) && l.next[s[i]] == At(s, i + 1) && l.prev[s[i]] == At(s, i - 1)
    ensures IsList(l, s)
  {
  }

  lemma ListAt(l: Links, s: seq<Item>, i: nat)
    requires IsList(l, s) && i < |s|
    ensures Has(l, s[i]) && l.next[s[i]] == At(s, i + 1) && l.prev[s[i]] == At(s, i - 1)
  {
  }

  lemma UnlinkNext(l: Links, s: seq<Item>, p: nat, k: nat)
    requires NoTwice(s) && IsList(l, s) && p < |s| && k < |s| && k != p
    ensures Has(l, s[p]) && Has(Unlink(l, s[p]), s[k])
    ensures Unlink(l, s[p]).next[s[k]] == if k == p - 1 then At(s, p + 1) else At(s, k + 1)
  {
    hide IsList, NoTwice;
    ListAt(l, s, p);
    ListAt(l, s, k);
    if p > 0 { Differ(s, k, p - 1); }
  }

  lemma UnlinkPrev(l: Links, s: seq<Item>, p: nat, k: nat)
    requires NoTwice(s) && IsList(l, s) && p < |s| && k < |s| && k != p
    ensures Has(l, s[p]) && Has(Unlink(l, s[p]), s[k])
    ensures Unlink(l, s[p]).prev[s[k]] == if k == p + 1 then At(s, p - 1) else At(s, k - 1)
  {
    hide IsList, NoTwice;
    ListAt(l, s, p);
    ListAt(l, s, k);
    if p + 1 < |s| { Differ(s, k, p + 1); }
  }

  lemma UnlinkedAt(l: Links, s: seq<Item>, p: nat, i: nat)
    requires NoTwice(s) && IsList(l, s) && p < |s| && i < |s| - 1
    ensures Has(l, s[p])
    ensures var l', t := Unlink(l, s[p]), Without(s, p);
            Has(l', t[i]) && l'.next[t[i]] == At(t, i + 1) && l'.prev[t[i]] == At(t, i - 1)
  {
    hide IsList, NoTwice, Unlink, Has, Without;
    var k := if i < p then i else i + 1;
    UnlinkNext(l, s, p, k);
    UnlinkPrev(l, s, p, k);
    WithoutAt(s, p, i);
    WithoutAt(s, p, i + 1);
    WithoutAt(s, p, i - 1);
  }

  /** Taking an entry out leaves a list of the others. */
  lemma UnlinkList(l: Links, s: seq<Item>, p: nat)
    requires NoTwice(s) && IsList(l, s) && p < |s|
    ensures Has(l, s[p]) && IsList(Unlink(l, s[p]), Without(s, p))
  {
    hide IsList, NoTwice, Unlink;
    ListAt(l, s, p);
    var l', t := Unlink(l, s[p]), Without(s, p);
    forall i | 0 <= i < |t|
      ensures Has(l', t[i]) && l'.next[t[i]] == At(t, i + 1) && l'.prev[t[i]] == At(t, i - 1)
    {
      UnlinkedAt(l, s, p, i);
    }
    Linked(l', t);
  }

  /** Lists without any of the entries concerned stay as they are. */
  lemma UnlinkOther(l: Links, s: seq<Item>, x: Item)
    requires IsList(l, s) && Has(l, x) && l.next[x] !in s && l.prev[x] !in s
    ensures IsList(Unlink(l, x), s)
  {
  }

  /** The first and the last entry after one was taken out. */
  lemma EndsWithout(l: Links, s: seq<Item>, p: nat)
    requires NoTwice(s) && IsList(l, s) && p < |s|
    ensures Has(l, s[p])
    ensures At(Without(s, p), 0) == if l.prev[s[p]] == null then l.next[s[p]] else At(s, 0)
    ensures At(Without(s, p), |s| - 2) == if l.next[s[p]] == null then l.prev[s[p]] else At(s, |s| - 1)
  {
    ListAt(l, s, p);
    hide IsList;
  }

  lemma PrependList(l: Links, s: seq<Item>, x: Item)
    requires IsList(l, s) && x !in s && NoTwice(s)
    ensures IsList(Link(l, x, null, At(s, 0)), [x] + s)
  {
    var l', t := Link(l, x, null, At(s, 0)), [x] + s;
    forall i | 0 <= i < |t|
      ensures Has(l', t[i]) && l'.next[t[i]] == At(t, i + 1) && l'.prev[t[i]] == At(t, i - 1)
    {
      if i > 0 {
        ListAt(l, s, i - 1);
        Differ(s, i - 1, 0);
      }
    }
  }

  lemma AppendList(l: Links, s: seq<Item>, x: Item)
    requires IsList(l, s) && x !in s && NoTwice(s)
    ensures IsList(Link(l, x, At(s, |s| - 1), null), s + [x])
  {
    var l', t := Link(l, x, At(s, |s| - 1), null), s + [x];
    forall i | 0 <= i < |t|
      ensures Has(l', t[i]) && l'.next[t[i]] == At(t, i + 1) && l'.prev[t[i]] == At(t, i - 1)
    {
      if i < |s| {
        ListAt(l, s, i);
        Differ(s, i, |s| - 1);
      }
    }
  }

  lemma LinkOther(l: Links, s: seq<Item>, x: Item, p: Item?, n: Item?)
    requires IsList(l, s) && x !in s && p !in s && n !in s
    ensures IsList(Link(l, x, p, n), s)
  {
  }

  // ---------- All chains, and the list by time ----------

  /** Every chain is a list of its own, and `heads` holds the first entry of each. */
  ghost predicate Chained(l: Links, heads: seq<Item?>, chains: seq<seq<Item>>) {
    |heads| == |chains| && forall b :: 0 <= b < |chains| ==> heads[b] == At(chains[b], 0) && IsList(l, chains[b])
  }

  ghost predicate Listed(l: Links, first: Item?, last: Item?, s: seq<Item>) {
    IsList(l, s) && first == At(s, 0) && last == At(s, |s| - 1)
  }

  /** No entry of chain `b` is in another chain. */
  ghost predicate Separate(chains: seq<seq<Item>>, b: nat)
    requires b < |chains|
  {
    forall c, y :: 0 <= c < |chains| && c != b && y in chains[b] ==> y !in chains[c]
  }

  lemma NotElsewhere(chains: seq<seq<Item>>, b: nat, c: nat, i: int)
    requires b < |chains| && c < |chains| && c != b && Separate(chains, b)
    ensures At(chains[b], i) !in chains[c]
  {
    if 0 <= i < |chains[b]| {
      assert chains[b][i] in chains[b];
    }
  }

  lemma ChainedUnlink(l: Links, heads: seq<Item?>, chains: seq<seq<Item>>, b: nat, p: nat)
    requires Chained(l, heads, chains) && b < |chains| && p < |chains[b]|
    requires NoTwice(chains[b]) && Separate(chains, b)
    ensures var x := chains[b][p];
            && Has(l, x) && In(l.prev[x], chains[b]) && In(l.next[x], chains[b])
            && var heads' := if l.prev[x] == null then heads[b := l.next[x]] else heads;
               Chained(Unlink(l, x), heads', chains[b := Without(chains[b], p)])
  {
    hide IsList, NoTwice, Unlink, Without;
    var s := chains[b];
    ListAt(l, s, p);
    UnlinkList(l, s, p);
    EndsWithout(l, s, p);
    forall c | 0 <= c < |chains| && c != b
      ensures IsList(Unlink(l, s[p]), chains[c])
    {
      NotElsewhere(chains, b, c, p + 1);
      NotElsewhere(chains, b, c, p - 1);
      UnlinkOther(l, chains[c], s[p]);
    }
  }

  predicate In(x: Item?, s: seq<Item>) {
    x == null || x in s
  }

  lemma ListedUnlink(l: Links, first: Item?, last: Item?, s: seq<Item>, p: nat)
    requires Listed(l, first, last, s) && NoTwice(s) && p < |s|
    ensures var x := s[p];
            && Has(l, x) && In(l.prev[x], s) && In(l.next[x], s)
            && var first', last' := if l.prev[x] == null then l.next[x] else first, if l.next[x] == null then l.prev[x] else last;
               Listed(Unlink(l, x), first', last', Without(s, p))
  {
    hide IsList, NoTwice, Unlink, Without;
    ListAt(l, s, p);
    UnlinkList(l, s, p);
    EndsWithout(l, s, p);
  }

  lemma ChainedPrepend(l: Links, heads: seq<Item?>, chains: seq<seq<Item>>, b: nat, x: Item)
    requires Chained(l, heads, chains) && b < |chains|
    requires NoTwice(chains[b]) && Separate(chains, b) && forall c :: 0 <= c < |chains| ==> x !in chains[c]
    ensures Chained(Link(l, x, null, heads[b]), heads[b := x], chains[b := [x] + chains[b]])
  {
    hide IsList, NoTwice, Link;
    PrependList(l, chains[b], x);
    forall c | 0 <= c < |chains| && c != b
      ensures IsList(Link(l, x, null, heads[b]), chains[c])
    {
      NotElsewhere(chains, b, c, 0);
      LinkOther(l, chains[c], x, null, heads[b]);
    }
  }

  lemma ListedAppend(l: Links, first: Item?, last: Item?, s: seq<Item>, x: Item)
    requires Listed(l, first, last, s) && NoTwice(s) && x !in s
    ensures Listed(Link(l, x, last, null), if last == null then x else first, x, s + [x])
  {
    hide IsList, NoTwice, Link;
    AppendList(l, s, x);
  }
}
