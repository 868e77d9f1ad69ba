/** The table of waiting packets: hash chains for looking entries up, a list ordered by time of
expiry for dropping them. */
module ReasmTable {
  import opened Wrappers
  import opened Words
  import opened ReasmSpec
  import opened ReasmEntry
  import opened ReasmRun
  import opened ReasmLists

  // ---------- The hash ----------

  function HashAddresses(hash: Word32, src: seq<Byte>, dst: seq<Byte>): Word32
    requires |src| == |dst|
    decreases |src|
  {
    if src == [] then hash
    else HashAddresses(Low32(37 * Low32(37 * hash + src[0]) + dst[0]), src[1..], dst[1..])
  }

  /** Keys hold whole addresses. */
  predicate IsKey(key: Key) {
    match key
    case Key4(src, dst, _, _) => |src| == |dst| == 4
    case Key6(src, dst, _) => |src| == |dst| == 16
  }

  const BUCKETS: nat := 1021

  function Bucket(key: Key): (b: nat)
    requires IsKey(key)
    ensures b < BUCKETS
  {
    var hash := match key
      case Key4(src, dst, id, proto) => Low32(47 * Low32(59 * HashAddresses(0, src, dst) + id) + proto)
      case Key6(src, dst, id) => Low32(59 * HashAddresses(0, src, dst) + id);
    hash % BUCKETS
  }

  // ---------- Chains and list ----------

  function ProtoOf(key: Key): Proto {
    if key.Key4? then V4 else V6
  }

  /** The key is whole, and says which protocol it is. */
  predicate Keyed(x: Item) {
    IsKey(x.key) && x.asm.proto == ProtoOf(x.key)
  }

  /** The list has no key or assembly twice. */
  ghost predicate Apart(time: seq<Item>) {
    && (forall i, j :: 0 <= i < j < |time| ==> time[i].key != time[j].key)
    && (forall i, j :: 0 <= i < j < |time| ==> time[i].asm != time[j].asm)
    && (forall i :: 0 <= i < |time| ==> Keyed(time[i]))
  }

  ghost predicate Filed(x: Item, time: seq<Item>, b: nat) {
    x in time && IsKey(x.key) && Bucket(x.key) == b
  }

  /** Every chain holds exactly the entries of the list that hash to it, once. */
  ghost predicate Agree(chains: seq<seq<Item>>, time: seq<Item>) {
    && |chains| == BUCKETS
    && (forall b :: 0 <= b < BUCKETS ==> NoTwice(chains[b]))
    && (forall b, x :: 0 <= b < BUCKETS && x in chains[b] ==> Filed(x, time, b))
    && (forall x :: x in time ==> IsKey(x.key) && x in chains[Bucket(x.key)])
  }

  lemma ApartNoTwice(time: seq<Item>)
    requires Apart(time)
    ensures NoTwice(time)
  {
  }

  lemma ApartDrop(time: seq<Item>, x: Item)
    requires Apart(time) && x in time
    ensures Apart(Drop(time, x)) && |Drop(time, x)| == |time| - 1
  {
    hide IsKey, NoTwice, Drop;
    ApartNoTwice(time);
    var i :| 0 <= i < |time| && time[i] == x;
    DropAt(time, i);
  }

  lemma ApartAdd(time: seq<Item>, x: Item)
    requires Apart(time) && Keyed(x)
    requires forall k :: 0 <= k < |time| ==> time[k].key != x.key && time[k].asm != x.asm
    ensures Apart(time + [x])
  {
    hide IsKey, Keyed;
  }

  lemma OthersApart(time: seq<Item>, i: nat)
    requires Apart(time) && i < |time|
    ensures NoTwice(time) && Keyed(time[i])
    ensures forall j :: 0 <= j < |time| && j != i ==> time[j] != time[i] && time[j].asm != time[i].asm
  {
    hide IsKey;
    ApartNoTwice(time);
    forall j | 0 <= j < |time| && j != i
      ensures time[j] != time[i] && time[j].asm != time[i].asm
    {
      if j < i {
        assert time[j].asm != time[i].asm;
      } else {
        assert time[i].asm != time[j].asm;
      }
    }
  }

  lemma AgreeDrop(chains: seq<seq<Item>>, time: seq<Item>, x: Item)
    requires Agree(chains, time) && Apart(time) && x in time
    ensures IsKey(x.key)
    ensures var b := Bucket(x.key); Agree(chains[b := Drop(chains[b], x)], Drop(time, x))
  {
    hide Bucket, IsKey, NoTwice;
    ApartNoTwice(time);
    var b := Bucket(x.key);
    var after := chains[b := Drop(chains[b], x)];
    DropNoTwice(chains[b], x);
    forall c, y | 0 <= c < BUCKETS && y in after[c]
      ensures Filed(y, Drop(time, x), c)
    {
      DropKeepsOthers(time, x, y);
      DropKeepsOthers(chains[b], x, y);
      assert Filed(y, time, c);
    }
    forall y | y in Drop(time, x)
      ensures IsKey(y.key) && y in after[Bucket(y.key)]
    {
      DropKeepsOthers(time, x, y);
      DropKeepsOthers(chains[b], x, y);
    }
  }

  lemma AgreeAdd(chains: seq<seq<Item>>, time: seq<Item>, x: Item)
    requires Agree(chains, time) && x !in time && IsKey(x.key)
    ensures var b := Bucket(x.key); Agree(chains[b := [x] + chains[b]], time + [x])
  {
    hide Bucket, IsKey;
    var b := Bucket(x.key);
    var after := chains[b := [x] + chains[b]];
    assert x !in chains[b];
    forall c, y | 0 <= c < BUCKETS && y in after[c]
      ensures Filed(y, time + [x], c)
    {
      assert y in chains[c] ==> Filed(y, time, c);
    }
  }

  /** The entry for a key is in the chain the key hashes to, and nowhere else. */
  lemma FoundInChain(chains: seq<seq<Item>>, time: seq<Item>, key: Key, i: nat)
    requires Agree(chains, time) && Apart(time) && IsKey(key)
    requires i <= |chains[Bucket(key)]| && forall j :: 0 <= j < i ==> chains[Bucket(key)][j].key != key
    requires i < |chains[Bucket(key)]| ==> chains[Bucket(key)][i].key == key
    ensures var chain := chains[Bucket(key)];
            if i < |chain| then exists k :: 0 <= k < |time| && time[k] == chain[i]
            else forall k :: 0 <= k < |time| ==> time[k].key != key
  {
    hide Bucket, IsKey;
    var chain := chains[Bucket(key)];
    if i < |chain| {
      assert chain[i] in chain;
      assert Filed(chain[i], time, Bucket(key));
    } else {
      forall k | 0 <= k < |time|
        ensures time[k].key != key
      {
        assert time[k] in time;
      }
    }
  }

  // ---------- The abstract table ----------

  ghost function Record(x: Item): Rec
    reads x`active, x.asm
  {
    Rec(x.key, x.timeout, x.active, x.asm.State())
  }

  ghost function Records(time: seq<Item>): (recs: seq<Rec>)
    reads (set x | x in time)`active, set x | x in time :: x.asm
    ensures |recs| == |time|
    ensures forall i :: 0 <= i < |time| ==> recs[i] == Record(time[i])
  {
    if time == [] then [] else Records(time[..|time| - 1]) + [Record(time[|time| - 1])]
  }

  lemma KeysOf(time: seq<Item>)
    ensures forall i :: 0 <= i < |time| ==> Records(time)[i].key == time[i].key
  {
  }

  lemma TailRecords(time: seq<Item>)
    requires time != []
    ensures Records(time[1..]) == Records(time)[1..]
  {
  }

  lemma RecordsUpdated(time: seq<Item>, was: seq<Rec>, i: nat)
    requires i < |time| == |was|
    requires forall k :: 0 <= k < |time| && k != i ==> Record(time[k]) == was[k]
    ensures Records(time) == was[i := Record(time[i])]
  {
  }

  lemma RecordsAppend(time: seq<Item>, x: Item)
    ensures Records(time + [x]) == Records(time) + [Record(x)]
  {
    assert (time + [x])[..|time|] == time;
  }

  lemma RecordsWithout(time: seq<Item>, i: nat)
    requires i < |time|
    ensures Records(Without(time, i)) == Records(time)[..i] + Records(time)[i + 1..]
  {
    hide Records, Record;
    var was, recs := Records(time), Records(Without(time, i));
    assert |recs| == |was| - 1;
    forall k | 0 <= k < |recs|
      ensures recs[k] == if k < i then was[k] else was[k + 1]
    {
    }
  }

  lemma ExpireStep(t: ReasmRun.Table, now: int)
    ensures Expire(t, now) ==
            if t.recs != [] && t.recs[0].timeout < now then Expire(t.(recs := t.recs[1..], timedOut := t.timedOut + 1), now) else t
  {
  }

  // ---------- Pointers ----------

  /** The chain pointers of the entries are those of `l`. */
  ghost predicate HashRep(l: Links, time: seq<Item>)
    reads (set x | x in time)`next, (set x | x in time)`prev
  {
    forall x :: x in time ==> Has(l, x) && l.next[x] == x.next && l.prev[x] == x.prev
  }

  /** The list pointers of the entries are those of `l`. */
  ghost predicate TimeRep(l: Links, time: seq<Item>)
    reads (set x | x in time)`timeNext, (set x | x in time)`timePrev
  {
    forall x :: x in time ==> Has(l, x) && l.next[x] == x.timeNext && l.prev[x] == x.timePrev
  }

  ghost function IndexOf(s: seq<Item>, x: Item): (i: nat)
    requires x in s
    ensures i < |s| && s[i] == x
  {
    var i :| 0 <= i < |s| && s[i] == x;
    i
  }

  lemma InChain(chains: seq<seq<Item>>, time: seq<Item>, x: Item)
    requires Agree(chains, time) && x in time
    ensures |chains| == BUCKETS && IsKey(x.key) && x in chains[Bucket(x.key)]
  {
  }

  lemma HashLess(l: Links, time: seq<Item>, i: nat)
    requires HashRep(l, time) && i < |time|
    ensures HashRep(l, Without(time, i))
  {
  }

  lemma TimeLess(l: Links, time: seq<Item>, i: nat)
    requires TimeRep(l, time) && i < |time|
    ensures TimeRep(l, Without(time, i))
  {
  }

  lemma InTime(chains: seq<seq<Item>>, time: seq<Item>)
    requires Agree(chains, time)
    ensures forall c, y :: 0 <= c < |chains| && y in chains[c] ==> y in time
  {
    hide Bucket, IsKey, NoTwice;
    forall c, y | 0 <= c < |chains| && y in chains[c]
      ensures y in time
    {
      assert Filed(y, time, c);
    }
  }

  lemma AgreeSeparate(chains: seq<seq<Item>>, time: seq<Item>, b: nat)
    requires Agree(chains, time) && b < BUCKETS
    ensures NoTwice(chains[b]) && Separate(chains, b)
    ensures forall y :: y in chains[b] ==> y in time
  {
    hide Bucket, IsKey, NoTwice;
    forall c, y | 0 <= c < BUCKETS && c != b && y in chains[b]
      ensures y !in chains[c]
    {
      assert Filed(y, time, b);
    }
    forall y | y in chains[b]
      ensures y in time
    {
      assert Filed(y, time, b);
    }
  }

  class Table {
    const ttl: nat
    const table: array<Item?>
    var timeFirst: Item?
    var timeLast: Item?
    var waiting: nat
    var maxWaiting: nat
    var timedOut: nat
    var dropped: nat
    ghost var time: seq<Item>
    ghost var chains: seq<seq<Item>>
    ghost var hash: Links
    ghost var order: Links

    ghost function Items(): set<Item>
      reads this`time
    {
      set x | x in time
    }

    /** The pointers make up the chains and the list. */
    ghost predicate Threaded()
      reads this`time, this`chains, this`hash, this`order, this`timeFirst, this`timeLast
      reads table, Items()`next, Items()`prev, Items()`timeNext, Items()`timePrev
    {
      && |chains| == BUCKETS == table.Length
      && HashRep(hash, time) && Chained(hash, table[..], chains)
      && TimeRep(order, time) && Listed(order, timeFirst, timeLast, time)
    }

    ghost predicate Valid()
      reads this`time, this`chains, this`hash, this`order, this`timeFirst, this`timeLast, this`waiting
      reads table, Items()`next, Items()`prev, Items()`timeNext, Items()`timePrev
    {
      Agree(chains, time) && Apart(time) && Threaded() && waiting == |time|
    }

    ghost function Value(): ReasmRun.Table
      reads this`time, this`maxWaiting, this`timedOut, this`dropped, Items()`active, set x | x in time :: x.asm
    {
      ReasmRun.Table(Records(time), maxWaiting, timedOut, dropped)
    }

    constructor (ttl: nat)
      ensures Valid() && fresh(table) && time == [] && this.ttl == ttl
      ensures maxWaiting == timedOut == dropped == 0
    {
      this.ttl := ttl;
      table := new Item?[BUCKETS](i => null);
      timeFirst, timeLast := null, null;
      waiting, maxWaiting, timedOut, dropped := 0, 0, 0, 0;
      time, chains := [], seq(BUCKETS, i => []);
      hash, order := Links(map[], map[]), Links(map[], map[]);
    }

    /** Takes an entry out of its chain. */
    method LeaveChain(x: Item, b: nat, ghost p: nat)
      requires b < |chains| == table.Length && p < |chains[b]| && chains[b][p] == x
      requires NoTwice(chains[b]) && Separate(chains, b) && forall y :: y in chains[b] ==> y in time
      requires HashRep(hash, time) && Chained(hash, table[..], chains)
      modifies this`hash, this`chains, table, Items()`next, Items()`prev
      ensures chains == old(chains)[b := Without(old(chains[b]), p)]
      ensures HashRep(hash, time) && Chained(hash, table[..], chains)
    {
      hide NoTwice, Separate, Chained, Without;
      ChainedUnlink(hash, table[..], chains, b, p);
      ghost var heads := table[..];
      if x.prev != null {
        x.prev.next := x.next;
      } else {
        table[b] := x.next;
      }
      if x.next != null {
        x.next.prev := x.prev;
      }
      hash := Unlink(hash, x);
      chains := chains[b := Without(chains[b], p)];
      assert table[..] == if x.prev == null then heads[b := x.next] else heads;
    }

    /** Takes an entry out of the list. */
    method LeaveTime(x: Item, ghost p: nat)
      requires p < |time| && time[p] == x && NoTwice(time)
      requires TimeRep(order, time) && Listed(order, timeFirst, timeLast, time)
      modifies this`order, this`time, this`timeFirst, this`timeLast, Items()`timeNext, Items()`timePrev
      ensures time == Without(old(time), p)
      ensures TimeRep(order, time) && Listed(order, timeFirst, timeLast, time)
    {
      hide NoTwice, Listed, Without, TimeRep, Unlink;
      TimeIs(order, x);
      ListedUnlink(order, timeFirst, timeLast, time, p);
      PassBy(x);
      TimeLess(order, time, p);
      time := Without(time, p);
    }

    lemma TimeIs(l: Links, x: Item)
      requires TimeRep(l, time) && x in time
      ensures Has(l, x) && x.timeNext == l.next[x] && x.timePrev == l.prev[x]
    {
    }

    /** Makes the neighbours of an entry in the list, or the ends of the list, point past it. */
    method PassBy(x: Item)
      requires TimeRep(order, time) && x in time && In(x.timePrev, time) && In(x.timeNext, time)
      modifies this`order, this`timeFirst, this`timeLast, Items()`timeNext, Items()`timePrev
      ensures Has(old(order), x) && order == Unlink(old(order), x) && TimeRep(order, time)
      ensures timeFirst == if old(order).prev[x] == null then old(order).next[x] else old(timeFirst)
      ensures timeLast == if old(order).next[x] == null then old(order).prev[x] else old(timeLast)
    {
      if x.timePrev != null {
        x.timePrev.timeNext := x.timeNext;
      } else {
        timeFirst := x.timeNext;
      }
      if x.timeNext != null {
        x.timeNext.timePrev := x.timePrev;
      } else {
        timeLast := x.timePrev;
      }
      order := Unlink(order, x);
    }

    /** Takes an entry out of its chain and of the list. */
    method Leave(x: Item, b: nat, ghost i: nat, ghost j: nat)
      requires Threaded() && NoTwice(time) && i < |time| && time[i] == x
      requires b < BUCKETS && j < |chains[b]| && chains[b][j] == x
      requires NoTwice(chains[b]) && Separate(chains, b) && forall y :: y in chains[b] ==> y in time
      modifies this`time, this`chains, this`hash, this`order, this`timeFirst, this`timeLast
      modifies table, Items()`next, Items()`prev, Items()`timeNext, Items()`timePrev
      ensures Threaded() && time == Without(old(time), i)
      ensures chains == old(chains)[b := Without(old(chains[b]), j)]
    {
      hide NoTwice, Separate, Chained, Listed, Without;
      LeaveChain(x, b, j);
      HashLess(hash, time, i);
      LeaveTime(x, i);
    }

    /** Takes an entry out of the table. */
    method RemoveEntry(x: Item)
      requires Valid() && x in time
      modifies this`time, this`chains, this`hash, this`order, this`timeFirst, this`timeLast, this`waiting
      modifies table, Items()`next, Items()`prev, Items()`timeNext, Items()`timePrev
      ensures Valid() && time == Drop(old(time), x)
    {
      hide Agree, Apart, Bucket, IsKey, NoTwice, Separate, Threaded;
      AgreeDrop(chains, time, x);
      ApartDrop(time, x);
      ApartNoTwice(time);
      InChain(chains, time, x);
      var b := Bucket(x.key);
      AgreeSeparate(chains, time, b);
      ghost var i, j := IndexOf(time, x), IndexOf(chains[b], x);
      DropAt(chains[b], j);
      DropAt(time, i);
      Leave(x, b, i, j);
      waiting := waiting - 1;
    }

    /** Drops the entry at the front of the list. */
    method DropFirst()
      requires Valid() && timeFirst != null
      modifies this`time, this`chains, this`hash, this`order, this`timeFirst, this`timeLast, this`waiting, this`timedOut
      modifies table, Items()`next, Items()`prev, Items()`timeNext, Items()`timePrev
      ensures Valid() && old(time) != [] && time == old(time)[1..]
      ensures Value() == old(Value()).(recs := old(Value()).recs[1..], timedOut := old(timedOut) + 1)
    {
      hide Agree, Apart, Threaded, Record, Records;
      FirstRecord();
      DropHead(time);
      TailRecords(time);
      RemoveEntry(timeFirst);
      timedOut := timedOut + 1;
    }

    lemma DropHead(s: seq<Item>)
      requires s != []
      ensures Drop(s, s[0]) == s[1..]
    {
    }

    lemma FirstRecord()
      requires Valid()
      ensures Value().recs == [] <==> timeFirst == null
      ensures timeFirst != null ==> time != [] && time[0] == timeFirst && Value().recs[0].timeout == timeFirst.timeout
    {
    }

    /** Drops the entries at the front of the list whose time is over. */
    method ProcessTimeouts(now: int)
      requires Valid()
      modifies this`time, this`chains, this`hash, this`order, this`timeFirst, this`timeLast, this`waiting, this`timedOut
      modifies table, Items()`next, Items()`prev, Items()`timeNext, Items()`timePrev
      ensures Valid() && forall x :: x in time ==> x in old(time)
      ensures Value() == Expire(old(Value()), now)
    {
      hide Agree, Apart, Threaded, Records, Record, Expire;
      while timeFirst != null && timeFirst.timeout < now
        invariant Valid() && forall x :: x in time ==> x in old(time)
        invariant Expire(Value(), now) == Expire(old(Value()), now)
        decreases |time|
      {
        DropExpired(now);
      }
      NothingExpired(now);
    }

    /** Drops the first entry, whose time is over. */
    method DropExpired(now: int)
      requires Valid() && timeFirst != null && timeFirst.timeout < now
      modifies this`time, this`chains, this`hash, this`order, this`timeFirst, this`timeLast, this`waiting, this`timedOut
      modifies table, Items()`next, Items()`prev, Items()`timeNext, Items()`timePrev
      ensures Valid() && old(time) != [] && time == old(time)[1..]
      ensures Expire(Value(), now) == Expire(old(Value()), now)
    {
      hide Valid, Records, Record, Expire;
      FirstRecord();
      ExpireStep(Value(), now);
      DropFirst();
    }

    lemma NothingExpired(now: int)
      requires Valid() && (timeFirst != null ==> timeFirst.timeout >= now)
      ensures Expire(Value(), now) == Value()
    {
      hide Valid, Records, Record;
      FirstRecord();
    }

    /** The entry for a key, looked for along its chain. */
    method Search(key: Key) returns (found: Item?)
      requires Valid() && IsKey(key)
      ensures if found != null then found in time && found.key == key
              else forall k :: 0 <= k < |time| ==> time[k].key != key
    {
      hide Agree, Apart, Bucket, IsList;
      ghost var chain := chains[Bucket(key)];
      AgreeSeparate(chains, time, Bucket(key));
      found := table[Bucket(key)];
      ghost var i := 0;
      while found != null && found.key != key
        invariant i <= |chain| && found == At(chain, i)
        invariant forall j :: 0 <= j < i ==> chain[j].key != key
        decreases |chain| - i
      {
        ListAt(hash, chain, i);
        found := found.next;
        i := i + 1;
      }
      FoundInChain(chains, time, key, i);
    }

    /** Puts a new entry at the front of a chain. */
    method JoinChain(x: Item, b: nat)
      requires b < |chains| == table.Length && x !in time
      requires NoTwice(chains[b]) && Separate(chains, b)
      requires forall c, y :: 0 <= c < |chains| && y in chains[c] ==> y in time
      requires HashRep(hash, time) && Chained(hash, table[..], chains)
      modifies this`hash, this`chains, table, Items()`prev, x`prev, x`next
      ensures chains == old(chains)[b := [x] + old(chains[b])]
      ensures HashRep(hash, time + [x]) && Chained(hash, table[..], chains)
    {
      hide NoTwice, Separate, IsList;
      ChainedPrepend(hash, table[..], chains, b, x);
      ghost var heads := table[..];
      x.prev := null;
      x.next := table[b];
      if x.next != null {
        x.next.prev := x;
      }
      table[b] := x;
      hash := Link(hash, x, null, heads[b]);
      chains := chains[b := [x] + chains[b]];
      assert table[..] == heads[b := x];
    }

    /** Puts a new entry at the end of the list. */
    method JoinTime(x: Item)
      requires x !in time && NoTwice(time)
      requires TimeRep(order, time) && Listed(order, timeFirst, timeLast, time)
      modifies this`order, this`time, this`timeFirst, this`timeLast, Items()`timeNext, x`timePrev, x`timeNext
      ensures time == old(time) + [x]
      ensures TimeRep(order, time) && Listed(order, timeFirst, timeLast, time)
    {
      hide NoTwice, IsList;
      ListedAppend(order, timeFirst, timeLast, time, x);
      x.timePrev := timeLast;
      x.timeNext := null;
      order := Link(order, x, timeLast, null);
      if timeLast != null {
        timeLast.timeNext := x;
      } else {
        timeFirst := x;
      }
      timeLast := x;
      time := time + [x];
    }

    /** Puts a new entry first in its chain and last in the list. */
    method Join(x: Item, b: nat)
      requires Threaded() && NoTwice(time) && x !in time && b < BUCKETS
      requires NoTwice(chains[b]) && Separate(chains, b)
      requires forall c, y :: 0 <= c < |chains| && y in chains[c] ==> y in time
      modifies this`time, this`chains, this`hash, this`order, this`timeFirst, this`timeLast
      modifies table, Items()`prev, Items()`timeNext, x`next, x`prev, x`timeNext, x`timePrev
      ensures Threaded() && time == old(time) + [x]
      ensures chains == old(chains)[b := [x] + old(chains[b])]
    {
      hide NoTwice, Separate, Chained, Listed;
      JoinChain(x, b);
      JoinTime(x);
    }

    /** Makes an entry for a key that has none, first in its chain and last in the list. */
    method AddEntry(key: Key, timeout: int, asm: Entry) returns (x: Item)
      requires Valid() && IsKey(key) && asm.proto == ProtoOf(key)
      requires forall k :: 0 <= k < |time| ==> time[k].key != key && time[k].asm != asm
      modifies this`time, this`chains, this`hash, this`order, this`timeFirst, this`timeLast, this`waiting, this`maxWaiting
      modifies table, Items()`next, Items()`prev, Items()`timeNext, Items()`timePrev
      ensures Valid() && fresh(x) && time == old(time) + [x]
      ensures x.key == key && x.timeout == timeout && x.asm == asm && x.active
      ensures maxWaiting == Max(old(maxWaiting), |time|)
    {
      x := new Item(key, timeout, asm);
      hide Agree, Apart, Bucket, IsKey, NoTwice, Separate, Threaded;
      AgreeAdd(chains, time, x);
      ApartAdd(time, x);
      ApartNoTwice(time);
      var b := Bucket(key);
      AgreeSeparate(chains, time, b);
      InTime(chains, time);
      Join(x, b);
      waiting := waiting + 1;
      if waiting > maxWaiting {
        maxWaiting := waiting;
      }
    }

    /** Takes out the entry at a place of the list. */
    method TakeOut(x: Item, ghost i: nat)
      requires Valid() && i < |time| && time[i] == x
      modifies this`time, this`chains, this`hash, this`order, this`timeFirst, this`timeLast, this`waiting
      modifies table, Items()`next, Items()`prev, Items()`timeNext, Items()`timePrev
      ensures Valid() && Records(time) == old(Records(time))[..i] + old(Records(time))[i + 1..]
    {
      hide Agree, Apart, Threaded, Records, Record, NoTwice, Drop;
      ApartNoTwice(time);
      DropAt(time, i);
      RecordsWithout(time, i);
      RemoveEntry(x);
    }

    /** Puts a fragment into an active entry, or gives the entry up. */
    method Feed(x: Item, ghost i: nat, f: Frag, last: bool) returns (ok: bool)
      requires Valid() && i < |time| && time[i] == x && x.asm.frags != [] && x.active
      modifies this`dropped, x`active, x.asm
      ensures Valid() && Keyed(x) && x.active == ok
      ensures (ok, x.asm.State()) == AddFragment(old(x.asm.State()), f, last)
      ensures Records(time) == old(Records(time))[i := Record(x)]
      ensures dropped == old(dropped) + if ok then 0 else x.asm.fragCount + 1
    {
      hide Agree, Apart, Threaded, AddFragment, NoTwice, Bucket, Keyed, IsKey, Records;
      OthersApart(time, i);
      ghost var items, was := Items(), Records(time);
      ok := x.asm.Accept(f, last);
      if !ok {
        x.active := false;
        dropped := dropped + x.asm.fragCount + 1;
      }
      assert Items() == items;
      RecordsUpdated(time, was, i);
    }

    /** Offers a fragment to an active entry, and gives the entry out if that completes it. */
    method DeliverActive(x: Item, ghost i: nat, f: Frag, last: bool) returns (out: Option<Item>)
      requires Valid() && i < |time| && time[i] == x && x.asm.frags != [] && x.active
      modifies this, table, Items()`next, Items()`prev, Items()`timeNext, Items()`timePrev, x`active, x.asm
      ensures Valid()
      ensures out.Some? ==> out.value == x && Keyed(x)
      ensures (Value(), if out.Some? then Some(x.asm.State()) else None) == Offer(old(Value()), i, f, last)
    {
      hide Agree, Apart, Threaded, AddFragment, NoTwice, Bucket, Keyed, IsKey, Records;
      var ok := Feed(x, i, f, last);
      out := None;
      if ok && x.asm.holes == 0 {
        TakeOut(x, i);
        out := Some(x);
      }
    }

    /** Offers a fragment to an entry. */
    method Deliver(x: Item, ghost i: nat, f: Frag, last: bool) returns (out: Option<Item>)
      requires Valid() && i < |time| && time[i] == x && x.asm.frags != []
      modifies this, table, Items()`next, Items()`prev, Items()`timeNext, Items()`timePrev, x`active, x.asm
      ensures Valid()
      ensures out.Some? ==> out.value == x && Keyed(x)
      ensures (Value(), if out.Some? then Some(x.asm.State()) else None) == Offer(old(Value()), i, f, last)
    {
      hide Agree, Apart, Threaded, AddFragment, NoTwice, Bucket, Keyed, IsKey, Records;
      if x.active {
        out := DeliverActive(x, i, f, last);
      } else {
        dropped := dropped + 1;
        out := None;
      }
    }

    /** Where the abstract table finds the entry for a key. */
    ghost method Locate(key: Key, found: Item?) returns (i: nat)
      requires Valid()
      requires if found != null then found in time && found.key == key
               else forall k :: 0 <= k < |time| ==> time[k].key != key
      ensures i == Find(Records(time), key) <= |time|
      ensures found != null <==> i < |time|
      ensures found != null ==> time[i] == found
    {
      hide Agree, Threaded, Records, Record, IsKey;
      var recs := Records(time);
      KeysOf(time);
      i := Find(recs, key);
      if found != null {
        var k :| 0 <= k < |time| && time[k] == found;
        assert recs[k].key == key;
      }
    }

    /** An entry for a key that has none. */
    method Make(x: Input, now: int) returns (item: Item)
      requires Valid() && IsKey(x.key) && IsHead(x.head)
      requires forall k :: 0 <= k < |time| ==> time[k].key != x.key
      modifies this`time, this`chains, this`hash, this`order, this`timeFirst, this`timeLast, this`waiting, this`maxWaiting
      modifies table, Items()`next, Items()`prev, Items()`timeNext, Items()`timePrev
      ensures Valid() && time == old(time) + [item] && fresh(item) && fresh(item.asm) && item.key == x.key
      ensures Records(time) == old(Records(time)) + [Rec(x.key, now + ttl, true, Fresh(x.head))]
      ensures maxWaiting == Max(old(maxWaiting), |time|)
    {
      hide Agree, Apart, Threaded, IsKey, Records;
      ghost var list := time;
      var asm := new Entry(ProtoOf(x.key), x.head);
      item := AddEntry(x.key, now + ttl, asm);
      RecordsAppend(list, item);
    }

    /** The entry for a key, made if there is none. */
    method Obtain(x: Input, now: int) returns (item: Item, ghost i: nat)
      requires Valid() && IsKey(x.key) && IsHead(x.head)
      modifies this`time, this`chains, this`hash, this`order, this`timeFirst, this`timeLast, this`waiting, this`maxWaiting
      modifies table, Items()`next, Items()`prev, Items()`timeNext, Items()`timePrev
      ensures Valid() && i < |time| && time[i] == item
      ensures time == old(time) || (time == old(time) + [item] && fresh(item) && fresh(item.asm))
      ensures Value() == Enter(old(Value()), x.key, x.head, now + ttl)
      ensures i == Find(Records(time), x.key)
    {
      hide Valid, Agree, Apart, IsKey, Records, Record, Fresh, Find, IsHead;
      var found := Search(x.key);
      i := Locate(x.key, found);
      if found != null {
        item := found;
      } else {
        item := Make(x, now);
        i := Locate(x.key, item);
      }
    }

    /** A fragment goes to the entry for its key. */
    method NextFragment(x: Input, now: int) returns (out: Option<Item>)
      requires Valid() && HasHeads(Records(time))
      requires IsKey(x.key) && IsHead(x.head)
      modifies this, table, Items(), set x | x in time :: x.asm
      ensures Valid() && (out.Some? ==> out.value.key == x.key && Keyed(out.value))
      ensures var t := Enter(old(Value()), x.key, x.head, now + ttl);
              var i := Find(t.recs, x.key);
              t.recs[i].asm.frags != [] &&
              (Value(), if out.Some? then Some(out.value.asm.State()) else None) == Offer(t, i, x.frag, x.last)
    {
      hide Agree, Apart, Threaded, IsKey, Enter, Offer, Find;
      var item, i := Obtain(x, now);
      ghost var t := Value();
      assert HasHeads(t.recs);
      assert t.recs[i] == Record(item);
      out := Deliver(item, i, x.frag, x.last);
    }

    /** One packet: what expired is dropped, and a fragment goes to the entry for its key. */
    method Next(now: int, input: Option<Input>) returns (recognized: bool, out: Option<Item>)
      requires Valid() && HasHeads(Records(time))
      requires input.Some? ==> IsKey(input.value.key) && IsHead(input.value.head)
      modifies this, table, Items(), set x | x in time :: x.asm
      ensures Valid() && (out.Some? ==> input.Some? && out.value.key == input.value.key && Keyed(out.value))
      ensures recognized == input.Some?
      ensures (Value(), if out.Some? then Some(out.value.asm.State()) else None) == Step(old(Value()), ttl, Event(now, input))
    {
      hide Agree, Apart, IsKey, Expire, Enter, Offer, Find, Valid, Records, HasHeads, Agree;
      ProcessTimeouts(now);
      if input == None {
        return false, None;
      }
      out := NextFragment(input.value, now);
      recognized := true;
    }
  }
}
