/** The fragments a stream is waiting to complete. */
module FragStore {
  import opened Wrappers
  import opened Words
  import opened FragSpec
  import opened RbTree
  import Lookup3
  import RbSpec
  import RbOrder
  import ReasmEntry

  /** A key as the tree compares it: the bytes of the key structure in memory order. */
  function KeyBytes(key: Key): seq<Byte> {
    Lookup3.BytesOf([key.id, key.crc]) + key.addr
  }

  lemma KeyBytesDiffer(k1: Key, k2: Key)
    requires KeyBytes(k1) == KeyBytes(k2)
    ensures k1 == k2
  {
    var w1, w2 := [k1.id, k1.crc], [k2.id, k2.crc];
    assert Lookup3.BytesOf(w1) == KeyBytes(k1)[..8];
    assert Lookup3.BytesOf(w2) == KeyBytes(k2)[..8];
    assert k1.addr == KeyBytes(k1)[8..] && k2.addr == KeyBytes(k2)[8..];
    Lookup3.WordsOfBytes(w1);
    Lookup3.WordsOfBytes(w2);
    assert w1[0] == w2[0] && w1[1] == w2[1];
  }

  /** An incomplete container, linked into the tree by a node of its own. */
  class FragEnt {
    const link: RbSpec.Node
    const key: Key
    const last: nat
    const ts: int
    var rem: nat
    var frags: seq<seq<Byte>>

    ghost function State(): Ent
      reads this
    {
      Ent(last, rem, ts, frags)
    }

    constructor (key: Key, last: nat, ts: int)
      ensures this.key == key && State() == Fresh(last, ts)
      ensures fresh(link) && link.key == KeyBytes(key)
    {
      this.key, this.last, this.ts := key, last, ts;
      rem, frags := last + 1, Blank(last + 1);
      link := new RbSpec.Node(KeyBytes(key));
    }
  }

  function Sizes(parts: seq<seq<Byte>>): nat {
    if parts == [] then 0 else Sizes(parts[..|parts| - 1]) + |parts[|parts| - 1]|
  }

  lemma {:induction false} SizesGrow(parts: seq<seq<Byte>>, i: nat)
    requires i < |parts|
    ensures Sizes(parts[..i + 1]) == Sizes(parts[..i]) + |parts[i]|
    ensures Sizes(parts[..i + 1]) <= Sizes(parts)
    decreases |parts|
  {
    assert parts[..i + 1][..i] == parts[..i];
    if i < |parts| - 1 {
      var m := |parts| - 1;
      SizesGrow(parts[..m], i);
      assert parts[..m][..i + 1] == parts[..i + 1];
    } else {
      assert parts[..i + 1] == parts;
    }
  }

  /** Joins the parts in a buffer of whole kilobytes. */
  method Join(parts: seq<seq<Byte>>) returns (payload: array<Byte>, len: nat)
    ensures fresh(payload) && len <= payload.Length && payload.Length % 1024 == 0 && payload.Length < len + 1024
    ensures payload[..len] == Concat(parts)
  {
    len := 0;
    var i := 0;
    assert parts[..0] == [];
    while i < |parts|
      invariant i <= |parts| && len == Sizes(parts[..i])
    {
      SizesGrow(parts, i);
      len := len + |parts[i]|;
      i := i + 1;
    }
    assert parts[..i] == parts;
    var padded := len;
    if len % 1024 != 0 {
      padded := padded + (1024 - len % 1024);
    }
    payload := new Byte[padded](_ => 0);
    var ptr := 0;
    i := 0;
    while i < |parts|
      invariant i <= |parts| && ptr == Sizes(parts[..i]) && ptr <= len
      invariant payload[..ptr] == Concat(parts[..i])
    {
      SizesGrow(parts, i);
      ghost var before := payload[..ptr];
      ReasmEntry.MemCpy(payload, ptr, parts[i]);
      assert payload[..ptr + |parts[i]|] == before + parts[i];
      assert parts[..i + 1][..i] == parts[..i];
      ptr := ptr + |parts[i]|;
      i := i + 1;
    }
    assert parts[..i] == parts;
  }

  ghost function States(tree: map<Key, FragEnt>): map<Key, Ent>
    reads tree.Values
  {
    map k | k in tree :: tree[k].State()
  }

  lemma PutTwice(m: map<Key, Ent>, key: Key, e: Ent, e': Ent)
    ensures m[key := e][key := e'] == m[key := e']
    ensures m[key := e] - {key} == m - {key}
  {
  }

  /** The nodes in the tree belong to the entries, one each, and have their keys. */
  ghost predicate Indexed(nodes: seq<RbSpec.Node>, owner: map<RbSpec.Node, FragEnt>, ents: map<Key, FragEnt>) {
    && (forall n :: n in nodes ==> n in owner)
    && (forall n :: n in owner ==> n in nodes && Owns(owner[n], n) && owner[n].key in ents && ents[owner[n].key] == owner[n])
    && (forall k :: k in ents ==> ents[k].key == k && ents[k].link in owner && owner[ents[k].link] == ents[k])
  }

  predicate Owns(e: FragEnt, n: RbSpec.Node) {
    e.link == n && n.key == KeyBytes(e.key)
  }

  lemma FoundIs(nodes: seq<RbSpec.Node>, owner: map<RbSpec.Node, FragEnt>, ents: map<Key, FragEnt>, n: RbSpec.Node, key: Key)
    requires Indexed(nodes, owner, ents) && n in nodes && n.key == KeyBytes(key)
    ensures n in owner && key in ents && ents[key] == owner[n]
  {
    hide KeyBytes;
    KeyBytesDiffer(owner[n].key, key);
  }

  lemma NotFoundIs(nodes: seq<RbSpec.Node>, owner: map<RbSpec.Node, FragEnt>, ents: map<Key, FragEnt>, key: Key)
    requires Indexed(nodes, owner, ents) && forall n :: n in nodes ==> n.key != KeyBytes(key)
    ensures key !in ents
  {
    hide KeyBytes;
  }

  lemma IndexedWith(nodes: seq<RbSpec.Node>, owner: map<RbSpec.Node, FragEnt>, ents: map<Key, FragEnt>, e: FragEnt, i: nat)
    requires Indexed(nodes, owner, ents) && e.key !in ents && e.link !in nodes && Owns(e, e.link) && i <= |nodes|
    ensures Indexed(nodes[..i] + [e.link] + nodes[i..], owner[e.link := e], ents[e.key := e])
  {
    hide KeyBytes, Owns;
    var after := nodes[..i] + [e.link] + nodes[i..];
    forall n | n in owner || n == e.link
      ensures n in after
    {
      if n != e.link {
        var j :| 0 <= j < |nodes| && nodes[j] == n;
        assert after[if j < i then j else j + 1] == n;
      } else {
        assert after[i] == n;
      }
    }
    forall n | n in after
      ensures n in owner[e.link := e]
    {
      assert n in nodes || n == e.link;
    }
  }

  lemma IndexedWithout(nodes: seq<RbSpec.Node>, owner: map<RbSpec.Node, FragEnt>, ents: map<Key, FragEnt>, e: FragEnt, i: nat)
    requires Indexed(nodes, owner, ents) && RbOrder.Sorted(nodes) && i < |nodes| && nodes[i] == e.link
    requires e.key in ents && ents[e.key] == e
    ensures Indexed(nodes[..i] + nodes[i + 1..], owner - {e.link}, ents - {e.key})
  {
    hide KeyBytes, RbOrder.Sorted;
    var after := nodes[..i] + nodes[i + 1..];
    NotAgain(nodes, i);
    forall n | n in owner && n != e.link
      ensures n in after
    {
      var j :| 0 <= j < |nodes| && nodes[j] == n;
      assert after[if j < i then j else j - 1] == n;
    }
  }

  /** The nodes of stale entries. */
  ghost function Gone(owner: map<RbSpec.Node, FragEnt>, now: int): set<RbSpec.Node> {
    set n | n in owner && now - owner[n].ts >= GC_INTERVAL
  }

  lemma InGone(owner: map<RbSpec.Node, FragEnt>, now: int, n: RbSpec.Node)
    requires n in owner
    ensures n in Gone(owner, now) <==> now - owner[n].ts >= GC_INTERVAL
  {
  }

  /** The entries without the stale ones whose nodes were passed. */
  ghost function Rest(was: map<Key, FragEnt>, passed: seq<RbSpec.Node>, now: int): map<Key, FragEnt> {
    map k | k in was && !(now - was[k].ts >= GC_INTERVAL && was[k].link in passed) :: was[k]
  }

  lemma RestNone(was: map<Key, FragEnt>, now: int)
    ensures Rest(was, [], now) == was
  {
  }

  lemma RestAll(nodes: seq<RbSpec.Node>, owner: map<RbSpec.Node, FragEnt>, was: map<Key, FragEnt>, now: int)
    requires Indexed(nodes, owner, was)
    ensures Rest(was, nodes, now) == map k | k in was && now - was[k].ts < GC_INTERVAL :: was[k]
  {
  }

  lemma RestStep(nodes: seq<RbSpec.Node>, owner: map<RbSpec.Node, FragEnt>, was: map<Key, FragEnt>, now: int, i: nat)
    requires Indexed(nodes, owner, was) && i < |nodes|
    ensures nodes[i] in owner
    ensures var e := owner[nodes[i]]; var rest := Rest(was, nodes[..i], now);
            Rest(was, nodes[..i + 1], now) == if now - e.ts >= GC_INTERVAL then rest - {e.key} else rest
  {
    hide KeyBytes;
    var e := owner[nodes[i]];
    assert nodes[..i + 1] == nodes[..i] + [nodes[i]];
    assert Owns(e, nodes[i]);
  }

  class Store {
    const head: Head
    var owner: map<RbSpec.Node, FragEnt> // the structure that a node is the link of
    var nfrags: int
    var lastgc: int
    ghost var ents: map<Key, FragEnt>

    ghost predicate Valid()
      reads this`owner, this`ents, head, head.Dom()
    {
      head.Valid() && Indexed(head.Contents(), owner, ents)
    }

    ghost function Value(): Stream
      reads this, ents.Values
    {
      Stream(States(ents), nfrags, lastgc)
    }

    constructor ()
      ensures Valid() && ents == map[] && nfrags == 0 && lastgc == 0 && fresh(head) && head.Dom() == {}
    {
      head := new Head();
      owner, ents, nfrags, lastgc := map[], map[], 0, 0;
    }

    /** Looks for the entry with a key in the tree. */
    method Search(key: Key) returns (ent: Option<FragEnt>)
      requires Valid()
      ensures ent == if key in ents then Some(ents[key]) else None
    {
      hide Indexed, KeyBytes;
      var find := new RbSpec.Node(KeyBytes(key));
      var found := head.Find(find);
      if found != null {
        FoundIs(head.Contents(), owner, ents, found, key);
        return Some(owner[found]);
      }
      NotFoundIs(head.Contents(), owner, ents, key);
      ent := None;
    }

    /** Makes an entry for a key that has none. */
    method Add(key: Key, last: nat, now: int) returns (ent: FragEnt)
      requires Valid() && key !in ents
      modifies this`owner, this`ents, this`nfrags, head, head.Dom()
      ensures Valid() && fresh(ent) && fresh(head.Dom() - old(head.Dom()))
      ensures ent.key == key && ent.State() == Fresh(last, now)
      ensures ents == old(ents)[key := ent] && nfrags == old(nfrags) + 1
    {
      hide Indexed, Head.Valid, KeyBytes;
      ent := new FragEnt(key, last, now);
      ghost var nodes := head.Contents();
      NoNode(ent, nodes);
      var found, i := head.Insert(ent.link);
      IndexedWith(nodes, owner, ents, ent, i);
      owner, ents := owner[ent.link := ent], ents[key := ent];
      nfrags := nfrags + 1;
    }

    lemma NoNode(ent: FragEnt, nodes: seq<RbSpec.Node>)
      requires Valid() && nodes == head.Contents() && ent.key !in ents && ent.link.key == KeyBytes(ent.key)
      ensures forall n :: n in nodes ==> n.key != ent.link.key && n != ent.link
    {
      hide KeyBytes;
      forall n | n in nodes
        ensures n.key != ent.link.key
      {
        if n.key == KeyBytes(ent.key) {
          FoundIs(nodes, owner, ents, n, ent.key);
        }
      }
    }

    /** Takes an entry out. */
    method Remove(ent: FragEnt) returns (ghost i: nat)
      requires Valid() && ent.key in ents && ents[ent.key] == ent
      modifies this`owner, this`ents, this`nfrags, head, head.Dom()
      ensures Valid() && head.Dom() <= old(head.Dom())
      ensures ents == old(ents) - {ent.key} && owner == old(owner) - {ent.link} && nfrags == old(nfrags) - 1
      ensures i < |old(head.Contents())| && old(head.Contents())[i] == ent.link
      ensures head.Contents() == old(head.Contents())[..i] + old(head.Contents())[i + 1..]
    {
      hide KeyBytes, Head.Valid, Indexed;
      LinkIsIn(ent);
      ghost var nodes := head.Contents();
      head.InOrder();
      nfrags := nfrags - 1;
      i := head.Remove(ent.link);
      IndexedWithout(nodes, owner, ents, ent, i);
      owner, ents := owner - {ent.link}, ents - {ent.key};
    }

    lemma LinkIsIn(ent: FragEnt)
      requires Valid() && ent.key in ents && ents[ent.key] == ent
      ensures ent.link in head.Contents() && ent.link in owner && owner[ent.link] == ent
    {
    }

    /** Finds the entry for a key, or makes one. */
    method Obtain(key: Key, last: nat, now: int) returns (ent: FragEnt)
      requires Valid()
      modifies this`owner, this`ents, this`nfrags, head, head.Dom()
      ensures Valid() && key in ents && ents[key] == ent && fresh(head.Dom() - old(head.Dom()))
      ensures ent.State() == Entry(old(Value()), key, last, now)
      ensures if key in old(ents) then ents == old(ents) && nfrags == old(nfrags)
              else fresh(ent) && ents == old(ents)[key := ent] && nfrags == old(nfrags) + 1
    {
      hide Valid, Fresh, KeyBytes;
      KeysAre();
      var found := Search(key);
      match found {
        case Some(e) => ent := e;
        case None => ent := Add(key, last, now);
      }
    }

    lemma KeysAre()
      requires Valid()
      ensures forall k :: k in ents ==> ents[k].key == k
    {
    }

    /** Puts a fragment into its entry; the entry is taken out when it was the last missing. */
    method Attach(ent: FragEnt, f: Fragment) returns (out: Outcome)
      requires Valid() && ent.key in ents && ents[ent.key] == ent && EntOk(ent.State()) && f.current < |ent.frags|
      modifies this`owner, this`ents, this`nfrags, head, head.Dom(), ent`rem, ent`frags
      ensures Valid() && head.Dom() <= old(head.Dom())
      ensures var (r, o) := Accept(old(ent.State()), f);
              && out == o
              && (r.Some? ==> ents == old(ents) && nfrags == old(nfrags) && ent.State() == r.value)
              && (r == None ==> ents == old(ents) - {ent.key} && nfrags == old(nfrags) - 1)
    {
      hide Valid, KeyBytes;
      if ent.frags[f.current] != [] {
        return Again;
      }
      ent.frags := ent.frags[f.current := f.data];
      ent.rem := ent.rem - 1;
      if ent.rem > 0 {
        return Again;
      }
      if [] in ent.frags {
        return Abort;
      }
      var payload, len := Join(ent.frags);
      out := Done(payload[..len]);
      var _ := Remove(ent);
    }

    /** A fragment comes in. */
    method ReadFragment(addr: seq<Byte>, f: Fragment, now: int) returns (out: Outcome)
      requires Valid() && Sound(Value()) && f.current <= f.last
      modifies this`owner, this`ents, this`nfrags, head, head.Dom(), ents.Values
      ensures Valid() && fresh(head.Dom() - old(head.Dom()))
      ensures out == Read(old(Value()), Key(f.id, f.crc, addr), f, now).1
      ensures out != Abort ==> Value() == Read(old(Value()), Key(f.id, f.crc, addr), f, now).0
    {
      hide Valid, Accept, EntOk, Entry, Sound, Read;
      var key := Key(f.id, f.crc, addr);
      ghost var was := Value();
      EntryOk(was, key, f.last, now);
      ReadIs(was, key, f, now);
      hide States;
      var ent := ObtainEntry(key, f.last, now);
      if ent.last != f.last {
        return Abort;
      }
      EntSize(ent.State());
      out := AttachFragment(ent, f);
    }

    /** The entry for a key, seen from all entries. */
    method ObtainEntry(key: Key, last: nat, now: int) returns (ent: FragEnt)
      requires Valid()
      modifies this`owner, this`ents, this`nfrags, head, head.Dom()
      ensures Valid() && key in ents && ents[key] == ent && ent.key == key && fresh(head.Dom() - old(head.Dom()))
      ensures ent in old(ents.Values) || fresh(ent)
      ensures ent.State() == Entry(old(Value()), key, last, now)
      ensures States(ents) == old(States(ents))[key := ent.State()]
      ensures nfrags == if key in old(States(ents)) then old(nfrags) else old(nfrags) + 1
    {
      hide Valid, Entry;
      ghost var was := States(ents);
      ent := Obtain(key, last, now);
      KeysAre();
      assert States(ents) == was[key := ent.State()];
    }

    /** The same, seen from all entries. */
    method AttachFragment(ent: FragEnt, f: Fragment) returns (out: Outcome)
      requires Valid() && ent.key in ents && ents[ent.key] == ent && EntOk(ent.State()) && f.current < |ent.frags|
      modifies this`owner, this`ents, this`nfrags, head, head.Dom(), ent`rem, ent`frags
      ensures Valid() && head.Dom() <= old(head.Dom())
      ensures var (r, o) := Accept(old(ent.State()), f);
              && out == o
              && States(ents) == (if r.Some? then old(States(ents))[ent.key := r.value] else old(States(ents)) - {ent.key})
              && nfrags == if r.Some? then old(nfrags) else old(nfrags) - 1
    {
      hide Valid, Accept, EntOk;
      KeysAre();
      ghost var t, list := States(ents), ents;
      out := Attach(ent, f);
      assert States(list) == t[ent.key := ent.State()];
      assert States(list - {ent.key}) == t - {ent.key};
    }

    lemma ReadIs(s: Stream, key: Key, f: Fragment, now: int)
      requires Sound(s) && f.current <= f.last
      ensures var e := Entry(s, key, f.last, now);
              var nfrags := if key in s.ents then s.nfrags else s.nfrags + 1;
              if e.last != f.last then Read(s, key, f, now).1 == Abort
              else
                EntOk(e) && |e.frags| == e.last + 1 && e.rem > 0 &&
                var (r, out) := Accept(e, f);
                var ents := s.ents[key := e];
                Read(s, key, f, now) ==
                (if r.Some? then s.(ents := ents[key := r.value], nfrags := nfrags)
                 else s.(ents := ents - {key}, nfrags := nfrags - 1), out)
    {
      hide Sound, Accept, Entry, EntOk;
      EntryOk(s, key, f.last, now);
      var e := Entry(s, key, f.last, now);
      EntSize(e);
      if e.last == f.last {
        PutTwice(s.ents, key, e, if Accept(e, f).0.Some? then Accept(e, f).0.value else e);
      }
    }

    // ---------- Garbage ----------

    /** The tree as far as it was gone through: the first `i` of its nodes were passed, and of their
    entries in `was` the stale ones have been taken out. */
    ghost predicate Sweeping(nodes: seq<RbSpec.Node>, from: map<RbSpec.Node, FragEnt>, was: map<Key, FragEnt>, i: nat, now: int)
      reads this`owner, this`ents, head, head.Dom()
    {
      && Valid() && i <= |nodes| && Indexed(nodes, from, was)
      && head.Contents() == RbOrder.Kept(nodes[..i], Gone(from, now)) + nodes[i..]
      && ents == Rest(was, nodes[..i], now)
      && forall x :: x in owner ==> x in from && owner[x] == from[x]
    }

    /** Goes through the tree from the first node to the last and takes out the entries that have
    waited for 30 seconds. */
    method DropOld(now: int)
      requires Valid()
      modifies this`owner, this`ents, this`nfrags, head, head.Dom()
      ensures Valid() && head.Dom() <= old(head.Dom())
      ensures ents == map k | k in old(ents) && now - old(ents)[k].ts < GC_INTERVAL :: old(ents)[k]
      ensures nfrags == old(nfrags) - |old(ents)| + |ents|
    {
      hide Valid, Sweeping;
      ghost var was, from, nodes, i := ents, owner, head.Contents(), 0;
      SweepStarts(now);
      var n := head.MinMax(RbSpec.L);
      while n != null
        invariant Sweeping(nodes, from, was, i, now) && i <= |nodes| && head.Dom() <= old(head.Dom())
        invariant n == if i < |nodes| then nodes[i] else null
        invariant nfrags == old(nfrags) - |was| + |ents|
        decreases |nodes| - i
      {
        n := DropNext(n, now, was, from, nodes, i);
        i := i + 1;
      }
      SweepEnds(nodes, from, was, now);
    }

    lemma SweepStarts(now: int)
      requires Valid()
      ensures head.Valid() && Sweeping(head.Contents(), owner, ents, 0, now)
    {
      hide Head.Valid, Indexed, RbOrder.Kept;
      KeptNone(Gone(owner, now));
      RestNone(ents, now);
      assert head.Contents()[..0] == [];
    }

    lemma SweepEnds(nodes: seq<RbSpec.Node>, from: map<RbSpec.Node, FragEnt>, was: map<Key, FragEnt>, now: int)
      requires Sweeping(nodes, from, was, |nodes|, now)
      ensures Valid() && ents == map k | k in was && now - was[k].ts < GC_INTERVAL :: was[k]
    {
      hide Valid, Indexed, Rest;
      assert nodes[..|nodes|] == nodes;
      RestAll(nodes, from, was, now);
    }

    lemma Starts()
      requires Valid()
      ensures head.Valid() && RbOrder.Sorted(head.Contents()) && Indexed(head.Contents(), owner, ents)
    {
    }

    /** One round: the next node is looked up before this one is taken out. */
    method DropNext(n: RbSpec.Node, now: int, ghost was: map<Key, FragEnt>, ghost from: map<RbSpec.Node, FragEnt>,
                    ghost nodes: seq<RbSpec.Node>, ghost i: nat) returns (next: RbSpec.Node?)
      requires Sweeping(nodes, from, was, i, now) && i < |nodes| && n == nodes[i]
      modifies this`owner, this`ents, this`nfrags, head, head.Dom()
      ensures Sweeping(nodes, from, was, i + 1, now) && head.Dom() <= old(head.Dom())
      ensures nfrags == old(nfrags) - |old(ents)| + |ents|
      ensures next == if i + 1 < |nodes| then nodes[i + 1] else null
    {
      hide Valid, Indexed, RbOrder.Sorted, RbOrder.Kept, Rest, Gone, Sweeping;
      SweepParts(nodes, from, was, i, now);
      next := LookAhead(n, Gone(from, now), nodes, i);
      DropStale(n, now, was, from, nodes, i);
    }

    /** Takes the entry of a node out if it is stale. */
    method DropStale(n: RbSpec.Node, now: int, ghost was: map<Key, FragEnt>, ghost from: map<RbSpec.Node, FragEnt>,
                     ghost nodes: seq<RbSpec.Node>, ghost i: nat)
      requires Sweeping(nodes, from, was, i, now) && i < |nodes| && n == nodes[i]
      requires var half, j := head.Contents(), |RbOrder.Kept(nodes[..i], Gone(from, now))|;
               && j < |half| && half[j] == n
               && RbOrder.Kept(nodes[..i + 1], Gone(from, now)) + nodes[i + 1..] == if n in Gone(from, now) then half[..j] + half[j + 1..] else half
      modifies this`owner, this`ents, this`nfrags, head, head.Dom()
      ensures Sweeping(nodes, from, was, i + 1, now) && head.Dom() <= old(head.Dom())
      ensures nfrags == old(nfrags) - |old(ents)| + |ents|
    {
      hide Valid, Indexed, RbOrder.Kept, Rest, Gone, Sweeping;
      SweepParts(nodes, from, was, i, now);
      Holder(n);
      var ent := owner[n];
      RestStep(nodes, from, was, now, i);
      InGone(from, now, n);
      if now - ent.ts >= GC_INTERVAL {
        DropThis(ent, head.Contents(), |RbOrder.Kept(nodes[..i], Gone(from, now))|);
      }
      SweepMoves(nodes, from, was, i + 1, now);
    }

    lemma SweepParts(nodes: seq<RbSpec.Node>, from: map<RbSpec.Node, FragEnt>, was: map<Key, FragEnt>, i: nat, now: int)
      requires Sweeping(nodes, from, was, i, now) && i < |nodes|
      ensures Valid() && Indexed(nodes, from, was) && ents == Rest(was, nodes[..i], now)
      ensures head.Contents() == RbOrder.Kept(nodes[..i], Gone(from, now)) + nodes[i..] && nodes[i] in head.Contents()
      ensures forall x :: x in owner ==> x in from && owner[x] == from[x]
    {
      hide Valid, Indexed, RbOrder.Kept, Rest, Gone;
      assert nodes[i..][0] == nodes[i];
    }

    lemma SweepMoves(nodes: seq<RbSpec.Node>, from: map<RbSpec.Node, FragEnt>, was: map<Key, FragEnt>, i: nat, now: int)
      requires i <= |nodes| && Valid() && Indexed(nodes, from, was) && ents == Rest(was, nodes[..i], now)
      requires head.Contents() == RbOrder.Kept(nodes[..i], Gone(from, now)) + nodes[i..]
      requires forall x :: x in owner ==> x in from && owner[x] == from[x]
      ensures Sweeping(nodes, from, was, i, now)
    {
    }

    /** The next node, and what the list of nodes will be without this one, or with it. */
    method LookAhead(n: RbSpec.Node, ghost gone: set<RbSpec.Node>, ghost nodes: seq<RbSpec.Node>, ghost i: nat) returns (next: RbSpec.Node?)
      requires Valid() && i < |nodes| && n == nodes[i] && head.Contents() == RbOrder.Kept(nodes[..i], gone) + nodes[i..]
      ensures next == if i + 1 < |nodes| then nodes[i + 1] else null
      ensures var half, j := head.Contents(), |RbOrder.Kept(nodes[..i], gone)|;
              && j < |half| && half[j] == n
              && RbOrder.Kept(nodes[..i + 1], gone) + nodes[i + 1..] == if n in gone then half[..j] + half[j + 1..] else half
    {
      hide Valid, Indexed, RbOrder.Sorted, RbOrder.Kept;
      ghost var half, j := head.Contents(), |RbOrder.Kept(nodes[..i], gone)|;
      RbOrder.SweepStep(nodes, gone, i);
      Starts();
      next := head.Next(n);
      RbOrder.SortedOnce(half, RbOrder.Place(half, n), j);
    }

    /** Takes out the entry whose node is at place `j`. */
    method DropThis(ent: FragEnt, ghost half: seq<RbSpec.Node>, ghost j: nat)
      requires Valid() && ent.key in ents && ents[ent.key] == ent
      requires half == head.Contents() && j < |half| && half[j] == ent.link
      modifies this`owner, this`ents, this`nfrags, head, head.Dom()
      ensures Valid() && head.Dom() <= old(head.Dom())
      ensures ents == old(ents) - {ent.key} && owner == old(owner) - {ent.link}
      ensures nfrags == old(nfrags) - |old(ents)| + |ents|
      ensures head.Contents() == half[..j] + half[j + 1..]
    {
      hide Valid, RbOrder.Sorted;
      LinkIsIn(ent);
      InOrder();
      SizeWithout(ents, ent.key);
      ghost var k := Remove(ent);
      RbOrder.SortedOnce(half, k, j);
    }

    lemma InOrder()
      requires Valid()
      ensures RbOrder.Sorted(head.Contents())
    {
    }

    lemma SizeWithout(m: map<Key, FragEnt>, k: Key)
      requires k in m
      ensures |m - {k}| == |m| - 1
    {
      assert (m - {k}).Keys == m.Keys - {k};
    }

    /** The entry of a node in the tree. */
    lemma Holder(n: RbSpec.Node)
      requires Valid() && n in head.Contents()
      ensures n in owner && owner[n].link == n && owner[n].key in ents && ents[owner[n].key] == owner[n]
    {
      hide Head.Valid;
    }

    /** Collects garbage, if it was not done in the last 30 seconds. */
    method CollectGarbage(now: int)
      requires Valid()
      modifies this, head, head.Dom()
      ensures Valid() && head.Dom() <= old(head.Dom()) && Value() == Gc(old(Value()), now)
    {
      hide Valid, Gc, States, Old;
      ghost var s := Value();
      if !(nfrags > 0 && now - lastgc >= GC_INTERVAL) {
        Idle(s, now);
        return;
      }
      DropStates(now);
      lastgc := now;
      KeptIs(s, States(ents), nfrags, now);
    }

    lemma Idle(s: Stream, now: int)
      requires !(s.nfrags > 0 && now - s.lastgc >= GC_INTERVAL)
      ensures Gc(s, now) == s
    {
    }

    /** The same, seen from the states of the entries. */
    method DropStates(now: int)
      requires Valid()
      modifies this`owner, this`ents, this`nfrags, head, head.Dom()
      ensures Valid() && head.Dom() <= old(head.Dom())
      ensures States(ents) == map k | k in old(States(ents)) && !Old(old(States(ents))[k], now) :: old(States(ents))[k]
      ensures nfrags == old(nfrags) - |old(States(ents))| + |States(ents)|
    {
      hide Valid;
      ghost var list, was := ents, States(ents);
      DropOld(now);
      assert States(list) == was;
      hide States;
      KeptStates(list, ents, now);
    }

    lemma KeptStates(list: map<Key, FragEnt>, kept: map<Key, FragEnt>, now: int)
      requires kept == map k | k in list && now - list[k].ts < GC_INTERVAL :: list[k]
      ensures States(kept) == map k | k in States(list) && !Old(States(list)[k], now) :: States(list)[k]
      ensures |States(kept)| == |kept| && |States(list)| == |list|
    {
      assert States(kept).Keys == kept.Keys && States(list).Keys == list.Keys;
    }

    lemma KeptIs(s: Stream, kept: map<Key, Ent>, nfrags: int, now: int)
      requires s.nfrags > 0 && now - s.lastgc >= GC_INTERVAL
      requires kept == map k | k in s.ents && !Old(s.ents[k], now) :: s.ents[k]
      requires nfrags == s.nfrags - |s.ents| + |kept|
      ensures Stream(kept, nfrags, now) == Gc(s, now)
    {
    }
  }
}
