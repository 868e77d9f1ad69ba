/** Open addressing with linear probing and backward-shift deletion, on values.

A table is a sequence of slots. A full slot knows its home slot (hash modulo the table size)
and a stamp that grows with insertion time. The module states the two facts every reachable
table keeps, Probes and Aged, and how single slot updates affect them; it knows nothing about
what is stored. */
module ProbeTable {

  datatype Slot = Empty | Full(home: nat, stamp: nat)

  /** Steps from slot `a` forward to slot `b` around a table of `n` slots. */
  function Dist(a: nat, b: nat, n: nat): (d: nat)
    requires a < n && b < n
  {
    if a <= b then b - a else b - a + n
  }

  function Next(j: nat, n: nat): (k: nat)
    requires j < n
    ensures k < n && (n > 1 ==> Dist(j, k, n) == 1)
  {
    (j + 1) % n
  }

  ghost predicate Homed(v: seq<Slot>) {
    forall s :: 0 <= s < |v| && v[s].Full? ==> v[s].home < |v|
  }

  /** Slot `t` is probed before slot `s` when searching from `home`. */
  predicate Before(home: nat, t: nat, s: nat, n: nat)
    requires home < n && t < n && s < n
  {
    Dist(home, t, n) < Dist(home, s, n)
  }

  /** No empty slot lies between an entry and its home. */
  ghost predicate Probes(v: seq<Slot>)
    requires Homed(v)
  {
    forall s, t :: 0 <= s < |v| && 0 <= t < |v| && v[s].Full? && Before(v[s].home, t, s, |v|) ==> v[t].Full?
  }

  predicate SameHome(v: seq<Slot>, s: nat, t: nat)
    requires s < |v| && t < |v|
  {
    v[s].Full? && v[t].Full? && v[s].home == v[t].home
  }

  /** Entries with the same home are met oldest first. */
  ghost predicate Aged(v: seq<Slot>)
    requires Homed(v)
  {
    forall s, t :: 0 <= s < |v| && 0 <= t < |v| && SameHome(v, s, t) && Before(v[s].home, s, t, |v|) ==>
                     v[s].stamp < v[t].stamp
  }

  /** The state between two moves of a deletion: slot `i` is the hole, the scan has reached `j`.
  Probe paths may cross the hole, but only those of entries the scan has not reached yet. */
  ghost predicate Holed(v: seq<Slot>, i: nat, j: nat)
    requires Homed(v)
    requires i < |v| && j < |v|
  {
    && v[i].Empty?
    && Aged(v)
    && (forall s, t :: 0 <= s < |v| && 0 <= t < |v| && v[s].Full? && Before(v[s].home, t, s, |v|) ==> v[t].Full? || t == i)
    && (forall s :: 0 <= s < |v| && v[s].Full? && Before(v[s].home, i, s, |v|) ==> Dist(i, s, |v|) > Dist(i, j, |v|))
  }

  /** The condition the deletion tests, in the form it is tested: hole `i`, scan `j`, home `k`. */
  predicate MustMove(i: nat, j: nat, k: nat) {
    (j > i && (k <= i || k > j)) || (j < i && (k <= i && k > j))
  }

  lemma MustMoveMeaning(i: nat, j: nat, k: nat, n: nat)
    requires i < n && j < n && k < n && i != j
    ensures MustMove(i, j, k) <==> Before(k, i, j, n)
  {
  }

  lemma HoleOpens(v: seq<Slot>, i: nat)
    requires Homed(v) && Probes(v) && Aged(v)
    requires i < |v| && v[i].Full?
    ensures Homed(v[i := Empty]) && Holed(v[i := Empty], i, i)
  {
  }

  lemma HoleMoves(v: seq<Slot>, i: nat, j: nat)
    requires Homed(v) && i < |v| && j < |v| && Holed(v, i, j)
    requires var k := Next(j, |v|); v[k].Full? && MustMove(i, k, v[k].home)
    ensures var k := Next(j, |v|); var w := v[i := v[k]][k := Empty]; Homed(w) && Holed(w, k, k)
  {
    var n := |v|;
    var k := Next(j, n);
    MustMoveMeaning(i, k, v[k].home, n);
    AgedMoves(v, i, j);
    hide Aged;
  }

  lemma AgedMoves(v: seq<Slot>, i: nat, j: nat)
    requires Homed(v) && i < |v| && j < |v| && Holed(v, i, j)
    requires var k := Next(j, |v|); v[k].Full? && MustMove(i, k, v[k].home)
    ensures var k := Next(j, |v|); var w := v[i := v[k]][k := Empty]; Homed(w) && Aged(w)
  {
    var n := |v|;
    var k := Next(j, n);
    MustMoveMeaning(i, k, v[k].home, n);
    var w := v[i := v[k]][k := Empty];
    forall s, t | 0 <= s < n && 0 <= t < n && SameHome(w, s, t) && Before(w[s].home, s, t, n)
      ensures w[s].stamp < w[t].stamp
    {
    }
  }

  lemma HoleStays(v: seq<Slot>, i: nat, j: nat)
    requires Homed(v) && i < |v| && j < |v| && Holed(v, i, j)
    requires var k := Next(j, |v|); v[k].Full? && !MustMove(i, k, v[k].home)
    ensures Holed(v, i, Next(j, |v|))
  {
    var n := |v|;
    var k := Next(j, n);
    MustMoveMeaning(i, k, v[k].home, n);
  }

  lemma HoleCloses(v: seq<Slot>, i: nat, j: nat)
    requires Homed(v) && i < |v| && j < |v| && Holed(v, i, j)
    requires v[Next(j, |v|)].Empty?
    ensures Probes(v) && Aged(v)
  {
  }

  /** Filling the first empty slot on a probe path keeps all probe paths full. */
  lemma FillKeeps(v: seq<Slot>, home: nat, s: nat, stamp: nat)
    requires Homed(v) && Probes(v)
    requires home < |v| && s < |v| && v[s].Empty?
    requires forall t :: 0 <= t < |v| && Before(home, t, s, |v|) ==> v[t].Full?
    ensures var w := v[s := Full(home, stamp)]; Homed(w) && Probes(w)
  {
  }

  lemma InsertKeeps(v: seq<Slot>, home: nat, s: nat, stamp: nat)
    requires Homed(v) && Probes(v) && Aged(v)
    requires home < |v| && s < |v| && v[s].Empty?
    requires forall t :: 0 <= t < |v| && Before(home, t, s, |v|) ==> v[t].Full?
    requires forall t :: 0 <= t < |v| && v[t].Full? ==> v[t].stamp < stamp
    ensures var w := v[s := Full(home, stamp)]; Homed(w) && Probes(w) && Aged(w)
  {
  }

  function Cost(x: Slot, s: nat, n: nat): (d: nat)
    requires s < n && (x.Full? ==> x.home < n)
  {
    if x.Full? then Dist(x.home, s, n) else 0
  }

  /** How far all entries together sit from home; every move of a deletion makes it smaller. */
  ghost function Displacement(v: seq<Slot>, n: nat, from: nat): (d: nat)
    requires |v| <= n && from <= |v|
    requires forall s :: 0 <= s < |v| && v[s].Full? ==> v[s].home < n
    decreases |v| - from
  {
    if from == |v| then 0
    else Cost(v[from], from, n) + Displacement(v, n, from + 1)
  }

  lemma {:induction false} DisplacementUpdate(v: seq<Slot>, n: nat, from: nat, s: nat, x: Slot)
    requires |v| <= n && from <= |v| && s < |v|
    requires x.Full? ==> x.home < n
    requires forall s :: 0 <= s < |v| && v[s].Full? ==> v[s].home < n
    ensures Displacement(v[s := x], n, from) ==
            Displacement(v, n, from) + (if from <= s then Cost(x, s, n) - Cost(v[s], s, n) else 0)
    decreases |v| - from
  {
    if from < |v| {
      DisplacementUpdate(v, n, from + 1, s, x);
    }
  }

  ghost function TotalDisplacement(v: seq<Slot>): nat
    requires Homed(v)
  {
    Displacement(v, |v|, 0)
  }

  lemma MoveShrinks(v: seq<Slot>, i: nat, k: nat)
    requires Homed(v) && i < |v| && k < |v| && i != k
    requires v[i].Empty? && v[k].Full? && Before(v[k].home, i, k, |v|)
    ensures Homed(v[i := v[k]][k := Empty])
    ensures TotalDisplacement(v[i := v[k]][k := Empty]) < TotalDisplacement(v)
  {
    DisplacementUpdate(v, |v|, 0, i, v[k]);
    DisplacementUpdate(v[i := v[k]], |v|, 0, k, Empty);
  }

  // ---------- Occupancy ----------

  ghost function NumFull(v: seq<Slot>): (k: nat)
    ensures k <= |v|
  {
    if v == [] then 0 else NumFull(v[..|v| - 1]) + (if v[|v| - 1].Full? then 1 else 0)
  }

  lemma {:induction false} NumFullUpdate(v: seq<Slot>, s: nat, x: Slot)
    requires s < |v|
    ensures NumFull(v[s := x]) == NumFull(v) + (if x.Full? then 1 else 0) - (if v[s].Full? then 1 else 0)
  {
    var n := |v| - 1;
    if s == n {
      assert v[s := x][..n] == v[..n];
    } else {
      NumFullUpdate(v[..n], s, x);
      assert v[s := x][..n] == v[..n][s := x];
    }
  }

  lemma {:induction false} AllFull(v: seq<Slot>)
    requires forall s :: 0 <= s < |v| ==> v[s].Full?
    ensures NumFull(v) == |v|
  {
    if v != [] {
      AllFull(v[..|v| - 1]);
    }
  }

  lemma {:induction false} NoneFull(v: seq<Slot>)
    requires forall s :: 0 <= s < |v| ==> v[s].Empty?
    ensures NumFull(v) == 0
  {
    if v != [] {
      NoneFull(v[..|v| - 1]);
    }
  }
}
