/** The sets of names that filter messages: open addressing without deletion. */
module DnsqrFilter {
  import opened Wrappers
  import opened Words
  import opened ProbeTable
  import Lookup3

  type Name = seq<Byte>

  class FilterTable {
    const numSlots: nat
    const home: Name -> nat
    const table: array<Option<Name>>
    ghost var names: set<Name>
    ghost var inserted: nat
    ghost var view: seq<Slot>

    ghost predicate Valid()
      reads this, table
    {
      && table.Length == numSlots == |view| > 0
      && (forall x :: home(x) < numSlots)
      && inserted == NumFull(view)
      && (forall s :: 0 <= s < numSlots ==> view[s] == if table[s].None? then Empty else Full(home(table[s].value), 0))
      && (forall s :: 0 <= s < numSlots && table[s].Some? ==> table[s].value in names)
      && (forall x :: x in names ==> exists s :: 0 <= s < numSlots && table[s] == Some(x))
      && Homed(view) && Probes(view)
    }

    constructor (numNames: nat)
      requires numNames >= 1
      ensures Valid() && names == {} && inserted == 0 && numSlots == 2 * numNames
      ensures forall x :: home(x) == Lookup3.HashLittle(x, 0) % numSlots
    {
      var n := 2 * numNames;
      numSlots := n;
      home := x => Lookup3.HashLittle(x, 0) % n;
      table := new Option<Name>[n](_ => None);
      names, inserted, view := {}, 0, seq(n, _ => Empty);
      new;
      NoneFull(view);
    }

    lemma SomeEmpty(start: nat, slot: nat)
      requires Valid() && inserted < numSlots
      requires start < numSlots && slot < numSlots && view[slot].Full?
      requires forall t :: 0 <= t < numSlots && Before(start, t, slot, numSlots) ==> view[t].Full?
      ensures Dist(start, slot, numSlots) < numSlots - 1
      ensures forall t :: 0 <= t < numSlots && Before(start, t, Next(slot, numSlots), numSlots) ==> view[t].Full?
    {
      if Dist(start, slot, numSlots) == numSlots - 1 {
        assert forall t :: 0 <= t < numSlots && t != slot ==> Before(start, t, slot, numSlots);
        AllFull(view);
      }
    }

    /** Everything probed from the home of `name` before `slot` holds another name. */
    ghost predicate Passed(name: Name, slot: nat)
      requires Valid() && slot < numSlots
      reads this, table
    {
      forall t :: 0 <= t < numSlots && Before(home(name), t, slot, numSlots) ==> view[t].Full? && table[t] != Some(name)
    }

    lemma PassNext(name: Name, slot: nat)
      requires Valid() && inserted < numSlots && slot < numSlots && Passed(name, slot)
      requires table[slot].Some? && table[slot].value != name
      ensures Dist(home(name), slot, numSlots) < numSlots - 1
      ensures Passed(name, Next(slot, numSlots))
    {
      hide Homed, Probes, NumFull;
      SomeEmpty(home(name), slot);
    }

    /** Whether a name was inserted. */
    method Lookup(name: Name) returns (hit: bool)
      requires Valid() && inserted < numSlots
      ensures hit == (name in names)
    {
      hide Homed, Probes, NumFull;
      var slot: nat := home(name);
      var slotStop := if slot > 0 then slot - 1 else numSlots - 1;
      while table[slot].Some? && table[slot].value != name
        invariant slot < numSlots
        invariant Passed(name, slot)
        decreases numSlots - Dist(home(name), slot, numSlots)
      {
        PassNext(name, slot);
        assert slot != slotStop;
        slot := slot + 1;
        if slot >= numSlots {
          slot := 0;
        }
      }
      hit := table[slot].Some?;
      if !hit {
        NotProbed(name, slot);
      }
    }

    /** A name that was inserted is probed before any empty slot. */
    lemma NotProbed(name: Name, slot: nat)
      requires Valid() && slot < numSlots && table[slot].None? && Passed(name, slot)
      ensures name !in names
    {
      assert forall s :: 0 <= s < numSlots && table[s] == Some(name) ==> view[s] == Full(home(name), 0);
    }

    method Insert(name: Name)
      requires Valid() && inserted < numSlots
      modifies this, table
      ensures Valid() && names == old(names) + {name} && inserted == old(inserted) + 1
    {
      hide Homed, Probes, NumFull;
      var slot := FindEmpty(home(name));
      FillKeeps(view, home(name), slot, 0);
      NumFullUpdate(view, slot, Full(home(name), 0));
      table[slot] := Some(name);
      names, inserted, view := names + {name}, inserted + 1, view[slot := Full(home(name), 0)];
      assert forall s :: 0 <= s < numSlots && s != slot ==> table[s] == old(table[s]);
      assert table[slot] == Some(name);
    }

    method FindEmpty(start: nat) returns (slot: nat)
      requires Valid() && inserted < numSlots && start < numSlots
      ensures slot < numSlots && view[slot].Empty?
      ensures forall t :: 0 <= t < numSlots && Before(start, t, slot, numSlots) ==> view[t].Full?
    {
      slot := start;
      var slotStop := if slot > 0 then slot - 1 else numSlots - 1;
      while table[slot].Some?
        invariant slot < numSlots
        invariant forall t :: 0 <= t < numSlots && Before(start, t, slot, numSlots) ==> view[t].Full?
        decreases numSlots - Dist(start, slot, numSlots)
      {
        SomeEmpty(start, slot);
        assert slot != slotStop;
        slot := slot + 1;
        if slot >= numSlots {
          slot := 0;
        }
      }
    }
  }
}
