/** A ring buffer between one producer and one consumer, which never lock: every interleaving of
their steps. */
module Ring {
  import opened Bits
  import opened Words

  type Item = seq<Byte>

  // ---------- Indices ----------

  /** Sizes for which a ring is made. */
  predicate IsSize(n: Word32) {
    !(n < 2 || And(n - 1, n) != 0)
  }

  function Space(head: Word32, tail: Word32, size: Word32): Word32
    requires size > 0
  {
    AndBound(Sub(tail, Add(head, 1)), size - 1);
    And(Sub(tail, Add(head, 1)), size - 1)
  }

  function Count(head: Word32, tail: Word32, size: Word32): Word32
    requires size > 0
  {
    AndBound(Sub(head, tail), size - 1);
    And(Sub(head, tail), size - 1)
  }

  function Next(i: Word32, size: Word32): Word32
    requires size > 0
  {
    AndBound(Add(i, 1), size - 1);
    And(Add(i, 1), size - 1)
  }

  lemma {:induction false} AndBound(x: nat, y: nat)
    ensures And(x, y) <= y
  {
    if x != 0 && y != 0 {
      AndBound(x / 2, y / 2);
    }
  }

  lemma {:induction false} AndSame(x: nat)
    ensures And(x, x) == x
  {
    if x != 0 {
      AndSame(x / 2);
    }
  }

  /** The sizes are the powers of two from 2 on. */
  lemma {:induction false} PowerOfTwo(n: nat) returns (k: nat)
    requires n > 0
    ensures And(n - 1, n) == 0 <==> n == Pow2(k)
    ensures And(n - 1, n) == 0 ==> n >= 2 ==> k > 0
    ensures forall j: nat :: n == Pow2(j) ==> And(n - 1, n) == 0
  {
    if n == 1 {
      k := 0;
    } else if n % 2 == 0 {
      var m := n / 2;
      assert (n - 1) / 2 == m - 1;
      k := PowerOfTwo(m);
      forall j: nat | n == Pow2(j)
        ensures And(n - 1, n) == 0
      {
        assert m == Pow2(j - 1);
      }
      k := k + 1;
    } else {
      AndSame(n / 2);
      k := 0;
      forall j: nat
        ensures n != Pow2(j)
      {
        OddIsNoPower(n, j);
      }
    }
  }

  lemma OddIsNoPower(n: nat, j: nat)
    requires n > 1 && n % 2 == 1
    ensures n != Pow2(j)
  {
  }

  /** `i` moved on by `d` places. */
  function Moved(i: nat, d: nat, n: nat): nat {
    if i + d < n then i + d else i + d - n
  }

  /** A size divides what a word wraps at. */
  lemma SizeDivides(k: nat)
    requires Pow2(k) < 0x1_0000_0000
    ensures k <= 31 && Pow2(32 - k) * Pow2(k) == 0x1_0000_0000
  {
    Pow2Values();
    if k >= 32 {
      Pow2Grows(32, k);
    } else {
      Pow2Sum(32 - k, k);
    }
  }

  lemma WrapDown(d: nat, n: nat, q: nat)
    requires 0 < d <= n && q > 0 && q * n == 0x1_0000_0000
    ensures d <= 0x1_0000_0000
    ensures (0x1_0000_0000 - d) % n == n - d
  {
    assert q * n >= n;
    assert (q - 1) * n == q * n - n;
    if d == n {
      DivModUnique(0x1_0000_0000 - d, n, q - 1, 0);
    } else {
      DivModUnique(0x1_0000_0000 - d, n, q - 1, n - d);
    }
  }

  /** Wrapping subtraction and a mask give the distance around the ring. */
  lemma MaskedDistance(x: Word32, y: Word32, k: nat)
    requires x < Pow2(k) && y <= Pow2(k) && Pow2(k) < 0x1_0000_0000
    ensures And(Sub(x, y), Pow2(k) - 1) == if x >= y then x - y else x + Pow2(k) - y
  {
    var n := Pow2(k);
    SizeDivides(k);
    AndMask(Sub(x, y), k);
    if x >= y {
      DivModUnique(x - y, n, 0, x - y);
    } else {
      WrapDown(y - x, n, Pow2(32 - k));
    }
  }

  /** What the index functions compute, when `held` items are between tail and head. */
  lemma IndicesAre(tail: Word32, held: nat, n: Word32)
    requires IsSize(n) && tail < n && held < n
    ensures var head := Moved(tail, held, n);
            && Space(head, tail, n) == n - 1 - held
            && Count(head, tail, n) == held
            && Next(head, n) == Moved(tail, held + 1, n)
            && Next(tail, n) == Moved(tail, 1, n)
  {
    var k := PowerOfTwo(n);
    var head := Moved(tail, held, n);
    MaskedDistance(tail, head + 1, k);
    MaskedDistance(head, tail, k);
    NextIs(head, n, k);
    NextIs(tail, n, k);
  }

  lemma NextIs(i: Word32, n: Word32, k: nat)
    requires i < n == Pow2(k)
    ensures Next(i, n) == Moved(i, 1, n)
  {
    AndMask(i + 1, k);
    if i + 1 == n {
      DivModUnique(i + 1, n, 1, 0);
    } else {
      DivModUnique(i + 1, n, 0, i + 1);
    }
  }

  // ---------- The steps ----------

  /** Where the producer is: between calls, or copying an item into the slot at `head`, the first
  `done` bytes of it already there. `space` is what it computed from the tail that it saw. */
  datatype Producer = Outside | Copying(item: Item, space: Word32, done: nat)

  /** The same for the consumer; `got` is what it has copied so far. */
  datatype Consumer = Away | Taking(count: Word32, got: Item)

  datatype State = State(
    data: seq<Item>, head: Word32, tail: Word32, // shared
    producer: Producer, consumer: Consumer,
    inserted: seq<Item>, removed: seq<Item>) // history, which no step looks at

  /** Steps of the producer: reading the indices, copying one byte, storing the head. The consumer
  has the like. */
  datatype Step = BeginInsert(item: Item) | CopyIn | EndInsert | BeginRemove | CopyOut | EndRemove

  /** A step made, and what a finished call returns. */
  datatype Report = NoReport | Insert(ok: bool, space: Word32) | Remove(ok: bool, count: Word32, item: Item)

  predicate Enabled(s: State, size: Word32, width: nat, step: Step)
    requires Shaped(s, size, width)
  {
    match step
    case BeginInsert(item) => s.producer.Outside? && |item| == width
    case CopyIn => s.producer.Copying? && s.producer.done < width
    case EndInsert => s.producer.Copying? && s.producer.done == width
    case BeginRemove => s.consumer.Away?
    case CopyOut => s.consumer.Taking? && |s.consumer.got| < width
    case EndRemove => s.consumer.Taking? && |s.consumer.got| == width
  }

  /** Slots have the size of an item, and indices name slots. */
  predicate Shaped(s: State, size: Word32, width: nat) {
    && size > 0 && |s.data| == size && s.head < size && s.tail < size
    && (forall i :: 0 <= i < size ==> |s.data[i]| == width)
    && (s.producer.Copying? ==> |s.producer.item| == width && s.producer.done <= width && s.producer.space > 0)
    && (s.consumer.Taking? ==> |s.consumer.got| <= width && s.consumer.count > 0)
  }

  function Apply(s: State, size: Word32, width: nat, step: Step): (State, Report)
    requires Shaped(s, size, width) && Enabled(s, size, width, step)
  {
    match step
    case BeginInsert(item) =>
      var space := Space(s.head, s.tail, size);
      if space >= 1 then (s.(producer := Copying(item, space, 0)), NoReport)
      else (s, Insert(false, space))
    case CopyIn =>
      var k := s.producer.done;
      var slot := s.data[s.head];
      (s.(data := s.data[s.head := slot[k := s.producer.item[k]]], producer := s.producer.(done := k + 1)), NoReport)
    case EndInsert =>
      (s.(head := Next(s.head, size), producer := Outside, inserted := s.inserted + [s.producer.item]),
       Insert(true, s.producer.space - 1))
    case BeginRemove =>
      var count := Count(s.head, s.tail, size);
      if count >= 1 then (s.(consumer := Taking(count, [])), NoReport)
      else (s, Remove(false, count, []))
    case CopyOut =>
      var k := |s.consumer.got|;
      (s.(consumer := s.consumer.(got := s.consumer.got + [s.data[s.tail][k]])), NoReport)
    case EndRemove =>
      (s.(tail := Next(s.tail, size), consumer := Away, removed := s.removed + [s.consumer.got]),
       Remove(true, s.consumer.count - 1, s.consumer.got))
  }

  // ---------- What every step keeps ----------

  function Held(s: State): int {
    |s.inserted| - |s.removed|
  }

  /** What was removed is what was inserted first, in order. */
  ghost predicate Fifo(s: State) {
    |s.removed| <= |s.inserted| && s.removed == s.inserted[..|s.removed|]
  }

  /** Every item not yet removed is in its slot. */
  ghost predicate Stored(s: State, size: nat)
    requires |s.data| == size && s.tail < size
  {
    0 <= Held(s) < size &&
    forall d :: 0 <= d < Held(s) ==> s.data[Moved(s.tail, d, size)] == s.inserted[|s.removed| + d]
  }

  /** The slot that is being filled is free, and what was filled of it is right. */
  ghost predicate ProducerOk(s: State, size: nat, width: nat)
    requires |s.data| == size && s.head < size
  {
    s.producer.Copying? ==>
      && s.producer.done <= width == |s.producer.item| == |s.data[s.head]|
      && s.data[s.head][..s.producer.done] == s.producer.item[..s.producer.done]
      && 1 <= s.producer.space <= size - 1 - Held(s)
  }

  /** What the consumer has copied is the item that is next. */
  ghost predicate ConsumerOk(s: State, width: nat)
  {
    s.consumer.Taking? ==>
      && 1 <= s.consumer.count <= Held(s)
      && |s.removed| < |s.inserted| && |s.consumer.got| <= |s.inserted[|s.removed|]| == width
      && s.consumer.got == s.inserted[|s.removed|][..|s.consumer.got|]
  }

  ghost predicate Inv(s: State, size: Word32, width: nat) {
    && IsSize(size) && Shaped(s, size, width)
    && Fifo(s) && Stored(s, size) && s.head == Moved(s.tail, Held(s), size)
    && ProducerOk(s, size, width) && ConsumerOk(s, width)
  }

  /** The item that is next is in the slot at the tail. */
  lemma NextIsAtTail(s: State, size: nat)
    requires |s.data| == size && s.tail < size && Stored(s, size) && Held(s) > 0
    ensures |s.removed| < |s.inserted| && s.data[s.tail] == s.inserted[|s.removed|]
  {
    assert s.data[Moved(s.tail, 0, size)] == s.inserted[|s.removed| + 0];
  }

  /** A new ring. */
  function Init(size: Word32, width: nat): State {
    State(seq(size, _ => seq(width, _ => 0)), 0, 0, Outside, Away, [], [])
  }

  lemma InitInv(size: Word32, width: nat)
    requires IsSize(size)
    ensures Inv(Init(size, width), size, width)
  {
  }

  lemma BeginInsertKeeps(s: State, size: Word32, width: nat, item: Item)
    requires Inv(s, size, width) && Enabled(s, size, width, BeginInsert(item))
    ensures Inv(Apply(s, size, width, BeginInsert(item)).0, size, width)
  {
    IndicesAre(s.tail, Held(s), size);
  }

  lemma CopyInKeeps(s: State, size: Word32, width: nat)
    requires Inv(s, size, width) && Enabled(s, size, width, CopyIn)
    ensures Inv(Apply(s, size, width, CopyIn).0, size, width)
  {
  }

  lemma EndInsertKeeps(s: State, size: Word32, width: nat)
    requires Inv(s, size, width) && Enabled(s, size, width, EndInsert)
    ensures Inv(Apply(s, size, width, EndInsert).0, size, width)
  {
    IndicesAre(s.tail, Held(s), size);
  }

  lemma BeginRemoveKeeps(s: State, size: Word32, width: nat)
    requires Inv(s, size, width) && Enabled(s, size, width, BeginRemove)
    ensures Inv(Apply(s, size, width, BeginRemove).0, size, width)
  {
    if Held(s) > 0 { NextIsAtTail(s, size); }
    IndicesAre(s.tail, Held(s), size);
  }

  lemma CopyOutKeeps(s: State, size: Word32, width: nat)
    requires Inv(s, size, width) && Enabled(s, size, width, CopyOut)
    ensures Inv(Apply(s, size, width, CopyOut).0, size, width)
  {
    NextIsAtTail(s, size);
  }

  lemma EndRemoveKeeps(s: State, size: Word32, width: nat)
    requires Inv(s, size, width) && Enabled(s, size, width, EndRemove)
    ensures Inv(Apply(s, size, width, EndRemove).0, size, width)
  {
    IndicesAre(s.tail, Held(s), size);
    NextIsAtTail(s, size);
    assert s.consumer.got == s.inserted[|s.removed|];
    EndRemoveStored(s, size, width);
  }

  lemma EndRemoveStored(s: State, size: Word32, width: nat)
    requires Inv(s, size, width) && Enabled(s, size, width, EndRemove)
    ensures var t := Apply(s, size, width, EndRemove).0; t.tail < size && Stored(t, size)
  {
    IndicesAre(s.tail, Held(s), size);
    var t := Apply(s, size, width, EndRemove).0;
    forall d | 0 <= d < Held(t)
      ensures t.data[Moved(t.tail, d, size)] == t.inserted[|t.removed| + d]
    {
      assert Moved(t.tail, d, size) == Moved(s.tail, d + 1, size);
      assert s.data[Moved(s.tail, d + 1, size)] == s.inserted[|s.removed| + (d + 1)];
    }
  }

  /** Every step of either side keeps the invariant. */
  lemma StepKeeps(s: State, size: Word32, width: nat, step: Step)
    requires Inv(s, size, width) && Enabled(s, size, width, step)
    ensures Inv(Apply(s, size, width, step).0, size, width)
  {
    hide Inv, Apply;
    match step
    case BeginInsert(item) => BeginInsertKeeps(s, size, width, item);
    case CopyIn => CopyInKeeps(s, size, width);
    case EndInsert => EndInsertKeeps(s, size, width);
    case BeginRemove => BeginRemoveKeeps(s, size, width);
    case CopyOut => CopyOutKeeps(s, size, width);
    case EndRemove => EndRemoveKeeps(s, size, width);
  }

  // ---------- Every interleaving ----------

  /** The states of a run. */
  ghost predicate IsRun(states: seq<State>, steps: seq<Step>, size: Word32, width: nat) {
    && |states| == |steps| + 1 && states[0] == Init(size, width)
    && forall i :: 0 <= i < |steps| ==> Follows(states[i], states[i + 1], size, width, steps[i])
  }

  ghost predicate Follows(s: State, t: State, size: Word32, width: nat, step: Step) {
    Shaped(s, size, width) && Enabled(s, size, width, step) && t == Apply(s, size, width, step).0
  }

  lemma {:induction false} RunInv(states: seq<State>, steps: seq<Step>, size: Word32, width: nat, i: nat)
    requires IsSize(size) && IsRun(states, steps, size, width) && i < |states|
    ensures Inv(states[i], size, width)
  {
    if i == 0 {
      InitInv(size, width);
    } else {
      RunInv(states, steps, size, width, i - 1);
      assert Follows(states[i - 1], states[i], size, width, steps[i - 1]);
      StepKeeps(states[i - 1], size, width, steps[i - 1]);
    }
  }

  /** At every moment of every interleaving, what was removed is a prefix of what was inserted, and
  at most `size - 1` items are held. */
  lemma RunIsFifo(states: seq<State>, steps: seq<Step>, size: Word32, width: nat, i: nat)
    requires IsSize(size) && IsRun(states, steps, size, width) && i < |states|
    ensures states[i].removed <= states[i].inserted
    ensures 0 <= Held(states[i]) <= size - 1
  {
    RunInv(states, steps, size, width, i);
  }

  /** No step of the producer writes to a slot that holds an item, and the one the consumer is
  reading does not change under it. */
  lemma NoOverwrite(s: State, size: Word32, width: nat, step: Step, d: nat)
    requires Inv(s, size, width) && Enabled(s, size, width, step) && d < Held(s)
    ensures Apply(s, size, width, step).0.data[Moved(s.tail, d, size)] == s.data[Moved(s.tail, d, size)]
  {
  }

  /** What a call reports is safe: no more space than there is, no more items than there are. A call
  fails only if the ring was full, or empty, when it looked. */
  lemma ReportsAreSafe(s: State, size: Word32, width: nat, step: Step)
    requires Inv(s, size, width) && Enabled(s, size, width, step)
    ensures var (t, report) := Apply(s, size, width, step);
            match report
            case Insert(ok, space) => space <= size - 1 - Held(t) && (!ok ==> Held(s) == size - 1 && t == s)
            case Remove(ok, count, item) =>
              count <= Held(t) && (ok ==> s.removed < s.inserted && item == s.inserted[|s.removed|]) && (!ok ==> Held(s) == 0 && t == s)
            case NoReport => true
  {
    IndicesAre(s.tail, Held(s), size);
    if step.EndRemove? { NextIsAtTail(s, size); }
  }

  // ---------- The calls themselves ----------

  /** A ring whose calls are made of the steps. */
  class Queue {
    const numElems: Word32
    const width: nat
    var data: array<Item>
    var head: Word32
    var tail: Word32
    ghost var state: State

    ghost predicate Valid()
      reads this, data
    {
      && Inv(state, numElems, width)
      && data[..] == state.data && head == state.head && tail == state.tail
    }

    constructor (numElems: Word32, width: nat)
      requires IsSize(numElems)
      ensures Valid() && fresh(data) && state == Init(numElems, width)
      ensures this.numElems == numElems && this.width == width
    {
      this.numElems, this.width := numElems, width;
      data := new Item[numElems](_ => seq(width, _ => 0));
      head, tail := 0, 0;
      state := Init(numElems, width);
      new;
      InitInv(numElems, width);
      assert data[..] == state.data;
    }

    ghost method Do(step: Step)
      requires Inv(state, numElems, width) && Enabled(state, numElems, width, step)
      modifies this`state
      ensures state == Apply(old(state), numElems, width, step).0 && Inv(state, numElems, width)
    {
      StepKeeps(state, numElems, width, step);
      state := Apply(state, numElems, width, step).0;
    }

    /** Inserts an item if there is room. */
    method Insert(item: Item) returns (res: bool, space: Word32)
      requires Valid() && state.producer.Outside? && |item| == width
      modifies this, data
      ensures Valid() && data == old(data) && state.producer.Outside? && state.consumer == old(state.consumer)
      ensures state.removed == old(state.removed)
      ensures res == (old(Held(state)) < numElems - 1)
      ensures state.inserted == if res then old(state.inserted) + [item] else old(state.inserted)
      ensures space == numElems - 1 - Held(state)
    {
      IndicesAre(tail, Held(state), numElems);
      space := Space(head, tail, numElems);
      Do(BeginInsert(item));
      if space < 1 {
        return false, space;
      }
      var k := 0;
      while k < |item|
        invariant 0 <= k <= |item| && Valid() && data == old(data) && head == old(head) && tail == old(tail)
        invariant state.producer == Copying(item, space, k) && state.consumer == old(state.consumer)
        invariant state.inserted == old(state.inserted) && state.removed == old(state.removed)
      {
        ghost var before := data[..];
        Do(CopyIn);
        data[head] := data[head][k := item[k]];
        assert data[..] == before[head := before[head][k := item[k]]];
        k := k + 1;
      }
      Do(EndInsert);
      head := Next(head, numElems);
      return true, space - 1;
    }

    /** Removes the oldest item if there is one. */
    method Remove() returns (res: bool, count: Word32, item: Item)
      requires Valid() && state.consumer.Away?
      modifies this
      ensures Valid() && data == old(data) && state.consumer.Away? && state.producer == old(state.producer)
      ensures state.inserted == old(state.inserted)
      ensures res == (old(Held(state)) > 0)
      ensures res ==> |old(state.removed)| < |state.inserted| && item == state.inserted[|old(state.removed)|]
      ensures state.removed == if res then old(state.removed) + [item] else old(state.removed)
      ensures count == Held(state)
    {
      IndicesAre(tail, Held(state), numElems);
      count := Count(head, tail, numElems);
      item := [];
      Do(BeginRemove);
      if count < 1 {
        return false, count, item;
      }
      NextIsAtTail(state, numElems);
      while |item| < width
        invariant |item| <= width && Valid() && data == old(data) && head == old(head) && tail == old(tail)
        invariant state.consumer == Taking(count, item) && state.producer == old(state.producer)
        invariant state.inserted == old(state.inserted) && state.removed == old(state.removed)
      {
        Do(CopyOut);
        item := item + [data[tail][|item|]];
      }
      NextIsAtTail(state, numElems);
      Do(EndRemove);
      tail := Next(tail, numElems);
      return true, count - 1, item;
    }
  }
}
