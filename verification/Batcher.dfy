/** Collecting items into batches: the generation scheme of src/util/Batcher.hh. */
module Batchers {
  import opened Bytes

  /** A batcher together with what surrounds it: calls are the scheduled calls of the processor, each
      with its generation, that have not run yet; pushed and popped record what went in and out. */
  datatype Batch<T> = Batch(items: Option<seq<T>>, scheduled: bool, generation: nat,
                            calls: multiset<nat>, pushed: seq<T>, popped: seq<T>)

  function NewBatch<T>(): Batch<T> {
    Batch(None, false, 0, multiset{}, [], [])
  }

  function Waiting<T>(b: Batch<T>): seq<T> {
    match b.items case None => [] case Some(s) => s
  }

  /** push; a batcher with a latency and a capacity is processed at once when it is full. */
  function AfterPush<T>(b: Batch<T>, item: T, latent: bool, capacity: nat): Batch<T> {
    var items := Waiting(b) + [item];
    var later := if b.scheduled then b.calls else b.calls + multiset{b.generation};
    var now := if latent && capacity > 0 && |items| == capacity then later + multiset{b.generation} else later;
    b.(items := Some(items), scheduled := true, calls := now, pushed := b.pushed + [item])
  }

  /** pop, None standing for AnyGen. */
  function AfterPop<T>(b: Batch<T>, gen: Option<nat>): (Batch<T>, Option<seq<T>>) {
    if gen.Some? && gen.value < b.generation then (b, None)
    else (b.(items := None, scheduled := false, generation := b.generation + 1, popped := b.popped + Waiting(b)),
          b.items)
  }

  // ---------------------------------------------------------------- every run

  datatype Step<T> =
    | PushItem(item: T)
    | RunCall(gen: nat)  // a scheduled call runs, and pops with its generation
    | PopAny             // a pop that is not scheduled

  predicate Enabled<T(==)>(b: Batch<T>, step: Step<T>) {
    step.RunCall? ==> step.gen in b.calls
  }

  function Do<T>(b: Batch<T>, step: Step<T>, latent: bool, capacity: nat): Batch<T> {
    match step
    case PushItem(item) => AfterPush(b, item, latent, capacity)
    case RunCall(gen) => AfterPop(b.(calls := b.calls - multiset{gen}), Some(gen)).0
    case PopAny => AfterPop(b, None).0
  }

  /** Nothing is lost, doubled or reordered, and what waits will be fetched: there is a scheduled call
      that is not stale. */
  ghost predicate BatchInv<T>(b: Batch<T>) {
    && b.popped + Waiting(b) == b.pushed
    && (b.items.Some? ==> b.scheduled && b.items.value != [])
    && (b.scheduled ==> b.generation in b.calls)
    && (forall g :: g in b.calls ==> g <= b.generation)
  }

  lemma StepKeeps<T>(b: Batch<T>, step: Step<T>, latent: bool, capacity: nat)
    requires BatchInv(b) && Enabled(b, step)
    ensures BatchInv(Do(b, step, latent, capacity))
  {
    match step
    case PushItem(item) => PushKeeps(b, item, latent, capacity);
    case RunCall(gen) => PopKeeps(b.(calls := b.calls - multiset{gen}), Some(gen));
    case PopAny => PopKeeps(b, None);
  }

  lemma PushKeeps<T>(b: Batch<T>, item: T, latent: bool, capacity: nat)
    requires BatchInv(b)
    ensures BatchInv(AfterPush(b, item, latent, capacity))
  {
    assert b.popped + (Waiting(b) + [item]) == b.pushed + [item];
  }

  /** A pop that is not stale takes what waits, whether or not a call is left. */
  lemma PopKeeps<T>(b: Batch<T>, gen: Option<nat>)
    requires b.popped + Waiting(b) == b.pushed && (b.items.Some? ==> b.scheduled && b.items.value != [])
    requires gen.None? || gen.value < b.generation ==> b.scheduled ==> b.generation in b.calls
    requires forall g :: g in b.calls ==> g <= b.generation
    ensures BatchInv(AfterPop(b, gen).0)
  {
    assert b.popped + Waiting(b) + [] == b.pushed;
  }

  function Run<T(==)>(steps: seq<Step<T>>, latent: bool, capacity: nat): (r: Option<Batch<T>>)
    decreases |steps|
  {
    if steps == [] then Some(NewBatch())
    else
      var last := |steps| - 1;
      match Run(steps[..last], latent, capacity)
      case None => None
      case Some(b) => if Enabled(b, steps[last]) then Some(Do(b, steps[last], latent, capacity)) else None
  }

  lemma {:induction false} RunKeeps<T>(steps: seq<Step<T>>, latent: bool, capacity: nat)
    requires Run(steps, latent, capacity).Some?
    ensures BatchInv(Run(steps, latent, capacity).value)
    decreases |steps|
  {
    if steps == [] {
      assert [] + Waiting<T>(NewBatch()) == [];
    } else {
      var last := |steps| - 1;
      RunKeeps(steps[..last], latent, capacity);
      StepKeeps(Run(steps[..last], latent, capacity).value, steps[last], latent, capacity);
    }
  }

  /** In every run, whatever waits is fetched by a call that is scheduled already, all of it at once and
      behind everything fetched before; and once no call is outstanding, everything has been fetched. */
  lemma NothingStranded<T>(steps: seq<Step<T>>, latent: bool, capacity: nat)
    requires Run(steps, latent, capacity).Some?
    ensures var b := Run(steps, latent, capacity).value;
      && (Waiting(b) != [] ==> b.generation in b.calls
                               && Do(b, RunCall(b.generation), latent, capacity).popped == b.pushed)
      && (b.calls == multiset{} ==> b.popped == b.pushed)
  {
    RunKeeps(steps, latent, capacity);
    var b := Run(steps, latent, capacity).value;
    if b.calls == multiset{} {
      assert b.items == None;
      assert b.popped + [] == b.popped;
    }
  }

  /** The calls that wait with the current generation: none if nothing waits; else the one scheduled by the
      first item, and a second one once a latent batcher has been full. */
  predicate CallsDue<T(==)>(b: Batch<T>, latent: bool, capacity: nat) {
    && b.calls[b.generation] == (if Waiting(b) == [] then 0
                                 else if latent && 0 < capacity <= |Waiting(b)| then 2 else 1)
    && (b.items.Some? ==> b.items.value != []) && (b.scheduled <==> b.items.Some?)
  }

  /** In every run exactly those calls are scheduled, and a stale one fetches nothing. */
  lemma {:induction false} CallsExactly<T>(steps: seq<Step<T>>, latent: bool, capacity: nat)
    requires Run(steps, latent, capacity).Some?
    ensures var b := Run(steps, latent, capacity).value;
      && CallsDue(b, latent, capacity)
      && forall g :: g in b.calls && g < b.generation ==>
           Do(b, RunCall(g), latent, capacity) == b.(calls := b.calls - multiset{g})
    decreases |steps|
  {
    if steps != [] {
      var last := |steps| - 1;
      CallsExactly(steps[..last], latent, capacity);
      RunKeeps(steps[..last], latent, capacity);
      DueStep(Run(steps[..last], latent, capacity).value, steps[last], latent, capacity);
    }
  }

  lemma DueStep<T>(b: Batch<T>, step: Step<T>, latent: bool, capacity: nat)
    requires BatchInv(b) && CallsDue(b, latent, capacity) && Enabled(b, step)
    ensures CallsDue(Do(b, step, latent, capacity), latent, capacity)
  {
    assert b.generation + 1 !in b.calls;
    match step
    case PushItem(item) => DuePush(b, item, latent, capacity);
    case RunCall(gen) =>
    case PopAny =>
  }

  lemma DuePush<T>(b: Batch<T>, item: T, latent: bool, capacity: nat)
    requires CallsDue(b, latent, capacity)
    ensures CallsDue(AfterPush(b, item, latent, capacity), latent, capacity)
  {
    var n := |Waiting(b)|;
    assert |Waiting(b) + [item]| == n + 1;
  }

  // ---------------------------------------------------------------- the object

  class Batcher<T> {
    const latent: bool
    const capacity: nat
    var items: Option<seq<T>>
    var generation: nat
    var scheduled: bool
    var calls: multiset<nat>
    ghost var pushed: seq<T>
    ghost var popped: seq<T>

    constructor (latent: bool, capacity: nat)
      ensures Model() == NewBatch() && this.latent == latent && this.capacity == capacity
    {
      this.latent, this.capacity, items, generation, scheduled := latent, capacity, None, 0, false;
      calls, pushed, popped := multiset{}, [], [];
    }

    ghost function Model(): Batch<T>
      reads this
    {
      Batch(items, scheduled, generation, calls, pushed, popped)
    }

    /** processNow or processLater: a call of the processor is scheduled. */
    method Process(gen: nat)
      modifies this`calls
      ensures calls == old(calls) + multiset{gen}
    {
      calls := calls + multiset{gen};
    }

    method Push(item: T)
      modifies this`items, this`scheduled, this`calls, this`pushed
      ensures Model() == AfterPush(old(Model()), item, latent, capacity)
    {
      if items.None? {
        items := Some([]);
      }
      items := Some(items.value + [item]);
      pushed := pushed + [item];
      if !scheduled {
        scheduled := true;
        Process(generation);
      }
      if latent && capacity > 0 && |items.value| == capacity {
        Process(generation);
      }
    }

    method Pop(gen: Option<nat>) returns (batch: Option<seq<T>>)
      modifies this`items, this`scheduled, this`generation, this`popped
      ensures (Model(), batch) == AfterPop(old(Model()), gen)
    {
      if gen.Some? && gen.value < generation {
        return None;
      }
      scheduled := false;
      generation := generation + 1;
      batch := items;
      popped := popped + if items.None? then [] else items.value;
      items := None;
    }
  }
}
