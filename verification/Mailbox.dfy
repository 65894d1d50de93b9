/** Actors on threads: the queue of src/util/Channel.hh, and the mailboxes and the scheduler of
    src/util/ThreadedMailbox.cc as interleaved steps of threads. */
module Mailboxes {
  import opened Bytes

  // ---------------------------------------------------------------- the channel

  class Channel<T> {
    var queue: seq<T>
    var closed: bool

    constructor ()
      ensures queue == [] && !closed
    {
      queue, closed := [], false;
    }

    /** wasEmpty is whether the queue was empty before. */
    method Push(t: T) returns (wasEmpty: bool)
      modifies this`queue
      ensures wasEmpty == (old(queue) == [])
      ensures queue == if closed then old(queue) else old(queue) + [t]
    {
      wasEmpty := queue == [];
      if !closed {
        queue := queue + [t];
      }
    }

    /** pop without waiting, which is also how a pop ends that has waited. */
    method PopNoWaiting() returns (t: Option<T>, empty: bool)
      modifies this`queue
      ensures old(queue) == [] ==> t == None && queue == []
      ensures old(queue) != [] ==> t == Some(old(queue)[0]) && queue == old(queue)[1..]
      ensures empty == (queue == [])
    {
      if queue == [] {
        return None, true;
      }
      t := Some(queue[0]);
      queue := queue[1..];
      empty := queue == [];
    }

    method Front() returns (t: T)
      requires queue != []
      ensures t == queue[0]
    {
      t := queue[0];
    }

    method Close()
      modifies this`closed
      ensures closed
    {
      closed := true;
    }
  }

  // ---------------------------------------------------------------- mailboxes and threads

  type Id = nat

  /** A mailbox: queue are the calls enqueued, the first of which may be running; pending counts the
      threads that are about to reschedule it, running those that are performing a call of it. pushed
      and started record the calls that were enqueued and the calls that were begun. */
  datatype Mail<T> = Mail(queue: seq<T>, pending: nat, running: nat, pushed: seq<T>, started: seq<T>)

  /** All mailboxes, and the queue of the scheduler. */
  datatype Sys<T> = Sys(mail: map<Id, Mail<T>>, ready: seq<Id>)

  datatype Step<T> =
    | Create(id: Id)
    | Enqueue(id: Id, call: T) // any thread pushes a call; enqueueAfter does it when its timer fires
    | Reschedule(id: Id)       // the thread that has to reschedules the mailbox
    | Begin                    // a scheduler thread pops a mailbox and begins its first call
    | Finish(id: Id)           // the thread that performed a call pops it

  predicate Enabled<T>(s: Sys<T>, step: Step<T>) {
    match step
    case Create(id) => id !in s.mail
    case Enqueue(id, _) => id in s.mail
    case Reschedule(id) => id in s.mail && s.mail[id].pending > 0
    case Begin => s.ready != [] && s.ready[0] in s.mail && s.mail[s.ready[0]].queue != []
    case Finish(id) => id in s.mail && s.mail[id].running > 0 && s.mail[id].queue != []
  }

  function Do<T>(s: Sys<T>, step: Step<T>): Sys<T>
    requires Enabled(s, step)
  {
    match step
    case Create(id) => s.(mail := s.mail[id := Mail([], 0, 0, [], [])])
    case Enqueue(id, call) =>
      var m := s.mail[id];
      s.(mail := s.mail[id := m.(queue := m.queue + [call], pushed := m.pushed + [call],
                                 pending := m.pending + if m.queue == [] then 1 else 0)])
    case Reschedule(id) =>
      var m := s.mail[id];
      s.(mail := s.mail[id := m.(pending := m.pending - 1)], ready := s.ready + [id])
    case Begin =>
      var id := s.ready[0];
      var m := s.mail[id];
      s.(mail := s.mail[id := m.(running := m.running + 1, started := m.started + [m.queue[0]])],
         ready := s.ready[1..])
    case Finish(id) =>
      var m := s.mail[id];
      s.(mail := s.mail[id := m.(queue := m.queue[1..], running := m.running - 1,
                                 pending := m.pending + if |m.queue| > 1 then 1 else 0)])
  }

  /** A mailbox is in one place if it has calls, and in none if it has not; its calls begin in order. */
  predicate InOnePlace<T>(s: Sys<T>, id: Id)
    requires id in s.mail
  {
    var m := s.mail[id];
    m.pending + multiset(s.ready)[id] + m.running == if m.queue == [] then 0 else 1
  }

  predicate InOrder<T(==)>(m: Mail<T>) {
    if m.running > 0 then
      m.queue != [] && m.started != [] && m.started[|m.started| - 1] == m.queue[0]
      && m.pushed == m.started + m.queue[1..]
    else m.pushed == m.started + m.queue
  }

  ghost predicate SysInv<T>(s: Sys<T>) {
    && (forall id :: id in s.mail ==> InOnePlace(s, id) && InOrder(s.mail[id]))
    && (forall id :: id in s.ready ==> id in s.mail)
  }

  lemma StepKeeps<T>(s: Sys<T>, step: Step<T>)
    requires SysInv(s) && Enabled(s, step)
    ensures SysInv(Do(s, step))
  {
    match step
    case Create(id) => CreateKeeps(s, id);
    case Enqueue(id, call) => EnqueueKeeps(s, id, call);
    case Reschedule(id) => RescheduleKeeps(s, id);
    case Begin => BeginKeeps(s);
    case Finish(id) => FinishKeeps(s, id);
  }

  lemma CreateKeeps<T>(s: Sys<T>, id: Id)
    requires SysInv(s) && Enabled(s, Create(id))
    ensures SysInv(Do(s, Create(id)))
  {
    var s' := Do(s, Create(id));
    assert id !in s.ready;
    forall i | i in s'.mail ensures InOnePlace(s', i) {
      assert i != id ==> InOnePlace(s, i);
    }
  }

  lemma EnqueueKeeps<T>(s: Sys<T>, id: Id, call: T)
    requires SysInv(s) && Enabled(s, Enqueue(id, call))
    ensures SysInv(Do(s, Enqueue(id, call)))
  {
    var s', m := Do(s, Enqueue(id, call)), s.mail[id];
    assert InOnePlace(s, id) && InOrder(m);
    assert m.running > 0 ==> (m.queue + [call])[1..] == m.queue[1..] + [call];
    forall i | i in s'.mail ensures InOnePlace(s', i) && InOrder(s'.mail[i]) {
      assert InOnePlace(s, i) && InOrder(s.mail[i]);
    }
  }

  lemma RescheduleKeeps<T>(s: Sys<T>, id: Id)
    requires SysInv(s) && Enabled(s, Reschedule(id))
    ensures SysInv(Do(s, Reschedule(id)))
  {
    var s' := Do(s, Reschedule(id));
    assert multiset(s'.ready) == multiset(s.ready) + multiset{id};
    forall i | i in s'.mail ensures InOnePlace(s', i) && InOrder(s'.mail[i]) {
      assert InOnePlace(s, i) && InOrder(s.mail[i]);
    }
  }

  lemma BeginKeeps<T>(s: Sys<T>)
    requires SysInv(s) && Enabled(s, Begin)
    ensures SysInv(Do(s, Begin))
  {
    var id, s' := s.ready[0], Do(s, Begin);
    var m := s.mail[id];
    assert s.ready == [id] + s.ready[1..];
    assert multiset(s.ready) == multiset{id} + multiset(s'.ready);
    assert InOnePlace(s, id) && InOrder(m);
    assert m.started + m.queue == m.started + [m.queue[0]] + m.queue[1..];
    forall i | i in s'.mail ensures InOnePlace(s', i) && InOrder(s'.mail[i]) {
      assert InOnePlace(s, i) && InOrder(s.mail[i]);
    }
  }

  lemma FinishKeeps<T>(s: Sys<T>, id: Id)
    requires SysInv(s) && Enabled(s, Finish(id))
    ensures SysInv(Do(s, Finish(id)))
  {
    var s' := Do(s, Finish(id));
    forall i | i in s'.mail ensures InOnePlace(s', i) && InOrder(s'.mail[i]) {
      assert InOnePlace(s, i) && InOrder(s.mail[i]);
    }
  }

  ghost predicate Next<T(!new)>(s: Sys<T>, s': Sys<T>) {
    exists step :: Enabled(s, step) && s' == Do(s, step)
  }

  ghost predicate IsRun<T(!new)>(run: seq<Sys<T>>) {
    && run != [] && run[0] == Sys(map[], [])
    && forall i :: 0 <= i < |run| - 1 ==> Next(run[i], run[i + 1])
  }

  lemma {:induction false} RunKeeps<T(!new)>(run: seq<Sys<T>>)
    requires IsRun(run)
    ensures SysInv(run[|run| - 1])
    decreases |run|
  {
    hide SysInv, Do, Enabled;
    var n := |run| - 1;
    if n == 0 {
      NothingYet<T>();
    } else {
      RunKeeps(run[..n]);
      assert Next(run[n - 1], run[n]);
      var step :| Enabled(run[n - 1], step) && run[n] == Do(run[n - 1], step);
      StepKeeps(run[n - 1], step);
    }
  }

  lemma NothingYet<T>()
    ensures SysInv<T>(Sys(map[], []))
  {
  }

  /** In every run: at most one call of a mailbox runs at a time; the calls that have begun are the first
      ones that were enqueued, in their order; and a mailbox with calls is about to be rescheduled, or
      waits in the scheduler's queue, or runs. */
  lemma MutualExclusionAndOrder<T(!new)>(run: seq<Sys<T>>, id: Id)
    requires IsRun(run) && id in run[|run| - 1].mail
    ensures var s := run[|run| - 1];
      var m := s.mail[id];
      && m.running <= 1
      && m.started <= m.pushed
      && (m.queue != [] ==> m.pending > 0 || id in s.ready || m.running > 0)
  {
    RunKeeps(run);
    var s := run[|run| - 1];
    assert InOnePlace(s, id) && InOrder(s.mail[id]);
  }

  /** No lost work: when no thread is busy and the scheduler's queue is empty, every call has run. */
  lemma QuietIsDone<T(!new)>(run: seq<Sys<T>>, id: Id)
    requires IsRun(run) && id in run[|run| - 1].mail
    requires var s := run[|run| - 1]; s.ready == [] && s.mail[id].pending == 0 && s.mail[id].running == 0
    ensures var m := run[|run| - 1].mail[id]; m.queue == [] && m.started == m.pushed
  {
    RunKeeps(run);
    var s := run[|run| - 1];
    assert InOnePlace(s, id) && InOrder(s.mail[id]);
  }

  /** No thread ever gets stuck: a mailbox that is taken from the scheduler's queue has a call to begin,
      and one whose call has run has that call to pop. */
  lemma AlwaysEnabled<T(!new)>(run: seq<Sys<T>>, id: Id)
    requires IsRun(run)
    ensures var s := run[|run| - 1];
      && (s.ready != [] ==> Enabled(s, Begin))
      && (id in s.mail && s.mail[id].running > 0 ==> Enabled(s, Finish(id)))
  {
    RunKeeps(run);
    var s := run[|run| - 1];
    if s.ready != [] {
      assert s.ready[0] in s.ready;
      assert InOnePlace(s, s.ready[0]);
    }
    if id in s.mail {
      assert InOnePlace(s, id);
    }
  }

  predicate AllEnabled<T>(s: Sys<T>, steps: seq<Step<T>>)
    decreases |steps|
  {
    steps == [] || (Enabled(s, steps[0]) && AllEnabled(Do(s, steps[0]), steps[1..]))
  }

  function After<T>(s: Sys<T>, steps: seq<Step<T>>): Sys<T>
    requires AllEnabled(s, steps)
    decreases |steps|
  {
    if steps == [] then s else After(Do(s, steps[0]), steps[1..])
  }

  function Begins<T>(steps: seq<Step<T>>): nat {
    if steps == [] then 0 else (if steps[0].Begin? then 1 else 0) + Begins(steps[1..])
  }

  /** Every mailbox gets its turn: whatever the threads do, the one at position p of the scheduler's queue
      moves up with each Begin, and the (p+1)th begins a call of it. */
  lemma {:induction false} InTurn<T>(s: Sys<T>, steps: seq<Step<T>>, p: nat)
    requires AllEnabled(s, steps) && p < |s.ready| && Begins(steps) <= p
    ensures var s' := After(s, steps);
      p - Begins(steps) < |s'.ready| && s'.ready[p - Begins(steps)] == s.ready[p]
    decreases |steps|
  {
    hide Enabled;
    if steps != [] {
      InTurn(Do(s, steps[0]), steps[1..], if steps[0].Begin? then p - 1 else p);
    }
  }

  // ---------------------------------------------------------------- the mailbox object

  /** A mailbox and the queue of the scheduler it uses. */
  class ThreadedMailbox<T> {
    const id: Id
    const channel: Channel<T>
    const ready: Channel<Id>

    constructor (id: Id, ready: Channel<Id>)
      ensures this.id == id && this.ready == ready && fresh(channel) && channel.queue == [] && !channel.closed
    {
      this.id, this.ready := id, ready;
      channel := new Channel<T>();
    }

    method RescheduleIt()
      requires !ready.closed
      modifies ready
      ensures ready.queue == old(ready.queue) + [id] && !ready.closed
    {
      var wasEmpty := ready.Push(id);
    }

    /** enqueue: the steps Enqueue and, if it is this thread's task, Reschedule. */
    method EnqueueCall(call: T)
      requires !ready.closed && !channel.closed && (channel as object) != ready
      modifies channel, ready
      ensures channel.queue == old(channel.queue) + [call] && !channel.closed && !ready.closed
      ensures ready.queue == if old(channel.queue) == [] then old(ready.queue) + [id] else old(ready.queue)
    {
      var wasEmpty := channel.Push(call);
      if wasEmpty {
        RescheduleIt();
      }
    }

    /** performNextMessage, of a mailbox taken from the scheduler's queue; the call itself, returned as
        performed, runs between the two steps Begin and Finish. */
    method PerformNextMessage() returns (performed: T)
      requires channel.queue != [] && !ready.closed && (channel as object) != ready
      modifies channel, ready
      ensures performed == old(channel.queue)[0] && channel.queue == old(channel.queue)[1..]
      ensures ready.queue == if channel.queue == [] then old(ready.queue) else old(ready.queue) + [id]
    {
      performed := channel.Front();
      var popped, empty := channel.PopNoWaiting();
      if !empty {
        RescheduleIt();
      }
    }
  }
}
