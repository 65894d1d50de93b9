/** Back-pressure between a connection and its socket: sendOp and onWriteComplete of
    src/websocket/WebSocketImpl.cc, interleaved with the turns of the BLIPIO actor. */
module BackPressure {
  import opened Bytes

  const SEND_BUFFER_SIZE := 0x1_0000

  // ---------------------------------------------------------------- the two critical sections

  /** sendOp, for a frame of this size: the bytes that are buffered then, and the result. */
  function SendOp(buffered: nat, closeSent: bool, isClose: bool, size: nat): (nat, bool) {
    if closeSent && !isClose then (buffered, false)
    else (buffered + size, buffered + size <= SEND_BUFFER_SIZE)
  }

  /** onWriteComplete: the bytes that are still buffered, and whether to notify the delegate. */
  function WriteComplete(buffered: nat, closing: bool, size: nat): (nat, bool)
    requires size <= buffered
  {
    var left := buffered - size;
    (left, buffered > SEND_BUFFER_SIZE && left <= SEND_BUFFER_SIZE && !(closing && left == 0))
  }

  // ---------------------------------------------------------------- the threads

  /** sent is the result of a send that the actor has not stored yet; notifying counts the threads that
      have left onWriteComplete's critical section and are to notify; turns are the calls of
      _onWebSocketWriteable in the actor's mailbox. */
  datatype State = State(buffered: nat, closeSent: bool, closeReceived: bool,
                         writeable: bool, sent: Option<bool>, notifying: nat, turns: nat)

  function Start(): State {
    State(0, false, false, true, None, 0, 0)
  }

  datatype Step =
    | Send(size: nat)      // the actor, writing a frame: the critical section of sendOp
    | Store                // the actor, assigning the result to _writeable
    | OtherSend(size: nat) // a PING, a PONG, or any other call of send
    | SendClose(size: nat) // close, or the echo of a CLOSE
    | ReceiveClose
    | Complete(size: nat)  // the critical section of onWriteComplete
    | Notify               // onWebSocketWriteable, called after onWriteComplete or when connected
    | Connected
    | Turn                 // the actor, beginning a call of _onWebSocketWriteable

  predicate Enabled(s: State, step: Step) {
    match step
    case Send(_) => s.sent.None? && s.writeable
    case Store => s.sent.Some?
    case Complete(size) => size <= s.buffered
    case Notify => s.notifying > 0
    case Turn => s.sent.None? && s.turns > 0
    case _ => true
  }

  function Do(s: State, step: Step): State
    requires Enabled(s, step)
  {
    match step
    case Send(size) =>
      var r := SendOp(s.buffered, s.closeSent, false, size); s.(buffered := r.0, sent := Some(r.1))
    case Store => s.(writeable := s.sent.value, sent := None)
    case OtherSend(size) => s.(buffered := SendOp(s.buffered, s.closeSent, false, size).0)
    case SendClose(size) => s.(buffered := SendOp(s.buffered, s.closeSent, true, size).0, closeSent := true)
    case ReceiveClose => s.(closeReceived := true)
    case Complete(size) =>
      var r := WriteComplete(s.buffered, s.closeSent && s.closeReceived, size);
      s.(buffered := r.0, notifying := s.notifying + if r.1 then 1 else 0)
    case Notify => s.(notifying := s.notifying - 1, turns := s.turns + 1)
    case Connected => s.(turns := s.turns + 1)
    case Turn => s.(turns := s.turns - 1, writeable := true)
  }

  ghost predicate IsRun(run: seq<State>, steps: seq<Step>) {
    && |run| == |steps| + 1 && run[0] == Start()
    && forall i :: 0 <= i < |steps| ==> Enabled(run[i], steps[i]) && run[i + 1] == Do(run[i], steps[i])
  }

  /** _writeable is false, or is about to be. */
  predicate Blocked(s: State) {
    if s.sent.Some? then !s.sent.value else !s.writeable
  }

  /** Something will still set _writeable: a write that has to complete, a notification or a turn. */
  predicate WillWake(s: State) {
    s.buffered > SEND_BUFFER_SIZE || s.notifying > 0 || s.turns > 0
  }

  predicate NoLostWakeUp(s: State) {
    !s.closeSent && Blocked(s) ==> WillWake(s)
  }

  lemma StepKeeps(s: State, step: Step)
    requires NoLostWakeUp(s) && Enabled(s, step)
    ensures NoLostWakeUp(Do(s, step))
    ensures s.closeSent ==> Do(s, step).closeSent
  {
  }

  /** No wake-up is lost: in every interleaving, before a CLOSE is sent, the actor finds _writeable
      false only while a wake-up is still to come. */
  lemma {:induction false} RunLosesNoWakeUp(run: seq<State>, steps: seq<Step>)
    requires IsRun(run, steps)
    ensures NoLostWakeUp(run[|run| - 1])
    decreases |steps|
  {
    if steps != [] {
      var n := |steps| - 1;
      RunLosesNoWakeUp(run[..n + 1], steps[..n]);
      StepKeeps(run[n], steps[n]);
    }
  }

  /** The bytes buffered: those of the frames accepted, less those written. */
  function Buffered(s: State, step: Step): int {
    match step
    case Send(size) => if s.closeSent then 0 else size
    case OtherSend(size) => if s.closeSent then 0 else size
    case SendClose(size) => size
    case Complete(size) => (var n: int := size; -n)
    case _ => 0
  }

  /** How often the buffer has come to hold more than 65536 bytes. */
  ghost function Rises(run: seq<State>): nat
    requires run != []
  {
    if |run| == 1 then 0
    else Rises(run[..|run| - 1]) + if run[|run| - 2].buffered <= 65536 < run[|run| - 1].buffered then 1 else 0
  }

  /** The notifications that are still to be made, and those made. */
  ghost function Notifications(run: seq<State>, steps: seq<Step>): nat
    requires |run| == |steps| + 1
  {
    run[|steps|].notifying + Count(steps, Notify)
  }

  function Count(steps: seq<Step>, step: Step): nat {
    if steps == [] then 0 else Count(steps[..|steps| - 1], step) + if steps[|steps| - 1] == step then 1 else 0
  }

  /** One step: a rise, a fall and its notification, or neither. */
  lemma StepRises(s: State, step: Step)
    requires Enabled(s, step) && !s.closeSent && !s.closeReceived && !step.SendClose? && !step.ReceiveClose?
    ensures var s' := Do(s, step);
      && !s'.closeSent && !s'.closeReceived
      && s'.notifying + (if step == Notify then 1 else 0) + (if s'.buffered > 65536 then 1 else 0)
         == s.notifying + (if s.buffered > 65536 then 1 else 0)
            + if s.buffered <= 65536 < s'.buffered then 1 else 0
  {
  }

  /** No notification too many, none too few: in every interleaving without a CLOSE the delegate is notified
      once for each time that the buffer has risen above 65536 bytes and fallen again. */
  lemma {:induction false} NotifiedForEachFall(run: seq<State>, steps: seq<Step>)
    requires IsRun(run, steps) && forall i :: 0 <= i < |steps| ==> !steps[i].SendClose? && !steps[i].ReceiveClose?
    ensures var s := run[|steps|];
      && Notifications(run, steps) + (if s.buffered > 65536 then 1 else 0) == Rises(run)
      && !s.closeSent && !s.closeReceived
    decreases |steps|
  {
    hide Do, Enabled;
    if steps != [] {
      var n := |steps| - 1;
      NotifiedForEachFall(run[..n + 1], steps[..n]);
      StepRises(run[n], steps[n]);
      assert run[..n + 1] == run[..|run| - 1] && steps[..n] == steps[..|steps| - 1];
    }
  }

  /** What one step makes of the buffer, what a send is told, and when the delegate is to be notified: when
      the buffer falls to 65536 bytes or below, unless that is the end of a connection both sides have
      closed. */
  lemma StepBuffers(s: State, step: Step)
    requires Enabled(s, step)
    ensures Do(s, step).buffered == s.buffered + Buffered(s, step)
    ensures step.Send? ==> Do(s, step).sent == Some(!s.closeSent && s.buffered + step.size <= 65536)
    ensures step.Complete? ==> var s' := Do(s, step);
      s'.notifying > s.notifying
      <==> s'.buffered <= 65536 < s.buffered && !(s.closeSent && s.closeReceived && s'.buffered == 0)
  {
  }

  /** Once everything has been written and every turn taken, the actor may write, unless a CLOSE has
      been sent. */
  lemma QuietIsWriteable(run: seq<State>, steps: seq<Step>)
    requires IsRun(run, steps)
    requires var s := run[|run| - 1];
      s.buffered <= SEND_BUFFER_SIZE && s.notifying == 0 && s.turns == 0 && s.sent.None? && !s.closeSent
    ensures run[|run| - 1].writeable
  {
    RunLosesNoWakeUp(run, steps);
  }

  /** When the actor sends a frame, it is left with a wake-up to come, or not blocked, if and only if no
      CLOSE has been sent or a wake-up was to come already. */
  lemma SendLosesNoWakeUp(s: State, size: nat)
    requires Enabled(s, Send(size))
    ensures var s' := Do(Do(s, Send(size)), Store);
      (Blocked(s') ==> WillWake(s')) <==> !s.closeSent || WillWake(s)
  {
  }

  /** The actor is blocked after a CLOSE has been sent, and no wake-up is to come. */
  predicate BlockedForGood(s: State) {
    s.closeSent && s.sent.None? && !s.writeable && !WillWake(s)
  }

  /** A send that is refused after a CLOSE leaves the actor like that. */
  lemma BlockedAfterClose(size: nat)
    requires size <= SEND_BUFFER_SIZE
    ensures var s1 := Do(Start(), SendClose(size));
      BlockedForGood(Do(Do(s1, Send(1)), Store))
  {
  }

  /** The actor stays blocked whatever happens then, unless another CLOSE is sent or the socket connects
      again. */
  lemma {:induction false} StaysBlocked(run: seq<State>, steps: seq<Step>, start: nat)
    requires IsRun(run, steps) && start <= |steps| && BlockedForGood(run[start])
    requires forall i :: start <= i < |steps| ==> !steps[i].SendClose? && !steps[i].Connected?
    ensures BlockedForGood(run[|steps|]) && forall i :: start <= i < |steps| ==> !steps[i].Send? && !steps[i].Turn?
    decreases |steps|
  {
    if start < |steps| {
      var n := |steps| - 1;
      StaysBlocked(run[..n + 1], steps[..n], start);
      assert forall i :: start <= i < n ==> steps[i] == steps[..n][i];
    }
  }
}
