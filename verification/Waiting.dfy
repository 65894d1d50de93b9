/** How long a message waits in the outbox, over the steps of two peers. */
module Waiting {
  import opened Bytes
  import opened Messages
  import opened MessagesOut
  import opened Outbox
  import opened Senders
  import opened Receivers
  import opened Network
  import opened Invariants
  import opened Theorems

  /** A step of a, or of b. */
  datatype Move = Move(ofA: bool, step: Step)

  predicate Moves(n: Net, n': Net, move: Move) {
    if move.ofA then StepOfA(n, n', move.step) else StepOfA(Mirror(n), Mirror(n'), move.step)
  }

  /** Any number of steps of the two peers, from any state. */
  ghost predicate IsPath(path: seq<Net>, moves: seq<Move>) {
    && |path| == |moves| + 1
    && forall i :: 0 <= i < |moves| ==> Moves(path[i], path[i + 1], moves[i])
  }

  predicate IsWrite(move: Move) {
    move.ofA && move.step.Write?
  }

  /** How many frames a writes. */
  function Writes(moves: seq<Move>): nat {
    if moves == [] then 0 else (if IsWrite(moves[0]) then 1 else 0) + Writes(moves[1..])
  }

  /** Message k is at position p of the outbox. */
  predicate IsAt(q: seq<OutMsg>, k: Key, p: nat) {
    p < |q| && !q[p].IsAck() && KeyOf(q[p]) == k
  }

  /** With this move, a writes a frame of message k. */
  predicate Sends(n: Net, move: Move, k: Key) {
    IsWrite(move) && IsAt(n.a.send.outbox, k, 0)
  }

  // ---------------------------------------------------------------- one step

  /** What an ACK that comes in does to the place of a message. */
  predicate SamePlace(q: seq<OutMsg>, p: nat, q': seq<OutMsg>, p': nat, write: bool) {
    && p < |q| && p' < |q'|
    && KeyOf(q'[p']) == KeyOf(q[p]) && q'[p'].IsAck() == q[p].IsAck() && q'[p'].urgent == q[p].urgent
    && (if q[p].urgent then p' + (if write then 1 else 0) == p
        else Wait(q', p') + (if write then 1 else 0) <= Wait(q, p))
  }

  lemma Inserted(q: seq<OutMsg>, p: nat, m: OutMsg) returns (p': nat)
    requires p < |q|
    ensures SamePlace(q, p, Requeue(q, m), p', false)
  {
    hide Wait;
    p' := Track(q, p, Put(m)).value;
    TrackFollows(q, p, Put(m));
    InsertPosRule(q, m);
    if !q[p].urgent {
      WaitStep(q, p, Put(m));
    }
  }

  lemma Popped(q: seq<OutMsg>, p: nat)
    requires 0 < p < |q|
    ensures SamePlace(q, p, q[1..], p - 1, true)
  {
    hide Wait;
    if !q[p].urgent {
      WaitStep(q, p, Pop);
    }
  }

  lemma {:induction false} NormalsUnchanged(q: seq<OutMsg>, i: nat, m: OutMsg, p: nat)
    requires i < |q| && m.urgent == q[i].urgent && p <= |q|
    ensures NormalsBefore(q[i := m], p) == NormalsBefore(q, p)
  {
    if p > 0 {
      NormalsUnchanged(q, i, m, p - 1);
    }
  }

  lemma AckKeepsPlace(s: Sender, number: nat, onResponse: bool, payload: seq<byte>, p: nat) returns (p': nat)
    requires p < |s.outbox|
    ensures SamePlace(s.outbox, p, ReceivedAck(s, number, onResponse, payload).outbox, p', false)
  {
    hide ReadUVarInt, Requeue;
    var i := FindMessage(s.outbox, number, onResponse);
    var j := FindMessage(s.icebox, number, onResponse);
    var count := ReadUVarInt(payload, UINT32_LIMIT);
    p' := p;
    if count.Some? && i.Some? {
      NormalsUnchanged(s.outbox, i.value, AcceptAck(s.outbox[i.value], count.value.0), p);
    } else if count.Some? && j.Some? && !AcceptAck(s.icebox[j.value], count.value.0).NeedsAck() {
      p' := Inserted(s.outbox, p, AcceptAck(s.icebox[j.value], count.value.0));
    }
  }

  lemma WriteKeepsPlace(s: Sender, p: nat) returns (p': nat)
    requires 0 < p < |s.outbox|
    ensures SamePlace(s.outbox, p, WriteFrame(s).sender.outbox, p', true)
  {
    hide NextFrame, FrameRoom, Requeue, Wait;
    var m, rest := s.outbox[0], s.outbox[1..];
    var sent := NextFrame(m, s.crc, FrameRoom(m, rest));
    Popped(s.outbox, p);
    p' := p - 1;
    if sent.flags.moreComing && !sent.msg.NeedsAck() {
      p' := Inserted(rest, p - 1, sent.msg);
    }
  }

  /** Whatever step a takes, unless it writes the first message of the outbox: a normal message at position
      p does not wait longer, an urgent one keeps its place, and a frame that is written brings each
      forward. ACKs may change messages where they stand. */
  lemma StepKeepsPlace(x: Peer, out: seq<Frame>, incoming: seq<Frame>, step: Step, p: nat) returns (p': nat)
    requires Enabled(x, incoming, step) && p < |x.send.outbox| && !(step.Write? && p == 0)
    ensures SamePlace(x.send.outbox, p, Do(x, out, incoming, step).0.send.outbox, p', step.Write?)
  {
    hide SamePlace, WriteFrame, Requeue, ReceivedAck, Receive, LiveAfterAck, LiveAfterWrite, Fresh, PutUVarInt;
    match step
    case QueueRequest(m, _) =>
      p' := Inserted(x.send.outbox, p, Number(x.send, m));
    case QueueReply(m, _) =>
      p' := Inserted(x.send.outbox, p, m);
    case QueueAck =>
      p' := Inserted(x.send.outbox, p, AckOut(x.acks[0]));
    case Write =>
      p' := WriteKeepsPlace(x.send, p);
    case Deliver =>
      var f := incoming[0];
      p' := p;
      if f.flags.typ.IsAck() {
        p' := AckKeepsPlace(x.send, f.number, f.flags.typ.AckResponseType?, f.payload, p);
      } else {
        Unmoved(x.send.outbox, p);
      }
  }

  lemma Unmoved(q: seq<OutMsg>, p: nat)
    requires p < |q|
    ensures SamePlace(q, p, q, p, false)
  {
  }

  lemma MoveKeepsPlace(n: Net, n': Net, move: Move, k: Key, p: nat) returns (p': nat)
    requires Moves(n, n', move) && IsAt(n.a.send.outbox, k, p) && !Sends(n, move, k)
    ensures IsAt(n'.a.send.outbox, k, p')
    ensures SamePlace(n.a.send.outbox, p, n'.a.send.outbox, p', IsWrite(move))
  {
    hide Do, Enabled, Wait;
    if move.ofA {
      p' := StepKeepsPlace(n.a, n.ab, n.ba, move.step, p);
    } else {
      p' := p;
      Unmoved(n.a.send.outbox, p);
    }
  }

  // ---------------------------------------------------------------- any number of steps

  lemma WritesMore(moves: seq<Move>, i: nat)
    requires moves != [] && i < |moves|
    ensures Writes(moves[..i + 1]) == (if IsWrite(moves[0]) then 1 else 0) + Writes(moves[1..][..i])
  {
    assert moves[..i + 1][1..] == moves[1..][..i];
  }

  /** No starvation in any run: whatever is queued, thawed, acknowledged and received meanwhile, a normal
      message at position p of the outbox sends a frame within 2p + 1 frames. */
  lemma {:induction false} NormalSends(path: seq<Net>, moves: seq<Move>, k: Key, p: nat) returns (i: nat)
    requires IsPath(path, moves) && IsAt(path[0].a.send.outbox, k, p) && !path[0].a.send.outbox[p].urgent
    requires Writes(moves) >= 2 * p + 1
    ensures i < |moves| && Sends(path[i], moves[i], k) && Writes(moves[..i]) <= 2 * p
  {
    i := NormalWaits(path, moves, k, p);
  }

  lemma {:induction false} NormalWaits(path: seq<Net>, moves: seq<Move>, k: Key, p: nat) returns (i: nat)
    requires IsPath(path, moves) && IsAt(path[0].a.send.outbox, k, p) && !path[0].a.send.outbox[p].urgent
    requires Writes(moves) > Wait(path[0].a.send.outbox, p)
    ensures i < |moves| && Sends(path[i], moves[i], k) && Writes(moves[..i]) <= Wait(path[0].a.send.outbox, p)
    decreases |moves|
  {
    hide Moves, Wait;
    if Sends(path[0], moves[0], k) {
      i := 0;
    } else {
      var p' := MoveKeepsPlace(path[0], path[1], moves[0], k, p);
      var j := NormalWaits(path[1..], moves[1..], k, p');
      WritesMore(moves, j);
      i := j + 1;
    }
  }

  /** A message stands in the outbox once. */
  lemma StandsOnce(n: Net, k: Key, i: nat, j: nat)
    requires Reachable(n) && IsAt(n.a.send.outbox, k, i) && IsAt(n.a.send.outbox, k, j)
    ensures i == j
  {
    hide Reachable, FlowControl, Replies, Mirrors, FlowInvariant, IsAckOut;
    ReachableInv(n);
    var q := n.a.send.outbox;
    assert q[i] in Live(n.a.send) && q[j] in Live(n.a.send);
    if i < j {
      TwoPlaces(q, i, j);
    } else if j < i {
      TwoPlaces(q, j, i);
    }
  }

  lemma TwoPlaces(q: seq<OutMsg>, i: nat, j: nat)
    requires i < j < |q| && q[i] == q[j]
    ensures multiset(q)[q[i]] >= 2
  {
    assert q == q[..i] + [q[i]] + q[i + 1..j] + [q[j]] + q[j + 1..];
  }

  /** An urgent message at position p sends its next frame as exactly the (p + 1)th, in every run. */
  lemma {:induction false} UrgentSends(path: seq<Net>, moves: seq<Move>, k: Key, p: nat) returns (i: nat)
    requires IsPath(path, moves) && Reachable(path[0])
    requires IsAt(path[0].a.send.outbox, k, p) && path[0].a.send.outbox[p].urgent && Writes(moves) >= p + 1
    ensures i < |moves| && Sends(path[i], moves[i], k) && Writes(moves[..i]) == p
    ensures forall j :: 0 <= j < i ==> !Sends(path[j], moves[j], k)
    decreases |moves|
  {
    hide Moves, Reachable;
    if Sends(path[0], moves[0], k) {
      StandsOnce(path[0], k, 0, p);
      i := 0;
    } else {
      var p' := MoveKeepsPlace(path[0], path[1], moves[0], k, p);
      MoveReaches(path[0], path[1], moves[0]);
      var j := UrgentSends(path[1..], moves[1..], k, p');
      WritesMore(moves, j);
      i := j + 1;
    }
  }

  lemma MoveReaches(n: Net, n': Net, move: Move)
    requires Reachable(n) && Moves(n, n', move)
    ensures Reachable(n')
  {
    hide StepOfA, Reachable;
    ReachableNext(n, n');
  }
}
