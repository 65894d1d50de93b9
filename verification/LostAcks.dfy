/** Which ACKs a message has heard over a run, and when that leaves a reply stuck. */
module LostAcks {
  import opened Bytes
  import opened MessagesOut
  import opened MessagesIn
  import opened Senders
  import opened Receivers
  import opened Network
  import opened Invariants
  import opened Delivery
  import opened Flow
  import opened Theorems
  import opened ReplyFlow
  import opened ReplyTheorems
  import opened Waiting

  // ---------------------------------------------------------------- what a message hears

  /** With this move a handles an ACK of message k that reaches it: for a reply, one before which no other
      non-request of its number stands in the outbox. A count beyond the bytes sent is ignored. */
  ghost predicate Hears(n: Net, move: Move, k: Key) {
    && move.ofA && move.step.Deliver? && n.ba != [] && k in n.a.live
    && var f := n.ba[0];
       var count := ReadUVarInt(f.payload, UINT32_LIMIT);
       && f.number == k.number && f.flags.typ == AckType(Ack(k.reply, k.number, 0))
       && (k.reply ==> FirstInLine(n.a.send, n.a.live[k]))
       && count.Some? && count.value.0 <= n.a.live[k].bytesSent
  }

  ghost function HeardNow(n: Net, move: Move, k: Key): nat {
    if Hears(n, move, k) then ReadUVarInt(n.ba[0].payload, UINT32_LIMIT).value.0 else 0
  }

  /** The highest count of an ACK that message k has heard. */
  ghost function Heard(path: seq<Net>, moves: seq<Move>, k: Key): nat
    requires |path| == |moves| + 1
    decreases |moves|
  {
    if moves == [] then 0
    else
      var last := |moves| - 1;
      var before, now := Heard(path[..|moves|], moves[..last], k), HeardNow(path[last], moves[last], k);
      if before < now then now else before
  }

  // ---------------------------------------------------------------- one step

  /** m' is what a step makes of m: its acknowledged bytes are those before, or what it hears if that is
      more. */
  predicate AckedGrows(m: OutMsg, m': OutMsg, now: nat) {
    AckedBytes(m') == if AckedBytes(m) < now then now else AckedBytes(m)
  }

  lemma FrameKeepsAcked(n: Net, k: Key)
    requires Inv(n) && n.a.send.outbox != [] && k in LiveAfterWrite(n.a)
    ensures k in n.a.live && AckedBytes(LiveAfterWrite(n.a)[k]) == AckedBytes(n.a.live[k])
    ensures AckedBytes(n.a.live[k]) >= 0
  {
    hide Mirrors, Replies, FlowControl, Represents, IsAckOut, NextFrame, FlowInvariant;
    var x := n.a;
    var m, rest := x.send.outbox[0], x.send.outbox[1..];
    AckedIsNat(n, k);
    if !m.IsAck() {
      QueuedIsLive(n, m);
      NextFrameProperties(m, x.send.crc, FrameRoom(m, rest));
    }
  }

  lemma AckedIsNat(n: Net, k: Key)
    requires Inv(n)
    ensures k in n.a.live ==> AckedBytes(n.a.live[k]) >= 0
  {
    hide Mirrors, Replies, FlowControl, IsAckOut;
    if k in n.a.live {
      assert n.a.live[k] in Live(n.a.send);
    }
  }

  lemma AckGrowsAcked(n: Net, k: Key)
    requires Inv(n) && n.ba != [] && n.ba[0].flags.typ.IsAck() && k in n.a.live
    ensures var x' := DoDeliver(n.a, n.ba[0]);
      k in x'.live && AckedGrows(n.a.live[k], x'.live[k], HeardNow(n, Move(true, Deliver), k))
  {
    hide Mirrors, Replies, FlowControl, Represents, IsAckOut, FlowInvariant, ReadUVarInt, AckTarget, FirstInLine, Live;
    var f := n.ba[0];
    AckedIsNat(n, k);
    AckOfMessage(n.a, f, k);
    if k.reply {
      AckFindsReply(n.a, k);
    } else {
      TargetOfRequest(n.a, k.number);
    }
  }

  /** A step of a. */
  lemma StepAcked(n: Net, n': Net, step: Step, k: Key)
    requires Inv(n) && StepOfA(n, n', step) && k in n'.a.live
    ensures if k in n.a.live then AckedGrows(n.a.live[k], n'.a.live[k], HeardNow(n, Move(true, step), k))
            else k !in n.a.sent && AckedBytes(n'.a.live[k]) == 0
  {
    hide Inv, LiveAfterWrite, DoDeliver, Fresh, WriteFrame, Receive, Enqueue, HeardNow;
    AckedIsNat(n, k);
    NothingHeard(n, step, k);
    match step
    case QueueRequest(m, s) =>
      NewRequest(n, m, s);
    case QueueReply(m, s) =>
      NewReply(n, m, s);
    case QueueAck =>
    case Write =>
      FrameKeepsAcked(n, k);
    case Deliver =>
      if n.ba[0].flags.typ.IsAck() {
        if k in n.a.live {
          AckGrowsAcked(n, k);
        } else {
          SameKeys(n, k);
        }
      } else {
        NotAnAck(n, k);
      }
  }

  lemma NothingHeard(n: Net, step: Step, k: Key)
    ensures !step.Deliver? ==> HeardNow(n, Move(true, step), k) == 0
  {
  }

  lemma NotAnAck(n: Net, k: Key)
    requires n.ba != [] && !n.ba[0].flags.typ.IsAck()
    ensures HeardNow(n, Move(true, Deliver), k) == 0 && DoDeliver(n.a, n.ba[0]).live == n.a.live
  {
    hide Receive;
  }

  lemma SameKeys(n: Net, k: Key)
    requires Inv(n) && n.ba != [] && n.ba[0].flags.typ.IsAck()
    ensures DoDeliver(n.a, n.ba[0]).live.Keys == n.a.live.Keys
  {
    hide Mirrors, Replies, FlowControl;
    AckEffect(n.a, n.ba[0]);
  }

  lemma NewRequest(n: Net, m: OutMsg, s: Sent)
    requires Inv(n) && Enabled(n.a, n.ba, QueueRequest(m, s))
    ensures var m' := Number(n.a.send, m);
      KeyOf(m') !in n.a.sent && KeyOf(m') !in n.a.live && AckedBytes(m') == 0
  {
    hide Replies, FlowControl, Represents, FlowInvariant, InTransit, DeliveredAs, InOrder;
  }

  lemma NewReply(n: Net, m: OutMsg, s: Sent)
    requires Inv(n) && Enabled(n.a, n.ba, QueueReply(m, s))
    ensures KeyOf(m) !in n.a.sent && KeyOf(m) !in n.a.live && AckedBytes(m) == 0
  {
    hide FlowControl, Represents, FlowInvariant, InTransit, DeliveredAs, InOrder;
  }

  lemma SentStays(n: Net, n': Net, move: Move, k: Key)
    requires Inv(n) && Moves(n, n', move)
    ensures k in n.a.sent ==> k in n'.a.sent
    ensures k in n.a.live ==> k in n.a.sent
  {
    hide Replies, FlowControl, SenderInv, InTransit, DeliveredAs, InOrder, WriteFrame, Receive, Fresh, Enqueue,
         LiveAfterWrite, LiveAfterAck;
  }

  /** A move of either peer. */
  lemma MoveAcked(n: Net, n': Net, move: Move, k: Key)
    requires Inv(n) && Moves(n, n', move) && k in n'.a.live
    ensures if k in n.a.live then AckedGrows(n.a.live[k], n'.a.live[k], HeardNow(n, move, k))
            else k !in n.a.sent && AckedBytes(n'.a.live[k]) == 0 && HeardNow(n, move, k) == 0
  {
    hide Inv, Do, Enabled;
    if move.ofA {
      StepAcked(n, n', move.step, k);
    } else {
      AckedIsNat(n, k);
    }
  }

  // ---------------------------------------------------------------- every run

  lemma {:induction false} PathReaches(path: seq<Net>, moves: seq<Move>)
    requires IsPath(path, moves) && path[0] == NewNet()
    ensures Reachable(path[|moves|])
    decreases |moves|
  {
    hide Moves, Reachable;
    if moves == [] {
      NewReachable();
    } else {
      var last := |moves| - 1;
      PathBefore(path, moves);
      PathReaches(path[..|moves|], moves[..last]);
      MoveReaches(path[last], path[last + 1], moves[last]);
    }
  }

  lemma PathBefore(path: seq<Net>, moves: seq<Move>)
    requires IsPath(path, moves) && moves != []
    ensures IsPath(path[..|moves|], moves[..|moves| - 1])
  {
    hide Moves;
    var p, q := path[..|moves|], moves[..|moves| - 1];
    forall i | 0 <= i < |q| ensures Moves(p[i], p[i + 1], q[i]) {
      assert Moves(path[i], path[i + 1], moves[i]);
    }
  }

  lemma NewReachable()
    ensures Reachable(NewNet())
  {
    assert IsRun([NewNet()]);
  }

  /** In every run: the acknowledged bytes of a message that is being sent are the highest count of an ACK
      that it has heard. */
  lemma {:induction false} AckedIsHeard(path: seq<Net>, moves: seq<Move>, k: Key)
    requires IsPath(path, moves) && path[0] == NewNet()
    ensures var x := path[|moves|].a;
      && (k in x.live ==> AckedBytes(x.live[k]) == Heard(path, moves, k))
      && (k !in x.sent ==> Heard(path, moves, k) == 0)
    decreases |moves|
  {
    hide Inv, Moves, HeardNow;
    if moves != [] {
      var last := |moves| - 1;
      var n, n' := path[last], path[last + 1];
      PathBefore(path, moves);
      PathReaches(path[..|moves|], moves[..last]);
      AckedIsHeard(path[..|moves|], moves[..last], k);
      ReachableInv(n);
      SentStays(n, n', moves[last], k);
      NotLiveHearsNothing(n, moves[last], k);
      if k in n'.a.live {
        MoveAcked(n, n', moves[last], k);
      }
    }
  }

  lemma NotLiveHearsNothing(n: Net, move: Move, k: Key)
    ensures k !in n.a.live ==> HeardNow(n, move, k) == 0
  {
  }

  /** In every run: a reply that has begun, whose frames have all arrived and whose ACKs have all come back,
      is stuck if and only if the bytes that its receiver has had reach 128000 beyond the highest count of
      an ACK that it heard. */
  lemma StuckIffUnheard(path: seq<Net>, moves: seq<Move>, m: OutMsg)
    requires IsPath(path, moves) && path[0] == NewNet()
    requires var n := path[|moves|];
      && m in n.a.send.outbox + n.a.send.icebox && KeyOf(m).reply && !m.IsAck() && m.bytesSent > 0
      && NoFrame(n.ab, KeyOf(m)) && !AckOnItsWay(n, KeyOf(m))
    ensures var n := path[|moves|];
      && m.number in n.b.recv.pendingResponses
      && var i := n.b.recv.pendingResponses[m.number];
         && Heard(path, moves, KeyOf(m)) <= AskedBytes(i) <= i.rawBytes < AskedBytes(i) + INCOMING_ACK_THRESHOLD
         && (Stuck(n, m) <==> i.rawBytes - Heard(path, moves, KeyOf(m)) >= MAX_UNACKED_BYTES)
  {
    hide Inv, Reachable, FlowOfA, AckOnItsWay, NoFrame, Heard, Moves;
    var n := path[|moves|];
    PathReaches(path, moves);
    ReachableInv(n);
    ReachableReplies(n);
    QueuedIsLive(n, m);
    AckedIsHeard(path, moves, KeyOf(m));
    Unacknowledged(ANY_REPLIES, n, KeyOf(m));
    InIceboxIff(n, m);
    PartlyReceived(n, KeyOf(m));
  }

  lemma PartlyReceived(n: Net, k: Key)
    requires Inv(n) && FlowOfA(ANY_REPLIES, n) && k in n.a.live && k.reply && n.a.live[k].bytesSent > 0
    requires NoFrame(n.ab, k)
    ensures k.number in n.b.recv.pendingResponses && AskedBytes(n.b.recv.pendingResponses[k.number])
                                                     <= n.b.recv.pendingResponses[k.number].rawBytes
  {
    hide Mirrors, Replies, SenderInv, NoFrame;
    DrainOthers(n.b.recv, n.ab, k);
    StillMatches(n, k);
  }
}
