/** What holds of the replies of every run: flow control does its work while every ACK of a reply finds
    its reply; a reply that waits for an ACK that will not come is stuck for ever. */
module ReplyTheorems {
  import opened Bytes
  import opened MessagesOut
  import opened MessagesIn
  import opened Outbox
  import opened Senders
  import opened Receivers
  import opened Network
  import opened Invariants
  import opened Flow
  import opened Safety
  import opened Theorems
  import opened ReplyFlow

  const REPLIES := Claim(true, true)

  /** What is claimed of replies in every run: nothing is acknowledged that was not asked for. */
  const ANY_REPLIES := Claim(true, false)

  lemma ClearIsReachable(n: Net)
    requires ReachableClear(n)
    ensures Reachable(n) && FlowOfA(REPLIES, n)
  {
    hide Inv, Next, NextWith, FlowControl;
    var run :| IsRunWith(true, run) && run[|run| - 1] == n;
    RunKeepsReplies(true, run);
  }

  lemma ReachableReplies(n: Net)
    requires Reachable(n)
    ensures FlowOfA(ANY_REPLIES, n)
  {
    hide Inv, Next, NextWith, FlowControl;
    var run :| IsRun(run) && run[|run| - 1] == n;
    forall i | 0 <= i < |run| - 1 ensures NextWith(false, run[i], run[i + 1]) {
      AnyStep(run[i], run[i + 1]);
    }
    RunKeepsReplies(false, run);
  }

  lemma AnyStep(n: Net, n': Net)
    requires Next(n, n')
    ensures NextWith(false, n, n')
  {
    hide StepOfA, IsClear;
    var step :| StepOfA(n, n', step) || StepOfA(Mirror(n), Mirror(n'), step);
    assert (StepOfA(n, n', step) && (false ==> IsClear(n.a, n.ba, step)))
        || (StepOfA(Mirror(n), Mirror(n'), step) && (false ==> IsClear(n.b, n.ab, step)));
  }

  // ---------------------------------------------------------------- while no ACK is lost

  /** If every ACK of a reply finds its reply: a reply whose frames have all arrived and whose ACKs have
      all come back has fewer than 50000 bytes unacknowledged. */
  lemma AllRepliesAcked(n: Net, m: OutMsg)
    requires ReachableClear(n) && m in n.a.send.outbox + n.a.send.icebox && KeyOf(m).reply && !m.IsAck()
    requires m.bytesSent > 0 && NoFrame(n.ab, KeyOf(m)) && !AckOnItsWay(n, KeyOf(m))
    ensures m.unacked < INCOMING_ACK_THRESHOLD
  {
    hide Inv, ReachableClear, Reachable, FlowOfA, AckOnItsWay, NoFrame;
    ClearIsReachable(n);
    ReachableInv(n);
    QueuedIsLive(n, m);
    Unacknowledged(REPLIES, n, KeyOf(m));
  }

  /** If every ACK of a reply finds its reply: while a reply is frozen, a frame of it is in flight or an
      ACK of it is asked for, queued or in flight. */
  lemma FrozenReplyWillThaw(n: Net, m: OutMsg)
    requires ReachableClear(n) && m in n.a.send.icebox && KeyOf(m).reply
    ensures !NoFrame(n.ab, KeyOf(m)) || AckOnItsWay(n, KeyOf(m))
  {
    hide Inv, ReachableClear, Reachable, FlowOfA, AckOnItsWay, NoFrame;
    ClearIsReachable(n);
    ReachableInv(n);
    FrozenIsMessage(n, m);
    if NoFrame(n.ab, KeyOf(m)) && !AckOnItsWay(n, KeyOf(m)) {
      AllRepliesAcked(n, m);
    }
  }

  lemma FrozenIsMessage(n: Net, m: OutMsg)
    requires Inv(n) && m in n.a.send.icebox
    ensures !m.IsAck() && m.NeedsAck() && m.bytesSent > 0
    ensures KeyOf(m) in n.a.live && n.a.live[KeyOf(m)] == m && m !in n.a.send.outbox
  {
    hide IsAckOut, Mirrors, Replies, FlowControl;
    assert m in Live(n.a.send);
    assert Live(n.a.send)[m] == 1;
  }

  /** If every ACK of a reply finds its reply: once the outboxes, the channels and the ACKs asked for are
      all empty, every message has been delivered. */
  lemma AllDelivered(n: Net, k: Key)
    requires ReachableClear(n) && k in n.a.sent
    requires n.a.send.outbox == [] && n.b.send.outbox == [] && n.ab == [] && n.ba == []
    requires n.a.acks == [] && n.b.acks == []
    ensures DeliveredAs(k, n.a.sent[k], n.b.recv)
  {
    hide Inv, ReachableClear, Reachable, FlowOfA, AckOnItsWay;
    ClearIsReachable(n);
    ReachableInv(n);
    if k in n.a.live {
      var m := n.a.live[k];
      LiveInQueues(n, k);
      NoAckOnItsWay(n, k);
      if k.reply {
        FrozenReplyWillThaw(n, m);
      } else {
        FrozenRequestWillThaw(n, m);
      }
    }
    SentIsDelivered(n, k);
  }

  // ---------------------------------------------------------------- when ACKs are lost

  /** A reply waits for an ACK, but no frame of it is in flight and no ACK of it is asked for, queued or
      in flight. */
  ghost predicate Stuck(n: Net, m: OutMsg) {
    m in n.a.send.icebox && KeyOf(m).reply && NoFrame(n.ab, KeyOf(m)) && !AckOnItsWay(n, KeyOf(m))
  }

  lemma InIceboxIff(n: Net, m: OutMsg)
    requires Inv(n) && m in n.a.send.outbox + n.a.send.icebox
    ensures m in n.a.send.icebox <==> m.NeedsAck()
  {
    hide IsAckOut, Mirrors, Replies, FlowControl, Represents;
  }

  // ---------------------------------------------------------------- stuck for ever

  /** No frame that a writes is a frame of a message in its icebox. */
  lemma WritesOthers(n: Net, m: OutMsg)
    requires Inv(n) && m in n.a.send.icebox && KeyOf(m).reply && n.a.send.outbox != []
    ensures !IsReplyFrame(WriteFrame(n.a.send).frame, m.number)
  {
    hide FlowControl, Replies, FlowInvariant, IsAckOut, NextFrame, Drain, Represents, Mirrors;
    var x := n.a;
    FrozenIsMessage(n, m);
    WriteFrameLive(x.send);
    var head := x.send.outbox[0];
    if head.IsAck() {
      AckFrame(head, x.send.crc, FrameRoom(head, x.send.outbox[1..]));
    } else {
      NextFrameFlags(head, x.send.crc, FrameRoom(head, x.send.outbox[1..]));
      QueuedIsLive(n, head);
    }
  }

  /** An ACK of another message leaves a message in the icebox. */
  lemma AckOfAnother(s: Sender, m: OutMsg, number: nat, onResponse: bool, payload: seq<byte>)
    requires m in s.icebox
    requires AckTarget(s, number, onResponse) == Some(m) ==> m in s.outbox || ReadUVarInt(payload, UINT32_LIMIT).None?
    ensures m in ReceivedAck(s, number, onResponse, payload).icebox
  {
    hide ReadUVarInt, AcceptAck, Requeue;
    var i := FindMessage(s.outbox, number, onResponse);
    var j := FindMessage(s.icebox, number, onResponse);
    var k :| 0 <= k < |s.icebox| && s.icebox[k] == m;
    if i.None? && j.Some? && k != j.value && ReadUVarInt(payload, UINT32_LIMIT).Some? {
      var m' := AcceptAck(s.icebox[j.value], ReadUVarInt(payload, UINT32_LIMIT).value.0);
      assert s.icebox[j.value := m'][k] == m;
      RemovedOther(s.icebox, j.value, k);
    }
  }

  lemma RemovedOther<T>(q: seq<T>, j: nat, k: nat)
    requires j < |q| && k < |q| && j != k
    ensures q[k] in RemoveAt(q, j)
  {
    assert k < j ==> RemoveAt(q, j)[k] == q[k];
    assert k > j ==> RemoveAt(q, j)[k - 1] == q[k];
  }

  /** An ACK that finds m is on its way. */
  lemma ItsAck(n: Net, m: OutMsg)
    requires Inv(n) && KeyOf(m).reply && n.ba != [] && n.ba[0].flags.typ.IsAck() && n.ba[0].number == m.number
    requires n.ba[0].flags.typ.AckResponseType? && ReadUVarInt(n.ba[0].payload, UINT32_LIMIT).Some?
    ensures AckOnItsWay(n, KeyOf(m))
  {
    hide FlowControl, Replies, SenderInv, Mirrors, Drain, PutUVarInt, ReadUVarInt;
    var a := Ack(true, m.number, ReadUVarInt(n.ba[0].payload, UINT32_LIMIT).value.0);
    assert n.ba[0] == AckFrameOf(a);
    assert AckPending(a, n.b.acks, n.b.send.outbox, n.ba);
  }

  lemma AckLeavesFrozen(n: Net, m: OutMsg)
    requires Inv(n) && Stuck(n, m) && n.ba != [] && n.ba[0].flags.typ.IsAck()
    ensures m in DoDeliver(n.a, n.ba[0]).send.icebox
  {
    hide Inv, AckOnItsWay, NoFrame, ReceivedAck, ReadUVarInt;
    var f := n.ba[0];
    var onResponse := f.flags.typ.AckResponseType?;
    FrozenIsMessage(n, m);
    if AckTarget(n.a.send, f.number, onResponse) == Some(m) && ReadUVarInt(f.payload, UINT32_LIMIT).Some? {
      ItsAck(n, m);
    }
    AckOfAnother(n.a.send, m, f.number, onResponse, f.payload);
  }

  lemma FewerOnItsWay(n: Net, n': Net, k: Key)
    requires !AckOnItsWay(n, k)
    requires n'.b.acks == n.b.acks && n'.b.send.outbox == n.b.send.outbox
    requires n'.ba == n.ba || (n.ba != [] && n'.ba == n.ba[1..])
    ensures !AckOnItsWay(n', k)
  {
  }

  lemma StuckAfterStepOfA(n: Net, n': Net, step: Step, m: OutMsg)
    requires Inv(n) && Stuck(n, m) && StepOfA(n, n', step)
    ensures Stuck(n', m)
  {
    hide Inv, AckOnItsWay, Fresh, NextFrame, Requeue, ReceivedAck, AckTarget, ReadUVarInt, FrameRoom;
    match step
    case QueueRequest(_, _) | QueueReply(_, _) | QueueAck =>
      FewerOnItsWay(n, n', KeyOf(m));
    case Write =>
      WritesOthers(n, m);
      FewerOnItsWay(n, n', KeyOf(m));
    case Deliver =>
      var f := n.ba[0];
      if f.flags.typ.IsAck() {
        AckLeavesFrozen(n, m);
      }
      FewerOnItsWay(n, n', KeyOf(m));
  }

  /** b asks for no ACK of a message of which it handles no frame. */
  lemma AsksForOthers(n: Net, k: Key)
    requires Inv(n) && n.ab != [] && NoFrame(n.ab, k) && !n.ab[0].flags.typ.IsAck()
    ensures var o := Receive(n.b.recv, n.ab[0]);
      o.Accepted? && forall a :: a in AckList(o.ack) ==> a.onReply != k.reply || a.number != k.number
  {
    hide FlowControl, Replies, SenderInv, Mirrors, Drain, Receive, ReceiverInv;
    DrainHead(n.b.recv, n.ab);
    ReceiveKeeps(n.b.recv, n.ab[0]);
    assert Untouched(n.b.recv, Receive(n.b.recv, n.ab[0]), n.ab[0], k.number);
  }

  /** Whatever b does but handle a frame, it sends no ACK that it has not been asked for. */
  lemma NoNewAck(n: Net, n': Net, step: Step, k: Key)
    requires Inv(n) && StepOfA(Mirror(n), Mirror(n'), step) && !AckOnItsWay(n, k) && NoFrame(n.ab, k)
    ensures !AckOnItsWay(n', k)
  {
    hide Inv, AckPending, NoFrame, Fresh, WriteFrame, Requeue, PutUVarInt, ReceivedAck, Receive, SenderInv;
    var y := n.b;
    SendersOk(n);
    match step
    case QueueRequest(m, _) =>
      QueueSameAcks(y.acks, y.send.outbox, n.ba, Number(y.send, m));
    case QueueReply(m, _) =>
      QueueSameAcks(y.acks, y.send.outbox, n.ba, m);
    case QueueAck =>
      QueueAckSameAcks(y.acks, [], y.send.outbox, n.ba);
      assert y.acks + [] == y.acks && y.acks[1..] + [] == y.acks[1..];
    case Write =>
      WriteSameAcks(y, y.acks, n.ba);
    case Deliver =>
      if n.ab[0].flags.typ.IsAck() {
        AckKeepsAcks(y, n.ab[0], y.acks, n.ba);
      } else {
        AsksForOthers(n, k);
        PendingMore(y.acks, AckList(Receive(y.recv, n.ab[0]).ack), y.send.outbox, n.ba);
      }
  }

  lemma SendersOk(n: Net)
    requires Inv(n)
    ensures SenderInv(n.a) && SenderInv(n.b)
  {
  }

  lemma StuckAfterStepOfB(n: Net, n': Net, step: Step, m: OutMsg)
    requires Inv(n) && Stuck(n, m) && StepOfA(Mirror(n), Mirror(n'), step)
    ensures Stuck(n', m)
  {
    hide Inv, AckOnItsWay, WriteFrame, DoDeliver, Enqueue, Fresh;
    NoNewAck(n, n', step, KeyOf(m));
  }

  lemma NextKeepsStuck(n: Net, n': Net, m: OutMsg)
    requires Inv(n) && Stuck(n, m) && Next(n, n')
    ensures Stuck(n', m)
  {
    hide Inv, Stuck, StepOfA;
    var step :| StepOfA(n, n', step) || StepOfA(Mirror(n), Mirror(n'), step);
    if StepOfA(n, n', step) {
      StuckAfterStepOfA(n, n', step, m);
    } else {
      StuckAfterStepOfB(n, n', step, m);
    }
  }

  /** A reply that is stuck is stuck for ever: however the run goes on, it never sends another byte. */
  lemma {:induction false} StuckForever(run: seq<Net>, start: nat, m: OutMsg)
    requires IsRun(run) && start < |run| && Stuck(run[start], m)
    ensures Stuck(run[|run| - 1], m)
    decreases |run|
  {
    hide Inv, Stuck, Next;
    if start < |run| - 1 {
      var before := run[..|run| - 1];
      assert Next(run[|run| - 2], run[|run| - 1]);
      forall i | 0 <= i < |before| - 1 ensures Next(before[i], before[i + 1]) {
        assert Next(run[i], run[i + 1]);
      }
      StuckForever(before, start, m);
      RunInv(before);
      NextKeepsStuck(run[|run| - 2], run[|run| - 1], m);
    }
  }
}
