/** What holds of every run of two BLIP peers. */
module Theorems {
  import opened Messages
  import opened MessagesOut
  import opened MessagesIn
  import opened Outbox
  import opened Senders
  import opened Receivers
  import opened Network
  import opened Invariants
  import opened Delivery
  import opened Flow
  import opened Safety

  /** n is the state after some run. */
  ghost predicate Reachable(n: Net) {
    exists run :: IsRun(run) && run[|run| - 1] == n
  }

  lemma ReachableInv(n: Net)
    requires Reachable(n)
    ensures Inv(n)
  {
    hide Inv;
    var run :| IsRun(run) && run[|run| - 1] == n;
    RunInv(run);
  }

  lemma ReachableNext(n: Net, n': Net)
    requires Reachable(n) && Next(n, n')
    ensures Reachable(n')
  {
    hide Next;
    var run :| IsRun(run) && run[|run| - 1] == n;
    var run' := run + [n'];
    forall i | 0 <= i < |run'| - 1 ensures Next(run'[i], run'[i + 1]) {
      if i < |run| - 1 {
        assert Next(run[i], run[i + 1]);
      }
    }
    assert IsRun(run');
  }

  // ---------------------------------------------------------------- delivery

  /** The receiver b once the frames on their way to it are there. */
  function Arrived(n: Net): DrainResult {
    Drain(n.b.recv, n.ab)
  }

  /** Neither peer ever refuses a frame: no bad number, no bad checksum, no malformed message. Once all
      the frames are there, the receiver's running checksum is the sender's. */
  lemma NothingRefused(n: Net)
    requires Reachable(n)
    ensures !n.a.failed && !n.b.failed && Arrived(n).Drained? && Arrived(n).recv.crc == n.a.send.crc
  {
    ReachableInv(n);
  }

  /** End-to-end delivery: what b has and will have assembled of a message, followed by what a has
      still to send of it, is the message; and once a has nothing left to send, b has or will have
      exactly the type, the flags, the properties and the body that a was given. */
  lemma EndToEnd(n: Net, k: Key)
    requires Reachable(n) && k in n.a.sent && Arrived(n).Drained?
    ensures var s, r := n.a.sent[k], Arrived(n).recv;
      if k in n.a.live then
        && k !in r.delivered
        && var i := if k.reply then r.pendingResponses else r.pendingRequests;
           if n.a.live[k].bytesSent == 0 then Content(n.a.live[k]) == ContentOf(s)
           else k.number in i && ContentOf(s) == Assembled(i[k.number]) + Content(n.a.live[k])
      else DeliveredAs(k, s, r)
  {
    hide SenderInv, FlowControl, Replies, Content, ReceiverInv, Assembled, InTransit, Drain, DeliveredAs;
    ReachableInv(n);
    if k in n.a.live {
      TransitContent(k, n.a.live[k], n.a.sent[k], Arrived(n).recv);
    }
  }

  lemma TransitContent(k: Key, m: OutMsg, s: Sent, r: Receiver)
    requires InTransit(k, m, s, r)
    ensures k !in r.delivered
    ensures var i := if k.reply then r.pendingResponses else r.pendingRequests;
      if m.bytesSent == 0 then Content(m) == ContentOf(s)
      else k.number in i && ContentOf(s) == Assembled(i[k.number]) + Content(m)
  {
    hide Content;
    if m.bytesSent == 0 && k.reply {
      assert [] + Content(m) == Content(m);
    }
  }

  /** Nothing is delivered that was not sent, and what is delivered already is what was sent. */
  lemma DeliveredIsSent(n: Net, k: Key)
    requires Reachable(n) && k in n.b.recv.delivered
    ensures k in n.a.sent && DeliveredAs(k, n.a.sent[k], n.b.recv)
  {
    hide SenderInv, FlowControl, Replies, ReceiverInv;
    ReachableInv(n);
    DrainKeeps(n.b.recv, n.ab);
    var r := Arrived(n).recv;
    assert k in r.delivered && r.delivered[k] == n.b.recv.delivered[k];
    NotLive(n.a, r, k);
    assert DeliveredAs(k, n.a.sent[k], r);
  }

  lemma NotLive(x: Peer, r: Receiver, k: Key)
    requires Mirrors(x, r) && k in r.delivered
    ensures k in x.sent && k !in x.live
  {
    forall k' | k' in x.live
      ensures k' !in r.delivered
    {
      assert InTransit(k', x.live[k'], x.sent[k'], r);
    }
  }

  // ---------------------------------------------------------------- order

  /** How many requests of x have sent their first frame. */
  function Begun(x: Peer): int {
    x.send.lastMessageNo - |NewRequests(x.send.outbox)|
  }

  /** Requests begin in order, urgent or not: the frame that begins a request is always the one that
      begins the next request, and it is the only step that counts. */
  lemma RequestsBeginInOrder(n: Net, step: Step)
    requires Reachable(n) && Enabled(n.a, n.ba, step)
    ensures var x' := Do(n.a, n.ab, n.ba, step).0;
      if step.Write? && IsNewRequest(n.a.send.outbox[0]) then
        n.a.send.outbox[0].number == Begun(n.a) + 1 == Begun(x')
      else Begun(x') == Begun(n.a)
  {
    hide FlowControl, Replies, WriteFrame, Fresh, Represents, FlowInvariant;
    ReachableInv(n);
    var x := n.a;
    match step
    case QueueRequest(m, s) =>
      BeginOrder(x.send.outbox, Number(x.send, m));
      FreshContent(m, Number(x.send, m), s);
    case QueueReply(m, s) =>
      BeginOrder(x.send.outbox, m);
    case QueueAck =>
      BeginOrder(x.send.outbox, AckOut(x.acks[0]));
    case Write =>
      WriteFrameOrder(x.send, Arrived(n).recv.numRequests);
      WriteFrameLive(x.send);
    case Deliver =>
      var f := n.ba[0];
      if f.flags.typ.IsAck() {
        ReceivedAckBegins(x.send, f.number, f.flags.typ.AckResponseType?, f.payload);
      }
  }

  // ---------------------------------------------------------------- flow control

  /** An ACK of message k on its way back to a. */
  ghost predicate AckOnItsWay(n: Net, k: Key) {
    exists count: nat :: AckPending(Ack(k.reply, k.number, count), n.b.acks, n.b.send.outbox, n.ba)
  }

  /** What flow control claims of the messages that a sends. */
  ghost predicate FlowOfA(c: Claim, n: Net) {
    Arrived(n).Drained?
    && FlowControl(c, n.a.live, Arrived(n).recv, n.b.acks + Arrived(n).acks, n.b.send.outbox, n.ba)
  }

  /** A message whose frames have all arrived and of which no ACK is on its way: sender and receiver have
      counted the same bytes; the receiver has fewer than 50000 that it has not asked to acknowledge, and
      if the last ACK is never lost, that is all that is unacknowledged. */
  lemma Unacknowledged(c: Claim, n: Net, k: Key)
    requires Inv(n) && FlowOfA(c, n)
    requires k in n.a.live && k.reply == c.reply && n.a.live[k].bytesSent > 0
    requires NoFrame(n.ab, k) && !AckOnItsWay(n, k)
    ensures k.number in Pending(n.b.recv, k.reply)
    ensures var m, i := n.a.live[k], Pending(n.b.recv, k.reply)[k.number];
      && i.rawBytes == m.bytesSent && i.unacked < INCOMING_ACK_THRESHOLD && AckedBytes(m) <= AskedBytes(i)
      && (c.sure ==> m.unacked == i.unacked)
  {
    hide FlowInvariant, IsAckOut, Mirrors, Replies, Represents, NoFrame;
    var d := Arrived(n);
    DrainOthers(n.b.recv, n.ab, k);
    StillMatches(n, k);
    var i := Pending(d.recv, k.reply)[k.number];
    var last := Ack(k.reply, k.number, AskedBytes(i));
    PendingMore(n.b.acks, d.acks, n.b.send.outbox, n.ba);
    assert !AckPending(last, n.b.acks, n.b.send.outbox, n.ba);
  }

  lemma StillMatches(n: Net, k: Key)
    requires Inv(n) && k in n.a.live && n.a.live[k].bytesSent > 0
    ensures var p := Pending(Arrived(n).recv, k.reply);
      k.number in p && p[k.number].rawBytes == n.a.live[k].bytesSent
    ensures KeyOf(n.a.live[k]) == k
  {
    assert InTransit(k, n.a.live[k], n.a.sent[k], Arrived(n).recv);
  }

  /** Every message in a's queues but ACKs. */
  lemma QueuedIsLive(n: Net, m: OutMsg)
    requires Inv(n) && m in n.a.send.outbox + n.a.send.icebox && !m.IsAck()
    ensures KeyOf(m) in n.a.live && n.a.live[KeyOf(m)] == m
    ensures m in n.a.send.icebox ==> m.bytesSent > 0 && m.NeedsAck()
  {
    hide IsAckOut, Mirrors, Replies, FlowControl;
    assert m in Live(n.a.send);
  }

  /** A request whose frames have all arrived and whose ACKs have all come back has fewer than 50000
      bytes unacknowledged. */
  lemma AllAcked(n: Net, m: OutMsg)
    requires Reachable(n) && m in n.a.send.outbox + n.a.send.icebox && m.typ.RequestType? && m.bytesSent > 0
    requires NoFrame(n.ab, KeyOf(m)) && !AckOnItsWay(n, KeyOf(m))
    ensures m.unacked < INCOMING_ACK_THRESHOLD
  {
    hide SenderInv, Mirrors, Replies, FlowControl, AckOnItsWay, NoFrame;
    ReachableInv(n);
    QueuedIsLive(n, m);
    Unacknowledged(REQUESTS, n, KeyOf(m));
  }

  /** Flow control cannot deadlock a request: while one is frozen, a frame of it is in flight or an
      ACK of it is asked for, queued or in flight. */
  lemma FrozenRequestWillThaw(n: Net, m: OutMsg)
    requires Reachable(n) && m in n.a.send.icebox && m.typ.RequestType?
    ensures !NoFrame(n.ab, KeyOf(m)) || AckOnItsWay(n, KeyOf(m))
  {
    hide IsAckOut, Represents, Mirrors, Replies, FlowControl, AckOnItsWay, NoFrame;
    ReachableInv(n);
    if NoFrame(n.ab, KeyOf(m)) && !AckOnItsWay(n, KeyOf(m)) {
      AllAcked(n, m);
    }
  }

  /** Once nothing can move any more, every request has been delivered. */
  lemma AllRequestsDelivered(n: Net, k: Key)
    requires Reachable(n) && k in n.a.sent && !k.reply
    requires n.a.send.outbox == [] && n.b.send.outbox == [] && n.ab == [] && n.ba == []
    requires n.a.acks == [] && n.b.acks == []
    ensures DeliveredAs(k, n.a.sent[k], n.b.recv)
  {
    hide Inv, Reachable, AckOnItsWay;
    ReachableInv(n);
    if k in n.a.live {
      var m := n.a.live[k];
      LiveInQueues(n, k);
      FrozenRequestWillThaw(n, m);
      NoAckOnItsWay(n, k);
    }
    SentIsDelivered(n, k);
  }

  lemma LiveInQueues(n: Net, k: Key)
    requires Inv(n) && k in n.a.live
    ensures KeyOf(n.a.live[k]) == k
    ensures n.a.live[k] in n.a.send.outbox || n.a.live[k] in n.a.send.icebox
    ensures !k.reply ==> n.a.live[k].typ.RequestType?
  {
    hide FlowControl, Replies, Mirrors, FlowInvariant, IsAckOut;
    assert n.a.live[k] in Live(n.a.send);
  }

  lemma NoAckOnItsWay(n: Net, k: Key)
    requires n.b.acks == [] && n.b.send.outbox == [] && n.ba == []
    ensures !AckOnItsWay(n, k)
  {
  }

  lemma SentIsDelivered(n: Net, k: Key)
    requires Inv(n) && k in n.a.sent && k !in n.a.live && n.ab == []
    ensures DeliveredAs(k, n.a.sent[k], n.b.recv)
  {
    hide FlowControl, Replies, SenderInv;
  }

  /** At every turn boundary the queues are disjoint and hold no message twice, ACKs aside; what waits
      in the icebox needs an ACK, what waits in the outbox does not. */
  lemma QueuesPartition(n: Net)
    requires Reachable(n)
    ensures FlowInvariant(n.a.send)
    ensures forall m :: m in n.a.send.outbox && !m.IsAck() ==>
              multiset(n.a.send.outbox)[m] == 1 && m !in n.a.send.icebox
    ensures forall m :: m in n.a.send.icebox ==>
              multiset(n.a.send.icebox)[m] == 1 && m !in n.a.send.outbox
  {
    hide FlowControl, Mirrors, Replies, IsAckOut;
    ReachableInv(n);
    forall m | m in Live(n.a.send) && !m.IsAck()
      ensures multiset(n.a.send.outbox)[m] + multiset(n.a.send.icebox)[m] == 1
    {
      assert Live(n.a.send)[m] == 1;
    }
  }

  // ---------------------------------------------------------------- the other direction

  lemma MirrorNext(n: Net, n': Net)
    requires Next(n, n')
    ensures Next(Mirror(n), Mirror(n'))
  {
    hide Do, Enabled;
    var step :| StepOfA(n, n', step) || StepOfA(Mirror(n), Mirror(n'), step);
    assert Mirror(Mirror(n)) == n && Mirror(Mirror(n')) == n';
    assert StepOfA(Mirror(n), Mirror(n'), step) || StepOfA(Mirror(Mirror(n)), Mirror(Mirror(n')), step);
  }

  /** The two peers are alike, so everything above holds of b and of the frames from b to a as well. */
  lemma BothDirections(n: Net)
    requires Reachable(n)
    ensures Reachable(Mirror(n))
  {
    hide Next;
    var run :| IsRun(run) && run[|run| - 1] == n;
    var other := seq(|run|, i requires 0 <= i < |run| => Mirror(run[i]));
    forall i | 0 <= i < |other| - 1 ensures Next(other[i], other[i + 1]) {
      MirrorNext(run[i], run[i + 1]);
    }
    assert IsRun(other) && other[|other| - 1] == Mirror(n);
  }
}
