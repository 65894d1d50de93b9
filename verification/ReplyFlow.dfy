/** Flow control of replies. isResponse() is true of acknowledgements too, so that the ACK of a reply can
    be taken to be about a queued ACK of the same number: when it is, and what follows. */
module ReplyFlow {
  import opened Bytes
  import opened Messages
  import opened MessagesOut
  import opened Outbox
  import opened Senders
  import opened Receivers
  import opened Network
  import opened Invariants
  import opened Delivery
  import opened Flow
  import opened Safety

  // ---------------------------------------------------------------- one ACK

  /** Every other message of the outbox that the lookup of m would match stands behind m. */
  ghost predicate FirstInLine(s: Sender, m: OutMsg) {
    forall i :: 0 <= i < |s.outbox| && KeyOf(s.outbox[i]) == KeyOf(m) && s.outbox[i] != m ==> m in s.outbox[..i]
  }

  lemma {:induction false} FoundFirst(q: seq<OutMsg>, number: nat, isResponse: bool, j: nat)
    requires FindMessage(q, number, isResponse) == Some(j)
    ensures forall k :: 0 <= k < j ==> !(q[k].number == number && q[k].typ.IsResponse() == isResponse)
  {
    if !(q[0].number == number && q[0].typ.IsResponse() == isResponse) {
      FoundFirst(q[1..], number, isResponse, j - 1);
      assert forall k :: 0 < k < j ==> q[k] == q[1..][k - 1];
    }
  }

  /** The ACK of a reply that is being sent, in the outbox or in the icebox, finds that reply if and only
      if no other message of its number that is no request stands before it in the outbox. */
  lemma AckFindsReply(x: Peer, k: Key)
    requires SenderInv(x) && k in x.live && k.reply
    ensures AckTarget(x.send, k.number, true) == Some(x.live[k]) <==> FirstInLine(x.send, x.live[k])
  {
    hide FlowInvariant, IsAckOut;
    var m := x.live[k];
    KnownType(Live(x.send), x.live, k);
    TargetOfReply(x, k.number);
    var i := FindMessage(x.send.outbox, k.number, true);
    IceboxMessages(x.send);
    if i.Some? {
      FoundFirst(x.send.outbox, k.number, true, i.value);
      assert forall j :: 0 <= j < i.value ==> KeyOf(x.send.outbox[j]) != KeyOf(m);
      FirstMatch(x.send.outbox, m, i.value);
    } else {
      var j := FindMessage(x.send.icebox, k.number, true);
      assert x.send.icebox[j.value] in x.send.icebox;
      assert forall j :: 0 <= j < |x.send.outbox| ==> KeyOf(x.send.outbox[j]) != KeyOf(m);
    }
  }

  lemma IceboxMessages(s: Sender)
    requires FlowInvariant(s)
    ensures forall m :: m in s.icebox ==> !m.IsAck()
  {
  }

  lemma FirstMatch(q: seq<OutMsg>, m: OutMsg, i: nat)
    requires i < |q| && KeyOf(q[i]) == KeyOf(m)
    requires forall k :: 0 <= k < i ==> KeyOf(q[k]) != KeyOf(m)
    ensures q[i] == m <==> forall j :: 0 <= j < |q| && KeyOf(q[j]) == KeyOf(m) && q[j] != m ==> m in q[..j]
  {
    assert q[i] != m ==> m !in q[..i];
    if q[i] == m {
      forall j | 0 <= j < |q| && KeyOf(q[j]) == KeyOf(m) && q[j] != m
        ensures m in q[..j]
      {
        assert q[..j][i] == m;
      }
    }
  }

  /** An ACK of a reply that is being sent lowers its unacknowledged bytes, or else changes nothing at all:
      it is lost. */
  lemma AckOfReply(x: Peer, f: Frame, count: nat)
    requires SenderInv(x) && f.flags.typ.AckResponseType?
    requires count < UINT32_LIMIT && f.payload == PutUVarInt(count)
    requires Key(true, f.number) in x.live
    ensures var k := Key(true, f.number);
      var x' := DoDeliver(x, f);
      if FirstInLine(x.send, x.live[k]) then k in x'.live && x'.live[k] == AcceptAck(x.live[k], count)
      else x' == x
  {
    hide FlowInvariant, IsAckOut, PutUVarInt, ReadUVarInt, Represents, Live, AcceptAck, FirstInLine, Requeue;
    var k := Key(true, f.number);
    ReadPut(count);
    AckFindsReply(x, k);
    TargetOfReply(x, f.number);
    AckOfMessage(x, f, k);
    if !FirstInLine(x.send, x.live[k]) {
      AckIgnored(x, f, count);
    }
  }

  /** An ACK that finds an ACK. */
  lemma AckIgnored(x: Peer, f: Frame, count: nat)
    requires SenderInv(x) && f.flags.typ.AckResponseType?
    requires ReadUVarInt(f.payload, UINT32_LIMIT).Some? && ReadUVarInt(f.payload, UINT32_LIMIT).value.0 == count
    requires AckTarget(x.send, f.number, true).Some? && AckTarget(x.send, f.number, true).value.IsAck()
    ensures DoDeliver(x, f) == x
  {
    hide ReadUVarInt, PutUVarInt, Represents, Requeue, FlowInvariant;
    var t := AckTarget(x.send, f.number, true).value;
    IceboxMessages(x.send);
    var i := FindMessage(x.send.outbox, f.number, true);
    var j := FindMessage(x.send.icebox, f.number, true);
    assert j.Some? ==> x.send.icebox[j.value] in x.send.icebox;
    assert t == x.send.outbox[i.value] && t in x.send.outbox;
    AcceptAckContent(t, count);
    assert x.send.outbox[i.value := t] == x.send.outbox;
  }

  // ---------------------------------------------------------------- every step

  /** Flow control of the replies that x sends to y. */
  ghost predicate ReplyControl(sure: bool, x: Peer, y: Peer, out: seq<Frame>, back: seq<Frame>) {
    Drain(y.recv, out).Drained?
    && var d := Drain(y.recv, out);
       FlowControl(Claim(true, sure), x.live, d.recv, y.acks + d.acks, y.send.outbox, back)
  }

  ghost predicate ReplyInv(sure: bool, n: Net) {
    ReplyControl(sure, n.a, n.b, n.ab, n.ba) && ReplyControl(sure, n.b, n.a, n.ba, n.ab)
  }

  /** An ACK that is handled in this step, if it is about a reply that is being sent, finds it. */
  predicate IsClear(x: Peer, incoming: seq<Frame>, step: Step) {
    step.Deliver? && incoming != [] ==> Clear(x, incoming[0])
  }

  lemma QueueKeepsReplies(sure: bool, x: Peer, y: Peer, out: seq<Frame>, back: seq<Frame>, m: OutMsg, s: Sent, x': Peer)
    requires DirectionInv(x, y, out, back) && DirectionInv(y, x, back, out)
    requires ReplyControl(sure, x, y, out, back) && ReplyControl(sure, y, x, back, out)
    requires MayQueue(x, m, s, Drain(y.recv, out).recv) && Delivery.Queued(x, m, s, x')
    requires x'.recv == x.recv && x'.acks == x.acks
    ensures ReplyControl(sure, x', y, out, back) && ReplyControl(sure, y, x', back, out)
  {
    hide SenderInv, Mirrors, FlowControl, Replies, ReceiverInv, Drain, Fresh, AwaitedReply, Requeue, AckFrames,
         MayQueue, HasBegun;
    var c := Claim(true, sure);
    var dy, dx := Drain(y.recv, out), Drain(x.recv, back);
    var m' := Number(x.send, m);
    DrainKeeps(y.recv, out);
    QueueNumbers(x, m, s, dy.recv);
    NotBegun(x, m, s, dy.recv);
    FlowQueue(c, x.live, KeyOf(m'), m', dy.recv, y.acks + dy.acks, y.send.outbox, back);
    QueueSameAcks(x.acks + dx.acks, x.send.outbox, out, m');
    FlowSame(c, y.live, dx.recv, x.acks + dx.acks, x.send.outbox, out, x.acks + dx.acks, x'.send.outbox, out);
  }

  lemma NotBegun(x: Peer, m: OutMsg, s: Sent, r: Receiver)
    requires MayQueue(x, m, s, r) && ReceiverInv(r)
    ensures var k := KeyOf(Number(x.send, m)); k.reply ==> !HasBegun(r, true, k.number)
  {
    hide Content;
  }

  lemma WriteKeepsReplies(sure: bool, x: Peer, y: Peer, out: seq<Frame>, back: seq<Frame>)
    requires DirectionInv(x, y, out, back) && DirectionInv(y, x, back, out)
    requires ReplyControl(sure, x, y, out, back) && ReplyControl(sure, y, x, back, out)
    requires Enabled(x, back, Write)
    ensures var d := Do(x, out, back, Write);
      ReplyControl(sure, d.0, y, d.1, back) && ReplyControl(sure, y, d.0, back, d.1)
  {
    hide SenderInv, Mirrors, FlowControl, Replies, ReceiverInv, Drain, AckFrames, WriteFrame, Await, Receive, AckList,
         LiveAfterWrite;
    var c := Claim(true, sure);
    var w := WriteFrame(x.send);
    var dy, dx := Drain(y.recv, out), Drain(x.recv, back);
    var x' := Do(x, out, back, Write).0;
    DrainKeeps(y.recv, out);
    WriteFlow(c, x, x', dy.recv, y.acks + dy.acks, y.send.outbox, back);
    var o := Receive(dy.recv, w.frame);
    DrainAppend(y.recv, out, w.frame);
    assert (y.acks + dy.acks) + AckList(o.ack) == y.acks + (dy.acks + AckList(o.ack));
    WriterReceives(x, y, out, back);
    if w.awaiting.Some? {
      FlowAwait(c, y.live, dx.recv, w.awaiting.value, x.acks + dx.acks, x.send.outbox, out);
    }
    WriteSameAcks(x, x.acks + dx.acks, out);
    FlowSame(c, y.live, AwaitReply(dx.recv, w.awaiting), x.acks + dx.acks, x.send.outbox, out,
             x.acks + dx.acks, w.sender.outbox, out + [w.frame]);
  }

  lemma QueueAckKeepsReplies(sure: bool, x: Peer, y: Peer, out: seq<Frame>, back: seq<Frame>)
    requires ReplyControl(sure, x, y, out, back) && ReplyControl(sure, y, x, back, out)
    requires Enabled(x, back, QueueAck)
    ensures var x' := Do(x, out, back, QueueAck).0;
      ReplyControl(sure, x', y, out, back) && ReplyControl(sure, y, x', back, out)
  {
    hide FlowControl, Drain, Requeue, PutUVarInt;
    var c := Claim(true, sure);
    var dx := Drain(x.recv, back);
    var x' := Do(x, out, back, QueueAck).0;
    QueueAckSameAcks(x.acks, dx.acks, x.send.outbox, out);
    FlowSame(c, y.live, dx.recv, x.acks + dx.acks, x.send.outbox, out, x'.acks + dx.acks, x'.send.outbox, out);
  }

  lemma DeliverAckKeepsReplies(sure: bool, x: Peer, y: Peer, out: seq<Frame>, back: seq<Frame>)
    requires DirectionInv(x, y, out, back) && DirectionInv(y, x, back, out)
    requires ReplyControl(sure, x, y, out, back) && ReplyControl(sure, y, x, back, out)
    requires back != [] && back[0].flags.typ.IsAck() && (sure ==> Clear(x, back[0]))
    ensures var x' := DoDeliver(x, back[0]);
      ReplyControl(sure, x', y, out, back[1..]) && ReplyControl(sure, y, x', back[1..], out)
  {
    hide SenderInv, Mirrors, FlowControl, Replies, ReceiverInv, AckFrames, Receive, Drain, LiveAfterAck, ReceivedAck,
         ReadUVarInt, Clear;
    var c := Claim(true, sure);
    var f := back[0];
    var dy, dx := Drain(y.recv, out), Drain(x.recv, back);
    var x' := DoDeliver(x, f);
    ReceiveAckFrame(x.recv, f);
    DrainHead(x.recv, back);
    assert [] + Drain(x.recv, back[1..]).acks == Drain(x.recv, back[1..]).acks;
    assert Drain(x.recv, back[1..]) == dx;
    FlowDeliverAck(c, x, dy.recv, y.acks + dy.acks, y.send.outbox, back);
    AckKeepsAcks(x, f, x.acks + dx.acks, out);
    FlowSame(c, y.live, dx.recv, x.acks + dx.acks, x.send.outbox, out, x.acks + dx.acks, x'.send.outbox, out);
  }

  lemma DeliverFrameKeepsReplies(sure: bool, x: Peer, y: Peer, out: seq<Frame>, back: seq<Frame>)
    requires DirectionInv(x, y, out, back) && DirectionInv(y, x, back, out)
    requires ReplyControl(sure, x, y, out, back) && ReplyControl(sure, y, x, back, out)
    requires back != [] && !back[0].flags.typ.IsAck()
    ensures var x' := DoDeliver(x, back[0]);
      ReplyControl(sure, x', y, out, back[1..]) && ReplyControl(sure, y, x', back[1..], out)
  {
    hide SenderInv, Mirrors, FlowControl, Replies, ReceiverInv, AckFrames, Receive, Drain, AckList;
    var c := Claim(true, sure);
    var dy, dx := Drain(y.recv, out), Drain(x.recv, back);
    DrainHead(x.recv, back);
    var o := Receive(x.recv, back[0]);
    assert (x.acks + AckList(o.ack)) + Drain(o.recv, back[1..]).acks == x.acks + dx.acks;
    FlowDeliverOther(c, x.live, dy.recv, y.acks + dy.acks, y.send.outbox, back);
  }

  lemma StepKeepsReplies(sure: bool, x: Peer, y: Peer, out: seq<Frame>, back: seq<Frame>, step: Step)
    requires DirectionInv(x, y, out, back) && DirectionInv(y, x, back, out)
    requires ReplyControl(sure, x, y, out, back) && ReplyControl(sure, y, x, back, out)
    requires Enabled(x, back, step) && (sure ==> IsClear(x, back, step))
    ensures var d := Do(x, out, back, step);
      ReplyControl(sure, d.0, y, d.1, d.2) && ReplyControl(sure, y, d.0, d.2, d.1)
  {
    hide SenderInv, Mirrors, FlowControl, Replies, AckFrames, Drain, WriteFrame, DoDeliver, ReceiverInv, Fresh,
         ReplyControl, Clear;
    match step
    case QueueRequest(m, s) =>
      QueueKeepsReplies(sure, x, y, out, back, m, s, Do(x, out, back, step).0);
    case QueueReply(m, s) =>
      ReplyMayBeQueued(x, y, out, back, m, s);
      QueueKeepsReplies(sure, x, y, out, back, m, s, Do(x, out, back, step).0);
    case QueueAck =>
      QueueAckKeepsReplies(sure, x, y, out, back);
    case Write =>
      WriteKeepsReplies(sure, x, y, out, back);
    case Deliver =>
      if back[0].flags.typ.IsAck() {
        DeliverAckKeepsReplies(sure, x, y, out, back);
      } else {
        DeliverFrameKeepsReplies(sure, x, y, out, back);
      }
  }

  // ---------------------------------------------------------------- every run

  /** A step in which no ACK of a reply is lost, or with sure == false any step. */
  ghost predicate NextWith(sure: bool, n: Net, n': Net) {
    exists step ::
      || (StepOfA(n, n', step) && (sure ==> IsClear(n.a, n.ba, step)))
      || (StepOfA(Mirror(n), Mirror(n'), step) && (sure ==> IsClear(n.b, n.ab, step)))
  }

  ghost predicate IsRunWith(sure: bool, run: seq<Net>) {
    && run != [] && run[0] == NewNet()
    && forall i :: 0 <= i < |run| - 1 ==> NextWith(sure, run[i], run[i + 1])
  }

  /** n is the state after some run in which every ACK of a reply finds its reply. */
  ghost predicate ReachableClear(n: Net) {
    exists run :: IsRunWith(true, run) && run[|run| - 1] == n
  }

  lemma NextKeepsReplies(sure: bool, n: Net, n': Net)
    requires Inv(n) && ReplyInv(sure, n) && NextWith(sure, n, n')
    ensures Next(n, n') && ReplyInv(sure, n')
  {
    hide DirectionInv, Do, Enabled, ReplyControl, IsClear;
    var step :|
      || (StepOfA(n, n', step) && (sure ==> IsClear(n.a, n.ba, step)))
      || (StepOfA(Mirror(n), Mirror(n'), step) && (sure ==> IsClear(n.b, n.ab, step)));
    if StepOfA(n, n', step) && (sure ==> IsClear(n.a, n.ba, step)) {
      StepKeepsReplies(sure, n.a, n.b, n.ab, n.ba, step);
    } else {
      StepKeepsReplies(sure, n.b, n.a, n.ba, n.ab, step);
    }
  }

  lemma {:induction false} RunKeepsReplies(sure: bool, run: seq<Net>)
    requires IsRunWith(sure, run)
    ensures IsRun(run) && Inv(run[|run| - 1]) && ReplyInv(sure, run[|run| - 1])
    decreases |run|
  {
    hide Inv, Next, NextWith, ReplyInv;
    if |run| == 1 {
      InitInv();
      NoReplies(sure);
    } else {
      var before := run[..|run| - 1];
      assert NextWith(sure, run[|run| - 2], run[|run| - 1]);
      forall i | 0 <= i < |before| - 1 ensures NextWith(sure, before[i], before[i + 1]) {
        assert NextWith(sure, run[i], run[i + 1]);
      }
      RunKeepsReplies(sure, before);
      NextKeepsReplies(sure, run[|run| - 2], run[|run| - 1]);
      NextKeepsInv(run[|run| - 2], run[|run| - 1]);
      forall i | 0 <= i < |run| - 1 ensures Next(run[i], run[i + 1]) {
        if i < |before| - 1 {
          assert Next(before[i], before[i + 1]);
        }
      }
    }
  }

  lemma NoReplies(sure: bool)
    ensures ReplyInv(sure, NewNet())
  {
    assert Drain(NewReceiver(), []) == Drained(NewReceiver(), []);
  }
}
