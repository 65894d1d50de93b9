/** Every step of two peers keeps the invariant, and what follows for every run. */
module Safety {
  import opened Bytes
  import opened Messages
  import opened MessagesOut
  import opened Codecs
  import opened Outbox
  import opened Senders
  import opened Receivers
  import opened Network
  import opened Invariants
  import opened Delivery
  import opened Answering
  import opened Flow

  // ---------------------------------------------------------------- messages are queued

  lemma ReplyMayBeQueued(x: Peer, y: Peer, out: seq<Frame>, back: seq<Frame>, m: OutMsg, s: Sent)
    requires DirectionInv(x, y, out, back) && ReceiverInv(x.recv)
    requires Enabled(x, back, QueueReply(m, s))
    ensures MayQueue(x, m, s, Drain(y.recv, out).recv)
  {
    hide Represents, FlowInvariant, Mirrors, FlowControl, Fresh, Drain;
    DrainKeeps(x.recv, back);
  }

  /** What is common to queueing a request and a reply. */
  lemma QueueKeeps(x: Peer, y: Peer, out: seq<Frame>, back: seq<Frame>, m: OutMsg, s: Sent, x': Peer)
    requires DirectionInv(x, y, out, back) && DirectionInv(y, x, back, out)
    requires MayQueue(x, m, s, Drain(y.recv, out).recv) && Queued(x, m, s, x')
    requires x'.recv == x.recv && x'.acks == x.acks && x.responded <= x'.responded
    requires m.typ.IsResponse() && m.number != 0 ==>
      && x'.responded == x.responded + {m.number}
      && Key(false, m.number) in x.recv.delivered && !x.recv.delivered[Key(false, m.number)].noReply
    requires m.typ.RequestType? ==> x'.responded == x.responded && m.number == 0
    ensures DirectionInv(x', y, out, back) && DirectionInv(y, x', back, out)
  {
    hide SenderInv, Mirrors, FlowControl, Replies, ReceiverInv, Drain, Fresh, AwaitedReply, Requeue, AckFrames;
    var dy, dx := Drain(y.recv, out), Drain(x.recv, back);
    DrainKeeps(y.recv, out);
    QueueKeepsSender(x, m, x', s, dy.recv);
    var m' := Number(x.send, m);
    QueueNumbers(x, m, s, dy.recv);
    FlowQueue(REQUESTS, x.live, KeyOf(m'), m', dy.recv, y.acks + dy.acks, y.send.outbox, back);
    QueueKeepsAnswers(x, x', y, out, dx.recv, dy.recv);
    QueueKeepsAsks(y, x, x', back, dy.recv, dx.recv);
    QueueSameAcks(x.acks + dx.acks, x.send.outbox, out, m');
    FlowSame(REQUESTS, y.live, dx.recv, x.acks + dx.acks, x.send.outbox, out, x.acks + dx.acks, x'.send.outbox, out);
  }

  lemma QueueNumbers(x: Peer, m: OutMsg, s: Sent, r: Receiver)
    requires Mirrors(x, r) && MayQueue(x, m, s, r)
    ensures var m' := Number(x.send, m);
      && m'.bytesSent == 0 && KeyOf(m').reply == m.typ.IsResponse() && !m'.IsAck()
      && (m.number == 0 ==> m'.number == x.send.lastMessageNo + 1 && m'.number > r.numRequests)
  {
    hide Content;
  }

  lemma QueueAckKeeps(x: Peer, y: Peer, out: seq<Frame>, back: seq<Frame>)
    requires DirectionInv(x, y, out, back) && DirectionInv(y, x, back, out)
    requires Enabled(x, back, QueueAck)
    ensures var x' := Do(x, out, back, QueueAck).0;
      DirectionInv(x', y, out, back) && DirectionInv(y, x', back, out)
  {
    hide SenderInv, Mirrors, FlowControl, Replies, ReceiverInv, Drain, Requeue, AckFrames, PutUVarInt;
    var dy, dx := Drain(y.recv, out), Drain(x.recv, back);
    var x' := Do(x, out, back, QueueAck).0;
    var a := x.acks[0];
    QueueAckKeepsSender(x, a, x', dy.recv);
    QueueKeepsAnswers(x, x', y, out, dx.recv, dy.recv);
    QueueKeepsAsks(y, x, x', back, dy.recv, dx.recv);
    QueueAckSameAcks(x.acks, dx.acks, x.send.outbox, out);
    FlowSame(REQUESTS, y.live, dx.recv, x.acks + dx.acks, x.send.outbox, out, x'.acks + dx.acks, x'.send.outbox, out);
  }

  // ---------------------------------------------------------------- a frame is written

  lemma WriteAckFrames(x: Peer, out: seq<Frame>)
    requires SenderInv(x) && AckFrames(out) && x.send.outbox != []
    ensures AckFrames(out + [WriteFrame(x.send).frame])
  {
    hide NextFrame, Requeue, FlowInvariant, Represents, PutUVarInt;
    var m, rest := x.send.outbox[0], x.send.outbox[1..];
    var room := FrameRoom(m, rest);
    assert IsAckOut(m);
    if m.IsAck() {
      AckFrameContents(m, x.send.crc, room);
    } else {
      NextFrameFlags(m, x.send.crc, room);
    }
  }

  /** What a frame of a message delivers. */
  lemma FrameDelivers(x: Peer, r: Receiver)
    requires SenderInv(x) && Mirrors(x, r) && ReceiverInv(r) && x.send.outbox != [] && !x.send.outbox[0].IsAck()
    ensures var m, w := x.send.outbox[0], WriteFrame(x.send);
      var o := Receive(r, w.frame);
      && o.Accepted?
      && (forall k :: k in o.recv.delivered && !k.reply ==>
            || (k in r.delivered && o.recv.delivered[k] == r.delivered[k])
            || (k == KeyOf(m) && k in x.live && (o.recv.delivered[k].noReply || w.awaiting == Some(k.number))))
  {
    hide Content, Requeue, FlowInvariant, Represents, NewRequests, IsAckOut, NextFrame, Receive, InOrder, PutUVarInt,
         Match, Mirrors, SenderInv, ReceiverInv;
    var s := x.send;
    var m := s.outbox[0];
    MirrorsOrder(x, r);
    WriteFrameLive(s);
    MayWrite(x, r);
    FrameMirrored(KeyOf(m), m, x.sent[KeyOf(m)], r, FrameRoom(m, s.outbox[1..]));
  }

  /** The frame, and what it means for replies. */
  lemma WriteFacts(x: Peer, r: Receiver)
    requires SenderInv(x) && Mirrors(x, r) && ReceiverInv(r) && x.send.outbox != []
    ensures var w := WriteFrame(x.send);
      var o := Receive(r, w.frame);
      && o.Accepted? && w.sender.lastMessageNo == x.send.lastMessageNo
      && (forall k :: k in LiveAfterWrite(x) ==> k in x.live)
      && (IsReplyFrame(w.frame, w.frame.number) ==> Key(true, w.frame.number) in x.sent)
      && (w.awaiting.Some? ==>
            var k := Key(false, w.awaiting.value); k in x.live && k in x.sent && k !in LiveAfterWrite(x))
      && (forall k :: k in o.recv.delivered && !k.reply ==>
            || (k in r.delivered && o.recv.delivered[k] == r.delivered[k])
            || (k in x.live && (o.recv.delivered[k].noReply || w.awaiting == Some(k.number))))
  {
    hide Requeue, FlowInvariant, Represents, IsAckOut, NextFrame, Receive, PutUVarInt, Mirrors, SenderInv, ReceiverInv;
    var s := x.send;
    var m := s.outbox[0];
    var room := FrameRoom(m, s.outbox[1..]);
    WriteFrameLive(s);
    if m.IsAck() {
      AckFrame(m, s.crc, room);
      ReceiveAckFrame(r, WriteFrame(s).frame);
    } else {
      MayWrite(x, r);
      FrameDelivers(x, r);
      NextFrameFlags(m, s.crc, room);
    }
  }

  lemma AwaitKeeps(r: Receiver, n: MessageNo)
    requires ReceiverInv(r) && Key(true, n) !in r.delivered
    ensures ReceiverInv(Await(r, n))
  {
  }

  lemma FlowAwait(c: Claim, live: map<Key, OutMsg>, r: Receiver, n: MessageNo, acks: seq<Ack>, outbox: seq<OutMsg>,
                  channel: seq<Frame>)
    requires FlowControl(c, live, r, acks, outbox, channel)
    ensures FlowControl(c, live, Await(r, n), acks, outbox, channel)
  {
    hide AckPending, AckedOrPending;
  }

  /** The receiver of the peer that writes: it may start to await a reply. */
  lemma WriterReceives(x: Peer, y: Peer, out: seq<Frame>, back: seq<Frame>)
    requires DirectionInv(x, y, out, back) && DirectionInv(y, x, back, out) && x.send.outbox != []
    ensures var awaiting := WriteFrame(x.send).awaiting;
      var dx, recv := Drain(x.recv, back), AwaitReply(x.recv, awaiting);
      && ReceiverInv(recv)
      && Drain(recv, back) == Drained(AwaitReply(dx.recv, awaiting), dx.acks)
      && Mirrors(y, AwaitReply(dx.recv, awaiting))
  {
    hide SenderInv, Mirrors, FlowControl, Asks, Answers, ReceiverInv, Drain, AckFrames, WriteFrame, Await, Receive;
    var awaiting := WriteFrame(x.send).awaiting;
    var dy, dx := Drain(y.recv, out), Drain(x.recv, back);
    DrainKeeps(y.recv, out);
    WriteFacts(x, dy.recv);
    if awaiting.Some? {
      NoReplyToLive(y, x, back, dy.recv, Key(false, awaiting.value));
      DrainKeeps(x.recv, back);
      NotReplied(y, x, back, dy.recv, dx.recv, Key(false, awaiting.value));
      DrainAwait(x.recv, back, awaiting.value);
      AwaitKeeps(x.recv, awaiting.value);
      AwaitMirrors(y, dx.recv, awaiting.value);
    }
  }

  lemma WriteFlow(c: Claim, x: Peer, x': Peer, r: Receiver, acks: seq<Ack>, outbox: seq<OutMsg>, channel: seq<Frame>)
    requires SenderInv(x) && Mirrors(x, r) && ReceiverInv(r) && FlowControl(c, x.live, r, acks, outbox, channel)
    requires x.send.outbox != [] && x.send.outbox[0].bytesSent + BIG_FRAME_SIZE < UINT32_LIMIT
    requires x'.live == LiveAfterWrite(x)
    ensures var o := Receive(r, WriteFrame(x.send).frame);
      o.Accepted? && FlowControl(c, x'.live, o.recv, acks + AckList(o.ack), outbox, channel)
  {
    hide SenderInv, Mirrors, ReceiverInv, FlowControl, Receive, NextFrame;
    if x.send.outbox[0].IsAck() {
      WriteFrameLive(x.send);
      AckFrame(x.send.outbox[0], x.send.crc, FrameRoom(x.send.outbox[0], x.send.outbox[1..]));
      ReceiveAckFrame(r, WriteFrame(x.send).frame);
      assert acks + AckList(None) == acks;
    } else {
      FlowWriteMessage(c, x, x', r, acks, outbox, channel);
    }
  }

  lemma WriteKeeps(x: Peer, y: Peer, out: seq<Frame>, back: seq<Frame>)
    requires DirectionInv(x, y, out, back) && DirectionInv(y, x, back, out)
    requires Enabled(x, back, Write)
    ensures var d := Do(x, out, back, Write);
      DirectionInv(d.0, y, d.1, back) && DirectionInv(y, d.0, back, d.1)
  {
    hide SenderInv, Mirrors, FlowControl, Replies, ReceiverInv, Drain, AckFrames, WriteFrame, Await, Receive, AckList,
         LiveAfterWrite;
    var w := WriteFrame(x.send);
    var dy, dx := Drain(y.recv, out), Drain(x.recv, back);
    var x' := Do(x, out, back, Write).0;
    DrainKeeps(y.recv, out);
    DrainKeeps(x.recv, back);
    WriteFacts(x, dy.recv);
    WriterReceives(x, y, out, back);
    var o := Receive(dy.recv, w.frame);
    var dx' := AwaitReply(dx.recv, w.awaiting);
    DrainAppend(y.recv, out, w.frame);
    WriteKeepsSender(x, x', dy.recv);
    WriteAckFrames(x, out);
    AwaitDelivered(x.recv, w.awaiting);
    AwaitDelivered(dx.recv, w.awaiting);
    WriteKeepsReplies(x, x', y, out, w.frame, dx.recv, dx', dy.recv);
    WriteFlow(REQUESTS, x, x', dy.recv, y.acks + dy.acks, y.send.outbox, back);
    assert (y.acks + dy.acks) + AckList(o.ack) == y.acks + (dy.acks + AckList(o.ack));
    AskKeepsReplies(y, x, x', back, x.send.outbox[0], w.awaiting, dy.recv, o.recv, dx.recv);
    if w.awaiting.Some? {
      FlowAwait(REQUESTS, y.live, dx.recv, w.awaiting.value, x.acks + dx.acks, x.send.outbox, out);
    }
    WriteSameAcks(x, x.acks + dx.acks, out);
    FlowSame(REQUESTS, y.live, dx', x.acks + dx.acks, x.send.outbox, out, x.acks + dx.acks, w.sender.outbox,
             out + [w.frame]);
  }

  lemma AwaitDelivered(r: Receiver, awaiting: Option<MessageNo>)
    ensures AwaitReply(r, awaiting).delivered == r.delivered
  {
  }

  // ---------------------------------------------------------------- a frame is delivered

  /** Handling the first frame in flight leaves the rest of them to be drained. */
  lemma DrainHead(r: Receiver, channel: seq<Frame>)
    requires channel != [] && Drain(r, channel).Drained?
    ensures var o := Receive(r, channel[0]);
      && o.Accepted?
      && var d, rest := Drain(r, channel), Drain(o.recv, channel[1..]);
         rest.Drained? && d == Drained(rest.recv, AckList(o.ack) + rest.acks)
  {
    hide Receive;
  }

  lemma AckKeepsKeys(x: Peer, f: Frame)
    requires SenderInv(x) && f.flags.typ.IsAck()
    ensures var x' := DoDeliver(x, f);
      && x'.live.Keys == x.live.Keys && x'.send.lastMessageNo == x.send.lastMessageNo
      && Extends(x.recv, x.recv)
  {
    hide FlowInvariant, Represents, LiveAfterAck, ReceivedAck, IsAckOut;
    AckEffect(x, f);
    ReceivedAckBegins(x.send, f.number, f.flags.typ.AckResponseType?, f.payload);
  }

  lemma AckFramesTail(channel: seq<Frame>)
    requires channel != [] && AckFrames(channel)
    ensures AckFrames(channel[1..])
  {
    assert forall i :: 0 <= i < |channel[1..]| ==> channel[1..][i] == channel[i + 1];
  }

  lemma DeliverAckKeeps(x: Peer, y: Peer, out: seq<Frame>, back: seq<Frame>)
    requires DirectionInv(x, y, out, back) && DirectionInv(y, x, back, out)
    requires back != [] && back[0].flags.typ.IsAck()
    ensures var x' := DoDeliver(x, back[0]);
      DirectionInv(x', y, out, back[1..]) && DirectionInv(y, x', back[1..], out)
  {
    hide SenderInv, Mirrors, FlowControl, Replies, ReceiverInv, AckFrames, Receive, Drain,
         LiveAfterAck, ReceivedAck, ReadUVarInt, Extends;
    var f := back[0];
    var dy, dx := Drain(y.recv, out), Drain(x.recv, back);
    var x' := DoDeliver(x, f);
    ReceiveAckFrame(x.recv, f);
    DrainHead(x.recv, back);
    assert [] + Drain(x.recv, back[1..]).acks == Drain(x.recv, back[1..]).acks;
    assert Drain(x.recv, back[1..]) == dx;
    AckKeepsSender(x, f, dy.recv);
    AckKeepsKeys(x, f);
    AckFramesTail(back);
    DeliverKeepsAnswers(x, x', y, out, dx.recv, dy.recv);
    FlowDeliverAck(REQUESTS, x, dy.recv, y.acks + dy.acks, y.send.outbox, back);
    DeliverKeepsAsks(y, x, x', back, dy.recv, dx.recv);
    AckKeepsAcks(x, f, x.acks + dx.acks, out);
    FlowSame(REQUESTS, y.live, dx.recv, x.acks + dx.acks, x.send.outbox, out, x.acks + dx.acks, x'.send.outbox, out);
  }

  lemma DeliverFrameKeeps(x: Peer, y: Peer, out: seq<Frame>, back: seq<Frame>)
    requires DirectionInv(x, y, out, back) && DirectionInv(y, x, back, out)
    requires back != [] && !back[0].flags.typ.IsAck()
    ensures var x' := DoDeliver(x, back[0]);
      DirectionInv(x', y, out, back[1..]) && DirectionInv(y, x', back[1..], out)
  {
    hide SenderInv, Mirrors, FlowControl, Replies, ReceiverInv, AckFrames, Receive, Drain, Extends, AckList;
    var f := back[0];
    var dy, dx := Drain(y.recv, out), Drain(x.recv, back);
    var x' := DoDeliver(x, f);
    DrainHead(x.recv, back);
    ReceiveKeeps(x.recv, f);
    var o := Receive(x.recv, f);
    var rest := Drain(o.recv, back[1..]);
    assert (x.acks + AckList(o.ack)) + rest.acks == x.acks + dx.acks;
    SameSender(x, x', dy.recv);
    AckFramesTail(back);
    DeliverKeepsAnswers(x, x', y, out, dx.recv, dy.recv);
    FlowDeliverOther(REQUESTS, x.live, dy.recv, y.acks + dy.acks, y.send.outbox, back);
    DeliverKeepsAsks(y, x, x', back, dy.recv, dx.recv);
  }

  lemma SameSender(x: Peer, x': Peer, r: Receiver)
    requires SenderInv(x) && Mirrors(x, r)
    requires x' == x.(recv := x'.recv, acks := x'.acks)
    ensures SenderInv(x') && Mirrors(x', r)
  {
  }

  // ---------------------------------------------------------------- every run

  lemma StepKeeps(x: Peer, y: Peer, out: seq<Frame>, back: seq<Frame>, step: Step)
    requires DirectionInv(x, y, out, back) && DirectionInv(y, x, back, out)
    requires Enabled(x, back, step)
    ensures var d := Do(x, out, back, step);
      DirectionInv(d.0, y, d.1, d.2) && DirectionInv(y, d.0, d.2, d.1)
  {
    hide SenderInv, Mirrors, FlowControl, Replies, AckFrames, Drain, WriteFrame, DoDeliver, ReceiverInv, Fresh;
    match step
    case QueueRequest(m, s) =>
      QueueKeeps(x, y, out, back, m, s, Do(x, out, back, step).0);
    case QueueReply(m, s) =>
      ReplyMayBeQueued(x, y, out, back, m, s);
      QueueKeeps(x, y, out, back, m, s, Do(x, out, back, step).0);
    case QueueAck =>
      QueueAckKeeps(x, y, out, back);
    case Write =>
      WriteKeeps(x, y, out, back);
    case Deliver =>
      if back[0].flags.typ.IsAck() {
        DeliverAckKeeps(x, y, out, back);
      } else {
        DeliverFrameKeeps(x, y, out, back);
      }
  }

  lemma InitInv()
    ensures Inv(NewNet())
  {
    hide Crc32;
    assert NewRequests([]) == [];
    assert Drain(NewReceiver(), []) == Drained(NewReceiver(), []);
  }

  lemma NextKeepsInv(n: Net, n': Net)
    requires Inv(n) && Next(n, n')
    ensures Inv(n')
  {
    hide DirectionInv, Do, Enabled;
    var step :| StepOfA(n, n', step) || StepOfA(Mirror(n), Mirror(n'), step);
    if StepOfA(n, n', step) {
      StepKeeps(n.a, n.b, n.ab, n.ba, step);
    } else {
      StepKeeps(n.b, n.a, n.ba, n.ab, step);
    }
  }

  /** The invariant holds after every run of two peers, with any interleaving of their steps. */
  lemma {:induction false} RunInv(run: seq<Net>)
    requires IsRun(run)
    ensures Inv(run[|run| - 1])
    decreases |run|
  {
    hide Inv, Next;
    if |run| == 1 {
      InitInv();
    } else {
      var before := run[..|run| - 1];
      assert Next(run[|run| - 2], run[|run| - 1]);
      forall i | 0 <= i < |before| - 1 ensures Next(before[i], before[i + 1]) {
        assert Next(run[i], run[i + 1]);
      }
      RunInv(before);
      NextKeepsInv(run[|run| - 2], run[|run| - 1]);
    }
  }
}
