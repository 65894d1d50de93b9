/** Preservation of the invariant: flow control. */
module Flow {
  import opened Bytes
  import opened Messages
  import opened MessagesOut
  import opened MessagesIn
  import opened Outbox
  import opened Senders
  import opened Receivers
  import opened Network
  import opened Invariants
  import opened Delivery

  // ---------------------------------------------------------------- where ACKs are

  lemma VarIntInjective(a: nat, b: nat)
    requires PutUVarInt(a) == PutUVarInt(b)
    ensures a == b
  {
    VarIntRoundTrip(a, []);
    VarIntRoundTrip(b, []);
  }

  lemma AckOutInjective(a: Ack, b: Ack)
    requires AckOut(a) == AckOut(b) || AckFrameOf(a) == AckFrameOf(b)
    ensures a == b
  {
    hide PutUVarInt;
    VarIntInjective(a.count, b.count);
  }

  /** ACKs wait in the outbox only. */
  lemma AcksInOutbox(s: Sender, a: Ack)
    requires FlowInvariant(s)
    ensures AckOut(a) in s.outbox <==> AckOut(a) in Live(s)
  {
    hide PutUVarInt;
    assert AckOut(a).IsAck();
  }

  /** Nothing that matters for ACKs has changed. */
  ghost predicate SameAcks(acks: seq<Ack>, outbox: seq<OutMsg>, channel: seq<Frame>,
                           acks': seq<Ack>, outbox': seq<OutMsg>, channel': seq<Frame>) {
    && (forall a: Ack :: AckPending(a, acks', outbox', channel') ==> AckPending(a, acks, outbox, channel))
    && (forall a: Ack :: AckPending(a, acks, outbox, channel) && a.count < UINT32_LIMIT ==>
          AckPending(a, acks', outbox', channel'))
  }

  lemma FlowSame(c: Claim, live: map<Key, OutMsg>, r: Receiver, acks: seq<Ack>, outbox: seq<OutMsg>,
                 channel: seq<Frame>, acks': seq<Ack>, outbox': seq<OutMsg>, channel': seq<Frame>)
    requires FlowControl(c, live, r, acks, outbox, channel)
    requires SameAcks(acks, outbox, channel, acks', outbox', channel')
    ensures FlowControl(c, live, r, acks', outbox', channel')
  {
    hide AckPending;
  }

  // ---------------------------------------------------------------- the acknowledging peer

  /** Queueing a message that is no ACK. */
  lemma QueueSameAcks(acks: seq<Ack>, outbox: seq<OutMsg>, channel: seq<Frame>, m: OutMsg)
    requires !m.IsAck()
    ensures SameAcks(acks, outbox, channel, acks, Requeue(outbox, m), channel)
  {
    hide Requeue, PutUVarInt;
    RequeueMembers(outbox, m);
    assert forall a :: AckOut(a).IsAck();
  }

  /** Queueing the first of the ACKs that have been asked for; more are asked for by frames in flight. */
  lemma QueueAckSameAcks(acks: seq<Ack>, more: seq<Ack>, outbox: seq<OutMsg>, channel: seq<Frame>)
    requires acks != []
    ensures SameAcks(acks + more, outbox, channel, acks[1..] + more, Requeue(outbox, AckOut(acks[0])), channel)
  {
    hide Requeue, PutUVarInt;
    RequeueMembers(outbox, AckOut(acks[0]));
    assert acks + more == [acks[0]] + (acks[1..] + more);
    forall a: Ack | AckOut(a) == AckOut(acks[0]) ensures a == acks[0] {
      AckOutInjective(a, acks[0]);
    }
  }

  /** Writing a frame of y's first message. */
  lemma WriteSameAcks(y: Peer, acks: seq<Ack>, channel: seq<Frame>)
    requires SenderInv(y) && y.send.outbox != []
    ensures var w := WriteFrame(y.send);
      SameAcks(acks, y.send.outbox, channel, acks, w.sender.outbox, channel + [w.frame])
  {
    hide FlowInvariant, Represents, NextFrame, PutUVarInt, WriteFrame, AckOut, AckFrameOf;
    var w := WriteFrame(y.send);
    forall a: Ack
      ensures AckPending(a, acks, w.sender.outbox, channel + [w.frame]) ==> AckPending(a, acks, y.send.outbox, channel)
      ensures a.count < UINT32_LIMIT && AckPending(a, acks, y.send.outbox, channel) ==>
                AckPending(a, acks, w.sender.outbox, channel + [w.frame])
    {
      WriteMovesAck(y, a);
    }
  }

  lemma WriteMovesAck(y: Peer, a: Ack)
    requires SenderInv(y) && y.send.outbox != []
    ensures var w := WriteFrame(y.send);
      && (AckOut(a) in w.sender.outbox || AckFrameOf(a) == w.frame ==> AckOut(a) in y.send.outbox)
      && (AckOut(a) in y.send.outbox && a.count < UINT32_LIMIT ==>
            AckOut(a) in w.sender.outbox || AckFrameOf(a) == w.frame)
  {
    hide FlowInvariant, Represents, NextFrame, Requeue;
    var m, rest := y.send.outbox[0], y.send.outbox[1..];
    var room := FrameRoom(m, rest);
    var sent := NextFrame(m, y.send.crc, room);
    assert y.send.outbox == [m] + rest;
    VarIntMaxLengths(a.count);
    if m.IsAck() {
      AckFrameContents(m, y.send.crc, room);
    } else {
      NextFrameFlags(m, y.send.crc, room);
      MessageKept(m, y.send.crc, room);
      RequeueMembers(rest, sent.msg);
    }
  }

  lemma AckFrameContents(m: OutMsg, crc: uint32, room: nat)
    requires m.IsAck() && IsAckOut(m)
    ensures var sent := NextFrame(m, crc, room);
      sent.flags == m.Flags() && sent.payload == if |m.unsentPayload| <= room then m.unsentPayload else []
  {
  }

  /** An ACK that comes in for a message of y. */
  lemma AckKeepsAcks(y: Peer, f: Frame, acks: seq<Ack>, channel: seq<Frame>)
    requires SenderInv(y) && f.flags.typ.IsAck()
    ensures SameAcks(acks, y.send.outbox, channel, acks, DoDeliver(y, f).send.outbox, channel)
  {
    hide FlowInvariant, Represents, AckOut, ReceivedAck, AckTarget, AcceptAck, Live, ReadUVarInt;
    forall a: Ack
      ensures AckOut(a) in DoDeliver(y, f).send.outbox <==> AckOut(a) in y.send.outbox
    {
      AckKeepsAck(y, f, a);
    }
  }

  lemma AckKeepsAck(y: Peer, f: Frame, a: Ack)
    requires SenderInv(y) && f.flags.typ.IsAck()
    ensures AckOut(a) in DoDeliver(y, f).send.outbox <==> AckOut(a) in y.send.outbox
  {
    hide FlowInvariant, Represents, ReceivedAck, AcceptAck, Live, ReadUVarInt, PutUVarInt, AckTarget;
    var onReply := f.flags.typ.AckResponseType?;
    ReceivedAckKeepsFlow(y.send, f.number, onReply, f.payload);
    ReceivedAckLive(y.send, f.number, onReply, f.payload);
    AckTargetMembers(y.send, f.number, onReply, f.payload);
    AcksInOutbox(y.send, a);
    AcksInOutbox(DoDeliver(y, f).send, a);
    assert AckOut(a).IsAck();
    var t := AckTarget(y.send, f.number, onReply);
    var count := ReadUVarInt(f.payload, UINT32_LIMIT);
    if t.Some? && count.Some? {
      var m' := AcceptAck(t.value, count.value.0);
      AcceptAckContent(t.value, count.value.0);
      if t.value.IsAck() {
        IceboxNoAck(y.send, t.value);
      }
      SwapMember(Live(y.send), t.value, m', AckOut(a));
    }
  }

  lemma SwapMember<T>(l: multiset<T>, m: T, m': T, x: T)
    requires m in l && (x == m || x == m' ==> m == m')
    ensures x in l - multiset{m} + multiset{m'} <==> x in l
  {
  }

  // ---------------------------------------------------------------- the sending peer

  lemma FlowQueue(c: Claim, live: map<Key, OutMsg>, k: Key, m: OutMsg, r: Receiver, acks: seq<Ack>, outbox: seq<OutMsg>,
                  channel: seq<Frame>)
    requires FlowControl(c, live, r, acks, outbox, channel) && m.bytesSent == 0
    requires k.reply == c.reply ==> !HasBegun(r, c.reply, k.number)
    ensures FlowControl(c, live[k := m], r, acks, outbox, channel)
  {
    hide AckPending;
  }

  /** The ACK state of a message and of its receiver after one more frame. */
  lemma FrameAcked(k: Key, m: OutMsg, s: Sent, r: Receiver, room: nat)
    requires MaySend(k, m, s, r) && ReceiverInv(r) && room >= 2048
    ensures var i := Before(m, r);
      var f := NextFrame(m, r.crc, room);
      var o := Receive(r, Frame(m.number, f.flags, f.payload));
      var acked := Acknowledge(i, |f.payload|);
      && o.Accepted? && o.ack == MakeAck(i, acked.1)
      && i.number == m.number && i.typ.IsResponse() == k.reply
      && i.rawBytes == m.bytesSent
      && f.msg.bytesSent == m.bytesSent + |f.payload| && f.msg.unacked == m.unacked + |f.payload|
      && f.msg.number == m.number
      && |f.payload| <= room
      && (m.bytesSent == 0 ==> i.unacked == 0)
      && (f.flags.moreComing ==>
            && k.number in Pending(o.recv, k.reply)
            && Pending(o.recv, k.reply)[k.number].unacked == acked.0.unacked
            && Pending(o.recv, k.reply)[k.number].rawBytes == f.msg.bytesSent)
  {
    hide NextFrame, ReceivedFrame, Receive, PutUVarInt, Content, NewInMsg, Acknowledge;
    BeforeMatches(k, m, s, r);
    NextFrameProperties(m, r.crc, room);
    FrameRead(m, Before(m, r), s, r.crc, room);
    FrameReceived(k, m, s, r, room);
    BeforeType(k, m, s, r);
  }

  lemma BeforeType(k: Key, m: OutMsg, s: Sent, r: Receiver)
    requires MaySend(k, m, s, r) && ReceiverInv(r)
    ensures var i := Before(m, r);
      && i.number == m.number && i.typ.IsResponse() == k.reply && i.rawBytes == m.bytesSent
      && (m.bytesSent == 0 ==> i.unacked == 0)
  {
  }

  /** One more frame of a message: either its receiver asks for an ACK now, or the last one counts on. */
  lemma MoreAcked(c: Claim, m: OutMsg, m': OutMsg, i: InMsg, i': InMsg, size: nat, acks: seq<Ack>, outbox: seq<OutMsg>,
                  channel: seq<Frame>)
    requires m'.bytesSent == m.bytesSent + size < UINT32_LIMIT && m'.unacked == m.unacked + size
    requires m'.number == m.number == i.number && i.rawBytes == m.bytesSent
    requires i'.rawBytes == m'.bytesSent && i'.unacked == Acknowledge(i, size).0.unacked
    requires i.typ.IsResponse() == c.reply
    requires AckedOrPending(c, m, i, acks, outbox, channel)
    ensures AckedOrPending(c, m', i', acks + AckList(MakeAck(i, Acknowledge(i, size).1)), outbox, channel)
    ensures AskedBytes(i) <= AskedBytes(i')
    ensures Acknowledge(i, size).1.Some? ==> Acknowledge(i, size).1.value == AskedBytes(i')
  {
    var ack := MakeAck(i, Acknowledge(i, size).1);
    if ack.Some? {
      assert Ack(c.reply, m'.number, AskedBytes(i')) == ack.value;
      assert ack.value in acks + AckList(ack);
    } else {
      assert acks + AckList(ack) == acks;
    }
  }

  /** Before its first frame, a message has nothing to be acknowledged. */
  lemma NothingAcked(c: Claim, m: OutMsg, i: InMsg, acks: seq<Ack>, outbox: seq<OutMsg>, channel: seq<Frame>)
    requires m.bytesSent == m.unacked == i.rawBytes == i.unacked == 0
    ensures AckedOrPending(c, m, i, acks, outbox, channel)
  {
  }

  /** Another ACK, of whatever message. */
  lemma PendingMore(acks: seq<Ack>, more: seq<Ack>, outbox: seq<OutMsg>, channel: seq<Frame>)
    ensures forall a :: AckPending(a, acks + more, outbox, channel) <==>
                          AckPending(a, acks, outbox, channel) || a in more
  {
  }

  lemma FlowWriteMessage(c: Claim, x: Peer, x': Peer, r: Receiver, acks: seq<Ack>, outbox: seq<OutMsg>,
                         channel: seq<Frame>)
    requires SenderInv(x) && Mirrors(x, r) && ReceiverInv(r) && FlowControl(c, x.live, r, acks, outbox, channel)
    requires x.send.outbox != [] && !x.send.outbox[0].IsAck()
    requires x.send.outbox[0].bytesSent + BIG_FRAME_SIZE < UINT32_LIMIT
    requires x'.live == LiveAfterWrite(x)
    ensures var o := Receive(r, WriteFrame(x.send).frame);
      o.Accepted? && FlowControl(c, x'.live, o.recv, acks + AckList(o.ack), outbox, channel)
  {
    hide Represents, FlowInvariant, NextFrame, Receive, NewRequests, InTransit, DeliveredAs, InOrder, PutUVarInt,
         AckPending, Content, AckedOrPending, MaySend, JustReceived;
    var s := x.send;
    var m := s.outbox[0];
    var room := FrameRoom(m, s.outbox[1..]);
    var k := KeyOf(m);
    WriteFrameLive(s);
    MayWrite(x, r);
    HeadUnacked(s);
    FrameJustReceived(k, m, x.sent[k], r, room);
    FlowAfterFrame(c, x.live, x'.live, k, m, NextFrame(m, s.crc, room), r, WriteFrame(s).frame,
                   acks, outbox, channel);
  }

  ghost predicate StillBegun(r: Receiver, r': Receiver) {
    forall reply: bool, n :: HasBegun(r, reply, n) ==> HasBegun(r', reply, n)
  }

  /** What is known of a frame f of m that has just been received: see FrameMirrored and FrameAcked. */
  ghost predicate JustReceived(k: Key, m: OutMsg, sent: SentFrame, r: Receiver, f: Frame) {
    var o := Receive(r, f);
    && k == KeyOf(m) && f == Frame(m.number, sent.flags, sent.payload) && f.flags.typ == m.typ && !m.IsAck()
    && !m.typ.UnknownType?
    && (m.typ.RequestType? && m.bytesSent > 0 ==> m.number in r.pendingRequests)
    && (m.typ.IsResponse() ==> m.number in r.pendingResponses)
    && var i := Before(m, r);
       var acked := Acknowledge(i, |sent.payload|);
       && o.Accepted? && o.ack == MakeAck(i, acked.1)
       && i.number == m.number && i.typ.IsResponse() == k.reply && i.rawBytes == m.bytesSent
       && sent.msg.bytesSent == m.bytesSent + |sent.payload| < UINT32_LIMIT
       && sent.msg.unacked == m.unacked + |sent.payload|
       && sent.msg.number == m.number
       && m.unacked <= m.bytesSent
       && (!k.reply && m.bytesSent == 0 ==> m.number == r.numRequests + 1)
       && o.recv.numRequests == (if !k.reply && m.bytesSent == 0 then m.number else r.numRequests)
       && (forall n :: Untouched(r, o, f, n))
       && (m.bytesSent == 0 ==> i.unacked == 0)
       && StillBegun(r, o.recv) && HasBegun(o.recv, k.reply, k.number)
       && (f.flags.moreComing ==>
             && k.number in Pending(o.recv, k.reply)
             && Pending(o.recv, k.reply)[k.number].unacked == acked.0.unacked
             && Pending(o.recv, k.reply)[k.number].rawBytes == sent.msg.bytesSent)
  }

  lemma FrameJustReceived(k: Key, m: OutMsg, s: Sent, r: Receiver, room: nat)
    requires MaySend(k, m, s, r) && ReceiverInv(r) && 2048 <= room <= BIG_FRAME_SIZE
    requires m.bytesSent + BIG_FRAME_SIZE < UINT32_LIMIT && m.unacked <= m.bytesSent
    ensures var f := NextFrame(m, r.crc, room);
      JustReceived(k, m, f, r, Frame(m.number, f.flags, f.payload))
  {
    hide NextFrame, Receive, Match, PutUVarInt, Content, Acknowledge, Before, DeliveredAs, HasBegun;
    FrameMirrored(k, m, s, r, room);
    FrameAcked(k, m, s, r, room);
    NextFrameFlags(m, r.crc, room);
    FrameBegins(k, m, s, r, room);
  }

  /** The message of a frame has begun when the frame has been received; the others are as before. */
  lemma FrameBegins(k: Key, m: OutMsg, s: Sent, r: Receiver, room: nat)
    requires MaySend(k, m, s, r) && ReceiverInv(r) && room >= 2048
    ensures var f := NextFrame(m, r.crc, room);
      var o := Receive(r, Frame(m.number, f.flags, f.payload));
      o.Accepted? && StillBegun(r, o.recv) && HasBegun(o.recv, k.reply, k.number)
  {
    hide NextFrame, Receive, PutUVarInt, Content, DeliveredAs, InTransit, HasBegun, StillBegun, MaySend, Untouched,
         ReceiverInv, Extends;
    SendingKey(k, m, s, r);
    FrameMirrored(k, m, s, r, room);
    NextFrameFlags(m, r.crc, room);
    NextFrameProperties(m, r.crc, room);
    var f := NextFrame(m, r.crc, room);
    var frame := Frame(m.number, f.flags, f.payload);
    var o := Receive(r, frame);
    ReceiveKeeps(r, frame);
    if f.flags.moreComing {
      InTransitBegun(k, f.msg, s, o.recv);
    } else {
      DeliveredBegun(k, s, o.recv);
    }
    OthersBegun(r, o, frame, k);
  }

  lemma SendingKey(k: Key, m: OutMsg, s: Sent, r: Receiver)
    requires MaySend(k, m, s, r)
    ensures KeyOf(m) == k && !m.IsAck() && !m.typ.UnknownType?
    ensures !k.reply && m.bytesSent == 0 ==> m.number == r.numRequests + 1
  {
  }

  lemma InTransitBegun(k: Key, m: OutMsg, s: Sent, r: Receiver)
    requires InTransit(k, m, s, r) && m.bytesSent > 0 && ReceiverInv(r)
    ensures HasBegun(r, k.reply, k.number)
  {
  }

  lemma DeliveredBegun(k: Key, s: Sent, r: Receiver)
    requires DeliveredAs(k, s, r) && ReceiverInv(r)
    ensures HasBegun(r, k.reply, k.number)
  {
  }

  lemma OthersBegun(r: Receiver, o: Outcome, f: Frame, k: Key)
    requires o.Accepted? && Extends(r, o.recv) && r.numRequests <= o.recv.numRequests
    requires forall n :: Untouched(r, o, f, n)
    requires k == Key(f.flags.typ.IsResponse(), f.number) && HasBegun(o.recv, k.reply, k.number)
    ensures StillBegun(r, o.recv)
  {
    forall reply: bool, n | HasBegun(r, reply, n)
      ensures HasBegun(o.recv, reply, n)
    {
      assert Untouched(r, o, f, n);
    }
  }

  /** A request that begins was not there before. */
  lemma NotBefore(k: Key, m: OutMsg, sent: SentFrame, r: Receiver, f: Frame)
    requires JustReceived(k, m, sent, r, f) && ReceiverInv(r)
    ensures k.number in Pending(r, k.reply) ==> Pending(r, k.reply)[k.number] == Before(m, r)
  {
    hide Receive, HasBegun;
  }

  /** A message of which a frame has been received, and an ACK of it. */
  lemma MessageAfterFrame(c: Claim, live: map<Key, OutMsg>, k: Key, m: OutMsg, sent: SentFrame, r: Receiver, f: Frame,
                          acks: seq<Ack>, outbox: seq<OutMsg>, channel: seq<Frame>)
    requires FlowControl(c, live, r, acks, outbox, channel) && JustReceived(k, m, sent, r, f) && ReceiverInv(r)
    requires k in live && live[k] == m && k.reply == c.reply && f.flags.moreComing
    ensures var o := Receive(r, f);
      var i' := Pending(o.recv, k.reply)[k.number];
      && AckedOrPending(c, sent.msg, i', acks + AckList(o.ack), outbox, channel)
      && (k.number in Pending(r, k.reply) ==> AskedBytes(Pending(r, k.reply)[k.number]) <= AskedBytes(i'))
      && (o.ack.Some? ==> o.ack.value.count == AskedBytes(i'))
  {
    hide Receive, AckPending, AckedOrPending, Acknowledge, HasBegun;
    var i := Before(m, r);
    NotBefore(k, m, sent, r, f);
    if m.bytesSent == 0 {
      NothingAcked(c, m, i, acks, outbox, channel);
    }
    MoreAcked(c, m, sent.msg, i, Pending(Receive(r, f).recv, k.reply)[k.number], |sent.payload|,
              acks, outbox, channel);
  }

  lemma AckedMore(c: Claim, m: OutMsg, i: InMsg, acks: seq<Ack>, more: seq<Ack>, outbox: seq<OutMsg>,
                  channel: seq<Frame>)
    requires AckedOrPending(c, m, i, acks, outbox, channel)
    ensures AckedOrPending(c, m, i, acks + more, outbox, channel)
  {
    PendingMore(acks, more, outbox, channel);
  }

  /** The ACK that a frame asks for. */
  lemma NewAck(k: Key, m: OutMsg, sent: SentFrame, r: Receiver, f: Frame)
    requires JustReceived(k, m, sent, r, f) && ReceiverInv(r)
    ensures var o := Receive(r, f);
      o.ack.Some? ==>
        && o.ack.value.onReply == k.reply && o.ack.value.number == k.number
        && HasBegun(o.recv, k.reply, k.number) && o.ack.value.count == sent.msg.bytesSent
  {
    hide Receive, HasBegun;
  }

  lemma FlowAfterFrame(c: Claim, live: map<Key, OutMsg>, live': map<Key, OutMsg>, k: Key, m: OutMsg, sent: SentFrame,
                       r: Receiver, f: Frame, acks: seq<Ack>, outbox: seq<OutMsg>, channel: seq<Frame>)
    requires FlowControl(c, live, r, acks, outbox, channel) && JustReceived(k, m, sent, r, f) && ReceiverInv(r)
    requires k in live && live[k] == m
    requires live' == if f.flags.moreComing then live[k := sent.msg] else live - {k}
    ensures var o := Receive(r, f); o.Accepted? && FlowControl(c, live', o.recv, acks + AckList(o.ack), outbox, channel)
  {
    hide Receive, AckPending, AckedOrPending, Acknowledge, AckList, HasBegun;
    var o := Receive(r, f);
    PendingMore(acks, AckList(o.ack), outbox, channel);
    NewAck(k, m, sent, r, f);
    if k.reply == c.reply && f.flags.moreComing {
      MessageAfterFrame(c, live, k, m, sent, r, f, acks, outbox, channel);
    }
    forall k' | k' in live' && k'.reply == c.reply && live'[k'].bytesSent > 0
      ensures k'.number in Pending(o.recv, c.reply)
      ensures AckedOrPending(c, live'[k'], Pending(o.recv, c.reply)[k'.number], acks + AckList(o.ack), outbox, channel)
    {
      if k' != k {
        assert Untouched(r, o, f, k'.number);
        AckedMore(c, live[k'], Pending(r, c.reply)[k'.number], acks, AckList(o.ack), outbox, channel);
      }
    }
    forall a: Ack | AckPending(a, acks + AckList(o.ack), outbox, channel) && a.onReply == c.reply
      ensures HasBegun(o.recv, c.reply, a.number) && a.count < UINT32_LIMIT
      ensures Key(c.reply, a.number) in live' ==>
        a.number in Pending(o.recv, c.reply) && a.count <= AskedBytes(Pending(o.recv, c.reply)[a.number])
    {
      assert Untouched(r, o, f, a.number);
      if !AckPending(a, acks, outbox, channel) {
        AckListMember(o.ack, a);
      } else {
        assert HasBegun(r, c.reply, a.number);
      }
    }
  }

  lemma AckListMember(ack: Option<Ack>, a: Ack)
    requires a in AckList(ack)
    ensures ack == Some(a)
  {
  }

  lemma HeadUnacked(s: Sender)
    requires FlowInvariant(s) && s.outbox != []
    ensures s.outbox[0].unacked <= s.outbox[0].bytesSent
  {
    assert s.outbox[0] in s.outbox;
  }

  // ---------------------------------------------------------------- an ACK comes in

  /** The lookup of a request is unambiguous. */
  lemma TargetOfRequest(x: Peer, number: MessageNo)
    requires SenderInv(x)
    ensures var t := AckTarget(x.send, number, false);
      && (Key(false, number) in x.live ==> t == Some(x.live[Key(false, number)]))
      && (t.Some? ==> KeyOf(t.value) == Key(false, number))
  {
    hide FlowInvariant, IsAckOut;
    var k := Key(false, number);
    var t := AckTarget(x.send, number, false);
    if t.Some? {
      assert t.value in Live(x.send);
    }
    if k in x.live {
      var m := x.live[k];
      assert m in x.send.outbox || m in x.send.icebox;
      assert m.number == number && !m.typ.IsResponse();
    }
  }

  /** The lookup of a reply finds a message of its number that is no request. */
  lemma TargetOfReply(x: Peer, number: MessageNo)
    requires SenderInv(x)
    ensures var t := AckTarget(x.send, number, true);
      && (t.Some? ==> KeyOf(t.value) == Key(true, number))
      && (t.Some? && !t.value.IsAck() ==>
            Key(true, number) in x.live && t.value == x.live[Key(true, number)])
      && (Key(true, number) in x.live ==> t.Some?)
  {
    hide FlowInvariant, IsAckOut;
    var k := Key(true, number);
    var t := AckTarget(x.send, number, true);
    if t.Some? {
      assert t.value in Live(x.send);
    }
    if k in x.live {
      var m := x.live[k];
      assert m in x.send.outbox || m in x.send.icebox;
      assert m.number == number && m.typ.IsResponse();
    }
  }

  /** The ACK in f is about message k, and finds it. */
  predicate Finds(x: Peer, f: Frame, k: Key)
    requires k in x.live
  {
    && f.number == k.number && f.flags.typ == AckType(Ack(k.reply, k.number, 0))
    && AckTarget(x.send, f.number, k.reply) == Some(x.live[k])
  }

  /** The ACK in f, if it is about a reply that is being sent, finds that reply. */
  predicate Clear(x: Peer, f: Frame) {
    f.flags.typ.AckResponseType? && Key(true, f.number) in x.live ==> Finds(x, f, Key(true, f.number))
  }

  /** What an ACK does to each message. */
  lemma AckOfMessage(x: Peer, f: Frame, k: Key)
    requires SenderInv(x) && f.flags.typ.IsAck() && k in x.live
    ensures var count := ReadUVarInt(f.payload, UINT32_LIMIT);
      && k in LiveAfterAck(x, f)
      && LiveAfterAck(x, f)[k] == (if Finds(x, f, k) && count.Some? then AcceptAck(x.live[k], count.value.0)
                                   else x.live[k])
    ensures f.flags.typ == AckType(Ack(k.reply, k.number, 0)) && f.number == k.number && (k.reply ==> Clear(x, f)) ==>
              Finds(x, f, k)
  {
    hide FlowInvariant, IsAckOut, AckTarget, ReadUVarInt, AcceptAck, Live, Represents;
    TargetOfReply(x, f.number);
    TargetOfRequest(x, f.number);
    KnownType(Live(x.send), x.live, k);
  }

  lemma AckAccepted(c: Claim, m: OutMsg, i: InMsg, f: Frame, acks: seq<Ack>, outbox: seq<OutMsg>, channel: seq<Frame>)
    requires channel != [] && f == channel[0] && AckedOrPending(c, m, i, acks, outbox, channel)
    requires c.sure && f == AckFrameOf(Ack(c.reply, m.number, AskedBytes(i))) ==> AckedBytes(m) == AskedBytes(i)
    ensures AckedOrPending(c, m, i, acks, outbox, channel[1..])
  {
    hide PutUVarInt;
    assert channel == [f] + channel[1..];
  }

  lemma ReadPut(n: nat)
    requires n < UINT32_LIMIT
    ensures ReadUVarInt(PutUVarInt(n), UINT32_LIMIT) == Some((n, |PutUVarInt(n)|))
  {
    VarIntRoundTrip(n, []);
    assert PutUVarInt(n) + [] == PutUVarInt(n);
  }

  lemma OneAckAccepted(c: Claim, x: Peer, f: Frame, k: Key, i: InMsg, acks: seq<Ack>, outbox: seq<OutMsg>,
                       channel: seq<Frame>)
    requires SenderInv(x) && AckFrames(channel) && channel != [] && f == channel[0] && f.flags.typ.IsAck()
    requires k in x.live && k.reply == c.reply && AckedOrPending(c, x.live[k], i, acks, outbox, channel)
    requires c.reply && c.sure ==> Clear(x, f)
    requires forall a: Ack :: AckPending(a, acks, outbox, channel) && a.onReply == c.reply && a.number == k.number ==>
               a.count <= AskedBytes(i)
    ensures k in LiveAfterAck(x, f) && AckedOrPending(c, LiveAfterAck(x, f)[k], i, acks, outbox, channel[1..])
  {
    hide SenderInv, PutUVarInt, ReadUVarInt, LiveAfterAck, Finds, Clear;
    AckOfMessage(x, f, k);
    FindsIsAck(x, f, k);
    LiveKey(x, k);
    var m := x.live[k];
    var m' := LiveAfterAck(x, f)[k];
    var count := ReadUVarInt(f.payload, UINT32_LIMIT);
    var last := Ack(c.reply, m.number, AskedBytes(i));
    if Finds(x, f, k) && count.Some? {
      var a := Ack(c.reply, k.number, count.value.0);
      assert f == AckFrameOf(a);
      assert AckPending(a, acks, outbox, channel);
      assert AckedOrPending(c, m', i, acks, outbox, channel);
      if f == AckFrameOf(last) {
        AckOutInjective(a, last);
      }
    } else if c.sure && f == AckFrameOf(last) {
      ReadPut(AskedBytes(i));
      assert false;
    }
    AckAccepted(c, m', i, f, acks, outbox, channel);
  }

  lemma FindsIsAck(x: Peer, f: Frame, k: Key)
    requires k in x.live
    ensures Finds(x, f, k) ==>
              f.number == k.number && f.flags.typ == if k.reply then AckResponseType else AckRequestType
  {
  }

  lemma LiveKey(x: Peer, k: Key)
    requires SenderInv(x) && k in x.live
    ensures KeyOf(x.live[k]) == k
  {
  }

  lemma OneMessageAcked(c: Claim, x: Peer, r: Receiver, acks: seq<Ack>, outbox: seq<OutMsg>, channel: seq<Frame>,
                        k: Key)
    requires SenderInv(x) && FlowControl(c, x.live, r, acks, outbox, channel) && AckFrames(channel)
    requires channel != [] && channel[0].flags.typ.IsAck()
    requires c.reply && c.sure ==> Clear(x, channel[0])
    requires k in x.live && k.reply == c.reply && x.live[k].bytesSent > 0
    ensures k in LiveAfterAck(x, channel[0]) && k.number in Pending(r, c.reply)
    ensures AckedOrPending(c, LiveAfterAck(x, channel[0])[k], Pending(r, c.reply)[k.number], acks, outbox, channel[1..])
  {
    hide SenderInv, AckedOrPending, LiveAfterAck, PutUVarInt, HasBegun, Clear, AckPending;
    assert k == Key(c.reply, k.number);
    OneAckAccepted(c, x, channel[0], k, Pending(r, c.reply)[k.number], acks, outbox, channel);
  }

  lemma FlowDeliverAck(c: Claim, x: Peer, r: Receiver, acks: seq<Ack>, outbox: seq<OutMsg>, channel: seq<Frame>)
    requires SenderInv(x) && FlowControl(c, x.live, r, acks, outbox, channel) && AckFrames(channel)
    requires channel != [] && channel[0].flags.typ.IsAck()
    requires c.reply && c.sure ==> Clear(x, channel[0])
    ensures FlowControl(c, LiveAfterAck(x, channel[0]), r, acks, outbox, channel[1..])
  {
    hide SenderInv, AckedOrPending, LiveAfterAck, PutUVarInt, HasBegun, Clear, AckPending;
    var f := channel[0];
    var live' := LiveAfterAck(x, f);
    AckEffect(x, f);
    assert live' == DoDeliver(x, f).live;
    forall k | k in live' && k.reply == c.reply && live'[k].bytesSent > 0
      ensures k.number in Pending(r, c.reply)
      ensures AckedOrPending(c, live'[k], Pending(r, c.reply)[k.number], acks, outbox, channel[1..])
    {
      assert k in x.live && x.live[k].bytesSent > 0;
      OneMessageAcked(c, x, r, acks, outbox, channel, k);
    }
    FewerPending(acks, outbox, channel);
  }

  lemma FewerPending(acks: seq<Ack>, outbox: seq<OutMsg>, channel: seq<Frame>)
    requires channel != []
    ensures forall a :: AckPending(a, acks, outbox, channel[1..]) ==> AckPending(a, acks, outbox, channel)
  {
  }

  /** A frame that is no ACK comes in. */
  lemma FlowDeliverOther(c: Claim, live: map<Key, OutMsg>, r: Receiver, acks: seq<Ack>, outbox: seq<OutMsg>,
                         channel: seq<Frame>)
    requires FlowControl(c, live, r, acks, outbox, channel)
    requires channel != [] && !channel[0].flags.typ.IsAck()
    ensures FlowControl(c, live, r, acks, outbox, channel[1..])
  {
    hide PutUVarInt;
    assert channel == [channel[0]] + channel[1..];
    assert forall a :: AckFrameOf(a).flags.typ.IsAck();
    assert forall a :: AckPending(a, acks, outbox, channel[1..]) <==> AckPending(a, acks, outbox, channel);
    FlowSame(c, live, r, acks, outbox, channel, acks, outbox, channel[1..]);
  }
}
