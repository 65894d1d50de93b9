/** What every run of two peers keeps: once the frames in flight are drained, the receiving end
    mirrors the sending end. */
module Invariants {
  import opened Bytes
  import opened Messages
  import opened MessagesOut
  import opened MessagesIn
  import opened Outbox
  import opened Senders
  import opened Receivers
  import opened Network

  // ---------------------------------------------------------------- the sending end

  /** live files exactly the messages of the queues, ACKs aside, each of them once. */
  ghost predicate Represents(l: multiset<OutMsg>, live: map<Key, OutMsg>) {
    && (forall m :: m in l && !m.IsAck() ==> l[m] == 1 && KeyOf(m) in live && live[KeyOf(m)] == m)
    && (forall k :: k in live ==> live[k] in l && KeyOf(live[k]) == k && !live[k].IsAck()
                                  && !live[k].typ.UnknownType?)
  }

  /** A byte count that can be read has been written by PutUVarInt. */
  predicate Canonical(payload: seq<byte>) {
    var count := ReadUVarInt(payload, UINT32_LIMIT);
    count.Some? ==> payload == PutUVarInt(count.value.0)
  }

  predicate IsAckOut(m: OutMsg) {
    m.IsAck() ==>
      m == OutMsg(m.number, m.typ, true, true, m.unsentPayload, [], None, 0, 0) && Canonical(m.unsentPayload)
  }

  ghost predicate AckFrames(channel: seq<Frame>) {
    forall i :: 0 <= i < |channel| && channel[i].flags.typ.IsAck() ==>
      channel[i].flags == FrameFlags(channel[i].flags.typ, true, true, false) && Canonical(channel[i].payload)
  }

  ghost predicate SenderInv(x: Peer) {
    && !x.failed
    && Represents(Live(x.send), x.live)
    && FlowInvariant(x.send)
    && (forall m :: m in x.send.icebox ==> m.bytesSent > 0)
    && (forall m :: m in x.send.outbox ==> IsAckOut(m))
    && (forall k :: k in x.sent && !k.reply ==> 1 <= k.number <= x.send.lastMessageNo)
  }

  // ---------------------------------------------------------------- messages on their way

  /** i has assembled, and m has left to send, the two parts of content. */
  predicate Match(m: OutMsg, i: InMsg, content: seq<byte>) {
    && Partial(i)
    && i.number == m.number && i.rawBytes == m.bytesSent
    && content == Assembled(i) + Content(m)
    && (i.started <==> m.bytesSent > 0)
    && (if i.started then i.typ == m.typ && i.urgent == m.urgent && i.noReply == m.noReply
        else i.unacked == 0)
  }

  /** A message that is still being sent. */
  predicate InTransit(k: Key, m: OutMsg, s: Sent, r: Receiver) {
    && ValidSent(s) && m.typ == s.typ && m.urgent == s.urgent && m.noReply == s.noReply
    && k !in r.delivered
    && if k.reply then
         k.number in r.pendingResponses && Match(m, r.pendingResponses[k.number], ContentOf(s))
       else if m.bytesSent == 0 then
         k.number > r.numRequests && Content(m) == ContentOf(s)
       else
         k.number in r.pendingRequests && Match(m, r.pendingRequests[k.number], ContentOf(s))
  }

  /** A message that has been sent completely. */
  predicate DeliveredAs(k: Key, s: Sent, r: Receiver) {
    && k in r.delivered
    && r.delivered[k].typ == s.typ && r.delivered[k].urgent == s.urgent && r.delivered[k].noReply == s.noReply
    && r.delivered[k].props == s.props && r.delivered[k].body == s.body
    && Assembled(r.delivered[k]) == ContentOf(s)
  }

  /** The requests that have not begun are numbered on from the last that has. */
  ghost predicate InOrder(waiting: seq<nat>, begun: nat, last: nat) {
    begun + |waiting| == last && forall i :: 0 <= i < |waiting| ==> waiting[i] == begun + 1 + i
  }

  /** r is the receiver once it has all the frames that x has sent. */
  ghost predicate Mirrors(x: Peer, r: Receiver) {
    && r.crc == x.send.crc
    && InOrder(NewRequests(x.send.outbox), r.numRequests, x.send.lastMessageNo)
    && (forall k :: k in x.live ==> k in x.sent && InTransit(k, x.live[k], x.sent[k], r))
    && (forall k :: k in x.sent && k !in x.live ==> DeliveredAs(k, x.sent[k], r))
    && (forall k :: k in r.delivered ==> k in x.sent)
  }

  // ---------------------------------------------------------------- replies

  /** x answers the requests of y. xAll and yAll are the two receivers once all is drained, and
      replies the frames on their way to y. */
  ghost predicate Replies(x: Peer, y: Peer, replies: seq<Frame>, xAll: Receiver, yAll: Receiver) {
    && Answers(x, replies)
    && (forall n :: Key(false, n) in xAll.delivered && !xAll.delivered[Key(false, n)].noReply && n !in x.responded ==>
          n in yAll.pendingResponses && yAll.pendingResponses[n] == AwaitedReply(n))
    && Asks(y)
  }

  /** x responds only to requests it has received, and replies only by responding. */
  ghost predicate Answers(x: Peer, replies: seq<Frame>) {
    && (forall n :: n in x.responded ==>
          Key(false, n) in x.recv.delivered && !x.recv.delivered[Key(false, n)].noReply)
    && (forall k :: k in x.sent && k.reply ==> k.number in x.responded)
    && (forall i :: 0 <= i < |replies| && IsReplyFrame(replies[i], replies[i].number) ==>
          replies[i].number in x.responded)
  }

  /** y awaits replies only to requests that it has sent completely. */
  ghost predicate Asks(y: Peer) {
    && (forall k :: k in y.live && !k.reply ==> k.number !in y.recv.pendingResponses)
    && (forall n :: n in y.recv.pendingResponses ==> n <= y.send.lastMessageNo)
  }

  // ---------------------------------------------------------------- flow control

  /** The frame that carries an ACK. */
  function AckFrameOf(a: Ack): Frame {
    Frame(a.number, FrameFlags(AckType(a), true, true, false), PutUVarInt(a.count))
  }

  /** An ACK that its receiver has asked for, that is queued to be sent, or that is on its way. */
  predicate AckPending(a: Ack, acks: seq<Ack>, outbox: seq<OutMsg>, channel: seq<Frame>) {
    a in acks || AckOut(a) in outbox || AckFrameOf(a) in channel
  }

  /** The bytes of m that have been acknowledged. */
  function AckedBytes(m: OutMsg): int {
    m.bytesSent - m.unacked
  }

  /** The byte count of the last ACK that i asked for. */
  function AskedBytes(i: InMsg): int {
    i.rawBytes - i.unacked
  }

  /** What flow control is claimed to do: for requests or for replies; and either that the last ACK
      asked for is never lost, or only that what is acknowledged has been asked for. */
  datatype Claim = Claim(reply: bool, sure: bool)

  const REQUESTS := Claim(false, true)

  /** m has got the last ACK that its receiver asked for, or that ACK is still to come. */
  predicate AckedOrPending(c: Claim, m: OutMsg, i: InMsg, acks: seq<Ack>, outbox: seq<OutMsg>, channel: seq<Frame>) {
    && m.bytesSent < UINT32_LIMIT
    && i.unacked < INCOMING_ACK_THRESHOLD && 0 <= AckedBytes(m) <= AskedBytes(i) <= m.bytesSent
    && (c.sure ==> AckedBytes(m) == AskedBytes(i)
                   || AckPending(Ack(c.reply, m.number, AskedBytes(i)), acks, outbox, channel))
  }

  /** r has had a frame of this message. */
  predicate HasBegun(r: Receiver, reply: bool, number: MessageNo) {
    if reply then
      (number in r.pendingResponses && r.pendingResponses[number].started) || Key(true, number) in r.delivered
    else number <= r.numRequests
  }

  ghost predicate FlowControl(c: Claim, live: map<Key, OutMsg>, r: Receiver, acks: seq<Ack>, outbox: seq<OutMsg>,
                              channel: seq<Frame>) {
    && (forall k :: k in live && k.reply == c.reply && live[k].bytesSent > 0 ==>
          && k.number in Pending(r, c.reply)
          && AckedOrPending(c, live[k], Pending(r, c.reply)[k.number], acks, outbox, channel))
    && (forall a :: AckPending(a, acks, outbox, channel) && a.onReply == c.reply ==>
          && HasBegun(r, c.reply, a.number) && a.count < UINT32_LIMIT
          && (Key(c.reply, a.number) in live ==>
                a.number in Pending(r, c.reply) && a.count <= AskedBytes(Pending(r, c.reply)[a.number])))
  }

  // ---------------------------------------------------------------- one direction, and both

  /** Everything about what x sends to y; back are the frames from y to x. */
  ghost predicate DirectionInv(x: Peer, y: Peer, out: seq<Frame>, back: seq<Frame>) {
    && SenderInv(x)
    && AckFrames(out)
    && ReceiverInv(y.recv)
    && Drain(y.recv, out).Drained? && Drain(x.recv, back).Drained?
    && var d := Drain(y.recv, out);
       && Mirrors(x, d.recv)
       && Replies(x, y, out, Drain(x.recv, back).recv, d.recv)
       && FlowControl(REQUESTS, x.live, d.recv, y.acks + d.acks, y.send.outbox, back)
  }

  ghost predicate Inv(n: Net) {
    && DirectionInv(n.a, n.b, n.ab, n.ba)
    && DirectionInv(n.b, n.a, n.ba, n.ab)
  }
}
