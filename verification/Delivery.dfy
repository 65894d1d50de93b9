/** Preservation of the invariant, the sending direction: what a step of x does to what it sends. */
module Delivery {
  import opened Bytes
  import opened Messages
  import opened MessagesOut
  import opened MessagesIn
  import opened Codecs
  import opened Outbox
  import opened Senders
  import opened Receivers
  import opened Network
  import opened Invariants

  // ---------------------------------------------------------------- the live messages

  lemma RepresentsAdd(l: multiset<OutMsg>, live: map<Key, OutMsg>, m: OutMsg)
    requires Represents(l, live) && !m.IsAck() && !m.typ.UnknownType? && KeyOf(m) !in live
    ensures Represents(l + multiset{m}, live[KeyOf(m) := m])
  {
    assert m !in l;
  }

  lemma RepresentsAck(l: multiset<OutMsg>, live: map<Key, OutMsg>, m: OutMsg)
    requires Represents(l, live) && m.IsAck()
    ensures Represents(l + multiset{m}, live)
    ensures Represents(l - multiset{m}, live)
  {
  }

  lemma RepresentsReplace(l: multiset<OutMsg>, live: map<Key, OutMsg>, m: OutMsg, m': OutMsg)
    requires Represents(l, live) && m in l && !m.IsAck() && KeyOf(m') == KeyOf(m) && m'.typ == m.typ
    ensures Represents(l - multiset{m} + multiset{m'}, live[KeyOf(m) := m'])
    ensures Represents(l - multiset{m}, live - {KeyOf(m)})
  {
    var r := l - multiset{m};
    assert m !in r;
    assert forall x :: x in r ==> x in l && r[x] == l[x];
    assert m' !in r;
  }

  // ---------------------------------------------------------------- one frame

  /** The state of the incoming message before a frame of m. */
  function Before(m: OutMsg, r: Receiver): InMsg
    requires m.typ.RequestType? && m.bytesSent > 0 ==> m.number in r.pendingRequests
    requires m.typ.IsResponse() ==> m.number in r.pendingResponses
  {
    if m.typ.IsResponse() then r.pendingResponses[m.number]
    else if m.bytesSent > 0 then r.pendingRequests[m.number]
    else NewInMsg(m.number, m.Flags())
  }

  /** m may send: a request that begins is the next one in order. */
  predicate MaySend(k: Key, m: OutMsg, s: Sent, r: Receiver) {
    && KeyOf(m) == k && !m.IsAck() && !m.typ.UnknownType?
    && InTransit(k, m, s, r)
    && (!k.reply && m.bytesSent == 0 ==> m.number == r.numRequests + 1)
  }

  lemma BeforeMatches(k: Key, m: OutMsg, s: Sent, r: Receiver)
    requires MaySend(k, m, s, r)
    ensures Match(m, Before(m, r), ContentOf(s))
  {
    assert Assembled(NewInMsg(m.number, m.Flags())) + Content(m) == Content(m);
  }

  /** The frame of a message in transit is read into it as the sender means it. */
  lemma FrameRead(m: OutMsg, i: InMsg, s: Sent, crc: uint32, room: nat)
    requires Match(m, i, ContentOf(s)) && ValidSent(s) && !m.IsAck() && room >= 2048
    ensures var f := NextFrame(m, crc, room);
      var o := ReceivedFrame(i, crc, f.payload, f.flags);
      && |f.payload| >= CHECKSUM_SIZE && o.FrameOk? && o.crc == f.crc
      && o.ack == Acknowledge(i, |f.payload|).1
      && o.msg.unacked == Acknowledge(i, |f.payload|).0.unacked
      && o.msg.number == m.number && o.msg.typ == m.typ && o.msg.urgent == m.urgent && o.msg.noReply == m.noReply
      && (f.flags.moreComing ==> Match(f.msg, o.msg, ContentOf(s)))
      && (!f.flags.moreComing ==> o.msg.props == s.props && o.msg.body == s.body
                                  && Assembled(o.msg) == ContentOf(s))
      && Assembled(o.msg) == Assembled(i) + f.payload[..|f.payload| - CHECKSUM_SIZE]
      && f.msg.bytesSent == m.bytesSent + |f.payload| && f.msg.unacked == m.unacked + |f.payload|
      && f.msg.number == m.number && f.msg.typ == m.typ && f.msg.urgent == m.urgent && f.msg.noReply == m.noReply
      && f.flags == m.Flags().(moreComing := f.flags.moreComing)
  {
    NextFrameProperties(m, crc, room);
    NextFrameFlags(m, crc, room);
    ContentWellFormed(s);
    MatchParts(m, i, ContentOf(s));
    hide NextFrame, ReceivedFrame, Content, Crc32, Dec32, PutUVarInt, ContentOf, WellFormed, Assembled, Acknowledge,
         Match, ValidSent, Partial;
    var f := NextFrame(m, crc, room);
    var n := |f.payload| - CHECKSUM_SIZE;
    var data, rest := f.payload[..n], Content(f.msg);
    Regrouped(Assembled(i), data, rest);
    FrameAccepted(i, crc, f.payload, f.flags, ContentOf(s), s.props, s.body, rest);
    ReceivedKind(i, crc, f.payload, f.flags);
    if f.flags.moreComing {
      MatchAgain(f.msg, ReceivedFrame(i, crc, f.payload, f.flags).msg, ContentOf(s));
    }
  }

  lemma Regrouped(a: seq<byte>, b: seq<byte>, c: seq<byte>)
    ensures a + (b + c) == a + b + c && (c == [] ==> a + b + c == a + b)
  {
  }

  lemma MatchParts(m: OutMsg, i: InMsg, content: seq<byte>)
    requires Match(m, i, content)
    ensures Partial(i) && i.number == m.number && i.rawBytes == m.bytesSent && content == Assembled(i) + Content(m)
    ensures i.started ==> i.typ == m.typ && i.urgent == m.urgent && i.noReply == m.noReply
  {
  }

  lemma MatchAgain(m: OutMsg, i: InMsg, content: seq<byte>)
    requires Partial(i) && i.number == m.number && i.rawBytes == m.bytesSent && content == Assembled(i) + Content(m)
    requires i.started && m.bytesSent > 0 && i.typ == m.typ && i.urgent == m.urgent && i.noReply == m.noReply
    ensures Match(m, i, content)
  {
  }

  lemma ContentWellFormed(s: Sent)
    requires ValidSent(s)
    ensures WellFormed(ContentOf(s), s.props, s.body)
  {
  }

  /** The receiver finds the message of a frame and reads the frame into it. */
  lemma FrameReceived(k: Key, m: OutMsg, s: Sent, r: Receiver, room: nat)
    requires MaySend(k, m, s, r) && ReceiverInv(r) && room >= 2048
    ensures var f, i := NextFrame(m, r.crc, room), Before(m, r);
      var frame := Frame(m.number, f.flags, f.payload);
      && |f.payload| >= CHECKSUM_SIZE && f.flags == m.Flags().(moreComing := f.flags.moreComing)
      && FindPending(r, frame).Some? && FindPending(r, frame).value.0 == i
      && var o := ReceivedFrame(i, r.crc, f.payload, f.flags);
         && o.FrameOk?
         && Receive(r, frame)
            == Accepted(StoreMessage(FindPending(r, frame).value.1, frame, o.msg).(crc := o.crc),
                        MakeAck(i, o.ack), o.state)
  {
    hide NextFrame, ReceivedFrame, Match, PutUVarInt, StoreMessage, MakeAck;
    BeforeMatches(k, m, s, r);
    FrameRead(m, Before(m, r), s, r.crc, room);
    NewInMsgFlags(m.number, NextFrame(m, r.crc, room).flags, m.Flags());
  }

  /** The receiver accepts the frame and then mirrors what is left of the message. */
  lemma FrameMirrored(k: Key, m: OutMsg, s: Sent, r: Receiver, room: nat)
    requires MaySend(k, m, s, r) && ReceiverInv(r) && room >= 2048
    ensures var f := NextFrame(m, r.crc, room);
      var frame := Frame(m.number, f.flags, f.payload);
      var o := Receive(r, frame);
      && o.Accepted? && o.recv.crc == f.crc
      && o.recv.numRequests == (if !k.reply && m.bytesSent == 0 then m.number else r.numRequests)
      && (forall n :: Untouched(r, o, frame, n))
      && (if f.flags.moreComing then
            o.recv.delivered == r.delivered && InTransit(k, f.msg, s, o.recv)
          else
            && DeliveredAs(k, s, o.recv)
            && o.recv.delivered == r.delivered[k := o.recv.delivered[k]])
  {
    hide NextFrame, ReceivedFrame, Receive, Match, PutUVarInt, NewInMsg;
    BeforeMatches(k, m, s, r);
    FrameRead(m, Before(m, r), s, r.crc, room);
    FrameReceived(k, m, s, r, room);
    var f := NextFrame(m, r.crc, room);
    ReceiveKeeps(r, Frame(m.number, f.flags, f.payload));
  }

  lemma NewInMsgFlags(number: MessageNo, a: FrameFlags, b: FrameFlags)
    requires a == b.(moreComing := a.moreComing)
    ensures NewInMsg(number, a) == NewInMsg(number, b)
  {
  }

  // ---------------------------------------------------------------- the steps of the sending end

  /** m is about to be queued for the first time, for s. */
  predicate MayQueue(x: Peer, m: OutMsg, s: Sent, r: Receiver) {
    && Fresh(m, s) && !m.IsAck() && !m.typ.UnknownType?
    && (m.number == 0 ==> m.typ.RequestType? && x.send.lastMessageNo + 1 < UINT64_LIMIT)
    && (m.number != 0 ==>
          && m.typ.IsResponse() && KeyOf(m) !in x.sent
          && m.number in r.pendingResponses && r.pendingResponses[m.number] == AwaitedReply(m.number))
  }

  predicate Queued(x: Peer, m: OutMsg, s: Sent, x': Peer)
    requires m.number == 0 ==> x.send.lastMessageNo + 1 < UINT64_LIMIT
  {
    var m' := Number(x.send, m);
    && x'.send == Enqueue(x.send, m) && x'.failed == x.failed
    && x'.sent == x.sent[KeyOf(m') := s] && x'.live == x.live[KeyOf(m') := m']
  }

  lemma QueueKeepsQueues(x: Peer, m: OutMsg, x': Peer, s: Sent, r: Receiver)
    requires SenderInv(x) && Mirrors(x, r) && MayQueue(x, m, s, r) && Queued(x, m, s, x')
    ensures KeyOf(Number(x.send, m)) !in x.sent && SenderInv(x')
  {
    hide Fresh, Content, InTransit, DeliveredAs, Requeue, FlowInvariant, Represents, NewRequests, IsAckOut, InOrder;
    var m' := Number(x.send, m);
    FreshContent(m, m', s);
    EnqueueKeepsFlow(x.send, m);
    EnqueueLive(x.send, m);
    RequeueMembers(x.send.outbox, m');
    assert KeyOf(m') !in x.sent;
    RepresentsAdd(Live(x.send), x.live, m');
    NotAckOut(m');
  }

  /** A message that is queued for the first time. */
  lemma QueueKeepsSender(x: Peer, m: OutMsg, x': Peer, s: Sent, r: Receiver)
    requires SenderInv(x) && Mirrors(x, r) && ReceiverInv(r)
    requires MayQueue(x, m, s, r) && Queued(x, m, s, x')
    ensures SenderInv(x') && Mirrors(x', r)
  {
    hide Fresh, Mirrors, SenderInv, ReceiverInv, InTransit, AwaitedReply, InOrder, NewRequests, Requeue;
    QueueKeepsQueues(x, m, x', s, r);
    var m' := Number(x.send, m);
    MirrorsOrder(x, r);
    QueueKeepsOrder(x.send, m, s, r.numRequests);
    QueueInTransit(x, m, m', s, r);
    MirrorsMore(x, x', m', s, r);
  }

  lemma MirrorsOrder(x: Peer, r: Receiver)
    requires Mirrors(x, r)
    ensures r.crc == x.send.crc
    ensures InOrder(NewRequests(x.send.outbox), r.numRequests, x.send.lastMessageNo)
  {
  }

  lemma MirrorsMore(x: Peer, x': Peer, m: OutMsg, s: Sent, r: Receiver)
    requires Mirrors(x, r) && KeyOf(m) !in x.sent && InTransit(KeyOf(m), m, s, r)
    requires InOrder(NewRequests(x'.send.outbox), r.numRequests, x'.send.lastMessageNo)
    requires x'.send.crc == x.send.crc && x'.sent == x.sent[KeyOf(m) := s] && x'.live == x.live[KeyOf(m) := m]
    ensures Mirrors(x', r)
  {
    hide InTransit, DeliveredAs, InOrder, NewRequests;
  }

  lemma QueueKeepsOrder(s: Sender, m: OutMsg, sent: Sent, begun: nat)
    requires InOrder(NewRequests(s.outbox), begun, s.lastMessageNo) && Fresh(m, sent)
    requires if m.number == 0 then m.typ.RequestType? && s.lastMessageNo + 1 < UINT64_LIMIT else !m.typ.RequestType?
    ensures var s' := Enqueue(s, m); InOrder(NewRequests(s'.outbox), begun, s'.lastMessageNo)
  {
    hide Content, Requeue, NewRequests;
    BeginOrder(s.outbox, Number(s, m));
  }

  lemma QueueInTransit(x: Peer, m: OutMsg, m': OutMsg, s: Sent, r: Receiver)
    requires Mirrors(x, r) && ReceiverInv(r) && MayQueue(x, m, s, r) && m' == Number(x.send, m)
    requires KeyOf(m') !in x.sent
    ensures InTransit(KeyOf(m'), m', s, r)
  {
    hide Content, Requeue, NewRequests, DeliveredAs, Match;
    FreshContent(m, m', s);
    if m'.typ.IsResponse() {
      AwaitedMatches(m', s);
    }
  }

  lemma NotAckOut(m: OutMsg)
    requires !m.IsAck()
    ensures IsAckOut(m)
  {
  }

  lemma FreshContent(m: OutMsg, m': OutMsg, s: Sent)
    requires Fresh(m, s) && m' == m.(number := m'.number)
    ensures Fresh(m', s) && Content(m') == ContentOf(s) && m.bytesSent == m.unacked == 0 && ValidSent(s)
    ensures m.typ == s.typ && m.urgent == s.urgent && m.noReply == s.noReply
  {
  }

  lemma AwaitedMatches(m: OutMsg, s: Sent)
    requires Fresh(m, s)
    ensures Match(m, AwaitedReply(m.number), ContentOf(s))
  {
    assert [] + Content(m) == Content(m);
  }

  /** An acknowledgement that is queued. */
  lemma QueueAckKeepsSender(x: Peer, a: Ack, x': Peer, r: Receiver)
    requires SenderInv(x) && Mirrors(x, r) && a.number != 0
    requires x' == x.(send := Enqueue(x.send, AckOut(a)), acks := x'.acks)
    ensures SenderInv(x') && Mirrors(x', r)
  {
    hide Content, InTransit, DeliveredAs, PutUVarInt, Requeue, FlowInvariant, Represents, NewRequests, IsAckOut;
    var m := AckOut(a);
    AckOutOk(a);
    EnqueueKeepsFlow(x.send, m);
    EnqueueLive(x.send, m);
    RequeueMembers(x.send.outbox, m);
    BeginOrder(x.send.outbox, m);
    RepresentsAck(Live(x.send), x.live, m);
  }

  lemma AckOutOk(a: Ack)
    ensures IsAckOut(AckOut(a))
  {
    VarIntRoundTrip(a.count, []);
    assert PutUVarInt(a.count) + [] == PutUVarInt(a.count);
  }

  lemma AcceptAckContent(m: OutMsg, count: nat)
    ensures var m' := AcceptAck(m, count);
      && m' == m.(unacked := m'.unacked) && Content(m') == Content(m)
      && (IsAckOut(m) && m.IsAck() ==> m' == m)
  {
  }

  lemma AckTargetMembers(s: Sender, number: nat, onReply: bool, payload: seq<byte>)
    ensures var t := AckTarget(s, number, onReply);
      var count := ReadUVarInt(payload, UINT32_LIMIT);
      && (t.Some? ==> t.value in s.outbox || t.value in s.icebox)
      && forall x :: x in ReceivedAck(s, number, onReply, payload).outbox ==>
           x in s.outbox || (t.Some? && count.Some? && x == AcceptAck(t.value, count.value.0))
  {
    var i := FindMessage(s.outbox, number, onReply);
    var j := FindMessage(s.icebox, number, onReply);
    var count := ReadUVarInt(payload, UINT32_LIMIT);
    if count.Some? && i.None? && j.Some? {
      RequeueMembers(s.outbox, AcceptAck(s.icebox[j.value], count.value.0));
    }
  }

  /** What an incoming ACK changes: the number of unacknowledged bytes of one message. */
  lemma AckEffect(x: Peer, f: Frame)
    requires SenderInv(x) && f.flags.typ.IsAck()
    ensures var x' := DoDeliver(x, f);
      && (forall m :: m in x'.send.outbox ==> IsAckOut(m))
      && Represents(Live(x'.send), x'.live)
      && x'.live.Keys == x.live.Keys
      && forall k :: k in x.live ==>
           x'.live[k] == x.live[k].(unacked := x'.live[k].unacked) && Content(x'.live[k]) == Content(x.live[k])
  {
    hide Content, ReadUVarInt, ReceivedAck, AcceptAck, FlowInvariant, Represents, NewRequests, IsAckOut, AckTarget;
    var onReply := f.flags.typ.AckResponseType?;
    ReceivedAckLive(x.send, f.number, onReply, f.payload);
    AckTargetMembers(x.send, f.number, onReply, f.payload);
    var t := AckTarget(x.send, f.number, onReply);
    var count := ReadUVarInt(f.payload, UINT32_LIMIT);
    if t.Some? && count.Some? {
      var m, m' := t.value, AcceptAck(t.value, count.value.0);
      AcceptAckContent(m, count.value.0);
      if m.IsAck() {
        IceboxNoAck(x.send, m);
        assert m' == m;
        assert Live(x.send) - multiset{m} + multiset{m} == Live(x.send);
      } else {
        NotAckOut(m');
        RepresentsReplace(Live(x.send), x.live, m, m');
        RepresentsKey(Live(x.send), x.live, m);
      }
    }
  }

  /** An incoming ACK. */
  lemma AckKeepsSender(x: Peer, f: Frame, r: Receiver)
    requires SenderInv(x) && Mirrors(x, r) && f.flags.typ.IsAck()
    ensures var x' := DoDeliver(x, f); SenderInv(x') && Mirrors(x', r)
  {
    hide Content, ReadUVarInt, ReceivedAck, AcceptAck, FlowInvariant, Represents, NewRequests, IsAckOut, AckTarget,
         InTransit, LiveAfterAck;
    var onReply := f.flags.typ.AckResponseType?;
    AckEffect(x, f);
    ReceivedAckKeepsFlow(x.send, f.number, onReply, f.payload);
    ReceivedAckBegins(x.send, f.number, onReply, f.payload);
    var x' := DoDeliver(x, f);
    forall k | k in x'.live ensures InTransit(k, x'.live[k], x.sent[k], r) {
      InTransitUnacked(k, x.live[k], x'.live[k], x.sent[k], r);
    }
  }

  lemma IceboxNoAck(s: Sender, m: OutMsg)
    requires FlowInvariant(s) && m.IsAck()
    ensures m !in s.icebox
  {
  }

  lemma RepresentsKey(l: multiset<OutMsg>, live: map<Key, OutMsg>, m: OutMsg)
    requires Represents(l, live) && m in l && !m.IsAck()
    ensures KeyOf(m) in live && live[KeyOf(m)] == m
  {
  }

  lemma InTransitUnacked(k: Key, m: OutMsg, m': OutMsg, s: Sent, r: Receiver)
    requires InTransit(k, m, s, r) && m' == m.(unacked := m'.unacked) && Content(m') == Content(m)
    ensures InTransit(k, m', s, r)
  {
  }

  /** The order in which requests begin, across a frame of the first message of the outbox. */
  lemma WriteFrameOrder(s: Sender, begun: nat)
    requires s.outbox != [] && InOrder(NewRequests(s.outbox), begun, s.lastMessageNo)
    requires (forall m :: m in s.icebox ==> m.bytesSent > 0) && (forall m :: m in s.outbox ==> IsAckOut(m))
    ensures var m, s' := s.outbox[0], WriteFrame(s).sender;
      && (IsNewRequest(m) ==> m.number == begun + 1)
      && InOrder(NewRequests(s'.outbox), if IsNewRequest(m) then m.number else begun, s'.lastMessageNo)
      && (forall m :: m in s'.icebox ==> m.bytesSent > 0)
      && (forall m :: m in s'.outbox ==> IsAckOut(m))
  {
    hide NextFrame, Requeue, IsAckOut, NewRequests, InOrder, FrameRoom, Crc32;
    var m, rest := s.outbox[0], s.outbox[1..];
    var sent := NextFrame(m, s.crc, FrameRoom(m, rest));
    FirstBegins(s.outbox, begun, s.lastMessageNo);
    assert forall x :: x in rest ==> x in s.outbox;
    if m.IsAck() {
      AckFrame(m, s.crc, FrameRoom(m, rest));
    } else {
      MessageKept(m, s.crc, FrameRoom(m, rest));
      NotAckOut(sent.msg);
      RequeueMembers(rest, sent.msg);
      BeginOrder(rest, sent.msg);
      assert NewRequests(rest) + [] == NewRequests(rest);
    }
  }

  /** The first message of the outbox, and those behind it. */
  lemma FirstBegins(q: seq<OutMsg>, begun: nat, last: nat)
    requires q != [] && InOrder(NewRequests(q), begun, last)
    ensures IsNewRequest(q[0]) ==> q[0].number == begun + 1
    ensures InOrder(NewRequests(q[1..]), if IsNewRequest(q[0]) then q[0].number else begun, last)
  {
    if IsNewRequest(q[0]) {
      InOrderTail(NewRequests(q), begun, last);
      assert NewRequests(q[1..]) == NewRequests(q)[1..];
    } else {
      assert NewRequests(q[1..]) == NewRequests(q);
    }
  }

  lemma InOrderTail(waiting: seq<nat>, begun: nat, last: nat)
    requires waiting != [] && InOrder(waiting, begun, last)
    ensures waiting[0] == begun + 1 && InOrder(waiting[1..], begun + 1, last)
  {
  }

  lemma MessageKept(m: OutMsg, crc: uint32, room: nat)
    requires !m.IsAck() && room > CHECKSUM_SIZE
    ensures var m' := NextFrame(m, crc, room).msg;
      && m'.typ == m.typ && m'.number == m.number && m'.bytesSent > m.bytesSent
      && KeyOf(m') == KeyOf(m) && !m'.IsAck()
  {
    NextFrameProperties(m, crc, room);
  }

  lemma ReceiveAckFrame(r: Receiver, f: Frame)
    requires f.flags.typ.IsAck()
    ensures Receive(r, f) == Accepted(r, None, Other)
  {
  }

  /** The other messages are where they were. */
  lemma OthersKept(k: Key, m: OutMsg, s: Sent, r: Receiver, r': Receiver)
    requires InTransit(k, m, s, r)
    requires k in r'.delivered <==> k in r.delivered
    requires k.reply && k.number in r.pendingResponses ==>
               k.number in r'.pendingResponses && r'.pendingResponses[k.number] == r.pendingResponses[k.number]
    requires !k.reply ==>
      && (k.number in r.pendingRequests ==>
            k.number in r'.pendingRequests && r'.pendingRequests[k.number] == r.pendingRequests[k.number])
      && (r'.numRequests == r.numRequests
          || (r'.numRequests == r.numRequests + 1 && k.number != r'.numRequests))
    ensures InTransit(k, m, s, r')
  {
  }

  lemma StillDelivered(k: Key, s: Sent, r: Receiver, r': Receiver)
    requires DeliveredAs(k, s, r)
    requires k in r.delivered ==> k in r'.delivered && r'.delivered[k] == r.delivered[k]
    ensures DeliveredAs(k, s, r')
  {
  }

  lemma KnownType(l: multiset<OutMsg>, live: map<Key, OutMsg>, k: Key)
    requires Represents(l, live) && k in live
    ensures KeyOf(live[k]) == k && !live[k].IsAck() && !live[k].typ.UnknownType?
  {
  }

  lemma WriteKeepsQueues(x: Peer, x': Peer, r: Receiver)
    requires SenderInv(x) && Mirrors(x, r) && x.send.outbox != []
    requires x' == x.(send := WriteFrame(x.send).sender, recv := x'.recv, live := LiveAfterWrite(x))
    ensures SenderInv(x')
  {
    hide Content, InTransit, DeliveredAs, Requeue, FlowInvariant, Represents, NewRequests, IsAckOut, NextFrame,
         InOrder, PutUVarInt;
    var s := x.send;
    var m, rest := s.outbox[0], s.outbox[1..];
    var room := FrameRoom(m, rest);
    var sent := NextFrame(m, s.crc, room);
    WriteFrameKeepsFlow(s);
    WriteFrameLive(s);
    WriteFrameOrder(s, r.numRequests);
    assert Live(s) - multiset{m} + multiset{} == Live(s) - multiset{m};
    if m.IsAck() {
      AckFrame(m, s.crc, room);
      RepresentsAck(Live(s), x.live, m);
    } else {
      MessageKept(m, s.crc, room);
      RepresentsReplace(Live(s), x.live, m, sent.msg);
    }
  }

  /** The first message of the outbox may send a frame. */
  lemma MayWrite(x: Peer, r: Receiver)
    requires SenderInv(x) && Mirrors(x, r) && x.send.outbox != [] && !x.send.outbox[0].IsAck()
    ensures var m := x.send.outbox[0];
      var k := KeyOf(m);
      k in x.live && x.live[k] == m && k in x.sent && MaySend(k, m, x.sent[k], r)
  {
    hide Content, InTransit, DeliveredAs, FlowInvariant, Represents, NewRequests, IsAckOut, NextFrame, InOrder, Requeue;
    var m := x.send.outbox[0];
    assert m in Live(x.send);
    RepresentsKey(Live(x.send), x.live, m);
    KnownType(Live(x.send), x.live, KeyOf(m));
    WriteFrameOrder(x.send, r.numRequests);
  }

  lemma MirrorsAfter(x: Peer, x': Peer, r: Receiver, r': Receiver, k: Key, more: bool, m: OutMsg)
    requires Mirrors(x, r) && k in x.live && x'.sent == x.sent
    requires x'.live == if more then x.live[k := m] else x.live - {k}
    requires r'.crc == x'.send.crc
    requires InOrder(NewRequests(x'.send.outbox), r'.numRequests, x'.send.lastMessageNo)
    requires more ==> InTransit(k, m, x.sent[k], r')
    requires !more ==> DeliveredAs(k, x.sent[k], r')
    requires forall k' :: k' in x.live && k' != k ==> InTransit(k', x.live[k'], x.sent[k'], r')
    requires forall k' :: k' in x.sent && k' != k && k' !in x.live ==> DeliveredAs(k', x.sent[k'], r')
    requires forall k' :: k' in r'.delivered ==> k' in r.delivered || k' == k
    ensures Mirrors(x', r')
  {
    hide InTransit, DeliveredAs, InOrder, NewRequests;
  }

  lemma WriteMessageMirrors(x: Peer, x': Peer, r: Receiver)
    requires SenderInv(x) && Mirrors(x, r) && ReceiverInv(r) && x.send.outbox != [] && !x.send.outbox[0].IsAck()
    requires x' == x.(send := WriteFrame(x.send).sender, recv := x'.recv, live := LiveAfterWrite(x))
    ensures var o := Receive(r, WriteFrame(x.send).frame); o.Accepted? && Mirrors(x', o.recv)
  {
    hide Content, InTransit, DeliveredAs, Requeue, FlowInvariant, Represents, NewRequests, IsAckOut, NextFrame,
         Receive, InOrder, PutUVarInt, MaySend, Untouched, Mirrors;
    MirrorsOrder(x, r);
    var s := x.send;
    var m := s.outbox[0];
    var room := FrameRoom(m, s.outbox[1..]);
    var frame := WriteFrame(s).frame;
    var k := KeyOf(m);
    WriteFrameLive(s);
    WriteFrameOrder(s, r.numRequests);
    MayWrite(x, r);
    FrameMirrored(k, m, x.sent[k], r, room);
    NextFrameFlags(m, s.crc, room);
    OthersInTransit(x, k, r, Receive(r, frame), frame);
    var sent := NextFrame(m, s.crc, room);
    MirrorsAfter(x, x', r, Receive(r, frame).recv, k, sent.flags.moreComing, sent.msg);
  }

  lemma OthersInTransit(x: Peer, k: Key, r: Receiver, o: Outcome, f: Frame)
    requires Mirrors(x, r) && o.Accepted? && k == Key(f.flags.typ.IsResponse(), f.number)
    requires forall n :: Untouched(r, o, f, n)
    requires forall k' :: k' != k ==>
      && (k' in o.recv.delivered <==> k' in r.delivered)
      && (k' in r.delivered ==> o.recv.delivered[k'] == r.delivered[k'])
    requires o.recv.numRequests == r.numRequests
             || (!k.reply && o.recv.numRequests == r.numRequests + 1 == k.number)
    ensures forall k' :: k' in x.live && k' != k ==> InTransit(k', x.live[k'], x.sent[k'], o.recv)
    ensures forall k' :: k' in x.sent && k' != k && k' !in x.live ==> DeliveredAs(k', x.sent[k'], o.recv)
  {
    hide InTransit, DeliveredAs, NewRequests, InOrder;
    forall k' | k' in x.live && k' != k
      ensures InTransit(k', x.live[k'], x.sent[k'], o.recv)
    {
      assert Untouched(r, o, f, k'.number);
      OthersKept(k', x.live[k'], x.sent[k'], r, o.recv);
    }
    forall k' | k' in x.sent && k' != k && k' !in x.live
      ensures DeliveredAs(k', x.sent[k'], o.recv)
    {
      StillDelivered(k', x.sent[k'], r, o.recv);
    }
  }

  /** A frame that is sent: the receiver accepts it, and then mirrors the sender again. */
  lemma WriteKeepsSender(x: Peer, x': Peer, r: Receiver)
    requires SenderInv(x) && Mirrors(x, r) && ReceiverInv(r) && x.send.outbox != []
    requires x' == x.(send := WriteFrame(x.send).sender, recv := x'.recv, live := LiveAfterWrite(x))
    ensures var o := Receive(r, WriteFrame(x.send).frame);
      o.Accepted? && SenderInv(x') && Mirrors(x', o.recv)
  {
    hide Content, InTransit, DeliveredAs, Requeue, FlowInvariant, Represents, NewRequests, IsAckOut, NextFrame,
         Receive, InOrder, PutUVarInt;
    WriteKeepsQueues(x, x', r);
    var m := x.send.outbox[0];
    if m.IsAck() {
      WriteFrameLive(x.send);
      WriteFrameOrder(x.send, r.numRequests);
      AckFrame(m, x.send.crc, FrameRoom(m, x.send.outbox[1..]));
      ReceiveAckFrame(r, WriteFrame(x.send).frame);
    } else {
      WriteMessageMirrors(x, x', r);
    }
  }
}
