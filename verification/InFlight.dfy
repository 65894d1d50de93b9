/** Where every byte of a message is: assembled by the receiver, in a frame in flight, or still to be
    sent, after every step of every run. */
module InFlight {
  import opened Bytes
  import opened Messages
  import opened MessagesOut
  import opened MessagesIn
  import opened Codecs
  import opened Outbox
  import opened Senders
  import opened Receivers
  import opened Network
  import opened Invariants
  import opened Delivery
  import opened Answering
  import opened Safety
  import opened Theorems

  predicate CarriesData(f: Frame) {
    !f.flags.typ.IsAck() && !f.flags.typ.UnknownType?
  }

  function KeyOfFrame(f: Frame): Key {
    Key(f.flags.typ.IsResponse(), f.number)
  }

  /** The bytes of a frame that belong to its message. */
  function DataOf(f: Frame): seq<byte> {
    if |f.payload| < CHECKSUM_SIZE then [] else f.payload[..|f.payload| - CHECKSUM_SIZE]
  }

  /** The bytes of message k that are on their way. */
  function Flying(k: Key, channel: seq<Frame>): seq<byte>
    decreases channel
  {
    if channel == [] then []
    else (if CarriesData(channel[0]) && KeyOfFrame(channel[0]) == k then DataOf(channel[0]) else [])
         + Flying(k, channel[1..])
  }

  /** The bytes of message k that r has. */
  function AssembledOf(r: Receiver, k: Key): seq<byte> {
    if k.reply && k.number in r.pendingResponses then Assembled(r.pendingResponses[k.number])
    else if !k.reply && k.number in r.pendingRequests then Assembled(r.pendingRequests[k.number])
    else if k in r.delivered then Assembled(r.delivered[k])
    else []
  }

  /** The receiver adds exactly the bytes of a frame to its message. */
  predicate ExactFrame(r: Receiver, f: Frame) {
    var o := Receive(r, f);
    o.Accepted? && (CarriesData(f) ==>
      AssembledOf(o.recv, KeyOfFrame(f)) == AssembledOf(r, KeyOfFrame(f)) + DataOf(f))
  }

  predicate Exact(r: Receiver, channel: seq<Frame>)
    decreases channel
  {
    channel == [] || (ExactFrame(r, channel[0]) && Exact(Receive(r, channel[0]).recv, channel[1..]))
  }

  // ---------------------------------------------------------------- channels

  lemma {:induction false} ExactAppend(r: Receiver, channel: seq<Frame>, f: Frame)
    requires Exact(r, channel) && Drain(r, channel).Drained? && ExactFrame(Drain(r, channel).recv, f)
    ensures Exact(r, channel + [f])
    decreases channel
  {
    hide Receive, ExactFrame;
    if channel == [] {
      assert [] + [f] == [f] && [f][1..] == [];
    } else {
      DrainHead(r, channel);
      assert (channel + [f])[0] == channel[0] && (channel + [f])[1..] == channel[1..] + [f];
      ExactAppend(Receive(r, channel[0]).recv, channel[1..], f);
    }
  }

  /** A frame adds nothing to the messages it does not belong to. */
  lemma OthersAssembled(r: Receiver, f: Frame, k: Key)
    requires ReceiverInv(r) && Receive(r, f).Accepted? && (CarriesData(f) ==> KeyOfFrame(f) != k)
    ensures AssembledOf(Receive(r, f).recv, k) == AssembledOf(r, k)
  {
    hide ReceivedFrame, Assembled, NewInMsg;
  }

  /** Draining a channel assembles exactly what is in flight. */
  lemma {:induction false} DrainAssembles(r: Receiver, channel: seq<Frame>, k: Key)
    requires ReceiverInv(r) && Drain(r, channel).Drained? && Exact(r, channel)
    ensures AssembledOf(Drain(r, channel).recv, k) == AssembledOf(r, k) + Flying(k, channel)
    decreases channel
  {
    hide Receive, AssembledOf;
    if channel != [] {
      var f := channel[0];
      var r' := Receive(r, f).recv;
      DrainHead(r, channel);
      ReceiveKeeps(r, f);
      DrainAssembles(r', channel[1..], k);
      if !(CarriesData(f) && KeyOfFrame(f) == k) {
        OthersAssembled(r, f, k);
      }
      var here: seq<byte> := if CarriesData(f) && KeyOfFrame(f) == k then DataOf(f) else [];
      assert AssembledOf(r', k) == AssembledOf(r, k) + here;
      assert AssembledOf(r, k) + here + Flying(k, channel[1..]) == AssembledOf(r, k) + (here + Flying(k, channel[1..]));
    }
  }

  lemma AwaitAssembled(r: Receiver, n: MessageNo, k: Key)
    requires Key(true, n) !in r.delivered
    ensures AssembledOf(Await(r, n), k) == AssembledOf(r, k)
  {
  }

  /** Starting to await a reply does not change what the frames in flight add. */
  lemma {:induction false} ExactAwait(r: Receiver, channel: seq<Frame>, n: MessageNo)
    requires ReceiverInv(r) && Drain(r, channel).Drained? && Exact(r, channel)
    requires NoReplyFrame(channel, n) && Key(true, n) !in Drain(r, channel).recv.delivered
    ensures Exact(Await(r, n), channel)
    decreases channel
  {
    hide Receive, AssembledOf, Await;
    if channel != [] {
      var f := channel[0];
      var o := Receive(r, f);
      DrainHead(r, channel);
      ReceiveKeeps(r, f);
      DrainKeeps(o.recv, channel[1..]);
      ReceiveAwait(r, f, n);
      AwaitAssembled(r, n, KeyOfFrame(f));
      AwaitAssembled(o.recv, n, KeyOfFrame(f));
      ExactAwait(o.recv, channel[1..], n);
    }
  }

  // ---------------------------------------------------------------- steps

  /** The frame of a message in transit. */
  lemma FrameExact(k: Key, m: OutMsg, s: Sent, r: Receiver, room: nat)
    requires MaySend(k, m, s, r) && ReceiverInv(r) && room >= 2048
    ensures var f := NextFrame(m, r.crc, room); ExactFrame(r, Frame(m.number, f.flags, f.payload))
  {
    hide NextFrame, ReceivedFrame, Receive, Match, Assembled, NewInMsg;
    BeforeMatches(k, m, s, r);
    FrameRead(m, Before(m, r), s, r.crc, room);
    FrameReceived(k, m, s, r, room);
    BeforeAssembled(k, m, s, r);
  }

  lemma BeforeAssembled(k: Key, m: OutMsg, s: Sent, r: Receiver)
    requires MaySend(k, m, s, r) && ReceiverInv(r)
    ensures AssembledOf(r, k) == Assembled(Before(m, r))
  {
    hide Match, Assembled;
    NothingAssembled(m.number, m.Flags());
  }

  lemma NothingAssembled(number: MessageNo, flags: FrameFlags)
    ensures Assembled(NewInMsg(number, flags)) == []
  {
  }

  lemma WriteExact(x: Peer, r: Receiver)
    requires SenderInv(x) && Mirrors(x, r) && ReceiverInv(r) && x.send.outbox != []
    ensures ExactFrame(r, WriteFrame(x.send).frame)
  {
    hide Content, InTransit, DeliveredAs, Requeue, FlowInvariant, Represents, NewRequests, IsAckOut, NextFrame,
         InOrder, PutUVarInt, AssembledOf, MaySend;
    var s := x.send;
    var m := s.outbox[0];
    var room := FrameRoom(m, s.outbox[1..]);
    WriteFrameLive(s);
    if m.IsAck() {
      AckFrame(m, s.crc, room);
    } else {
      var k := KeyOf(m);
      MayWrite(x, r);
      FrameExact(k, m, x.sent[k], r, room);
    }
  }

  /** What the writing peer receives stays exact although it may begin to await a reply. */
  lemma WriterExact(x: Peer, y: Peer, out: seq<Frame>, back: seq<Frame>)
    requires DirectionInv(x, y, out, back) && DirectionInv(y, x, back, out) && x.send.outbox != []
    requires Exact(x.recv, back)
    ensures Exact(AwaitReply(x.recv, WriteFrame(x.send).awaiting), back)
  {
    hide SenderInv, Mirrors, FlowControl, Asks, Answers, ReceiverInv, Drain, AckFrames, WriteFrame, Await, Receive,
         Exact;
    var awaiting := WriteFrame(x.send).awaiting;
    var dy, dx := Drain(y.recv, out), Drain(x.recv, back);
    DrainKeeps(y.recv, out);
    WriteFacts(x, dy.recv);
    if awaiting.Some? {
      var k := Key(false, awaiting.value);
      NoReplyToLive(y, x, back, dy.recv, k);
      NotRepliedYet(y, x, back, dy.recv, dx.recv, k);
      ExactAwait(x.recv, back, awaiting.value);
    }
  }

  /** No reply to a request that is still being sent is delivered, or on its way. */
  lemma NotRepliedYet(x: Peer, y: Peer, replies: seq<Frame>, xAll: Receiver, yAll: Receiver, k: Key)
    requires Answers(x, replies) && Extends(x.recv, xAll) && Mirrors(y, xAll) && k in y.live && !k.reply
    requires Mirrors(x, yAll)
    ensures Key(true, k.number) !in yAll.delivered
  {
    assert InTransit(k, y.live[k], y.sent[k], xAll);
    assert Key(true, k.number) in yAll.delivered ==> Key(true, k.number) in x.sent;
  }

  ghost predicate ExactNet(n: Net) {
    Exact(n.b.recv, n.ab) && Exact(n.a.recv, n.ba)
  }

  lemma StepKeepsExact(x: Peer, y: Peer, out: seq<Frame>, back: seq<Frame>, step: Step)
    requires DirectionInv(x, y, out, back) && DirectionInv(y, x, back, out)
    requires Exact(y.recv, out) && Exact(x.recv, back) && Enabled(x, back, step)
    ensures var d := Do(x, out, back, step); Exact(y.recv, d.1) && Exact(d.0.recv, d.2)
  {
    hide SenderInv, Mirrors, FlowControl, Replies, ReceiverInv, Drain, AckFrames, WriteFrame, Await, Receive, Fresh,
         ExactFrame;
    match step
    case Write =>
      DrainKeeps(y.recv, out);
      WriteExact(x, Drain(y.recv, out).recv);
      ExactAppend(y.recv, out, WriteFrame(x.send).frame);
      WriterExact(x, y, out, back);
    case Deliver =>
      DrainHead(x.recv, back);
      if back[0].flags.typ.IsAck() {
        ReceiveAckFrame(x.recv, back[0]);
      }
    case _ =>
  }

  lemma {:induction false} RunExact(run: seq<Net>)
    requires IsRun(run)
    ensures ExactNet(run[|run| - 1])
    decreases |run|
  {
    hide Inv, Next, Exact;
    if |run| == 1 {
      NothingInFlight();
    } else {
      var before := run[..|run| - 1];
      assert Next(run[|run| - 2], run[|run| - 1]);
      forall i | 0 <= i < |before| - 1 ensures Next(before[i], before[i + 1]) {
        assert Next(run[i], run[i + 1]);
      }
      RunExact(before);
      RunInv(before);
      NextKeepsExact(run[|run| - 2], run[|run| - 1]);
    }
  }

  lemma NothingInFlight()
    ensures ExactNet(NewNet())
  {
  }

  lemma NextKeepsExact(n: Net, n': Net)
    requires Inv(n) && ExactNet(n) && Next(n, n')
    ensures ExactNet(n')
  {
    hide DirectionInv, Do, Enabled, Exact;
    var step :| StepOfA(n, n', step) || StepOfA(Mirror(n), Mirror(n'), step);
    if StepOfA(n, n', step) {
      StepKeepsExact(n.a, n.b, n.ab, n.ba, step);
    } else {
      StepKeepsExact(n.b, n.a, n.ba, n.ab, step);
    }
  }

  // ---------------------------------------------------------------- every byte

  /** In every state of every run a message is, byte for byte, what the receiver has assembled of it,
      then what its frames in flight carry, then what is still to be sent of it. */
  lemma EveryByte(n: Net, k: Key)
    requires Reachable(n) && k in n.a.sent
    ensures ContentOf(n.a.sent[k])
         == AssembledOf(n.b.recv, k) + Flying(k, n.ab) + if k in n.a.live then Content(n.a.live[k]) else []
  {
    hide SenderInv, FlowControl, Replies, Content, ContentOf, Reachable, Exact, AssembledOf;
    ReachableExact(n);
    ReachableInv(n);
    DrainAssembles(n.b.recv, n.ab, k);
    var r := Arrived(n).recv;
    DrainKeeps(n.b.recv, n.ab);
    if k in n.a.live {
      assert InTransit(k, n.a.live[k], n.a.sent[k], r);
      InTransitAssembled(k, n.a.live[k], n.a.sent[k], r);
    } else {
      assert DeliveredAs(k, n.a.sent[k], r);
      DeliveredAssembled(k, n.a.sent[k], r);
      assert AssembledOf(r, k) + [] == AssembledOf(r, k);
    }
  }

  lemma ReachableExact(n: Net)
    requires Reachable(n)
    ensures ExactNet(n)
  {
    hide ExactNet;
    var run :| IsRun(run) && run[|run| - 1] == n;
    RunExact(run);
  }

  lemma InTransitAssembled(k: Key, m: OutMsg, s: Sent, r: Receiver)
    requires InTransit(k, m, s, r) && ReceiverInv(r)
    ensures ContentOf(s) == AssembledOf(r, k) + Content(m)
  {
    hide Content, Assembled, ContentOf;
    assert [] + Content(m) == Content(m);
  }

  lemma DeliveredAssembled(k: Key, s: Sent, r: Receiver)
    requires DeliveredAs(k, s, r) && ReceiverInv(r)
    ensures AssembledOf(r, k) == ContentOf(s)
  {
    hide Assembled, ContentOf;
  }
}
