/** A run that ends with a reply that is stuck. Both peers send a request, both numbered 1, and both
    answer. The reply of b takes 65528 bytes, so that a has an ACK of it to send, number 1; the reply of
    a is frozen after 131056 bytes. While the ACK waits in the outbox of a, the two ACKs of the reply
    come in, and both are taken to be about the waiting ACK. It waits because the socket of a is full after
    the eighth frame: an object takes this run if that is what its socket answers. */
module StuckReply {
  import opened Bytes
  import opened Messages
  import opened MessagesOut
  import opened MessagesIn
  import opened Codecs
  import opened Outbox
  import opened Senders
  import opened Receivers
  import opened Network
  import opened Invariants
  import opened Delivery
  import opened Flow
  import opened Safety
  import opened Theorems
  import opened ReplyFlow
  import opened ReplyTheorems

  /** The payload of the biggest frame of message 1, and its data. */
  const FULL_FRAME := BIG_FRAME_SIZE - 2
  const FULL_DATA := FULL_FRAME - CHECKSUM_SIZE

  const REQUEST: Key := Key(false, 1)
  const REPLY: Key := Key(true, 1)

  // ---------------------------------------------------------------- steps

  function StepA(n: Net, step: Step): Net
    requires Enabled(n.a, n.ba, step)
  {
    var d := Do(n.a, n.ab, n.ba, step); Net(d.0, n.b, d.1, d.2)
  }

  lemma ReachStepA(n: Net, step: Step)
    requires Reachable(n) && Enabled(n.a, n.ba, step)
    ensures Reachable(StepA(n, step))
  {
    hide Do, Enabled, Reachable;
    assert StepOfA(n, StepA(n, step), step);
    ReachableNext(n, StepA(n, step));
  }

  // ---------------------------------------------------------------- one frame

  /** A message without a data source. */
  predicate Plain(m: OutMsg) {
    !m.IsAck() && m.source.None? && m.unsentBuffer == [] && m.unsentPayload != []
  }

  /** m after a frame that carries size bytes. */
  function Shorter(m: OutMsg, size: nat): OutMsg
    requires size <= |m.unsentPayload|
  {
    m.(unsentPayload := m.unsentPayload[size..], bytesSent := m.bytesSent + size + CHECKSUM_SIZE,
       unacked := m.unacked + size + CHECKSUM_SIZE)
  }

  lemma PlainFrame(m: OutMsg, crc: uint32, room: nat)
    requires Plain(m) && room > CHECKSUM_SIZE
    ensures var f := NextFrame(m, crc, room);
      var size := Min(|m.unsentPayload|, room - CHECKSUM_SIZE);
      && f.msg == Shorter(m, size) && |f.payload| == size + CHECKSUM_SIZE
      && (f.flags.moreComing <==> |m.unsentPayload| > size)
  {
    hide Crc32, Enc32;
    var room' := room - CHECKSUM_SIZE;
    var size := Min(|m.unsentPayload|, room');
    FillStep(m, room');
    if room' - size >= 1024 {
      FillStep(Advance(m, size), room' - size);
    }
  }

  lemma RoomOfOne(m: OutMsg)
    requires m.number == 1
    ensures FrameRoom(m, []) == FULL_FRAME
  {
  }

  /** a has one message to send, message 1, and no more. */
  ghost predicate OneToSend(n: Net, m: OutMsg) {
    Reachable(n) && n.a.send.outbox == [m] && Plain(m) && m.number == 1 && m.bytesSent + BIG_FRAME_SIZE < UINT32_LIMIT
  }

  /** The size of the data that its next frame carries, and what is left of it then. */
  function NextSize(m: OutMsg): nat {
    Min(|m.unsentPayload|, FULL_DATA)
  }

  function Left(m: OutMsg): OutMsg {
    Shorter(m, NextSize(m))
  }

  predicate HasMoreFrames(m: OutMsg) {
    |m.unsentPayload| > NextSize(m)
  }

  /** What a's frame does to a. */
  lemma FrameLeaves(n: Net, m: OutMsg)
    requires OneToSend(n, m)
    ensures Enabled(n.a, n.ba, Write)
    ensures var n', f := StepA(n, Write), WriteFrame(n.a.send).frame;
      && n'.b == n.b && n'.ba == n.ba && n'.ab == n.ab + [f] && !f.flags.typ.IsAck()
      && n'.a.recv == (if !HasMoreFrames(m) && m.ExpectsReply() then Await(n.a.recv, 1) else n.a.recv)
      && n'.a == n.a.(send := n'.a.send, recv := n'.a.recv, live := n'.a.live)
      && n'.a.send.lastMessageNo == n.a.send.lastMessageNo
      && n'.a.send.outbox == (if HasMoreFrames(m) && !Left(m).NeedsAck() then [Left(m)] else [])
      && n'.a.send.icebox == n.a.send.icebox + (if HasMoreFrames(m) && Left(m).NeedsAck() then [Left(m)] else [])
      && n'.a.live == (if HasMoreFrames(m) then n.a.live[KeyOf(m) := Left(m)] else n.a.live - {KeyOf(m)})
  {
    hide Reachable, NextFrame, FrameRoom, PutUVarInt;
    NothingRefused(n);
    RoomOfOne(m);
    PlainFrame(m, n.a.send.crc, FULL_FRAME);
    NextFrameFlags(m, n.a.send.crc, FULL_FRAME);
    assert n.a.send.outbox[1..] == [];
    assert Requeue([], Left(m)) == [Left(m)];
  }

  /** What it will do to b: i is the message it will be read into. */
  lemma FrameArrives(n: Net, m: OutMsg) returns (i: InMsg)
    requires OneToSend(n, m)
    ensures i.number == 1 && i.typ.IsResponse() == KeyOf(m).reply && i.rawBytes == m.bytesSent
    ensures m.bytesSent == 0 ==> i.unacked == 0
    ensures Arrived(n).Drained?
    ensures KeyOf(m).reply ==>
              1 in Arrived(n).recv.pendingResponses && i == Arrived(n).recv.pendingResponses[1]
    ensures var d, d' := Arrived(n), Drain(n.b.recv, n.ab + [WriteFrame(n.a.send).frame]);
      var acked := Acknowledge(i, NextSize(m) + CHECKSUM_SIZE);
      && d'.Drained? && d'.acks == d.acks + AckList(MakeAck(i, acked.1))
      && (KeyOf(m).reply && HasMoreFrames(m) ==>
            1 in d'.recv.pendingResponses && d'.recv.pendingResponses[1].unacked == acked.0.unacked)
  {
    hide Reachable, NextFrame, Receive, FrameRoom, PutUVarInt, SenderInv, FlowControl, Replies, Acknowledge, InTransit,
         DeliveredAs, ReceiverInv, Before;
    ReachableInv(n);
    var r := Arrived(n).recv;
    DrainKeeps(n.b.recv, n.ab);
    MirrorsOrder(n.a, r);
    MayWrite(n.a, r);
    RoomOfOne(m);
    assert n.a.send.outbox[1..] == [];
    PlainFrame(m, r.crc, FULL_FRAME);
    FrameAcked(KeyOf(m), m, n.a.sent[KeyOf(m)], r, FULL_FRAME);
    i := BeforeFrame(KeyOf(m), m, n.a.sent[KeyOf(m)], r);
    WriteFrameLive(n.a.send);
    DrainAppend(n.b.recv, n.ab, WriteFrame(n.a.send).frame);
  }

  lemma BeforeFrame(k: Key, m: OutMsg, s: Sent, r: Receiver) returns (i: InMsg)
    requires MaySend(k, m, s, r)
    ensures i == Before(m, r)
    ensures k.reply ==> k.number in r.pendingResponses && i == r.pendingResponses[k.number]
  {
    i := Before(m, r);
  }

  // ---------------------------------------------------------------- frames of a reply

  /** The bytes of the reply that b will have counted since the last ACK it asked for. */
  ghost function Counted(n: Net): int {
    if Arrived(n).Drained? && 1 in Arrived(n).recv.pendingResponses then
      Arrived(n).recv.pendingResponses[1].unacked
    else 0
  }

  predicate NoAckFrame(channel: seq<Frame>) {
    forall i :: 0 <= i < |channel| ==> !channel[i].flags.typ.IsAck()
  }

  /** What stays as it is while a writes frames of a reply. */
  ghost predicate OnlySends(n: Net, n': Net) {
    && n'.b == n.b && n'.ba == n.ba && (NoAckFrame(n.ab) ==> NoAckFrame(n'.ab))
    && n'.a == n.a.(send := n'.a.send, live := n'.a.live)
    && n'.a.send.lastMessageNo == n.a.send.lastMessageNo
  }

  /** One full frame of a reply. */
  lemma WriteOne(n: Net, m: OutMsg) returns (n': Net)
    requires OneToSend(n, m) && KeyOf(m) == REPLY && |m.unsentPayload| >= FULL_DATA
    ensures Reachable(n') && OnlySends(n, n') && Arrived(n).Drained? && Arrived(n').Drained?
    ensures var more := |m.unsentPayload| > FULL_DATA;
      var m' := Shorter(m, FULL_DATA);
      && n'.a.send.outbox == (if more && !m'.NeedsAck() then [m'] else [])
      && n'.a.send.icebox == n.a.send.icebox + (if more && m'.NeedsAck() then [m'] else [])
      && n'.a.live == (if more then n.a.live[REPLY := m'] else n.a.live - {REPLY})
      && (if Counted(n) + FULL_FRAME < INCOMING_ACK_THRESHOLD then
            Arrived(n').acks == Arrived(n).acks && (more ==> Counted(n') == Counted(n) + FULL_FRAME)
          else
            && Arrived(n').acks == Arrived(n).acks + [Ack(true, 1, m.bytesSent + FULL_FRAME)]
            && (more ==> Counted(n') == 0))
  {
    hide Reachable, WriteFrame, Receive, Drain, NextFrame;
    FrameLeaves(n, m);
    var i := FrameArrives(n, m);
    ReachStepA(n, Write);
    n' := StepA(n, Write);
    assert Arrived(n).acks + [] == Arrived(n).acks;
  }

  /** m after k full frames. */
  function After(m: OutMsg, k: nat): OutMsg
    requires k * FULL_DATA <= |m.unsentPayload|
  {
    m.(unsentPayload := m.unsentPayload[k * FULL_DATA..], bytesSent := m.bytesSent + k * FULL_FRAME,
       unacked := m.unacked + k * FULL_FRAME)
  }

  /** k full frames of a reply, too few for b to ask for an ACK. */
  lemma {:induction false} WriteSome(n: Net, m: OutMsg, k: nat) returns (n': Net)
    requires OneToSend(n, m) && KeyOf(m) == REPLY && |m.unsentPayload| > k * FULL_DATA
    requires m.unacked + k * FULL_FRAME < MAX_UNACKED_BYTES && m.bytesSent + k * FULL_FRAME <= 8 * FULL_FRAME
    requires Counted(n) + k * FULL_FRAME < INCOMING_ACK_THRESHOLD
    ensures OneToSend(n', After(m, k)) && OnlySends(n, n') && n'.a.send.icebox == n.a.send.icebox
    ensures Arrived(n).Drained? && Arrived(n').Drained? && Arrived(n').acks == Arrived(n).acks
    ensures Counted(n') == Counted(n) + k * FULL_FRAME
    decreases k
  {
    hide Reachable, Counted, OnlySends, Arrived;
    if k == 0 {
      n' := n;
      NothingRefused(n);
      SendsNothing(n);
    } else {
      var one := WriteOne(n, m);
      n' := WriteSome(one, Shorter(m, FULL_DATA), k - 1);
      assert After(Shorter(m, FULL_DATA), k - 1) == After(m, k);
      OnlySendsOn(n, one, n');
    }
  }

  lemma SendsNothing(n: Net)
    ensures OnlySends(n, n)
  {
  }

  /** Four full frames of a reply: with the fourth, b asks for an ACK. */
  lemma WriteFour(n: Net, m: OutMsg) returns (n': Net)
    requires OneToSend(n, m) && KeyOf(m) == REPLY && |m.unsentPayload| >= 4 * FULL_DATA
    requires m.unacked + 3 * FULL_FRAME < MAX_UNACKED_BYTES && m.bytesSent <= 4 * FULL_FRAME && Counted(n) == 0
    ensures Reachable(n') && OnlySends(n, n') && Arrived(n).Drained? && Arrived(n').Drained?
    ensures Arrived(n').acks == Arrived(n).acks + [Ack(true, 1, m.bytesSent + 4 * FULL_FRAME)]
    ensures var more := |m.unsentPayload| > 4 * FULL_DATA;
      var m' := After(m, 4);
      && n'.a.send.outbox == (if more && !m'.NeedsAck() then [m'] else [])
      && n'.a.send.icebox == n.a.send.icebox + (if more && m'.NeedsAck() then [m'] else [])
      && (more ==> Counted(n') == 0)
  {
    hide Reachable, Counted, OnlySends, Arrived;
    var three := WriteSome(n, m, 3);
    n' := WriteOne(three, After(m, 3));
    assert Shorter(After(m, 3), FULL_DATA) == After(m, 4);
    OnlySendsOn(n, three, n');
  }

  lemma OnlySendsOn(n: Net, n': Net, n'': Net)
    requires OnlySends(n, n') && OnlySends(n', n'')
    ensures OnlySends(n, n'')
  {
    hide NoAckFrame;
  }

  // ---------------------------------------------------------------- handling frames

  /** a handles all the frames on their way to it. */
  lemma {:induction false} HandleAll(n: Net) returns (n': Net)
    requires Reachable(n) && NoAckFrame(n.ba)
    ensures Reachable(n') && Arrived(Mirror(n)).Drained?
    ensures var d := Arrived(Mirror(n));
      n' == Net(n.a.(recv := d.recv, acks := n.a.acks + d.acks), n.b, n.ab, [])
    decreases n.ba
  {
    hide Reachable, Receive;
    NothingRefused(n);
    BothDirections(n);
    NothingRefused(Mirror(n));
    if n.ba == [] {
      n' := n;
      assert n.a.acks + [] == n.a.acks;
    } else {
      DrainHead(n.a.recv, n.ba);
      ReachStepA(n, Deliver);
      var next := StepA(n, Deliver);
      var o := Receive(n.a.recv, n.ba[0]);
      n' := HandleAll(next);
      assert (n.a.acks + AckList(o.ack)) + Arrived(Mirror(next)).acks == n.a.acks + Arrived(Mirror(n)).acks;
    }
  }

  /** a queues and sends the first ACK it has been asked for. */
  lemma SendAck(n: Net) returns (n': Net)
    requires Reachable(n) && n.a.send.outbox == [] && n.a.acks != [] && n.a.acks[0].number == 1
    requires n.a.acks[0].count < UINT32_LIMIT
    ensures Reachable(n')
    ensures n' == Net(n.a.(acks := n.a.acks[1..]), n.b, n.ab + [AckFrameOf(n.a.acks[0])], n.ba)
  {
    hide Reachable, PutUVarInt, NextFrame;
    NothingRefused(n);
    ReachStepA(n, QueueAck);
    var queued := StepA(n, QueueAck);
    var m := AckOut(n.a.acks[0]);
    assert queued.a.send.outbox == [m];
    AckOutOk(n.a.acks[0]);
    AckFrameContents(m, n.a.send.crc, FrameRoom(m, []));
    AckFrame(m, n.a.send.crc, FrameRoom(m, []));
    VarIntMaxLengths(n.a.acks[0].count);
    assert [m][1..] == [];
    ReachStepA(queued, Write);
    n' := StepA(queued, Write);
  }

  /** An ACK of a reply that does not find the reply is handled and gone. */
  lemma LoseAck(n: Net, m: OutMsg, count: nat) returns (n': Net)
    requires Reachable(n) && n.ba != [] && n.ba[0] == AckFrameOf(Ack(true, 1, count)) && count < UINT32_LIMIT
    requires m in n.a.send.icebox && KeyOf(m) == REPLY && n.a.send.outbox != [] && KeyOf(n.a.send.outbox[0]) == REPLY
    ensures Reachable(n') && n' == Net(n.a, n.b, n.ab, n.ba[1..])
  {
    hide Reachable, PutUVarInt, Inv, FirstInLine, DoDeliver, SenderInv, AcceptAck;
    NothingRefused(n);
    ReachableInv(n);
    SendersOk(n);
    FrozenIsMessage(n, m);
    NotFirst(n.a.send, m);
    AckOfReply(n.a, n.ba[0], count);
    ReachStepA(n, Deliver);
    n' := StepA(n, Deliver);
  }

  lemma NotFirst(s: Sender, m: OutMsg)
    requires s.outbox != [] && KeyOf(s.outbox[0]) == KeyOf(m) && m !in s.outbox
    ensures !FirstInLine(s, m)
  {
    assert s.outbox[0] != m;
  }

  // ---------------------------------------------------------------- the run

  ghost predicate NothingToSend(x: Peer) {
    x.send.outbox == [] && x.send.icebox == []
  }

  lemma DrainNothing(r: Receiver)
    ensures Drain(r, []) == Drained(r, [])
  {
  }

  /** a sends its first request: no properties, no body. */
  lemma SendRequest(n: Net) returns (n': Net)
    requires Reachable(n) && NothingToSend(n.a) && n.a.send.lastMessageNo == 0 && n.ab == []
    ensures Reachable(n') && n'.b == n.b && n'.ba == n.ba && NoAckFrame(n'.ab)
    ensures NothingToSend(n'.a) && n'.a.send.lastMessageNo == 1
    ensures n'.a.acks == n.a.acks && n'.a.responded == n.a.responded && n'.a.recv.delivered == n.a.recv.delivered
    ensures REQUEST in n'.a.sent && !n'.a.sent[REQUEST].noReply && REQUEST !in n'.a.live
    ensures Arrived(n').Drained? && Arrived(n').acks == []
  {
    hide Reachable, WriteFrame, Drain, Receive;
    NothingRefused(n);
    var m := OutMsg(0, RequestType, false, false, [0], [], None, 0, 0);
    var s := Sent(RequestType, false, false, [], []);
    assert ContentOf(s) == [0] == Content(m);
    ReachStepA(n, QueueRequest(m, s));
    var queued := StepA(n, QueueRequest(m, s));
    assert queued.a.send.outbox == [m.(number := 1)];
    FrameLeaves(queued, m.(number := 1));
    var i := FrameArrives(queued, m.(number := 1));
    ReachStepA(queued, Write);
    n' := StepA(queued, Write);
    DrainNothing(n.b.recv);
  }

  /** x has received the request of its peer, has sent its own, and has nothing else to do. */
  ghost predicate Asked(x: Peer) {
    && NothingToSend(x) && x.send.lastMessageNo == 1 && x.acks == [] && x.responded == {}
    && REQUEST in x.recv.delivered && !x.recv.delivered[REQUEST].noReply
  }

  /** a sends its request, and b handles it. */
  lemma Request(n: Net) returns (n': Net)
    requires Reachable(n) && NothingToSend(n.a) && n.a.send.lastMessageNo == 0 && n.ab == []
    ensures Reachable(n') && n'.ba == n.ba && n'.ab == []
    ensures NothingToSend(n'.a) && n'.a.send.lastMessageNo == 1
    ensures n'.a.acks == n.a.acks && n'.a.responded == n.a.responded && n'.a.recv.delivered == n.a.recv.delivered
    ensures n'.b.send == n.b.send && n'.b.acks == n.b.acks && n'.b.responded == n.b.responded
    ensures REQUEST in n'.b.recv.delivered && !n'.b.recv.delivered[REQUEST].noReply
  {
    hide Reachable, Inv, Drain;
    var sent := SendRequest(n);
    BothDirections(sent);
    var handled := HandleAll(Mirror(sent));
    BothDirections(handled);
    n' := Mirror(handled);
    assert n.b.acks + [] == n.b.acks;
    ReachableInv(n');
    SentIsDelivered(n', REQUEST);
  }

  lemma BothAsk() returns (n: Net)
    ensures Reachable(n) && n.ab == [] && n.ba == [] && Asked(n.a) && Asked(n.b)
  {
    hide Reachable;
    var n0 := Start();
    var n1 := Request(n0);
    BothDirections(n1);
    n := Request(Mirror(n1));
  }

  lemma Start() returns (n: Net)
    ensures Reachable(n) && n == NewNet()
  {
    n := NewNet();
    assert IsRun([n]);
  }

  /** a answers with a body of size bytes. */
  lemma StartReply(n: Net, size: nat) returns (n': Net, m: OutMsg)
    requires Reachable(n) && NothingToSend(n.a) && 1 !in n.a.responded
    requires REQUEST in n.a.recv.delivered && !n.a.recv.delivered[REQUEST].noReply
    ensures OneToSend(n', m) && KeyOf(m) == REPLY && |m.unsentPayload| == size + 1
    ensures m.unacked == m.bytesSent == 0 && Counted(n') == 0
    ensures n'.a.send.icebox == [] && n'.a.send.lastMessageNo == n.a.send.lastMessageNo && n'.a.acks == n.a.acks
    ensures n'.b == n.b && n'.ab == n.ab && n'.ba == n.ba && n'.a.recv == n.a.recv
  {
    hide Reachable, Inv, Counted;
    NothingRefused(n);
    var body := seq(size, _ => 0);
    var s := Sent(ResponseType, false, false, [], body);
    m := OutMsg(1, ResponseType, false, false, [0] + body, [], None, 0, 0);
    assert ContentOf(s) == [0] + body == Content(m);
    ReachStepA(n, QueueReply(m, s));
    n' := StepA(n, QueueReply(m, s));
    assert n'.a.send.outbox == [m];
    ReachableInv(n');
    NothingCounted(n', m);
  }

  lemma NothingCounted(n: Net, m: OutMsg)
    requires Inv(n) && REPLY in n.a.live && n.a.live[REPLY] == m && m.bytesSent == 0
    ensures Counted(n) == 0
  {
    hide SenderInv, FlowControl, Replies, Drain, ReceiverInv;
    assert InTransit(REPLY, n.a.live[REPLY], n.a.sent[REPLY], Arrived(n).recv);
  }

  /** b answers a in four frames, and a handles them: it has an ACK to send. */
  lemma FirstReply(n: Net) returns (n': Net)
    requires Reachable(n) && n.ab == [] && n.ba == [] && Asked(n.a) && Asked(n.b)
    ensures Reachable(n') && n'.ab == [] && n'.ba == []
    ensures NothingToSend(n'.a) && n'.a.acks == [Ack(true, 1, 4 * FULL_FRAME)] && n'.a.responded == {}
    ensures REQUEST in n'.a.recv.delivered && !n'.a.recv.delivered[REQUEST].noReply
    ensures NothingToSend(n'.b) && n'.b.acks == []
  {
    hide Reachable, Drain, Receive;
    BothDirections(n);
    var queued, m := StartReply(Mirror(n), 4 * FULL_DATA - 1);
    DrainNothing(n.a.recv);
    var written := WriteFour(queued, m);
    BothDirections(written);
    n' := HandleAll(Mirror(written));
    assert n'.a.acks == [Ack(true, 1, 4 * FULL_FRAME)];
    HandledKeeps(Mirror(written));
  }

  lemma HandledKeeps(n: Net)
    requires Reachable(n) && Arrived(Mirror(n)).Drained?
    ensures forall k :: k in n.a.recv.delivered ==>
              k in Arrived(Mirror(n)).recv.delivered && Arrived(Mirror(n)).recv.delivered[k] == n.a.recv.delivered[k]
  {
    hide Reachable, Drain, SenderInv, FlowControl, Replies, Mirrors;
    ReachableInv(n);
    DrainKeeps(n.a.recv, n.ba);
  }

  /** a answers b; the reply is frozen after eight frames, and b handles them: it has two ACKs to send. */
  lemma SecondReply(n: Net) returns (n': Net, m: OutMsg)
    requires Reachable(n) && n.ab == [] && n.ba == [] && NothingToSend(n.a) && 1 !in n.a.responded
    requires n.a.acks == [Ack(true, 1, 4 * FULL_FRAME)] && NothingToSend(n.b) && n.b.acks == []
    requires REQUEST in n.a.recv.delivered && !n.a.recv.delivered[REQUEST].noReply
    ensures Reachable(n') && n'.ab == [] && n'.ba == []
    ensures n'.a.send.outbox == [AckOut(Ack(true, 1, 4 * FULL_FRAME))] && n'.a.send.icebox == [m] && KeyOf(m) == REPLY
    ensures NothingToSend(n'.b) && n'.b.acks == [Ack(true, 1, 4 * FULL_FRAME), Ack(true, 1, 8 * FULL_FRAME)]
  {
    hide Reachable, Drain, Receive, PutUVarInt;
    var queued, first := StartReply(n, 9 * FULL_DATA);
    DrainNothing(n.b.recv);
    var half := WriteFour(queued, first);
    var frozen := WriteFour(half, After(first, 4));
    m := After(After(first, 4), 4);
    NothingRefused(frozen);
    ReachStepA(frozen, QueueAck);
    var waiting := StepA(frozen, QueueAck);
    assert waiting.a.send.outbox == [AckOut(Ack(true, 1, 4 * FULL_FRAME))];
    BothDirections(waiting);
    var handled := HandleAll(Mirror(waiting));
    BothDirections(handled);
    n' := Mirror(handled);
  }

  /** A reply can be stuck: this run ends with one. */
  lemma ReplyGetsStuck() returns (n: Net, m: OutMsg)
    ensures Reachable(n) && Stuck(n, m)
  {
    hide Reachable, PutUVarInt;
    var n0 := BothAsk();
    var n1 := FirstReply(n0);
    var n2;
    n2, m := SecondReply(n1);
    BothDirections(n2);
    var n3 := SendAck(Mirror(n2));
    var n4 := SendAck(n3);
    BothDirections(n4);
    var n5 := LoseAck(Mirror(n4), m, 4 * FULL_FRAME);
    n := LoseAck(n5, m, 8 * FULL_FRAME);
  }
}
