/** The sending half of a BLIP connection (src/blip/BLIPConnection.cc, OUTGOING). */
module Senders {
  import opened Bytes
  import opened Messages
  import opened MessagesOut
  import opened Codecs
  import opened Outbox

  const DEFAULT_FRAME_SIZE := 4096
  const BIG_FRAME_SIZE := 16384

  /** The messages waiting to send a frame, those waiting for an ACK, the number of the last request
      queued, and the checksum of everything sent. */
  datatype Sender = Sender(outbox: seq<OutMsg>, icebox: seq<OutMsg>, lastMessageNo: MessageNo, crc: uint32)

  function NewSender(): Sender {
    Sender([], [], 0, Crc32(0, []))
  }

  /** _queueMessage: the number a message is sent under, 0 marking a request not yet numbered. */
  function Number(s: Sender, m: OutMsg): OutMsg
    requires m.number == 0 ==> s.lastMessageNo + 1 < UINT64_LIMIT
  {
    if m.number == 0 then m.(number := s.lastMessageNo + 1) else m
  }

  function Enqueue(s: Sender, m: OutMsg): Sender
    requires m.number == 0 ==> s.lastMessageNo + 1 < UINT64_LIMIT
  {
    s.(outbox := Requeue(s.outbox, Number(s, m)),
       lastMessageNo := if m.number == 0 then s.lastMessageNo + 1 else s.lastMessageNo)
  }

  // ---------------------------------------------------------------- one frame

  /** Urgent messages get big frames; others only if the next message in line is not urgent. */
  function FrameSize(m: OutMsg, rest: seq<OutMsg>): nat {
    if m.urgent || rest == [] || !rest[0].urgent then BIG_FRAME_SIZE else DEFAULT_FRAME_SIZE
  }

  /** What is left of the buffer behind the message number and the flags. */
  function FrameRoom(m: OutMsg, rest: seq<OutMsg>): (room: nat)
    ensures 4085 <= room <= BIG_FRAME_SIZE - 2
  {
    VarIntMaxLengths(m.number);
    FrameSize(m, rest) - |PutUVarInt(m.number)| - 1
  }

  /** awaiting is the number of the request whose reply is now awaited, if there is one. */
  datatype Written = Written(sender: Sender, frame: Frame, awaiting: Option<MessageNo>,
                             progress: Option<ProgressState>)

  /** One iteration of the loop of writeToWebSocket. */
  function WriteFrame(s: Sender): Written
    requires s.outbox != []
  {
    var m, rest := s.outbox[0], s.outbox[1..];
    var sent := NextFrame(m, s.crc, FrameRoom(m, rest));
    var frame := Frame(m.number, sent.flags, sent.payload);
    var s' := s.(crc := sent.crc);
    if sent.flags.moreComing then
      if sent.msg.NeedsAck() then
        Written(s'.(outbox := rest, icebox := s.icebox + [sent.msg]), frame, None, sent.progress)
      else
        Written(s'.(outbox := Requeue(rest, sent.msg)), frame, None, sent.progress)
    else
      Written(s'.(outbox := rest), frame, if m.ExpectsReply() then Some(m.number) else None, sent.progress)
  }

  // ---------------------------------------------------------------- acknowledgements

  /** MessageQueue::findMessage: the first message with this number that is, or is not, a "response". */
  function FindMessage(q: seq<OutMsg>, number: nat, isResponse: bool): (i: Option<nat>)
    ensures i.Some? ==> i.value < |q| && q[i.value].number == number
                        && q[i.value].typ.IsResponse() == isResponse
    ensures i.None? ==> forall k :: 0 <= k < |q| ==>
                          !(q[k].number == number && q[k].typ.IsResponse() == isResponse)
  {
    if q == [] then None
    else if q[0].number == number && q[0].typ.IsResponse() == isResponse then Some(0)
    else match FindMessage(q[1..], number, isResponse)
      case None =>
        assert forall k :: 0 < k < |q| ==> q[k] == q[1..][k - 1];
        None
      case Some(i) => Some(i + 1)
  }

  function RemoveAt<T>(q: seq<T>, i: nat): seq<T>
    requires i < |q|
  {
    q[..i] + q[i + 1..]
  }

  /** The message an incoming ACK is taken to be about: receivedAck looks in the outbox first. */
  function AckTarget(s: Sender, number: nat, onResponse: bool): Option<OutMsg> {
    var i := FindMessage(s.outbox, number, onResponse);
    var j := FindMessage(s.icebox, number, onResponse);
    if i.Some? then Some(s.outbox[i.value])
    else if j.Some? then Some(s.icebox[j.value])
    else None
  }

  /** receivedAck, onResponse being whether an AckResponse came in. */
  function ReceivedAck(s: Sender, number: nat, onResponse: bool, payload: seq<byte>): Sender {
    var i := FindMessage(s.outbox, number, onResponse);
    var j := FindMessage(s.icebox, number, onResponse);
    match ReadUVarInt(payload, UINT32_LIMIT)
    case None => s
    case Some(count) =>
      if i.Some? then
        s.(outbox := s.outbox[i.value := AcceptAck(s.outbox[i.value], count.0)])
      else if j.Some? then
        var m := AcceptAck(s.icebox[j.value], count.0);
        if m.NeedsAck() then s.(icebox := s.icebox[j.value := m])
        else s.(icebox := RemoveAt(s.icebox, j.value), outbox := Requeue(s.outbox, m))
      else s
  }

  /** Every message in the hands of the sender. */
  function Live(s: Sender): multiset<OutMsg> {
    multiset(s.outbox) + multiset(s.icebox)
  }

  /** An ACK changes one message in place; thawing it does not lose or double it. */
  lemma ReceivedAckLive(s: Sender, number: nat, onResponse: bool, payload: seq<byte>)
    ensures var t := AckTarget(s, number, onResponse);
      var count := ReadUVarInt(payload, UINT32_LIMIT);
      var s' := ReceivedAck(s, number, onResponse, payload);
      if t.Some? && count.Some? then
        && t.value in Live(s)
        && Live(s') == Live(s) - multiset{t.value} + multiset{AcceptAck(t.value, count.value.0)}
      else s' == s
  {
    hide AcceptAck, Requeue, RemoveAt, ReadUVarInt;
    var i := FindMessage(s.outbox, number, onResponse);
    var j := FindMessage(s.icebox, number, onResponse);
    var count := ReadUVarInt(payload, UINT32_LIMIT);
    if count.Some? && i.Some? {
      var m' := AcceptAck(s.outbox[i.value], count.value.0);
      OutboxAckLive(s, i.value, m');
    } else if count.Some? && j.Some? {
      var m' := AcceptAck(s.icebox[j.value], count.value.0);
      IceboxAckLive(s, j.value, m');
    }
  }

  lemma OutboxAckLive(s: Sender, i: nat, m': OutMsg)
    requires i < |s.outbox|
    ensures s.outbox[i] in Live(s)
    ensures Live(s.(outbox := s.outbox[i := m'])) == Live(s) - multiset{s.outbox[i]} + multiset{m'}
  {
    assert s.outbox[i] in s.outbox;
    UpdateMultiset(s.outbox, i, m');
    Swap(multiset(s.outbox), multiset(s.icebox), s.outbox[i], m');
  }

  lemma IceboxAckLive(s: Sender, j: nat, m': OutMsg)
    requires j < |s.icebox|
    ensures s.icebox[j] in Live(s)
    ensures Live(s.(icebox := s.icebox[j := m'])) == Live(s) - multiset{s.icebox[j]} + multiset{m'}
    ensures Live(s.(icebox := RemoveAt(s.icebox, j), outbox := Requeue(s.outbox, m')))
         == Live(s) - multiset{s.icebox[j]} + multiset{m'}
  {
    hide Requeue, RemoveAt;
    assert s.icebox[j] in s.icebox;
    UpdateMultiset(s.icebox, j, m');
    RemoveAtMultiset(s.icebox, j);
    RequeueMultiset(s.outbox, m');
    Swap(multiset(s.icebox), multiset(s.outbox), s.icebox[j], m');
  }

  lemma Swap<T>(a: multiset<T>, b: multiset<T>, x: T, y: T)
    requires x in a
    ensures (a - multiset{x} + multiset{y}) + b == (a + b) - multiset{x} + multiset{y}
    ensures (a - multiset{x}) + (b + multiset{y}) == (a + b) - multiset{x} + multiset{y}
  {
  }

  lemma UpdateMultiset<T>(q: seq<T>, i: nat, y: T)
    requires i < |q|
    ensures multiset(q[i := y]) == multiset(q) - multiset{q[i]} + multiset{y}
  {
    assert q == q[..i] + [q[i]] + q[i + 1..];
    assert q[i := y] == q[..i] + [y] + q[i + 1..];
  }

  lemma EnqueueLive(s: Sender, m: OutMsg)
    requires m.number == 0 ==> s.lastMessageNo + 1 < UINT64_LIMIT
    ensures Live(Enqueue(s, m)) == Live(s) + multiset{Number(s, m)}
  {
    RequeueMultiset(s.outbox, Number(s, m));
    assert multiset(s.outbox) + multiset{Number(s, m)} + multiset(s.icebox) == Live(s) + multiset{Number(s, m)};
  }

  /** Writing a frame takes the first message; what is left of it goes to one of the queues. */
  lemma WriteFrameLive(s: Sender)
    requires s.outbox != []
    ensures var m, w := s.outbox[0], WriteFrame(s);
      var sent := NextFrame(m, s.crc, FrameRoom(m, s.outbox[1..]));
      && m in Live(s)
      && Live(w.sender) == Live(s) - multiset{m}
                           + (if sent.flags.moreComing then multiset{sent.msg} else multiset{})
      && w.sender.crc == sent.crc && w.sender.lastMessageNo == s.lastMessageNo
      && w.frame == Frame(m.number, sent.flags, sent.payload)
      && w.awaiting == (if !sent.flags.moreComing && m.ExpectsReply() then Some(m.number) else None)
  {
    hide NextFrame, Requeue, FrameRoom;
    var m, rest := s.outbox[0], s.outbox[1..];
    var sent := NextFrame(m, s.crc, FrameRoom(m, rest));
    HeadMultiset(s.outbox);
    RequeueMultiset(rest, sent.msg);
    assert multiset(s.icebox + [sent.msg]) == multiset(s.icebox) + multiset{sent.msg};
    Take(multiset(rest), multiset(s.icebox), m, sent.msg);
  }

  lemma HeadMultiset<T>(q: seq<T>)
    requires q != []
    ensures multiset(q) == multiset(q[1..]) + multiset{q[0]}
  {
    assert q == [q[0]] + q[1..];
  }

  lemma Take<T>(a: multiset<T>, b: multiset<T>, x: T, y: T)
    ensures (a + multiset{x} + b) - multiset{x} == a + b
    ensures (a + multiset{x} + b) - multiset{x} + multiset{y} == a + (b + multiset{y}) == (a + multiset{y}) + b
  {
  }

  lemma RemoveAtMultiset(q: seq<OutMsg>, i: nat)
    requires i < |q|
    ensures multiset(RemoveAt(q, i)) == multiset(q) - multiset{q[i]}
  {
    assert q == q[..i] + [q[i]] + q[i + 1..];
  }

  lemma {:induction false} NewRequestsUpdate(q: seq<OutMsg>, i: nat, m: OutMsg)
    requires i < |q| && IsNewRequest(q[i]) == IsNewRequest(m) && m.number == q[i].number
    ensures NewRequests(q[i := m]) == NewRequests(q)
  {
    if i == 0 {
      assert q[0 := m][1..] == q[1..];
    } else {
      NewRequestsUpdate(q[1..], i - 1, m);
      assert q[i := m][1..] == q[1..][i - 1 := m];
    }
  }

  /** ACKs do not change which requests are still to begin. */
  lemma ReceivedAckBegins(s: Sender, number: nat, onResponse: bool, payload: seq<byte>)
    requires forall m :: m in s.icebox ==> m.bytesSent > 0
    ensures var s' := ReceivedAck(s, number, onResponse, payload);
      && s'.crc == s.crc && s'.lastMessageNo == s.lastMessageNo
      && NewRequests(s'.outbox) == NewRequests(s.outbox)
      && (forall m :: m in s'.icebox ==> m.bytesSent > 0)
  {
    var i := FindMessage(s.outbox, number, onResponse);
    var j := FindMessage(s.icebox, number, onResponse);
    var count := ReadUVarInt(payload, UINT32_LIMIT);
    if count.Some? && i.Some? {
      NewRequestsUpdate(s.outbox, i.value, AcceptAck(s.outbox[i.value], count.value.0));
    } else if count.Some? && j.Some? {
      assert s.icebox[j.value] in s.icebox;
      var m := AcceptAck(s.icebox[j.value], count.value.0);
      BeginOrder(s.outbox, m);
    }
  }

  // ---------------------------------------------------------------- flow-control accounting

  /** At every turn boundary: outbox messages may send, icebox messages have begun and wait. */
  ghost predicate FlowInvariant(s: Sender) {
    && (forall m :: m in s.outbox ==> m.unacked < MAX_UNACKED_BYTES && m.unacked <= m.bytesSent)
    && (forall m :: m in s.icebox ==> m.NeedsAck() && !m.IsAck() && m.HasMore()
                                      && m.unacked <= m.bytesSent
                                      && m.unacked <= MAX_UNACKED_BYTES - 1 + BIG_FRAME_SIZE - 2)
  }

  lemma RequeueMembers(q: seq<OutMsg>, m: OutMsg)
    ensures forall x :: x in Requeue(q, m) <==> x == m || x in q
  {
    var i := InsertPos(q, m);
    assert q == q[..i] + q[i..];
  }

  lemma EnqueueKeepsFlow(s: Sender, m: OutMsg)
    requires FlowInvariant(s) && m.bytesSent == 0 && m.unacked == 0
    requires m.number == 0 ==> s.lastMessageNo + 1 < UINT64_LIMIT
    ensures FlowInvariant(Enqueue(s, m))
  {
    RequeueMembers(s.outbox, Number(s, m));
  }

  /** No frame ever takes a message beyond 127999 + 16382 unacknowledged bytes. */
  lemma WriteFrameKeepsFlow(s: Sender)
    requires FlowInvariant(s) && s.outbox != []
    ensures FlowInvariant(WriteFrame(s).sender)
  {
    hide NextFrame;
    var m, rest := s.outbox[0], s.outbox[1..];
    var room := FrameRoom(m, rest);
    assert forall x :: x in rest ==> x in s.outbox;
    if m.IsAck() {
      AckFrame(m, s.crc, room);
    } else {
      NextFrameProperties(m, s.crc, room);
      NextFrameMore(m, s.crc, room);
    }
    RequeueMembers(rest, NextFrame(m, s.crc, room).msg);
  }

  lemma AckFrame(m: OutMsg, crc: uint32, room: nat)
    requires m.IsAck()
    ensures var sent := NextFrame(m, crc, room);
      sent.flags == m.Flags() && sent.crc == crc && sent.progress == None
  {
  }

  lemma NextFrameMore(m: OutMsg, crc: uint32, room: nat)
    requires !m.IsAck() && room > CHECKSUM_SIZE
    ensures NextFrame(m, crc, room).flags.moreComing == NextFrame(m, crc, room).msg.HasMore()
  {
  }

  lemma ReceivedAckKeepsFlow(s: Sender, number: nat, onResponse: bool, payload: seq<byte>)
    requires FlowInvariant(s)
    ensures FlowInvariant(ReceivedAck(s, number, onResponse, payload))
  {
    var i := FindMessage(s.outbox, number, onResponse);
    var j := FindMessage(s.icebox, number, onResponse);
    var count := ReadUVarInt(payload, UINT32_LIMIT);
    if count.Some? && i.Some? {
      assert s.outbox[i.value] in s.outbox;
    } else if count.Some? && j.Some? {
      assert s.icebox[j.value] in s.icebox;
      RequeueMembers(s.outbox, AcceptAck(s.icebox[j.value], count.value.0));
    }
  }

  // ---------------------------------------------------------------- the write loop

  /** What writeToWebSocket still has to do: the bytes of the queued messages, plus one for each. */
  function Work(q: seq<OutMsg>): nat {
    if q == [] then 0 else 1 + |Content(q[0])| + Work(q[1..])
  }

  lemma {:induction false} WorkAppend(a: seq<OutMsg>, b: seq<OutMsg>)
    ensures Work(a + b) == Work(a) + Work(b)
  {
    if a == [] {
      assert a + b == b;
    } else {
      WorkAppend(a[1..], b);
      assert (a + b)[1..] == a[1..] + b;
    }
  }

  lemma WorkRequeue(q: seq<OutMsg>, m: OutMsg)
    ensures Work(Requeue(q, m)) == Work(q) + 1 + |Content(m)|
  {
    var i := InsertPos(q, m);
    assert q == q[..i] + q[i..];
    WorkAppend(q[..i], q[i..]);
    WorkAppend(q[..i] + [m], q[i..]);
    WorkAppend(q[..i], [m]);
    assert [m][1..] == [];
  }

  /** Every frame makes progress, so a loop that writes frames until the outbox is empty ends. */
  lemma WriteFrameProgress(s: Sender)
    requires s.outbox != []
    ensures Work(WriteFrame(s).sender.outbox) < Work(s.outbox)
  {
    hide NextFrame, Content;
    var m, rest := s.outbox[0], s.outbox[1..];
    var room := FrameRoom(m, rest);
    if m.IsAck() {
      AckFrame(m, s.crc, room);
    } else {
      NextFrameProperties(m, s.crc, room);
      WorkRequeue(rest, NextFrame(m, s.crc, room).msg);
    }
  }
}
