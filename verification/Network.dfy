/** Two BLIP peers joined by FIFO channels: the states, the steps and the runs. */
module Network {
  import opened Bytes
  import opened Messages
  import opened MessagesOut
  import opened MessagesIn
  import opened Senders
  import opened Receivers

  /** What an application hands over to be sent: the type and flags, the encoded properties, the body. */
  datatype Sent = Sent(typ: MessageType, urgent: bool, noReply: bool, props: seq<byte>, body: seq<byte>)

  function ContentOf(s: Sent): seq<byte> {
    PutUVarInt(|s.props|) + s.props + s.body
  }

  predicate ValidSent(s: Sent) {
    && |s.props| <= MAX_PROPERTIES_SIZE
    && (s.props != [] ==> s.props[|s.props| - 1] == 0)
  }

  /** One end of a connection. acks are those that its receiver has asked for and that its actor has
      not queued yet; responded the numbers of the requests it has responded to; failed tells that
      it has closed the connection because of a frame it did not accept. The last two fields record
      the messages queued so far, and those among them that have frames left to send. */
  datatype Peer = Peer(send: Sender, recv: Receiver, acks: seq<Ack>, responded: set<MessageNo>, failed: bool,
                       sent: map<Key, Sent>, live: map<Key, OutMsg>)

  function NewPeer(): Peer {
    Peer(NewSender(), NewReceiver(), [], {}, false, map[], map[])
  }

  function KeyOf(m: OutMsg): Key {
    Key(m.typ.IsResponse(), m.number)
  }

  /** A message that has just been built, whose payload and data source make up the content of s. */
  predicate Fresh(m: OutMsg, s: Sent) {
    && m.bytesSent == 0 && m.unacked == 0 && ValidSent(s) && Content(m) == ContentOf(s)
    && m.typ == s.typ && m.urgent == s.urgent && m.noReply == s.noReply
  }

  function AckType(a: Ack): MessageType {
    if a.onReply then AckResponseType else AckRequestType
  }

  /** The message that MessageIn::acknowledge sends. */
  function AckOut(a: Ack): OutMsg {
    OutMsg(a.number, AckType(a), true, true, PutUVarInt(a.count), [], None, 0, 0)
  }

  // ---------------------------------------------------------------- steps

  datatype Step =
    | QueueRequest(msg: OutMsg, sent: Sent)  // _queueMessage of a request
    | QueueReply(msg: OutMsg, sent: Sent)    // respond and _queueMessage of a response
    | QueueAck                               // _queueMessage of an acknowledgement
    | Write                                  // one round of the loop of writeToWebSocket
    | Deliver                                // one round of the loop of _onWebSocketMessages

  /** Whether x can take a step, incoming being the frames on their way to it. Handlers respond to
      complete requests only, once; the byte count of a message stays within uint32_t. */
  predicate Enabled(x: Peer, incoming: seq<Frame>, step: Step) {
    !x.failed &&
    match step
    case QueueRequest(m, s) =>
      m.typ.RequestType? && m.number == 0 && Fresh(m, s) && x.send.lastMessageNo + 1 < UINT64_LIMIT
    case QueueReply(m, s) =>
      && (m.typ.ResponseType? || m.typ.ErrorType?) && m.number != 0 && Fresh(m, s)
      && Key(false, m.number) in x.recv.delivered
      && !x.recv.delivered[Key(false, m.number)].noReply
      && m.number !in x.responded
    case QueueAck => x.acks != [] && x.acks[0].number != 0
    case Write => x.send.outbox != [] && x.send.outbox[0].bytesSent + BIG_FRAME_SIZE < UINT32_LIMIT
    case Deliver => incoming != []
  }

  /** The live messages after one frame of the first message of the outbox. */
  function LiveAfterWrite(x: Peer): map<Key, OutMsg>
    requires x.send.outbox != []
  {
    var m, rest := x.send.outbox[0], x.send.outbox[1..];
    var sent := NextFrame(m, x.send.crc, FrameRoom(m, rest));
    if m.IsAck() then x.live
    else if sent.flags.moreComing then x.live[KeyOf(m) := sent.msg]
    else x.live - {KeyOf(m)}
  }

  /** The live messages after an ACK has come in. */
  function LiveAfterAck(x: Peer, f: Frame): map<Key, OutMsg> {
    var t := AckTarget(x.send, f.number, f.flags.typ.AckResponseType?);
    var count := ReadUVarInt(f.payload, UINT32_LIMIT);
    if t.Some? && count.Some? && !t.value.IsAck() then
      x.live[KeyOf(t.value) := AcceptAck(t.value, count.value.0)]
    else x.live
  }

  function AwaitReply(r: Receiver, awaiting: Option<MessageNo>): Receiver {
    match awaiting case None => r case Some(n) => Await(r, n)
  }

  function DoDeliver(x: Peer, f: Frame): Peer {
    if f.flags.typ.IsAck() then
      x.(send := ReceivedAck(x.send, f.number, f.flags.typ.AckResponseType?, f.payload),
         live := LiveAfterAck(x, f))
    else match Receive(x.recv, f)
      case Accepted(r, ack, _) => x.(recv := r, acks := x.acks + AckList(ack))
      case _ => x.(failed := true)
  }

  /** The peer and both its channels after a step. */
  function Do(x: Peer, outgoing: seq<Frame>, incoming: seq<Frame>, step: Step): (Peer, seq<Frame>, seq<Frame>)
    requires Enabled(x, incoming, step)
  {
    match step
    case QueueRequest(m, s) =>
      var m' := Number(x.send, m);
      (x.(send := Enqueue(x.send, m), sent := x.sent[KeyOf(m') := s], live := x.live[KeyOf(m') := m']),
       outgoing, incoming)
    case QueueReply(m, s) =>
      (x.(send := Enqueue(x.send, m), responded := x.responded + {m.number},
          sent := x.sent[KeyOf(m) := s], live := x.live[KeyOf(m) := m]),
       outgoing, incoming)
    case QueueAck =>
      (x.(send := Enqueue(x.send, AckOut(x.acks[0])), acks := x.acks[1..]), outgoing, incoming)
    case Write =>
      var w := WriteFrame(x.send);
      (x.(send := w.sender, recv := AwaitReply(x.recv, w.awaiting), live := LiveAfterWrite(x)),
       outgoing + [w.frame], incoming)
    case Deliver =>
      (DoDeliver(x, incoming[0]), outgoing, incoming[1..])
  }

  // ---------------------------------------------------------------- runs

  /** Two peers, and the frames on their way from a to b and from b to a. */
  datatype Net = Net(a: Peer, b: Peer, ab: seq<Frame>, ba: seq<Frame>)

  function NewNet(): Net {
    Net(NewPeer(), NewPeer(), [], [])
  }

  function Mirror(n: Net): Net {
    Net(n.b, n.a, n.ba, n.ab)
  }

  predicate StepOfA(n: Net, n': Net, step: Step) {
    && Enabled(n.a, n.ba, step)
    && n' == (var d := Do(n.a, n.ab, n.ba, step); Net(d.0, n.b, d.1, d.2))
  }

  ghost predicate Next(n: Net, n': Net) {
    exists step :: StepOfA(n, n', step) || StepOfA(Mirror(n), Mirror(n'), step)
  }

  /** A run of the two peers, with any interleaving of their steps. */
  ghost predicate IsRun(run: seq<Net>) {
    && run != [] && run[0] == NewNet()
    && forall i :: 0 <= i < |run| - 1 ==> Next(run[i], run[i + 1])
  }
}
