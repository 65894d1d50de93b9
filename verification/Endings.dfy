/** How requests end: every request that expects a reply gets one terminal progress report, whatever
    the other peer sends (BLIPIO in src/blip/BLIPConnection.cc, over the life of a connection). */
module Endings {
  import opened Bytes
  import opened Messages
  import opened MessagesOut
  import opened MessagesIn
  import opened Codecs
  import opened Outbox
  import opened Senders
  import opened Receivers

  /** A connection. asked are the numbers of the requests queued that expect a reply; completed and
      disconnected the terminal reports made for them; refused counts the requests turned away at
      once with a report; lost are the requests whose reply failed in the way told below. */
  datatype Io = Io(open: bool, closing: bool, send: Sender, recv: Receiver,
                   asked: set<MessageNo>, completed: multiset<MessageNo>, disconnected: multiset<MessageNo>,
                   refused: nat, lost: set<MessageNo>)

  function NewIo(): Io {
    Io(true, false, NewSender(), NewReceiver(), {}, multiset{}, multiset{}, 0, {})
  }

  datatype Event =
    | Queue(msg: OutMsg)       // _queueMessage
    | WriteOne                 // one round of the loop of writeToWebSocket
    | Incoming(frame: Frame)   // one round of the loop of _onWebSocketMessages, any frame
    | Illegal                  // the same, with a header that cannot be read
    | Close                    // _closed

  // ---------------------------------------------------------------- what the code does

  /** _queueMessage: a socket that is closed, or closing because of an error, takes no more. */
  function QueueMessage(io: Io, m: OutMsg): Io
    requires m.number == 0 ==> io.send.lastMessageNo + 1 < UINT64_LIMIT
  {
    if !io.open || io.closing then io.(refused := io.refused + if m.ExpectsReply() then 1 else 0)
    else io.(send := Enqueue(io.send, m),
             asked := if m.ExpectsReply() then io.asked + {Number(io.send, m).number} else io.asked)
  }

  function WriteToSocket(io: Io): Io {
    if io.send.outbox == [] then io
    else
      var w := WriteFrame(io.send);
      io.(send := w.sender,
          recv := match w.awaiting case None => io.recv case Some(n) => Await(io.recv, n))
  }

  /** The inner catch of _onWebSocketMessages: a request or a response, but not an error, is put back
      into its map, unless it is there. */
  function PutBack(r: Receiver, f: Frame, msg: InMsg): Receiver {
    if f.flags.typ.RequestType? then
      if f.number in r.pendingRequests then r
      else r.(pendingRequests := r.pendingRequests[f.number := msg])
    else if f.flags.typ.ResponseType? then
      if f.number in r.pendingResponses then r
      else r.(pendingResponses := r.pendingResponses[f.number := msg])
    else r
  }

  predicate IsReply(f: Frame) {
    f.flags.typ.ResponseType? || f.flags.typ.ErrorType?
  }

  /** One incoming frame. A bad one makes the connection close; then frames are ignored. */
  function ReceiveFrame(io: Io, f: Frame): Io {
    if io.closing then io
    else if f.flags.typ.IsAck() then
      io.(send := ReceivedAck(io.send, f.number, f.flags.typ.AckResponseType?, f.payload))
    else match Receive(io.recv, f)
      case Accepted(r, _, state) =>
        io.(recv := r,
            completed := io.completed + if IsReply(f) && state.End? then multiset{f.number} else multiset{})
      case BadNumber => CloseWithError(io)
      case BadFrame(r, msg, _) =>
        CloseWithError(io).(recv := PutBack(r, f, msg),
                            lost := io.lost + if LosesReply(f) then {f.number} else {})
  }

  /** _closeWithError */
  function CloseWithError(io: Io): Io {
    io.(closing := io.closing || io.open)
  }

  /** The last frame of an error reply: if it is bad, its message is in no map any more. */
  predicate LosesReply(f: Frame) {
    f.flags.typ.ErrorType? && !f.flags.moreComing
  }

  function ExpectingOne(m: OutMsg): multiset<MessageNo> {
    if m.ExpectsReply() then multiset{m.number} else multiset{}
  }

  /** The numbers of the requests in q that expect a reply: whom cancelAll(q) notifies. */
  function Expecting(q: seq<OutMsg>): multiset<MessageNo> {
    if q == [] then multiset{}
    else ExpectingOne(q[0]) + Expecting(q[1..])
  }

  /** _closed: cancels what is queued, frozen or awaiting a reply. */
  function Closed(io: Io): Io {
    if !io.open then io
    else
      io.(open := false,
          send := io.send.(outbox := [], icebox := []),
          recv := io.recv.(pendingRequests := map[], pendingResponses := map[]),
          disconnected := io.disconnected + Expecting(io.send.outbox) + Expecting(io.send.icebox)
                          + multiset(io.recv.pendingResponses.Keys))
  }

  /** Requests are queued without a number, other messages with theirs. */
  predicate Possible(io: Io, e: Event) {
    e.Queue? ==>
      && e.msg.bytesSent == 0
      && (e.msg.typ.RequestType? <==> e.msg.number == 0)
      && io.send.lastMessageNo + 1 < UINT64_LIMIT
  }

  function Happens(io: Io, e: Event): Io
    requires Possible(io, e)
  {
    match e
    case Queue(m) => QueueMessage(io, m)
    case WriteOne => WriteToSocket(io)
    case Incoming(f) => ReceiveFrame(io, f)
    case Illegal => CloseWithError(io)
    case Close => Closed(io)
  }

  // ---------------------------------------------------------------- requests in hand

  lemma {:induction false} ExpectingAppend(a: seq<OutMsg>, b: seq<OutMsg>)
    ensures Expecting(a + b) == Expecting(a) + Expecting(b)
  {
    hide ExpectingOne;
    if a == [] {
      assert a + b == b;
    } else {
      ExpectingAppend(a[1..], b);
      assert (a + b)[0] == a[0] && (a + b)[1..] == a[1..] + b;
      assert Expecting(a) == ExpectingOne(a[0]) + Expecting(a[1..]);
      assert Expecting(a + b) == ExpectingOne(a[0]) + Expecting(a[1..] + b);
    }
  }

  lemma ExpectingMiddle(a: seq<OutMsg>, m: OutMsg, b: seq<OutMsg>)
    ensures Expecting(a + [m] + b) == Expecting(a + b) + ExpectingOne(m)
  {
    ExpectingAppend(a + [m], b);
    ExpectingAppend(a, [m]);
    ExpectingAppend(a, b);
    ExpectingSingle(m);
  }

  lemma ExpectingSingle(m: OutMsg)
    ensures Expecting([m]) == ExpectingOne(m)
  {
    assert [m][1..] == [];
  }

  lemma ExpectingPrefix(q: seq<OutMsg>, i: nat)
    requires i <= |q|
    ensures i == 0 ==> Expecting(q[..i]) == multiset{}
    ensures i < |q| ==> Expecting(q[..i + 1]) == Expecting(q[..i]) + ExpectingOne(q[i])
  {
    if i < |q| {
      assert q[..i + 1] == q[..i] + [q[i]];
      ExpectingAppend(q[..i], [q[i]]);
      ExpectingSingle(q[i]);
    }
  }

  lemma ExpectingRequeue(q: seq<OutMsg>, m: OutMsg)
    ensures Expecting(Requeue(q, m)) == Expecting(q) + ExpectingOne(m)
  {
    hide Expecting;
    var i := InsertPos(q, m);
    assert q == q[..i] + q[i..];
    ExpectingMiddle(q[..i], m, q[i..]);
  }

  lemma ExpectingRemove(q: seq<OutMsg>, i: nat)
    requires i < |q|
    ensures Expecting(q) == Expecting(RemoveAt(q, i)) + ExpectingOne(q[i])
  {
    hide Expecting;
    assert q == q[..i] + [q[i]] + q[i + 1..];
    ExpectingMiddle(q[..i], q[i], q[i + 1..]);
  }

  lemma ExpectingUpdate(q: seq<OutMsg>, i: nat, m: OutMsg)
    requires i < |q| && ExpectingOne(m) == ExpectingOne(q[i])
    ensures Expecting(q[i := m]) == Expecting(q)
  {
    hide Expecting, ExpectingOne;
    ExpectingRemove(q, i);
    ExpectingRemove(q[i := m], i);
    assert RemoveAt(q[i := m], i) == RemoveAt(q, i);
  }

  /** The requests a sender holds that expect a reply. */
  function Held(s: Sender): multiset<MessageNo> {
    Expecting(s.outbox) + Expecting(s.icebox)
  }

  /** A request leaves the sender's hands when the reply to it starts being awaited. */
  lemma WriteFrameHeld(s: Sender)
    requires s.outbox != []
    ensures var w := WriteFrame(s);
      Held(s) == Held(w.sender) + (match w.awaiting case None => multiset{} case Some(n) => multiset{n})
  {
    hide NextFrame, Expecting, Requeue, FrameRoom;
    var m, rest := s.outbox[0], s.outbox[1..];
    var room := FrameRoom(m, rest);
    var sent := NextFrame(m, s.crc, room);
    assert s.outbox == [] + [m] + rest && [] + rest == rest;
    ExpectingMiddle([], m, rest);
    if m.IsAck() {
      AckFrame(m, s.crc, room);
    } else {
      FrameKeepsExpecting(m, s.crc, room);
      ExpectingRequeue(rest, sent.msg);
      ExpectingAppend(s.icebox, [sent.msg]);
      ExpectingSingle(sent.msg);
    }
  }

  lemma FrameKeepsExpecting(m: OutMsg, crc: uint32, room: nat)
    requires !m.IsAck() && room > CHECKSUM_SIZE
    ensures ExpectingOne(NextFrame(m, crc, room).msg) == ExpectingOne(m)
  {
    NextFrameProperties(m, crc, room);
  }

  lemma AckKeepsExpecting(m: OutMsg, count: nat)
    ensures ExpectingOne(AcceptAck(m, count)) == ExpectingOne(m)
  {
  }

  lemma ReceivedAckHeld(s: Sender, number: nat, onResponse: bool, payload: seq<byte>)
    ensures Held(ReceivedAck(s, number, onResponse, payload)) == Held(s)
  {
    hide Expecting, ExpectingOne, Requeue, RemoveAt, AcceptAck, ReadUVarInt;
    var i := FindMessage(s.outbox, number, onResponse);
    var j := FindMessage(s.icebox, number, onResponse);
    var count := ReadUVarInt(payload, UINT32_LIMIT);
    if count.Some? && i.Some? {
      AckKeepsExpecting(s.outbox[i.value], count.value.0);
      ExpectingUpdate(s.outbox, i.value, AcceptAck(s.outbox[i.value], count.value.0));
    } else if count.Some? && j.Some? {
      var m := AcceptAck(s.icebox[j.value], count.value.0);
      AckKeepsExpecting(s.icebox[j.value], count.value.0);
      ExpectingUpdate(s.icebox, j.value, m);
      ExpectingRemove(s.icebox, j.value);
      ExpectingRequeue(s.outbox, m);
    }
  }

  // ---------------------------------------------------------------- the invariant

  /** What has become of request n: it is held, or its reply is awaited, or it has ended. */
  function Fates(io: Io, n: MessageNo): int {
    Held(io.send)[n] + (if n in io.recv.pendingResponses then 1 else 0)
    + io.completed[n] + io.disconnected[n]
  }

  function Due(io: Io, n: MessageNo): int {
    if n in io.asked && n !in io.lost then 1 else 0
  }

  ghost predicate EndingInv(io: Io) {
    && (forall n: MessageNo :: Fates(io, n) == Due(io, n))
    && (forall n :: n in io.asked ==> n <= io.send.lastMessageNo)
    && (!io.open ==> io.send.outbox == [] && io.send.icebox == [] && io.recv.pendingResponses == map[])
    && (io.lost != {} ==> io.closing)
  }

  lemma QueueKeepsEndings(io: Io, m: OutMsg)
    requires EndingInv(io) && Possible(io, Queue(m))
    ensures EndingInv(QueueMessage(io, m))
  {
    hide Requeue, Expecting;
    var io' := QueueMessage(io, m);
    var m' := Number(io.send, m);
    ExpectingRequeue(io.send.outbox, m');
    forall n: MessageNo ensures Fates(io', n) == Due(io', n) {
      assert Fates(io, n) == Due(io, n);
      assert io.open && !io.closing ==> Held(io'.send)[n] == Held(io.send)[n] + ExpectingOne(m')[n];
    }
  }

  lemma WriteKeepsEndings(io: Io)
    requires EndingInv(io)
    ensures EndingInv(WriteToSocket(io))
  {
    hide NextFrame, Requeue, Expecting;
    if io.send.outbox != [] {
      WriteFrameHeld(io.send);
      WriteFrameLive(io.send);
      var w, io' := WriteFrame(io.send), WriteToSocket(io);
      forall n: MessageNo ensures Fates(io', n) == Due(io', n) {
        assert Fates(io, n) == Due(io, n);
        assert w.awaiting == Some(n) ==> Held(io.send)[n] >= 1;
      }
    }
  }

  lemma FrameKeepsEndings(io: Io, f: Frame)
    requires EndingInv(io)
    ensures EndingInv(ReceiveFrame(io, f))
  {
    hide ReceivedAck, Expecting, Receive;
    if !io.closing {
      var io' := ReceiveFrame(io, f);
      if f.flags.typ.IsAck() {
        ReceivedAckHeld(io.send, f.number, f.flags.typ.AckResponseType?, f.payload);
        ReceivedAckNumbers(io.send, f.number, f.flags.typ.AckResponseType?, f.payload);
        NothingAcked(io.send, f.number, f.flags.typ.AckResponseType?, f.payload);
      } else {
        ReplyMoves(io.recv, f);
        assert !io.open ==> io'.recv.pendingResponses.Keys == {};
      }
      forall n: MessageNo ensures Fates(io', n) == Due(io', n) {
        assert Fates(io, n) == Due(io, n);
      }
    }
  }

  /** What a frame does to the replies that are awaited. */
  lemma ReplyMoves(r: Receiver, f: Frame)
    requires !f.flags.typ.IsAck()
    ensures match Receive(r, f)
      case Accepted(r', _, state) =>
        if IsReply(f) && state.End? then
          f.number in r.pendingResponses && r'.pendingResponses.Keys == r.pendingResponses.Keys - {f.number}
        else r'.pendingResponses.Keys == r.pendingResponses.Keys
      case BadNumber => true
      case BadFrame(r', msg, _) =>
        var back := PutBack(r', f, msg);
        if LosesReply(f) then
          f.number in r.pendingResponses && back.pendingResponses.Keys == r.pendingResponses.Keys - {f.number}
        else back.pendingResponses.Keys == r.pendingResponses.Keys
  {
    hide ReceivedFrame;
    EndState(r, f);
  }

  lemma NothingAcked(s: Sender, number: nat, onResponse: bool, payload: seq<byte>)
    ensures s.outbox == [] && s.icebox == [] ==> ReceivedAck(s, number, onResponse, payload) == s
  {
  }

  lemma ReceivedAckNumbers(s: Sender, number: nat, onResponse: bool, payload: seq<byte>)
    ensures ReceivedAck(s, number, onResponse, payload).lastMessageNo == s.lastMessageNo
  {
  }

  /** A reply is complete when its last frame has been accepted. */
  lemma EndState(r: Receiver, f: Frame)
    ensures var o := Receive(r, f);
      o.Accepted? && IsReply(f) ==> (o.state.End? <==> !f.flags.moreComing)
  {
  }

  lemma CloseKeepsEndings(io: Io)
    requires EndingInv(io)
    ensures EndingInv(Closed(io))
  {
    if io.open {
      var io' := Closed(io);
      forall n: MessageNo ensures Fates(io', n) == Due(io', n) {
        assert Fates(io, n) == Due(io, n);
      }
    }
  }

  lemma IllegalKeepsEndings(io: Io)
    requires EndingInv(io)
    ensures EndingInv(CloseWithError(io))
  {
    forall n: MessageNo ensures Fates(CloseWithError(io), n) == Due(CloseWithError(io), n) {
      assert Fates(io, n) == Due(io, n);
    }
  }

  lemma HappensKeepsEndings(io: Io, e: Event)
    requires EndingInv(io) && Possible(io, e)
    ensures EndingInv(Happens(io, e))
  {
    hide EndingInv, QueueMessage, WriteToSocket, ReceiveFrame, Closed;
    match e
    case Queue(m) => QueueKeepsEndings(io, m);
    case WriteOne => WriteKeepsEndings(io);
    case Incoming(f) => FrameKeepsEndings(io, f);
    case Illegal => IllegalKeepsEndings(io);
    case Close => CloseKeepsEndings(io);
  }

  // ---------------------------------------------------------------- every life of a connection

  ghost predicate AllPossible(io: Io, events: seq<Event>)
    decreases |events|
  {
    events == [] || (Possible(io, events[0]) && AllPossible(Happens(io, events[0]), events[1..]))
  }

  function Life(io: Io, events: seq<Event>): Io
    requires AllPossible(io, events)
    decreases |events|
  {
    if events == [] then io else Life(Happens(io, events[0]), events[1..])
  }

  lemma {:induction false} LifeKeepsEndings(io: Io, events: seq<Event>)
    requires EndingInv(io) && AllPossible(io, events)
    ensures EndingInv(Life(io, events))
    decreases |events|
  {
    hide EndingInv, Happens, Possible;
    if events != [] {
      HappensKeepsEndings(io, events[0]);
      LifeKeepsEndings(Happens(io, events[0]), events[1..]);
    }
  }

  /** After a bad frame its message is held as it was, so that closing tells it that it is disconnected; only
      that of the last frame of an error reply is not. */
  lemma BadFrameHeld(r: Receiver, f: Frame)
    requires AllTidy(r) && Receive(r, f).BadFrame?
    ensures var o, reply := Receive(r, f), !f.flags.typ.RequestType?;
      var back := Pending(PutBack(o.recv, f, o.msg), reply);
      back == if LosesReply(f) then Pending(r, reply) - {f.number}
              else Pending(r, reply)[f.number := Addressee(r, f).value]
  {
    hide Receive;
    FrameRefused(r, f);
    BadKind(r, f);
    var reply := !f.flags.typ.RequestType?;
    var held: map<MessageNo, InMsg> := Pending(r, reply);
    assert (held - {f.number})[f.number := Addressee(r, f).value] == held[f.number := Addressee(r, f).value];
  }

  lemma BadKind(r: Receiver, f: Frame)
    ensures Receive(r, f).BadFrame? ==> !f.flags.typ.IsAck() && !f.flags.typ.UnknownType? && Addressee(r, f).Some?
  {
  }

  /** How many requests that expect a reply have been handed over. */
  function Asking(events: seq<Event>): nat {
    if events == [] then 0
    else (if events[0].Queue? && events[0].msg.ExpectsReply() then 1 else 0) + Asking(events[1..])
  }

  /** Each of them is queued under a number of its own, or refused at once with a report. */
  lemma {:induction false} EachAskedOrRefused(io: Io, events: seq<Event>)
    requires EndingInv(io) && AllPossible(io, events)
    ensures var io' := Life(io, events);
      |io'.asked| + io'.refused == |io.asked| + io.refused + Asking(events)
    decreases |events|
  {
    hide EndingInv, Happens, Possible;
    if events != [] {
      HappensKeepsEndings(io, events[0]);
      AskedOrRefused(io, events[0]);
      EachAskedOrRefused(Happens(io, events[0]), events[1..]);
    }
  }

  lemma AskedOrRefused(io: Io, e: Event)
    requires EndingInv(io) && Possible(io, e)
    ensures var io' := Happens(io, e);
      |io'.asked| + io'.refused == |io.asked| + io.refused + if e.Queue? && e.msg.ExpectsReply() then 1 else 0
  {
    hide Receive, WriteFrame, Enqueue, ReceivedAck, Expecting;
  }

  lemma HappensTidy(io: Io, e: Event)
    requires AllTidy(io.recv) && Possible(io, e)
    ensures AllTidy(Happens(io, e).recv)
  {
    hide Receive, WriteFrame, Enqueue, ReceivedAck, Tidy;
    match e
    case Incoming(f) => StaysTidy(io.recv, f);
    case WriteOne =>
      if io.send.outbox != [] && WriteFrame(io.send).awaiting.Some? {
        BeginsTidy(io.recv, WriteFrame(io.send).awaiting.value);
      }
    case _ =>
  }

  lemma {:induction false} LifeTidy(io: Io, events: seq<Event>)
    requires AllTidy(io.recv) && AllPossible(io, events)
    ensures AllTidy(Life(io, events).recv)
    decreases |events|
  {
    hide AllTidy, Happens, Possible;
    if events != [] {
      HappensTidy(io, events[0]);
      LifeTidy(Happens(io, events[0]), events[1..]);
    }
  }

  /** Whatever happened before on an open connection: it closes because of a frame if and only if the frame is
      not acceptable. */
  lemma ClosesIffUnacceptable(events: seq<Event>, f: Frame)
    requires AllPossible(NewIo(), events)
    requires Life(NewIo(), events).open && !Life(NewIo(), events).closing
    ensures var io := Life(NewIo(), events);
      ReceiveFrame(io, f).closing <==> !Acceptable(io.recv, f)
  {
    hide Life, AllPossible, Receive, Acceptable;
    BeginsTidy(NewReceiver(), 0);
    LifeTidy(NewIo(), events);
    AcceptedIff(Life(NewIo(), events).recv, f);
    AckAcceptable(Life(NewIo(), events).recv, f);
  }

  lemma AckAcceptable(r: Receiver, f: Frame)
    ensures f.flags.typ.IsAck() ==> Acceptable(r, f)
  {
  }

  /** Then no frame is handled and no message queued any more. */
  lemma {:induction false} ClosingIgnores(io: Io, events: seq<Event>)
    requires io.closing && AllPossible(io, events)
    ensures var io' := Life(io, events);
      && io'.closing && io'.asked == io.asked && io'.completed == io.completed && io'.lost == io.lost
      && io'.recv.delivered == io.recv.delivered && io'.recv.numRequests == io.recv.numRequests
      && io'.send.lastMessageNo == io.send.lastMessageNo
    decreases |events|
  {
    hide Receive, WriteFrame, Enqueue, ReceivedAck, Expecting;
    if events != [] {
      if events[0].WriteOne? && io.send.outbox != [] {
        WriteFrameLive(io.send);
      }
      ClosingIgnores(Happens(io, events[0]), events[1..]);
    }
  }

  /** Once the connection is closed, whatever happened before: a request that expects a reply has had
      exactly one terminal report, if and only if it was not the last frame of an error reply to it
      that was bad; then it has had none. */
  lemma ExactlyOneEnding(events: seq<Event>, n: MessageNo)
    requires AllPossible(NewIo(), events) && !Life(NewIo(), events).open
    requires n in Life(NewIo(), events).asked
    ensures var io := Life(NewIo(), events);
      io.completed[n] + io.disconnected[n] == if n in io.lost then 0 else 1
  {
    hide Life, AllPossible;
    NewIoEndings();
    LifeKeepsEndings(NewIo(), events);
    var io := Life(NewIo(), events);
    assert Fates(io, n) == Due(io, n);
    assert Expecting([]) == multiset{};
  }

  lemma NewIoEndings()
    ensures EndingInv(NewIo())
  {
    hide Crc32;
    assert Expecting([]) == multiset{};
  }

  /** While the connection is open no request has ended twice, and none that is still in hand has. */
  lemma NoEarlyEnding(events: seq<Event>, n: MessageNo)
    requires AllPossible(NewIo(), events)
    ensures var io := Life(NewIo(), events);
      && io.completed[n] + io.disconnected[n] <= 1
      && (n in Held(io.send) || n in io.recv.pendingResponses ==> io.completed[n] + io.disconnected[n] == 0)
  {
    hide Life, AllPossible;
    NewIoEndings();
    LifeKeepsEndings(NewIo(), events);
    var io := Life(NewIo(), events);
    assert Fates(io, n) == Due(io, n);
  }

  /** A bad last frame of an error reply: the request whose reply was awaited never ends. */
  lemma LostReply(io: Io, n: MessageNo)
    requires EndingInv(io) && io.open && !io.closing && n in io.recv.pendingResponses
    requires !io.recv.pendingResponses[n].started
    ensures var f := Frame(n, FrameFlags(ErrorType, false, false, false), [0, 0, 0, 0]);
      var io' := Closed(ReceiveFrame(io, f));
      n in io'.lost && io'.completed[n] == io'.disconnected[n] == 0
  {
    hide Expecting, Receive;
    var f := Frame(n, FrameFlags(ErrorType, false, false, false), [0, 0, 0, 0]);
    EmptyFrameIsBad(io.recv, f);
    FrameKeepsEndings(io, f);
    var io1 := ReceiveFrame(io, f);
    CloseKeepsEndings(io1);
    assert n in io1.lost;
    assert Fates(Closed(io1), n) == Due(Closed(io1), n);
  }

  /** A first frame without data. */
  lemma EmptyFrameIsBad(r: Receiver, f: Frame)
    requires f.flags.typ.ErrorType? && |f.payload| == CHECKSUM_SIZE
    requires f.number in r.pendingResponses && !r.pendingResponses[f.number].started
    ensures Receive(r, f).BadFrame?
  {
    hide PutUVarInt;
    var none: seq<byte> := [];
    assert f.payload[..0] == none && none[..0] == none;
  }
}
