/** The life of the connection object: whatever its methods are called with, its requests end as Endings
    says. */
module ObjectLives {
  import opened Bytes
  import opened Messages
  import opened MessagesOut
  import opened MessagesIn
  import opened Senders
  import opened Receivers
  import opened Endings
  import BlipConnection
  import Network

  type Ends = BlipConnection.Ends

  // ---------------------------------------------------------------- calls

  datatype Call =
    | QueueCall(msg: OutMsg)               // QueueMessage
    | AckCall                              // QueueNextAck
    | WriteableCall                        // OnWebSocketWriteable
    | MessagesCall(batch: seq<seq<byte>>)  // OnWebSocketMessages
    | ClosedCall(batch: seq<seq<byte>>)    // OnClosed

  /** Requests are queued without a number, other messages with theirs; once it has closed, a WebSocket
      passes no more frames on. */
  predicate MayCall(e: Ends, c: Call) {
    match c
    case QueueCall(m) =>
      && m.bytesSent == 0 && (m.typ.RequestType? <==> m.number == 0)
      && e.send.lastMessageNo + 1 < UINT64_LIMIT
    case AckCall => e.acks != [] && e.acks[0].number != 0 && e.send.lastMessageNo + 1 < UINT64_LIMIT
    case WriteableCall => true
    case MessagesCall(batch) => !e.open ==> batch == []
    case ClosedCall(batch) => !e.open ==> batch == []
  }

  /** The state after a call, as the method says, and whether it says so exactly. */
  function Called(e: Ends, c: Call): (Ends, bool)
    requires MayCall(e, c)
  {
    match c
    case QueueCall(m) => (BlipConnection.Queued(e, m), true)
    case AckCall => (BlipConnection.AckQueued(e), true)
    case WriteableCall => (BlipConnection.WriteAll(e.(writeable := true)), true)
    case MessagesCall(batch) => BlipConnection.FramesIn(e, batch)
    case ClosedCall(batch) =>
      var r := BlipConnection.FramesIn(e, batch);
      (if r.0.open then BlipConnection.Cancelled(r.0).(open := false) else r.0, r.1)
  }

  /** The requests that a call reports as disconnected when it cancels them. */
  ghost function Reported(e: Ends, c: Call): multiset<MessageNo> {
    match c
    case ClosedCall(batch) =>
      var r := BlipConnection.FramesIn(e, batch);
      if r.0.open then BlipConnection.Reports(r.0) else multiset{}
    case _ => multiset{}
  }

  /** The request that a call starts to owe a report. */
  function AskedBy(e: Ends, c: Call): set<MessageNo>
    requires MayCall(e, c)
  {
    if c.QueueCall? && e.open && !e.closing && c.msg.ExpectsReply() then {Number(e.send, c.msg).number} else {}
  }

  /** The request whose reply a frame makes the object lose. */
  function LostWith(e: Ends, data: seq<byte>): set<MessageNo> {
    match DecodeFrame(data)
    case None => {}
    case Some(f) => if LosesReply(f) && Receive(e.recv, f).BadFrame? then {f.number} else {}
  }

  function LostIn(e: Ends, batch: seq<seq<byte>>): set<MessageNo>
    decreases |batch|
  {
    if batch == [] || e.closing then {}
    else
      var r := BlipConnection.FrameIn(e, batch[0]);
      if r.1 then LostIn(r.0, batch[1..]) else LostWith(e, batch[0])
  }

  function LostBy(e: Ends, c: Call): set<MessageNo> {
    match c
    case MessagesCall(batch) => LostIn(e, batch)
    case ClosedCall(batch) => LostIn(e, batch)
    case _ => {}
  }

  // ---------------------------------------------------------------- object and model

  /** io tells what becomes of the requests of e. After an error the two may differ in how far messages
      were read. */
  ghost predicate Tells(io: Io, e: Ends) {
    && io.open == e.open && io.closing == e.closing && io.send == e.send && io.completed == e.completed
    && (io.recv == e.recv || (e.closing && BlipConnection.SameHeld(e.recv, io.recv)))
  }

  lemma RoundIsWrite(io: Io, e: Ends)
    requires Tells(io, e) && e.send.outbox != []
    ensures Tells(WriteToSocket(io), BlipConnection.WriteRound(e))
  {
    hide WriteFrame;
  }

  /** The rounds of writeToWebSocket. */
  lemma {:induction false} WriteAllIsWrites(io: Io, e: Ends) returns (events: seq<Event>)
    requires Tells(io, e)
    ensures AllPossible(io, events) && Tells(Life(io, events), BlipConnection.WriteAll(e))
    ensures var io' := Life(io, events);
      io'.asked == io.asked && io'.disconnected == io.disconnected && io'.lost == io.lost
    decreases Work(e.send.outbox)
  {
    hide WriteFrame, Work, BlipConnection.WriteRound, Tells;
    SameSends(io, e);
    if !e.writeable || e.send.outbox == [] {
      events := [];
    } else {
      BlipConnection.RoundProgress(e);
      RoundIsWrite(io, e);
      var later := WriteAllIsWrites(WriteToSocket(io), BlipConnection.WriteRound(e));
      events := [WriteOne] + later;
      assert events[1..] == later;
    }
  }

  lemma SameSends(io: Io, e: Ends)
    requires Tells(io, e)
    ensures io.send == e.send
  {
  }

  lemma {:induction false} LifeAppend(io: Io, a: seq<Event>, b: seq<Event>)
    requires AllPossible(io, a) && AllPossible(Life(io, a), b)
    ensures AllPossible(io, a + b) && Life(io, a + b) == Life(Life(io, a), b)
    decreases |a|
  {
    hide Happens, Possible;
    if a == [] {
      assert a + b == b;
    } else {
      assert (a + b)[0] == a[0] && (a + b)[1..] == a[1..] + b;
      LifeAppend(Happens(io, a[0]), a[1..], b);
    }
  }

  lemma OneEvent(io: Io, event: Event)
    requires Possible(io, event)
    ensures AllPossible(io, [event]) && Life(io, [event]) == Happens(io, event)
  {
    hide Happens, Possible;
    assert [event][1..] == [];
  }

  /** An ACK, and the writing that goes on if it thaws a message. */
  lemma AckIsEvents(io: Io, e: Ends, f: Frame) returns (events: seq<Event>)
    requires Tells(io, e) && !e.closing && f.flags.typ.IsAck()
    ensures AllPossible(io, events)
    ensures Tells(Life(io, events), BlipConnection.AckReceived(e, f.number, f.flags.typ.AckResponseType?, f.payload))
    ensures var io' := Life(io, events);
      io'.asked == io.asked && io'.disconnected == io.disconnected && io'.lost == io.lost
  {
    hide ReceivedAck, BlipConnection.AckReceived, BlipConnection.WriteAll;
    var s := ReceivedAck(e.send, f.number, f.flags.typ.AckResponseType?, f.payload);
    BlipConnection.AckReceivedSteps(e, f.number, f.flags.typ.AckResponseType?, f.payload);
    OneEvent(io, Incoming(f));
    var acked := Happens(io, Incoming(f));
    events := [];
    if |s.icebox| < |e.send.icebox| {
      events := WriteAllIsWrites(acked, e.(send := s));
    }
    LifeAppend(io, [Incoming(f)], events);
    events := [Incoming(f)] + events;
  }

  function AfterFrame(e: Ends, ok: bool): Ends {
    if ok then e else e.(closing := e.closing || e.open)
  }

  /** A frame that is no ACK, or has a header that cannot be read. */
  lemma FrameIsEvent(io: Io, e: Ends, data: seq<byte>, event: Event)
    requires Tells(io, e) && !e.closing
    requires var f := DecodeFrame(data);
      if f.Some? then !f.value.flags.typ.IsAck() && event == Incoming(f.value) else event == Illegal
    ensures var r, io' := BlipConnection.FrameIn(e, data), Happens(io, event);
      && Tells(io', AfterFrame(r.0, r.1)) && io'.asked == io.asked && io'.disconnected == io.disconnected
      && io'.lost == io.lost + if r.1 then {} else LostWith(e, data)
  {
    hide DecodeFrame, Receive, ReceivedAck, BlipConnection.AckReceived, PutBack, QueueMessage,
         WriteToSocket, Closed, Enqueue;
    var f := DecodeFrame(data);
    if f.Some? {
      UnknownAccepted(e.recv, f.value);
      match Receive(e.recv, f.value)
      case Accepted(_, _, _) =>
      case BadNumber =>
      case BadFrame(_, _, _) =>
    }
  }

  /** The bytes of one frame. */
  lemma FrameIsEvents(io: Io, e: Ends, data: seq<byte>) returns (events: seq<Event>)
    requires Tells(io, e) && !e.closing
    ensures AllPossible(io, events)
    ensures var r, io' := BlipConnection.FrameIn(e, data), Life(io, events);
      && Tells(io', AfterFrame(r.0, r.1)) && io'.asked == io.asked && io'.disconnected == io.disconnected
      && io'.lost == io.lost + if r.1 then {} else LostWith(e, data)
  {
    hide DecodeFrame, Receive, BlipConnection.AckReceived, Tells, Life, AllPossible, ReceiveFrame, LostWith;
    var frame := DecodeFrame(data);
    if frame.Some? && frame.value.flags.typ.IsAck() {
      events := AckIsEvents(io, e, frame.value);
      assert io.lost + {} == io.lost;
    } else {
      var event := if frame.None? then Illegal else Incoming(frame.value);
      events := [event];
      OneEvent(io, event);
      FrameIsEvent(io, e, data, event);
    }
  }

  lemma UnknownAccepted(r: Receiver, f: Frame)
    ensures f.flags.typ.UnknownType? ==> Receive(r, f) == Accepted(r, None, Other)
  {
  }

  lemma {:induction false} FramesAreEvents(io: Io, e: Ends, batch: seq<seq<byte>>) returns (events: seq<Event>)
    requires Tells(io, e)
    ensures AllPossible(io, events)
    ensures var io' := Life(io, events);
      && Tells(io', BlipConnection.FramesIn(e, batch).0)
      && io'.asked == io.asked && io'.disconnected == io.disconnected && io'.lost == io.lost + LostIn(e, batch)
    decreases |batch|
  {
    hide BlipConnection.FrameIn, LostWith;
    if batch == [] || e.closing {
      events := [];
    } else {
      var first := FrameIsEvents(io, e, batch[0]);
      var r := BlipConnection.FrameIn(e, batch[0]);
      events := first;
      if r.1 {
        var later := FramesAreEvents(Life(io, first), r.0, batch[1..]);
        LifeAppend(io, first, later);
        events := first + later;
      }
    }
  }

  lemma ClosedTells(io: Io, e: Ends)
    requires Tells(io, e)
    ensures var io' := Closed(io);
      && Tells(io', if e.open then BlipConnection.Cancelled(e).(open := false) else e)
      && io'.asked == io.asked && io'.lost == io.lost
      && io'.disconnected == io.disconnected + if e.open then BlipConnection.Reports(e) else multiset{}
  {
    hide Expecting;
  }

  lemma QueueIsEvents(io: Io, e: Ends, m: OutMsg) returns (events: seq<Event>)
    requires Tells(io, e) && Possible(io, Queue(m))
    ensures AllPossible(io, events)
    ensures var io' := Life(io, events);
      && Tells(io', BlipConnection.Queued(e, m)) && io'.disconnected == io.disconnected && io'.lost == io.lost
      && io'.asked == io.asked + if e.open && !e.closing && m.ExpectsReply() then {Number(e.send, m).number} else {}
  {
    hide BlipConnection.WriteAll, Enqueue, Life, AllPossible;
    OneEvent(io, Queue(m));
    var queued := Happens(io, Queue(m));
    events := [Queue(m)];
    if e.open && !e.closing {
      var writes := WriteAllIsWrites(queued, e.(send := Enqueue(e.send, m)));
      LifeAppend(io, [Queue(m)], writes);
      events := [Queue(m)] + writes;
    }
  }

  /** Every call of a method of the object is some events in the life of a connection, with the same
      reports. */
  lemma CallIsEvents(io: Io, e: Ends, c: Call) returns (events: seq<Event>)
    requires Tells(io, e) && MayCall(e, c)
    ensures AllPossible(io, events)
    ensures var io' := Life(io, events);
      && Tells(io', Called(e, c).0)
      && io'.asked == io.asked + AskedBy(e, c) && io'.disconnected == io.disconnected + Reported(e, c)
      && io'.lost == io.lost + LostBy(e, c)
  {
    hide BlipConnection.WriteAll, BlipConnection.FramesIn, BlipConnection.Reports, Enqueue, Life, AllPossible,
         Expecting, LostIn, WriteToSocket;
    match c
    case QueueCall(m) =>
      events := QueueIsEvents(io, e, m);
    case AckCall =>
      events := QueueIsEvents(io, e.(acks := e.acks[1..]), Network.AckOut(e.acks[0]));
    case WriteableCall =>
      events := WriteAllIsWrites(io, e.(writeable := true));
    case MessagesCall(batch) =>
      events := FramesAreEvents(io, e, batch);
    case ClosedCall(batch) =>
      var frames := FramesAreEvents(io, e, batch);
      var last := Life(io, frames);
      OneEvent(last, Close);
      ClosedTells(last, BlipConnection.FramesIn(e, batch).0);
      LifeAppend(io, frames, [Close]);
      events := frames + [Close];
  }

  // ---------------------------------------------------------------- the whole life

  /** The states of an object that starts new, and on which these methods are called. */
  ghost predicate IsHistory(es: seq<Ends>, calls: seq<Call>) {
    && |es| == |calls| + 1
    && es[0].send == NewSender() && es[0].recv == NewReceiver() && es[0].open && !es[0].closing
    && es[0].completed == multiset{}
    && forall i :: 0 <= i < |calls| ==> IsCalled(es[i], calls[i], es[i + 1])
  }

  ghost predicate IsCalled(e: Ends, c: Call, e': Ends) {
    MayCall(e, c) && BlipConnection.Like(e', Called(e, c).0, Called(e, c).1)
  }

  /** The requests for which the object owes a report, those reported as disconnected, and those whose
      replies it has lost, over all the calls. */
  ghost function AllAsked(es: seq<Ends>, calls: seq<Call>): set<MessageNo>
    requires IsHistory(es, calls)
  {
    set i, n | 0 <= i < |calls| && IsCalled(es[i], calls[i], es[i + 1]) && n in AskedBy(es[i], calls[i]) :: n
  }

  ghost function AllReported(es: seq<Ends>, calls: seq<Call>): multiset<MessageNo>
    requires |es| == |calls| + 1
  {
    if calls == [] then multiset{}
    else AllReported(es[..|calls|], calls[..|calls| - 1]) + Reported(es[|calls| - 1], calls[|calls| - 1])
  }

  ghost function AllLost(es: seq<Ends>, calls: seq<Call>): set<MessageNo>
    requires |es| == |calls| + 1
  {
    set i, n | 0 <= i < |calls| && n in LostBy(es[i], calls[i]) :: n
  }

  lemma LikeTells(io: Io, e: Ends, c: Call, e': Ends)
    requires MayCall(e, c) && Tells(io, Called(e, c).0) && IsCalled(e, c, e')
    requires !Called(e, c).1 ==> Called(e, c).0.closing
    ensures Tells(io, e')
  {
    hide BlipConnection.FramesIn, BlipConnection.Queued, BlipConnection.WriteAll;
  }

  /** After an error the connection is closing. */
  lemma {:induction false} ErrorCloses(e: Ends, batch: seq<seq<byte>>)
    requires e.open
    ensures var r := BlipConnection.FramesIn(e, batch); !r.1 ==> r.0.closing
    decreases |batch|
  {
    hide BlipConnection.FrameIn;
    if batch != [] && !e.closing {
      StaysOpen(e, batch[0]);
      ErrorCloses(BlipConnection.FrameIn(e, batch[0]).0, batch[1..]);
    }
  }

  lemma StaysOpen(e: Ends, data: seq<byte>)
    ensures BlipConnection.FrameIn(e, data).0.open == e.open
  {
    hide DecodeFrame, Receive, BlipConnection.AckReceived, BlipConnection.WriteAll, ReceivedAck;
    var f := DecodeFrame(data);
    if f.Some? && f.value.flags.typ.IsAck() {
      var onResponse := f.value.flags.typ.AckResponseType?;
      BlipConnection.AckReceivedSteps(e, f.value.number, onResponse, f.value.payload);
      WriteAllOpen(e.(send := ReceivedAck(e.send, f.value.number, onResponse, f.value.payload)));
    }
  }

  lemma {:induction false} WriteAllOpen(e: Ends)
    ensures BlipConnection.WriteAll(e).open == e.open
    decreases Work(e.send.outbox)
  {
    hide WriteFrame;
    if e.writeable && e.send.outbox != [] {
      WriteFrameProgress(e.send);
      WriteAllOpen(BlipConnection.WriteRound(e));
    }
  }

  /** The requests of the object fare as those of some life of a connection. */
  lemma {:induction false} HistoryIsLife(es: seq<Ends>, calls: seq<Call>) returns (events: seq<Event>)
    requires IsHistory(es, calls)
    ensures AllPossible(NewIo(), events)
    ensures var io := Life(NewIo(), events);
      && Tells(io, es[|calls|]) && io.asked == AllAsked(es, calls) && io.disconnected == AllReported(es, calls)
      && io.lost == AllLost(es, calls)
    decreases |calls|
  {
    hide Life, AllPossible, Called, Tells, AskedBy, LostBy, Reported, IsCalled;
    if calls == [] {
      events := [];
      NewTells(es[0]);
    } else {
      var k := |calls| - 1;
      var es', calls' := es[..|calls|], calls[..k];
      LastCall(es, calls);
      var before := HistoryIsLife(es', calls');
      var last := CallIsEvents(Life(NewIo(), before), es[k], calls[k]);
      LifeAppend(NewIo(), before, last);
      events := before + last;
      ErrorInCall(es[k], calls[k]);
      LikeTells(Life(NewIo(), events), es[k], calls[k], es[k + 1]);
      AskedMore(es, calls, es', calls');
    }
  }

  lemma LastCall(es: seq<Ends>, calls: seq<Call>)
    requires IsHistory(es, calls) && calls != []
    ensures var k := |calls| - 1;
      IsHistory(es[..|calls|], calls[..k]) && IsCalled(es[k], calls[k], es[k + 1]) && MayCall(es[k], calls[k])
  {
    hide Called, MayCall;
    var k := |calls| - 1;
    assert IsCalled(es[k], calls[k], es[k + 1]);
    forall i | 0 <= i < k ensures IsCalled(es[..|calls|][i], calls[..k][i], es[..|calls|][i + 1]) {
      assert IsCalled(es[i], calls[i], es[i + 1]);
    }
  }

  lemma NewTells(e: Ends)
    requires e.send == NewSender() && e.recv == NewReceiver() && e.open && !e.closing && e.completed == multiset{}
    ensures AllPossible(NewIo(), []) && Life(NewIo(), []) == NewIo() && Tells(NewIo(), e)
  {
  }

  lemma ErrorInCall(e: Ends, c: Call)
    requires MayCall(e, c)
    ensures !Called(e, c).1 ==> Called(e, c).0.closing
  {
    hide BlipConnection.Queued, BlipConnection.WriteAll, BlipConnection.FrameIn, BlipConnection.AckQueued;
    match c
    case MessagesCall(batch) =>
      if e.open {
        ErrorCloses(e, batch);
      }
    case ClosedCall(batch) =>
      if e.open {
        ErrorCloses(e, batch);
      }
    case _ =>
  }

  lemma AskedMore(es: seq<Ends>, calls: seq<Call>, es': seq<Ends>, calls': seq<Call>)
    requires IsHistory(es, calls) && calls != []
    requires es' == es[..|calls|] && calls' == calls[..|calls| - 1] && IsHistory(es', calls')
    ensures var k := |calls| - 1;
      && IsCalled(es[k], calls[k], es[k + 1])
      && AllAsked(es, calls) == AllAsked(es', calls') + AskedBy(es[k], calls[k])
      && AllLost(es, calls) == AllLost(es', calls') + LostBy(es[k], calls[k])
  {
    hide IsCalled, AskedBy, LostBy, Called;
    var k := |calls| - 1;
    assert IsCalled(es[k], calls[k], es[k + 1]);
    forall i | 0 <= i < k ensures IsCalled(es'[i], calls'[i], es'[i + 1]) {
      assert IsCalled(es[i], calls[i], es[i + 1]);
    }
    forall i | 0 <= i < k ensures es'[i] == es[i] && calls'[i] == calls[i] && IsCalled(es[i], calls[i], es[i + 1]) {
    }
  }

  /** Whatever the methods of the object are called with, once it is closed: each request that expects a
      reply has been reported complete or disconnected exactly once, unless its reply has been lost, and
      then never. */
  lemma ObjectEndsRequests(es: seq<Ends>, calls: seq<Call>, n: MessageNo)
    requires IsHistory(es, calls) && !es[|calls|].open && n in AllAsked(es, calls)
    ensures es[|calls|].completed[n] + AllReported(es, calls)[n] == if n in AllLost(es, calls) then 0 else 1
  {
    hide IsHistory, AllAsked, AllReported, AllLost, Life, AllPossible;
    var events := HistoryIsLife(es, calls);
    ExactlyOneEnding(events, n);
  }

  /** Whatever the methods of an open object were called with: it accepts some bytes as the next frame if and
      only if they have a header and what follows is acceptable under the number and the flags in it. */
  lemma ObjectAccepts(es: seq<Ends>, calls: seq<Call>, data: seq<byte>)
    requires IsHistory(es, calls) && !es[|calls|].closing
    ensures BlipConnection.FrameIn(es[|calls|], data).1
       <==> DecodeFrame(data).Some? && Acceptable(es[|calls|].recv, DecodeFrame(data).value)
  {
    hide AllAsked, AllReported, AllLost, Life, AllPossible, Receive, Acceptable, DecodeFrame,
         BlipConnection.AckReceived, IsCalled;
    var events := HistoryIsLife(es, calls);
    BeginsTidy(NewReceiver(), 0);
    LifeTidy(NewIo(), events);
    var r := es[|calls|].recv;
    var f := DecodeFrame(data);
    if f.Some? {
      AcceptedIff(r, f.value);
      AckAcceptable(r, f.value);
      UnknownAccepted(r, f.value);
    }
  }

  // ---------------------------------------------------------------- never idle

  /** Nothing is left to send, or the socket is full. */
  predicate Busy(e: Ends) {
    e.send.outbox == [] || !e.writeable
  }

  lemma WriteAllBusy(e: Ends)
    ensures Busy(BlipConnection.WriteAll(e))
  {
    BlipConnection.WriteAllEnds(e);
  }

  lemma FrameBusy(e: Ends, data: seq<byte>)
    requires Busy(e)
    ensures Busy(BlipConnection.FrameIn(e, data).0)
  {
    hide DecodeFrame, Receive, BlipConnection.AckReceived, BlipConnection.WriteAll, AcceptAck, ReadUVarInt;
    var f := DecodeFrame(data);
    if f.Some? && f.value.flags.typ.IsAck() {
      var onResponse := f.value.flags.typ.AckResponseType?;
      BlipConnection.AckReceivedSteps(e, f.value.number, onResponse, f.value.payload);
      WriteAllBusy(e.(send := ReceivedAck(e.send, f.value.number, onResponse, f.value.payload)));
      AckThaws(e.send, f.value.number, onResponse, f.value.payload);
    }
  }

  /** An ACK that thaws nothing adds nothing to the outbox. */
  lemma AckThaws(s: Sender, number: nat, onResponse: bool, payload: seq<byte>)
    ensures var s' := ReceivedAck(s, number, onResponse, payload);
      |s'.icebox| >= |s.icebox| ==> |s'.outbox| == |s.outbox|
  {
    hide AcceptAck, ReadUVarInt;
  }

  lemma {:induction false} FramesBusy(e: Ends, batch: seq<seq<byte>>)
    requires Busy(e)
    ensures Busy(BlipConnection.FramesIn(e, batch).0)
    decreases |batch|
  {
    hide BlipConnection.FrameIn;
    if batch != [] && !e.closing {
      FrameBusy(e, batch[0]);
      FramesBusy(BlipConnection.FrameIn(e, batch[0]).0, batch[1..]);
    }
  }

  lemma CallBusy(e: Ends, c: Call)
    requires Busy(e) && MayCall(e, c)
    ensures Busy(Called(e, c).0)
  {
    hide BlipConnection.WriteAll, BlipConnection.FramesIn, Enqueue;
    match c
    case QueueCall(m) => WriteAllBusy(e.(send := Enqueue(e.send, m)));
    case AckCall =>
      WriteAllBusy(e.(acks := e.acks[1..], send := Enqueue(e.send, Network.AckOut(e.acks[0]))));
    case WriteableCall => WriteAllBusy(e.(writeable := true));
    case MessagesCall(batch) => FramesBusy(e, batch);
    case ClosedCall(batch) => FramesBusy(e, batch);
  }

  /** Whatever the methods of an object were called with, it never rests while it has frames to send and its
      socket takes more. */
  lemma {:induction false} NeverIdle(es: seq<Ends>, calls: seq<Call>)
    requires IsHistory(es, calls)
    ensures Busy(es[|calls|])
    decreases |calls|
  {
    hide Called, MayCall, IsCalled;
    if calls != [] {
      LastCall(es, calls);
      var k := |calls| - 1;
      NeverIdle(es[..|calls|], calls[..k]);
      LikeBusy(es[k], calls[k], es[k + 1]);
    }
  }

  lemma LikeBusy(e: Ends, c: Call, e': Ends)
    requires Busy(e) && IsCalled(e, c, e')
    ensures Busy(e')
  {
    hide Called;
    CallBusy(e, c);
  }
}
