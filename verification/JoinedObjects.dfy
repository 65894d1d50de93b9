/** Two connection objects joined by their wires: whatever their methods are called with, together they do
    what a run of the network model does. */
module JoinedObjects {
  import opened Bytes
  import opened Messages
  import opened MessagesOut
  import opened Outbox
  import opened Senders
  import opened Receivers
  import opened Network
  import opened Invariants
  import opened Delivery
  import opened Theorems
  import opened ReplyTheorems
  import BlipConnection

  type Ends = BlipConnection.Ends

  /** One object, with the number of frames on its wire that the other has handled, and of requests that it
      has responded to. */
  datatype Side = Side(ends: Ends, handled: nat, responded: set<MessageNo>)

  datatype Pair = Pair(a: Side, b: Side)

  function Swapped(p: Pair): Pair {
    Pair(p.b, p.a)
  }

  // ---------------------------------------------------------------- calls

  datatype Call =
    | QueueCall(msg: OutMsg, sent: Sent)  // QueueMessage, of a request or a reply
    | AckCall                             // QueueNextAck
    | WriteableCall                       // OnWebSocketWriteable
    | FrameCall                           // OnWebSocketMessages, of the next frame on the other's wire

  /** The bytes a message has sent and may still send, checksums included, stay below the limit. */
  predicate Fits(m: OutMsg) {
    m.bytesSent + 2 * |Content(m)| + BIG_FRAME_SIZE < UINT32_LIMIT
  }

  /** Handlers respond once to complete requests; ACKs have a number. */
  predicate MayCall(p: Pair, c: Call) {
    var e := p.a.ends;
    match c
    case QueueCall(m, s) =>
      && Fresh(m, s) && Fits(m)
      && if m.typ.RequestType? then m.number == 0 && e.send.lastMessageNo + 1 < UINT64_LIMIT
         else
           && (m.typ.ResponseType? || m.typ.ErrorType?) && m.number != 0
           && Key(false, m.number) in e.recv.delivered && !e.recv.delivered[Key(false, m.number)].noReply
           && m.number !in p.a.responded
    case AckCall => e.acks != [] && e.acks[0].number != 0
    case WriteableCall => true
    case FrameCall => p.b.handled < |p.b.ends.wire|
  }

  /** What a call of the first object does, as its method says. */
  function Called(p: Pair, c: Call): Pair
    requires MayCall(p, c)
  {
    var e := p.a.ends;
    match c
    case QueueCall(m, s) =>
      p.(a := p.a.(ends := BlipConnection.Queued(e, m),
                   responded := if m.typ.RequestType? then p.a.responded else p.a.responded + {m.number}))
    case AckCall => p.(a := p.a.(ends := BlipConnection.AckQueued(e)))
    case WriteableCall => p.(a := p.a.(ends := BlipConnection.WriteAll(e.(writeable := true))))
    case FrameCall =>
      p.(a := p.a.(ends := BlipConnection.FramesIn(e, [p.b.ends.wire[p.b.handled]]).0),
         b := p.b.(handled := p.b.handled + 1))
  }

  // ---------------------------------------------------------------- objects and peers

  /** What is on the wire and has not been handled is the encoding of the frames on their way. */
  ghost predicate OnWire(wire: seq<seq<byte>>, handled: nat, channel: seq<Frame>) {
    && |wire| == handled + |channel|
    && forall i :: 0 <= i < |channel| ==>
         !channel[i].flags.typ.UnknownType? && wire[handled + i] == EncodeFrame(channel[i])
  }

  /** s is the object of peer x, whose frames on their way are in out. */
  ghost predicate IsObject(s: Side, x: Peer, out: seq<Frame>) {
    && s.ends.send == x.send && s.ends.recv == x.recv && s.ends.acks == x.acks
    && s.ends.open && !s.ends.closing && s.responded == x.responded
    && OnWire(s.ends.wire, s.handled, out)
    && (forall m :: m in x.send.outbox || m in x.send.icebox ==> Fits(m))
  }

  ghost predicate Joins(p: Pair, n: Net) {
    Reachable(n) && IsObject(p.a, n.a, n.ab) && IsObject(p.b, n.b, n.ba)
  }

  lemma SwapJoins(p: Pair, n: Net)
    requires Joins(p, n)
    ensures Joins(Swapped(p), Mirror(n))
  {
    hide IsObject, Reachable;
    BothDirections(n);
  }

  // ---------------------------------------------------------------- writing

  lemma HeadIsKnown(n: Net)
    requires Reachable(n) && n.a.send.outbox != []
    ensures !n.a.send.outbox[0].typ.UnknownType?
  {
    hide IsAckOut, Mirrors, Replies, FlowControl, FlowInvariant, Reachable;
    ReachableInv(n);
    var m := n.a.send.outbox[0];
    if !m.IsAck() {
      QueuedIsLive(n, m);
    }
  }

  lemma WriteKeepsFit(s: Sender)
    requires s.outbox != [] && forall m :: m in s.outbox || m in s.icebox ==> Fits(m)
    ensures var w := WriteFrame(s); forall m :: m in w.sender.outbox || m in w.sender.icebox ==> Fits(m)
  {
    hide NextFrame, FrameRoom, Requeue, Content;
    var m, rest := s.outbox[0], s.outbox[1..];
    var sent := NextFrame(m, s.crc, FrameRoom(m, rest));
    assert m in s.outbox && forall x :: x in rest ==> x in s.outbox;
    RequeueMembers(rest, sent.msg);
    if m.IsAck() {
      AckFrame(m, s.crc, FrameRoom(m, rest));
    } else {
      NextFrameProperties(m, s.crc, FrameRoom(m, rest));
    }
  }

  lemma OnWireMore(wire: seq<seq<byte>>, handled: nat, channel: seq<Frame>, f: Frame)
    requires OnWire(wire, handled, channel) && !f.flags.typ.UnknownType?
    ensures OnWire(wire + [EncodeFrame(f)], handled, channel + [f])
  {
    hide EncodeFrame;
  }

  /** One round of the loop of writeToWebSocket. */
  lemma RoundIsNext(p: Pair, n: Net) returns (n': Net)
    requires Joins(p, n) && p.a.ends.send.outbox != []
    ensures Joins(p.(a := p.a.(ends := BlipConnection.WriteRound(p.a.ends))), n')
  {
    hide Reachable, WriteFrame, EncodeFrame, LiveAfterWrite, Fits, BlipConnection.WriteRound;
    NothingRefused(n);
    HeadIsKnown(n);
    HeadFits(n.a.send);
    assert Enabled(n.a, n.ba, Write);
    BlipConnection.WriteRoundIsStep(p.a.ends, n.a, n.ab, n.ba);
    var d := Do(n.a, n.ab, n.ba, Write);
    n' := Net(d.0, n.b, d.1, d.2);
    assert StepOfA(n, n', Write);
    ReachableNext(n, n');
    FrameKnown(n.a.send);
    OnWireMore(p.a.ends.wire, p.a.handled, n.ab, WriteFrame(n.a.send).frame);
    WriteKeepsFit(n.a.send);
    RoundKeeps(p.a.ends);
  }

  lemma HeadFits(s: Sender)
    requires s.outbox != [] && forall m :: m in s.outbox || m in s.icebox ==> Fits(m)
    ensures s.outbox[0].bytesSent + BIG_FRAME_SIZE < UINT32_LIMIT
  {
    assert s.outbox[0] in s.outbox;
  }

  lemma FrameKnown(s: Sender)
    requires s.outbox != [] && !s.outbox[0].typ.UnknownType?
    ensures !WriteFrame(s).frame.flags.typ.UnknownType?
  {
    hide NextFrame;
    NextFrameFlags(s.outbox[0], s.crc, FrameRoom(s.outbox[0], s.outbox[1..]));
  }

  lemma RoundKeeps(e: Ends)
    requires e.send.outbox != []
    ensures var e' := BlipConnection.WriteRound(e); e'.open == e.open && e'.closing == e.closing
  {
    hide WriteFrame;
  }

  /** writeToWebSocket */
  lemma {:induction false} WritesAreRun(p: Pair, n: Net) returns (n': Net)
    requires Joins(p, n)
    ensures Joins(p.(a := p.a.(ends := BlipConnection.WriteAll(p.a.ends))), n')
    decreases Work(p.a.ends.send.outbox)
  {
    hide Reachable, Joins, Work, BlipConnection.WriteRound;
    n' := n;
    if p.a.ends.writeable && p.a.ends.send.outbox != [] {
      BlipConnection.RoundProgress(p.a.ends);
      var next := RoundIsNext(p, n);
      n' := WritesAreRun(p.(a := p.a.(ends := BlipConnection.WriteRound(p.a.ends))), next);
    }
  }

  // ---------------------------------------------------------------- queueing

  lemma EnqueueKeepsFit(s: Sender, m: OutMsg)
    requires Fits(m) && (m.number == 0 ==> s.lastMessageNo + 1 < UINT64_LIMIT)
    requires forall x :: x in s.outbox || x in s.icebox ==> Fits(x)
    ensures var s' := Enqueue(s, m); forall x :: x in s'.outbox || x in s'.icebox ==> Fits(x)
  {
    hide Requeue;
    RequeueMembers(s.outbox, Number(s, m));
  }

  lemma QueueIsRun(p: Pair, n: Net, m: OutMsg, s: Sent) returns (n': Net)
    requires Joins(p, n) && MayCall(p, QueueCall(m, s))
    ensures Joins(Called(p, QueueCall(m, s)), n')
  {
    hide Reachable, Fresh, Fits, Enqueue, BlipConnection.WriteAll;
    NothingRefused(n);
    var step := if m.typ.RequestType? then QueueRequest(m, s) else QueueReply(m, s);
    assert Enabled(n.a, n.ba, step);
    var d := Do(n.a, n.ab, n.ba, step);
    var next := Net(d.0, n.b, d.1, d.2);
    assert StepOfA(n, next, step);
    ReachableNext(n, next);
    EnqueueKeepsFit(n.a.send, m);
    var q := p.(a := p.a.(ends := p.a.ends.(send := Enqueue(p.a.ends.send, m)),
                          responded := if m.typ.RequestType? then p.a.responded else p.a.responded + {m.number}));
    n' := WritesAreRun(q, next);
  }

  /** An ACK that is wanted counts bytes that have been sent. */
  lemma AckCount(n: Net)
    requires Reachable(n) && n.a.acks != []
    ensures n.a.acks[0].count < UINT32_LIMIT
  {
    hide Reachable, SenderInv, Mirrors, Replies, AckedOrPending, HasBegun, PutUVarInt;
    BothDirections(n);
    ReachableInv(Mirror(n));
    ReachableReplies(Mirror(n));
    var acks := n.a.acks + Arrived(Mirror(n)).acks;
    var a := n.a.acks[0];
    assert a in acks;
    assert AckPending(a, acks, n.a.send.outbox, n.ab);
  }

  lemma AckFits(a: Ack)
    requires a.count < UINT32_LIMIT
    ensures Fits(AckOut(a)) && AckOut(a).number == a.number
  {
    VarIntMaxLengths(a.count);
  }

  lemma AckIsRun(p: Pair, n: Net) returns (n': Net)
    requires Joins(p, n) && MayCall(p, AckCall)
    ensures Joins(Called(p, AckCall), n')
  {
    hide Reachable, Fits, Enqueue, BlipConnection.WriteAll, AckOut;
    NothingRefused(n);
    AckCount(n);
    AckFits(n.a.acks[0]);
    assert Enabled(n.a, n.ba, QueueAck);
    var d := Do(n.a, n.ab, n.ba, QueueAck);
    var next := Net(d.0, n.b, d.1, d.2);
    assert StepOfA(n, next, QueueAck);
    ReachableNext(n, next);
    EnqueueKeepsFit(n.a.send, AckOut(n.a.acks[0]));
    var e := p.a.ends;
    var q := p.(a := p.a.(ends := e.(send := Enqueue(e.send, AckOut(e.acks[0])), acks := e.acks[1..])));
    n' := WritesAreRun(q, next);
  }

  // ---------------------------------------------------------------- frames

  lemma AckKeepsFit(s: Sender, number: nat, onResponse: bool, payload: seq<byte>)
    requires forall m :: m in s.outbox || m in s.icebox ==> Fits(m)
    ensures var s' := ReceivedAck(s, number, onResponse, payload);
      forall m :: m in s'.outbox || m in s'.icebox ==> Fits(m)
  {
    hide Requeue, ReadUVarInt, Content;
    var i := FindMessage(s.outbox, number, onResponse);
    var j := FindMessage(s.icebox, number, onResponse);
    var count := ReadUVarInt(payload, UINT32_LIMIT);
    if count.Some? && i.Some? {
      assert s.outbox[i.value] in s.outbox;
      AcceptAckContent(s.outbox[i.value], count.value.0);
    } else if count.Some? && j.Some? {
      assert s.icebox[j.value] in s.icebox;
      AcceptAckContent(s.icebox[j.value], count.value.0);
      RequeueMembers(s.outbox, AcceptAck(s.icebox[j.value], count.value.0));
    }
  }

  lemma OnWireFirst(wire: seq<seq<byte>>, handled: nat, channel: seq<Frame>)
    requires OnWire(wire, handled, channel) && handled < |wire|
    ensures channel != [] && !channel[0].flags.typ.UnknownType? && wire[handled] == EncodeFrame(channel[0])
    ensures OnWire(wire, handled + 1, channel[1..])
  {
    hide EncodeFrame;
  }

  lemma OneFrame(e: Ends, data: seq<byte>)
    requires !e.closing && BlipConnection.FrameIn(e, data).1
    ensures BlipConnection.FramesIn(e, [data]) == (BlipConnection.FrameIn(e, data).0, true)
  {
    hide BlipConnection.FrameIn;
    assert [data][1..] == [];
  }

  lemma FrameIsRun(p: Pair, n: Net) returns (n': Net)
    requires Joins(p, n) && MayCall(p, FrameCall)
    ensures BlipConnection.FrameIn(p.a.ends, p.b.ends.wire[p.b.handled]).1
    ensures Joins(Called(p, FrameCall), n')
  {
    hide Reachable, Fits, EncodeFrame, DoDeliver, BlipConnection.WriteAll, BlipConnection.FrameIn, OnWire;
    NothingRefused(n);
    OnWireFirst(p.b.ends.wire, p.b.handled, n.ba);
    var f := n.ba[0];
    assert Enabled(n.a, n.ba, Deliver);
    var next := Net(DoDeliver(n.a, f), n.b, n.ab, n.ba[1..]);
    assert StepOfA(n, next, Deliver);
    ReachableNext(n, next);
    NothingRefused(next);
    BlipConnection.FrameInIsStep(p.a.ends, n.a, f);
    DeliverKeeps(n.a, f);
    var e, x := p.a.ends, next.a;
    OneFrame(e, EncodeFrame(f));
    var q := p.(b := p.b.(handled := p.b.handled + 1));
    if f.flags.typ.IsAck() {
      q := q.(a := p.a.(ends := e.(send := x.send)));
      n' := next;
      if |x.send.icebox| < |e.send.icebox| {
        n' := WritesAreRun(q, next);
      }
    } else {
      n' := next;
    }
  }

  lemma DeliverKeeps(x: Peer, f: Frame)
    requires forall m :: m in x.send.outbox || m in x.send.icebox ==> Fits(m)
    ensures var x' := DoDeliver(x, f);
      && x'.responded == x.responded
      && (forall m :: m in x'.send.outbox || m in x'.send.icebox ==> Fits(m))
      && if f.flags.typ.IsAck() then x'.recv == x.recv && x'.acks == x.acks else x'.send == x.send
  {
    hide ReceivedAck, Receive, Fits, LiveAfterAck;
    if f.flags.typ.IsAck() {
      AckKeepsFit(x.send, f.number, f.flags.typ.AckResponseType?, f.payload);
    }
  }

  // ---------------------------------------------------------------- every history

  lemma CallIsRun(p: Pair, n: Net, c: Call) returns (n': Net)
    requires Joins(p, n) && MayCall(p, c)
    ensures Joins(Called(p, c), n')
  {
    hide Joins, Fresh, Fits, BlipConnection.WriteAll, BlipConnection.FramesIn, BlipConnection.Queued,
         BlipConnection.AckQueued;
    match c
    case QueueCall(m, s) =>
      n' := QueueIsRun(p, n, m, s);
    case AckCall =>
      n' := AckIsRun(p, n);
    case WriteableCall =>
      NowWriteable(p, n);
      n' := WritesAreRun(p.(a := p.a.(ends := p.a.ends.(writeable := true))), n);
    case FrameCall =>
      n' := FrameIsRun(p, n);
  }

  lemma NowWriteable(p: Pair, n: Net)
    requires Joins(p, n)
    ensures Joins(p.(a := p.a.(ends := p.a.ends.(writeable := true))), n)
  {
    hide Reachable, Fits, OnWire;
  }

  /** A call of the first object, or of the second. */
  predicate Follows(p: Pair, ofA: bool, c: Call, p': Pair) {
    if ofA then MayCall(p, c) && p' == Called(p, c)
    else MayCall(Swapped(p), c) && Swapped(p') == Called(Swapped(p), c)
  }

  /** Two new objects, and any calls of their methods. */
  ghost predicate IsHistory(ps: seq<Pair>, calls: seq<(bool, Call)>) {
    && |ps| == |calls| + 1 && IsNew(ps[0].a) && IsNew(ps[0].b)
    && forall i :: 0 <= i < |calls| ==> Follows(ps[i], calls[i].0, calls[i].1, ps[i + 1])
  }

  predicate IsNew(s: Side) {
    && s.ends.send == NewSender() && s.ends.recv == NewReceiver() && s.ends.acks == [] && s.ends.wire == []
    && s.ends.open && !s.ends.closing && s.handled == 0 && s.responded == {}
  }

  lemma NewJoins(p: Pair)
    requires IsNew(p.a) && IsNew(p.b)
    ensures Joins(p, NewNet())
  {
    assert IsRun([NewNet()]);
  }

  /** Two objects joined by their wires are always in the state of two peers that some run of the network
      model has led to: everything proved of those runs holds of the objects. */
  lemma {:induction false} HistoryIsRun(ps: seq<Pair>, calls: seq<(bool, Call)>) returns (n: Net)
    requires IsHistory(ps, calls)
    ensures Joins(ps[|calls|], n)
    decreases |calls|
  {
    hide Joins, Follows, IsNew;
    if calls == [] {
      n := NewNet();
      NewJoins(ps[0]);
    } else {
      var k := |calls| - 1;
      assert Follows(ps[k], calls[k].0, calls[k].1, ps[k + 1]);
      HistoryBefore(ps, calls);
      var before := HistoryIsRun(ps[..|calls|], calls[..k]);
      n := FollowsIsRun(ps[k], before, calls[k].0, calls[k].1, ps[k + 1]);
    }
  }

  lemma HistoryBefore(ps: seq<Pair>, calls: seq<(bool, Call)>)
    requires IsHistory(ps, calls) && calls != []
    ensures IsHistory(ps[..|calls|], calls[..|calls| - 1])
  {
    hide Follows, IsNew;
    var qs, ds := ps[..|calls|], calls[..|calls| - 1];
    forall i | 0 <= i < |ds| ensures Follows(qs[i], ds[i].0, ds[i].1, qs[i + 1]) {
      assert Follows(ps[i], calls[i].0, calls[i].1, ps[i + 1]);
    }
  }

  lemma FollowsIsRun(p: Pair, n: Net, ofA: bool, c: Call, p': Pair) returns (n': Net)
    requires Joins(p, n) && Follows(p, ofA, c, p')
    ensures Joins(p', n')
  {
    hide Joins, MayCall, Called;
    if ofA {
      n' := CallIsRun(p, n, c);
    } else {
      SwapJoins(p, n);
      var m := CallIsRun(Swapped(p), Mirror(n), c);
      SwapJoins(Swapped(p'), m);
      n' := Mirror(m);
    }
  }

  /** Neither of two joined objects ever refuses a frame of the other, or closes because of one. */
  lemma NoErrors(ps: seq<Pair>, calls: seq<(bool, Call)>)
    requires IsHistory(ps, calls)
    ensures var p := ps[|calls|];
      && p.a.ends.open && !p.a.ends.closing && p.b.ends.open && !p.b.ends.closing
      && (p.b.handled < |p.b.ends.wire| ==> BlipConnection.FrameIn(p.a.ends, p.b.ends.wire[p.b.handled]).1)
      && (p.a.handled < |p.a.ends.wire| ==> BlipConnection.FrameIn(p.b.ends, p.a.ends.wire[p.a.handled]).1)
  {
    hide Follows, Reachable, OnWire, Fits, BlipConnection.FrameIn;
    var p := ps[|calls|];
    var n := HistoryIsRun(ps, calls);
    SwapJoins(p, n);
    if p.b.handled < |p.b.ends.wire| {
      var m := FrameIsRun(p, n);
    }
    if p.a.handled < |p.a.ends.wire| {
      var m := FrameIsRun(Swapped(p), Mirror(n));
    }
  }
}
