/** Two peers settle: unless new messages are queued, only so many steps can be taken, and when none is left
    every request has been delivered. */
module Settling {
  import opened Bytes
  import opened Messages
  import opened MessagesOut
  import opened MessagesIn
  import opened Outbox
  import opened Senders
  import opened Receivers
  import opened Network
  import opened Invariants
  import opened Delivery
  import opened Safety
  import opened Theorems
  import opened ReplyFlow
  import opened ReplyTheorems
  import opened Waiting

  // ---------------------------------------------------------------- what is left to do

  /** Each frame of a message carries a byte of it, but for the last; it can make an ACK be asked for, which
      is then queued, written and handled. */
  function MessageWeight(m: OutMsg): nat {
    if m.IsAck() then 2 else 5 * (1 + |Content(m)|)
  }

  function QueueWeight(q: seq<OutMsg>): nat {
    if q == [] then 0 else MessageWeight(q[0]) + QueueWeight(q[1..])
  }

  function FrameWeight(f: Frame): nat {
    if f.flags.typ.IsAck() then 1 else 4
  }

  function ChannelWeight(channel: seq<Frame>): nat {
    if channel == [] then 0 else FrameWeight(channel[0]) + ChannelWeight(channel[1..])
  }

  function PeerWeight(x: Peer): nat {
    QueueWeight(x.send.outbox) + QueueWeight(x.send.icebox) + 3 * |x.acks|
  }

  function Weight(n: Net): nat {
    PeerWeight(n.a) + PeerWeight(n.b) + ChannelWeight(n.ab) + ChannelWeight(n.ba)
  }

  lemma {:induction false} QueueWeightAppend(a: seq<OutMsg>, b: seq<OutMsg>)
    ensures QueueWeight(a + b) == QueueWeight(a) + QueueWeight(b)
  {
    if a == [] {
      assert a + b == b;
    } else {
      QueueWeightAppend(a[1..], b);
      assert (a + b)[0] == a[0] && (a + b)[1..] == a[1..] + b;
    }
  }

  lemma QueueWeightMiddle(a: seq<OutMsg>, m: OutMsg, b: seq<OutMsg>)
    ensures QueueWeight(a + [m] + b) == QueueWeight(a) + MessageWeight(m) + QueueWeight(b)
  {
    hide MessageWeight;
    QueueWeightAppend(a + [m], b);
    QueueWeightAppend(a, [m]);
    assert [m][1..] == [];
  }

  lemma RequeueWeight(q: seq<OutMsg>, m: OutMsg)
    ensures QueueWeight(Requeue(q, m)) == QueueWeight(q) + MessageWeight(m)
  {
    hide QueueWeight, MessageWeight;
    var i := InsertPos(q, m);
    assert q == q[..i] + q[i..];
    QueueWeightMiddle(q[..i], m, q[i..]);
    QueueWeightAppend(q[..i], q[i..]);
  }

  lemma UpdateWeight(q: seq<OutMsg>, i: nat, m: OutMsg)
    requires i < |q|
    ensures QueueWeight(q[i := m]) == QueueWeight(q) - MessageWeight(q[i]) + MessageWeight(m)
    ensures QueueWeight(RemoveAt(q, i)) == QueueWeight(q) - MessageWeight(q[i])
  {
    hide QueueWeight, MessageWeight;
    assert q == q[..i] + [q[i]] + q[i + 1..];
    assert q[i := m] == q[..i] + [m] + q[i + 1..];
    QueueWeightMiddle(q[..i], q[i], q[i + 1..]);
    QueueWeightMiddle(q[..i], m, q[i + 1..]);
    QueueWeightAppend(q[..i], q[i + 1..]);
  }

  lemma {:induction false} ChannelWeightAppend(channel: seq<Frame>, f: Frame)
    ensures ChannelWeight(channel + [f]) == ChannelWeight(channel) + FrameWeight(f)
  {
    if channel == [] {
      assert channel + [f] == [f] && [f][1..] == [];
    } else {
      ChannelWeightAppend(channel[1..], f);
      assert (channel + [f])[0] == channel[0] && (channel + [f])[1..] == channel[1..] + [f];
    }
  }

  lemma AckKeepsWeight(m: OutMsg, count: nat)
    ensures MessageWeight(AcceptAck(m, count)) == MessageWeight(m)
  {
    AcceptAckContent(m, count);
  }

  lemma AckWeight(s: Sender, number: nat, onResponse: bool, payload: seq<byte>)
    ensures var s' := ReceivedAck(s, number, onResponse, payload);
      QueueWeight(s'.outbox) + QueueWeight(s'.icebox) == QueueWeight(s.outbox) + QueueWeight(s.icebox)
  {
    hide QueueWeight, MessageWeight, AcceptAck, Requeue, RemoveAt, ReadUVarInt;
    var i := FindMessage(s.outbox, number, onResponse);
    var j := FindMessage(s.icebox, number, onResponse);
    var count := ReadUVarInt(payload, UINT32_LIMIT);
    if count.Some? && i.Some? {
      var m := s.outbox[i.value];
      AckKeepsWeight(m, count.value.0);
      UpdateWeight(s.outbox, i.value, AcceptAck(m, count.value.0));
    } else if count.Some? && j.Some? {
      var m := s.icebox[j.value];
      AckKeepsWeight(m, count.value.0);
      UpdateWeight(s.icebox, j.value, AcceptAck(m, count.value.0));
      RequeueWeight(s.outbox, AcceptAck(m, count.value.0));
    }
  }

  lemma WriteWeight(s: Sender)
    requires s.outbox != []
    ensures var w := WriteFrame(s);
      QueueWeight(w.sender.outbox) + QueueWeight(w.sender.icebox) + FrameWeight(w.frame)
      < QueueWeight(s.outbox) + QueueWeight(s.icebox)
  {
    hide NextFrame, FrameRoom, Requeue, Content;
    var m, rest := s.outbox[0], s.outbox[1..];
    var sent := NextFrame(m, s.crc, FrameRoom(m, rest));
    if m.IsAck() {
      AckFrame(m, s.crc, FrameRoom(m, rest));
    } else {
      NextFrameProperties(m, s.crc, FrameRoom(m, rest));
      NextFrameFlags(m, s.crc, FrameRoom(m, rest));
      RequeueWeight(rest, sent.msg);
      QueueWeightAppend(s.icebox, [sent.msg]);
      assert [sent.msg][1..] == [];
    }
  }

  // ---------------------------------------------------------------- every step

  predicate Queues(step: Step) {
    step.QueueRequest? || step.QueueReply?
  }

  /** Every step but the queueing of a request or a reply leaves less to do. */
  lemma StepWeight(x: Peer, out: seq<Frame>, incoming: seq<Frame>, step: Step)
    requires Enabled(x, incoming, step) && !Queues(step)
    ensures var d := Do(x, out, incoming, step);
      PeerWeight(d.0) + ChannelWeight(d.1) + ChannelWeight(d.2)
      < PeerWeight(x) + ChannelWeight(out) + ChannelWeight(incoming)
  {
    hide MessageWeight, WriteFrame, ReceivedAck, Receive, Requeue, LiveAfterAck, LiveAfterWrite, AckOut, FrameWeight;
    match step
    case QueueAck =>
      AckOutWeight(x.acks[0]);
      RequeueWeight(x.send.outbox, AckOut(x.acks[0]));
    case Write =>
      WriteWeight(x.send);
      ChannelWeightAppend(out, WriteFrame(x.send).frame);
    case Deliver =>
      var f := incoming[0];
      HeadWeight(f);
      if f.flags.typ.IsAck() {
        AckWeight(x.send, f.number, f.flags.typ.AckResponseType?, f.payload);
      }
  }

  lemma AckOutWeight(a: Ack)
    requires a.number != 0
    ensures MessageWeight(AckOut(a)) == 2 && AckOut(a).number == a.number
  {
    hide PutUVarInt;
  }

  lemma HeadWeight(f: Frame)
    ensures FrameWeight(f) == if f.flags.typ.IsAck() then 1 else 4
  {
  }

  lemma MoveWeight(n: Net, n': Net, move: Move)
    requires Moves(n, n', move) && !Queues(move.step)
    ensures Weight(n') < Weight(n)
  {
    hide Do, Enabled, PeerWeight;
    if move.ofA {
      StepWeight(n.a, n.ab, n.ba, move.step);
    } else {
      StepWeight(n.b, n.ba, n.ab, move.step);
    }
  }

  predicate QueuesNothing(moves: seq<Move>) {
    forall i :: 0 <= i < |moves| ==> !Queues(moves[i].step)
  }

  /** Unless requests or replies are queued, only so many steps can be taken. */
  lemma {:induction false} RunsEnd(path: seq<Net>, moves: seq<Move>)
    requires IsPath(path, moves) && QueuesNothing(moves)
    ensures |moves| + Weight(path[|moves|]) <= Weight(path[0])
    decreases |moves|
  {
    hide Moves, Weight;
    if moves != [] {
      assert Moves(path[0], path[1], moves[0]);
      MoveWeight(path[0], path[1], moves[0]);
      PathTail(path, moves);
      RunsEnd(path[1..], moves[1..]);
    }
  }

  lemma PathTail(path: seq<Net>, moves: seq<Move>)
    requires IsPath(path, moves) && moves != []
    ensures IsPath(path[1..], moves[1..])
  {
    hide Moves;
    forall i | 0 <= i < |moves| - 1 ensures Moves(path[1..][i], path[1..][i + 1], moves[1..][i]) {
      assert Moves(path[i + 1], path[i + 2], moves[i + 1]);
    }
  }

  // ---------------------------------------------------------------- settled

  /** x can take no step but to queue a request or a reply. */
  predicate Still(x: Peer, incoming: seq<Frame>) {
    !Enabled(x, incoming, QueueAck) && !Enabled(x, incoming, Write) && !Enabled(x, incoming, Deliver)
  }

  predicate Settled(n: Net) {
    Still(n.a, n.ba) && Still(n.b, n.ab)
  }

  /** From every state, the two peers can go on until they are settled. */
  lemma {:induction false} Settles(n: Net) returns (path: seq<Net>, moves: seq<Move>)
    ensures IsPath(path, moves) && path[0] == n && QueuesNothing(moves) && Settled(path[|moves|])
    decreases Weight(n)
  {
    hide Moves, Enabled, Weight;
    if Settled(n) {
      path, moves := [n], [];
    } else {
      var move, n' := SomeMove(n);
      MoveWeight(n, n', move);
      var path', moves' := Settles(n');
      path, moves := [n] + path', [move] + moves';
      forall i | 0 <= i < |moves| ensures Moves(path[i], path[i + 1], moves[i]) {
        if i > 0 {
          assert Moves(path'[i - 1], path'[i], moves'[i - 1]);
        }
      }
      assert path[|moves|] == path'[|moves'|];
    }
  }

  lemma SomeMove(n: Net) returns (move: Move, n': Net)
    requires !Settled(n)
    ensures Moves(n, n', move) && !Queues(move.step)
  {
    hide Do, Enabled;
    if !Still(n.a, n.ba) {
      var step := if Enabled(n.a, n.ba, QueueAck) then QueueAck
                  else if Enabled(n.a, n.ba, Write) then Write else Deliver;
      var d := Do(n.a, n.ab, n.ba, step);
      move, n' := Move(true, step), Net(d.0, n.b, d.1, d.2);
    } else {
      var step := if Enabled(n.b, n.ab, QueueAck) then QueueAck
                  else if Enabled(n.b, n.ab, Write) then Write else Deliver;
      var d := Do(n.b, n.ba, n.ab, step);
      move, n' := Move(false, step), Net(n.a, d.0, d.2, d.1);
    }
  }

  // ---------------------------------------------------------------- message numbers

  /** What x has queued, sent and been asked to acknowledge is numbered from 1 on. */
  ghost predicate Numbered(x: Peer, out: seq<Frame>) {
    && (forall m :: m in x.send.outbox || m in x.send.icebox ==> m.number != 0)
    && (forall a :: a in x.acks ==> a.number != 0)
    && (forall i :: 0 <= i < |out| ==> out[i].number != 0)
  }

  lemma AckKeepsNumbers(s: Sender, number: nat, onResponse: bool, payload: seq<byte>)
    requires forall m :: m in s.outbox || m in s.icebox ==> m.number != 0
    ensures var s' := ReceivedAck(s, number, onResponse, payload);
      forall m :: m in s'.outbox || m in s'.icebox ==> m.number != 0
  {
    hide Requeue, ReadUVarInt;
    var i := FindMessage(s.outbox, number, onResponse);
    var j := FindMessage(s.icebox, number, onResponse);
    var count := ReadUVarInt(payload, UINT32_LIMIT);
    if count.Some? && j.Some? {
      assert s.icebox[j.value] in s.icebox;
      RequeueMembers(s.outbox, AcceptAck(s.icebox[j.value], count.value.0));
    }
    if count.Some? && i.Some? {
      assert s.outbox[i.value] in s.outbox;
    }
  }

  lemma WriteKeepsNumbers(s: Sender)
    requires s.outbox != [] && forall m :: m in s.outbox || m in s.icebox ==> m.number != 0
    ensures var w := WriteFrame(s);
      w.frame.number != 0 && forall m :: m in w.sender.outbox || m in w.sender.icebox ==> m.number != 0
  {
    hide NextFrame, FrameRoom, Requeue;
    var m, rest := s.outbox[0], s.outbox[1..];
    var sent := NextFrame(m, s.crc, FrameRoom(m, rest));
    assert m in s.outbox && forall x :: x in rest ==> x in s.outbox;
    RequeueMembers(rest, sent.msg);
    if m.IsAck() {
      AckFrame(m, s.crc, FrameRoom(m, rest));
    } else {
      MessageKept(m, s.crc, FrameRoom(m, rest));
    }
  }

  /** The ACK that a frame asks for has its number. */
  lemma AckNumber(r: Receiver, f: Frame)
    requires ReceiverInv(r)
    ensures var o := Receive(r, f); o.Accepted? && o.ack.Some? ==> o.ack.value.number == f.number
  {
    hide ReceivedFrame;
  }

  lemma StepKeepsNumbers(x: Peer, out: seq<Frame>, y: Peer, incoming: seq<Frame>, step: Step)
    requires Enabled(x, incoming, step) && Numbered(x, out) && Numbered(y, incoming) && ReceiverInv(x.recv)
    ensures var d := Do(x, out, incoming, step); Numbered(d.0, d.1) && Numbered(y, d.2)
  {
    hide WriteFrame, ReceivedAck, Receive, Requeue, LiveAfterAck, LiveAfterWrite, Fresh, ReceiverInv, PutUVarInt;
    match step
    case QueueRequest(m, _) =>
      RequeueMembers(x.send.outbox, Number(x.send, m));
    case QueueReply(m, _) =>
      RequeueMembers(x.send.outbox, m);
    case QueueAck =>
      RequeueMembers(x.send.outbox, AckOut(x.acks[0]));
    case Write =>
      WriteKeepsNumbers(x.send);
    case Deliver =>
      var f := incoming[0];
      if f.flags.typ.IsAck() {
        AckKeepsNumbers(x.send, f.number, f.flags.typ.AckResponseType?, f.payload);
      } else {
        AckNumber(x.recv, f);
      }
  }

  ghost predicate AllNumbered(n: Net) {
    Numbered(n.a, n.ab) && Numbered(n.b, n.ba)
  }

  lemma NextKeepsNumbers(n: Net, n': Net)
    requires Inv(n) && AllNumbered(n) && Next(n, n')
    ensures AllNumbered(n')
  {
    hide Do, Enabled, Numbered, SenderInv, Mirrors, Replies, FlowControl, AckFrames;
    var step :| StepOfA(n, n', step) || StepOfA(Mirror(n), Mirror(n'), step);
    if StepOfA(n, n', step) {
      StepKeepsNumbers(n.a, n.ab, n.b, n.ba, step);
    } else {
      StepKeepsNumbers(n.b, n.ba, n.a, n.ab, step);
    }
  }

  lemma {:induction false} RunNumbered(run: seq<Net>)
    requires IsRun(run)
    ensures AllNumbered(run[|run| - 1])
    decreases |run|
  {
    hide Inv, Next;
    if |run| > 1 {
      var before := run[..|run| - 1];
      assert Next(run[|run| - 2], run[|run| - 1]);
      forall i | 0 <= i < |before| - 1 ensures Next(before[i], before[i + 1]) {
        assert Next(run[i], run[i + 1]);
      }
      RunNumbered(before);
      RunInv(before);
      NextKeepsNumbers(run[|run| - 2], run[|run| - 1]);
    }
  }

  // ---------------------------------------------------------------- what has been delivered

  /** The next message of x does not come near the limit of its byte count. */
  predicate BelowLimit(x: Peer) {
    x.send.outbox != [] ==> x.send.outbox[0].bytesSent + BIG_FRAME_SIZE < UINT32_LIMIT
  }

  lemma StillIsEmpty(x: Peer, out: seq<Frame>, incoming: seq<Frame>)
    requires Still(x, incoming) && !x.failed && BelowLimit(x) && (x.acks != [] ==> x.acks[0].number != 0)
    ensures x.send.outbox == [] && incoming == [] && x.acks == []
  {
  }

  lemma FirstAckNumbered(x: Peer, out: seq<Frame>)
    requires Numbered(x, out)
    ensures x.acks != [] ==> x.acks[0].number != 0
  {
    assert x.acks != [] ==> x.acks[0] in x.acks;
  }

  lemma SettledIsEmpty(n: Net)
    requires Reachable(n) && Settled(n) && BelowLimit(n.a) && BelowLimit(n.b)
    ensures n.a.send.outbox == [] && n.b.send.outbox == [] && n.ab == [] && n.ba == []
    ensures n.a.acks == [] && n.b.acks == []
  {
    hide Still, Numbered, BelowLimit;
    ReachableNumbered(n);
    NothingRefused(n);
    FirstAckNumbered(n.a, n.ab);
    FirstAckNumbered(n.b, n.ba);
    StillIsEmpty(n.a, n.ab, n.ba);
    StillIsEmpty(n.b, n.ba, n.ab);
  }

  /** Once the peers have settled, every request ever queued has been delivered; and every reply as well, if
      no ACK of a reply was lost. */
  lemma SettledDelivers(n: Net, k: Key)
    requires Reachable(n) && Settled(n) && BelowLimit(n.a) && BelowLimit(n.b)
    requires k in n.a.sent && (k.reply ==> ReachableClear(n))
    ensures DeliveredAs(k, n.a.sent[k], n.b.recv)
  {
    hide Settled, BelowLimit, DeliveredAs, Reachable, ReachableClear;
    SettledIsEmpty(n);
    if k.reply {
      AllDelivered(n, k);
    } else {
      AllRequestsDelivered(n, k);
    }
  }

  lemma ReachableNumbered(n: Net)
    requires Reachable(n)
    ensures AllNumbered(n)
  {
    hide AllNumbered, Next;
    var run :| IsRun(run) && run[|run| - 1] == n;
    RunNumbered(run);
  }
}
