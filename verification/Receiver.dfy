/** The receiving half of a BLIP connection (src/blip/BLIPConnection.cc, INCOMING). */
module Receivers {
  import opened Bytes
  import opened Messages
  import opened MessagesIn
  import opened Codecs

  /** Which message of a peer: its replies are numbered like the requests they answer. */
  datatype Key = Key(reply: bool, number: MessageNo)

  /** An ACK that acknowledge asks to be sent. */
  datatype Ack = Ack(onReply: bool, number: MessageNo, count: nat)

  /** delivered holds the messages that have been received completely. */
  datatype Receiver = Receiver(
    numRequests: nat,
    pendingRequests: map<MessageNo, InMsg>,
    pendingResponses: map<MessageNo, InMsg>,
    crc: uint32,
    delivered: map<Key, InMsg>)

  function NewReceiver(): Receiver {
    Receiver(0, map[], map[], Crc32(0, []), map[])
  }

  /** The MessageIn that createResponse makes, waiting for the reply to a request. */
  function AwaitedReply(number: MessageNo): InMsg {
    NewInMsg(number, FrameFlags(ResponseType, false, false, false))
  }

  /** _pendingResponses.emplace: an entry that exists is kept. */
  function Await(r: Receiver, number: MessageNo): Receiver {
    if number in r.pendingResponses then r
    else r.(pendingResponses := r.pendingResponses[number := AwaitedReply(number)])
  }

  // ---------------------------------------------------------------- one frame

  /** pendingRequest and pendingResponse: the message a frame belongs to, and the receiver after the
      lookup; None where the source throws. */
  function FindPending(r: Receiver, f: Frame): Option<(InMsg, Receiver)>
    requires !f.flags.typ.IsAck() && !f.flags.typ.UnknownType?
  {
    if f.flags.typ.RequestType? then
      if f.number in r.pendingRequests then
        Some((r.pendingRequests[f.number],
              if f.flags.moreComing then r else r.(pendingRequests := r.pendingRequests - {f.number})))
      else if f.number == r.numRequests + 1 then
        var msg := NewInMsg(f.number, f.flags);
        Some((msg, r.(numRequests := f.number,
                      pendingRequests := if f.flags.moreComing then r.pendingRequests[f.number := msg]
                                         else r.pendingRequests)))
      else None
    else
      if f.number in r.pendingResponses then
        Some((r.pendingResponses[f.number],
              if f.flags.moreComing then r else r.(pendingResponses := r.pendingResponses - {f.number})))
      else None
  }

  /** Puts the message, which the source updates in place, back where it is held. */
  function StoreMessage(r: Receiver, f: Frame, msg: InMsg): Receiver {
    if !f.flags.moreComing then
      r.(delivered := r.delivered[Key(f.flags.typ.IsResponse(), f.number) := msg])
    else if f.flags.typ.RequestType? then r.(pendingRequests := r.pendingRequests[f.number := msg])
    else r.(pendingResponses := r.pendingResponses[f.number := msg])
  }

  /** A frame is accepted, refused for its number, or found bad while it is read into msg. */
  datatype Outcome =
    | Accepted(recv: Receiver, ack: Option<Ack>, state: ReceiveState)
    | BadNumber
    | BadFrame(recv: Receiver, msg: InMsg, ack: Option<Ack>)

  function MakeAck(msg: InMsg, count: Option<nat>): Option<Ack> {
    match count
    case None => None
    case Some(n) => Some(Ack(msg.typ.IsResponse(), msg.number, n))
  }

  /** The handling of one frame by _onWebSocketMessages. ACKs and frames of unknown type leave the
      receiver as it is. */
  function Receive(r: Receiver, f: Frame): Outcome {
    if f.flags.typ.IsAck() || f.flags.typ.UnknownType? then Accepted(r, None, Other)
    else match FindPending(r, f)
      case None => BadNumber
      case Some(found) =>
        if |f.payload| < CHECKSUM_SIZE then BadFrame(found.1, found.0, None)
        else match ReceivedFrame(found.0, r.crc, f.payload, f.flags)
          case FrameThrew(ack) => BadFrame(found.1, found.0, MakeAck(found.0, ack))
          case FrameOk(msg, crc, state, ack) =>
            Accepted(StoreMessage(found.1, f, msg).(crc := crc), MakeAck(found.0, ack), state)
  }

  /** Each message that is being received holds the properties before the body. */
  predicate Tidy(m: InMsg) {
    if m.started then Holds(m, m.propsSize, m.props + m.body) else m.props == m.body == []
  }

  ghost predicate AllTidy(r: Receiver) {
    && (forall n :: n in r.pendingRequests ==> Tidy(r.pendingRequests[n]))
    && (forall n :: n in r.pendingResponses ==> Tidy(r.pendingResponses[n]))
  }

  /** The message of a frame: one that is being received, or the next request; no other number is known. */
  function Addressee(r: Receiver, f: Frame): Option<InMsg> {
    if f.flags.typ.RequestType? then
      if f.number in r.pendingRequests then Some(r.pendingRequests[f.number])
      else if f.number == r.numRequests + 1 then
        Some(InMsg(f.number, f.flags.typ, f.flags.urgent, f.flags.noReply, false, 0, 0, 0, [], [], false))
      else None
    else if f.number in r.pendingResponses then Some(r.pendingResponses[f.number])
    else None
  }

  /** What a frame must be like: an ACK, or of no known type; or its number is that of a message being
      received or of the next request, it has room for a checksum, that is right, and its properties are as
      they must be. */
  ghost predicate Acceptable(r: Receiver, f: Frame) {
    var m, n := Addressee(r, f), |f.payload| - 4;
    || f.flags.typ in {AckRequestType, AckResponseType} || f.flags.typ.UnknownType?
    || (m.Some? && n >= 0 && ChecksumRight(r.crc, f.payload)
        && if !m.value.started then FirstRight(f.payload[..n], f.flags.moreComing)
           else m.value.PropertiesRead()
                || PropsRight(m.value.propsSize, m.value.props + m.value.body + f.payload[..n], f.flags.moreComing))
  }

  /** Of any frames, exactly those are accepted. */
  lemma AcceptedIff(r: Receiver, f: Frame)
    requires AllTidy(r)
    ensures Receive(r, f).Accepted? <==> Acceptable(r, f)
  {
    hide Crc32, ReceivedFrame, FirstRight, ChecksumRight, Holds;
    if !f.flags.typ.IsAck() && !f.flags.typ.UnknownType? {
      var found := FindPending(r, f);
      if found.Some? && |f.payload| >= 4 {
        if found.value.0.started {
          NextAcceptedIff(found.value.0, r.crc, f.payload, f.flags);
        } else {
          FirstAcceptedIff(found.value.0, r.crc, f.payload, f.flags);
        }
      }
    }
  }

  /** What an accepted frame changes: its message, which is delivered by the last frame and held until
      then, the count of the requests begun, the checksum, and the ACK that is wanted at 50000 bytes. */
  lemma FrameTaken(r: Receiver, f: Frame)
    requires AllTidy(r) && Receive(r, f).Accepted? && !f.flags.typ.IsAck() && !f.flags.typ.UnknownType?
    ensures var o, reply := Receive(r, f), !f.flags.typ.RequestType?;
      Addressee(r, f).Some? && |f.payload| >= 4
      && var m, unacked := Addressee(r, f).value, Addressee(r, f).value.unacked + |f.payload|;
         var read := ReceivedFrame(m, r.crc, f.payload, f.flags);
         && read.FrameOk? && o.state == read.state && o.recv.crc == Crc32(r.crc, f.payload[..|f.payload| - 4])
         && o.recv.numRequests == r.numRequests + (if !reply && f.number !in r.pendingRequests then 1 else 0)
         && Pending(o.recv, reply) == (if f.flags.moreComing then Pending(r, reply)[f.number := read.msg]
                                       else Pending(r, reply) - {f.number})
         && Pending(o.recv, !reply) == Pending(r, !reply)
         && o.recv.delivered == (if f.flags.moreComing then r.delivered
                                 else r.delivered[Key(reply, f.number) := read.msg])
         && o.ack == (if unacked >= 50000
                      then Some(Ack(m.typ.IsResponse(), m.number, m.rawBytes + |f.payload|)) else None)
         && AllTidy(o.recv)
  {
    hide Crc32, ReceivedFrame, SizeRead, FirstRight, ChecksumRight, Holds, PropsRight, StateRight;
    var m := Addressee(r, f).value;
    FrameCounts(m, r.crc, f.payload, f.flags);
    ReadTidy(m, r.crc, f.payload, f.flags);
  }

  lemma ReadTidy(m: InMsg, crc: uint32, payload: seq<byte>, flags: FrameFlags)
    requires |payload| >= 4 && Tidy(m) && ReceivedFrame(m, crc, payload, flags).FrameOk?
    ensures var r := ReceivedFrame(m, crc, payload, flags);
      Tidy(r.msg) && r.crc == Crc32(crc, payload[..|payload| - 4])
  {
    hide Crc32, ReceivedFrame, SizeRead, ChecksumRight, PropsRight, StateRight;
    if m.started {
      NextAcceptedIff(m, crc, payload, flags);
    } else {
      FirstAcceptedIff(m, crc, payload, flags);
      var k: nat, size: nat :| SizeRead(payload[..|payload| - 4], k, size);
      FirstAccepted(m, crc, payload, flags, k, size);
    }
  }

  /** What a refused frame changes: if its number is not known, nothing. Otherwise its message is as it was,
      but in no map any more if the frame was to be its last; a request that it would have begun counts as
      begun; and an ACK is wanted as for any frame that has room for a checksum. */
  lemma FrameRefused(r: Receiver, f: Frame)
    requires AllTidy(r) && !Receive(r, f).Accepted?
    ensures var o, reply, m := Receive(r, f), !f.flags.typ.RequestType?, Addressee(r, f);
      && (o.BadNumber? <==> m.None?)
      && (o.BadFrame? ==>
            && o.msg == m.value && o.recv.crc == r.crc && o.recv.delivered == r.delivered
            && o.recv.numRequests == r.numRequests + (if !reply && f.number !in r.pendingRequests then 1 else 0)
            && Pending(o.recv, reply) == (if f.flags.moreComing then Pending(r, reply)[f.number := m.value]
                                          else Pending(r, reply) - {f.number})
            && Pending(o.recv, !reply) == Pending(r, !reply)
            && o.ack == (if |f.payload| >= 4 && m.value.unacked + |f.payload| >= 50000
                         then Some(Ack(m.value.typ.IsResponse(), m.value.number, m.value.rawBytes + |f.payload|))
                         else None))
  {
    hide Crc32, ReceivedFrame, Holds;
    var m := Addressee(r, f);
    if m.Some? && |f.payload| >= 4 {
      FrameCounts(m.value, r.crc, f.payload, f.flags);
    }
  }

  lemma StaysTidy(r: Receiver, f: Frame)
    requires AllTidy(r)
    ensures match Receive(r, f)
      case Accepted(r', _, _) => AllTidy(r')
      case BadNumber => true
      case BadFrame(r', msg, _) => AllTidy(r') && Tidy(msg)
  {
    hide Crc32, ReceivedFrame, Holds;
    if Receive(r, f).Accepted? && !f.flags.typ.IsAck() && !f.flags.typ.UnknownType? {
      FrameTaken(r, f);
    }
  }

  /** A reply begins to be awaited as a response without flags, unless one is awaited already. */
  lemma BeginsTidy(r: Receiver, number: MessageNo)
    ensures AllTidy(NewReceiver()) && (AllTidy(r) ==> AllTidy(Await(r, number)))
    ensures Await(r, number) == if number in r.pendingResponses then r
      else r.(pendingResponses := r.pendingResponses[
                number := InMsg(number, ResponseType, false, false, false, 0, 0, 0, [], [], false)])
  {
  }

  // ---------------------------------------------------------------- all the frames in flight

  function AckList(a: Option<Ack>): seq<Ack> {
    match a case None => [] case Some(ack) => [ack]
  }

  datatype DrainResult = Failed | Drained(recv: Receiver, acks: seq<Ack>)

  /** The receiver after all of channel, and the ACKs it asks for on the way. */
  function Drain(r: Receiver, channel: seq<Frame>): DrainResult
    decreases channel
  {
    if channel == [] then Drained(r, [])
    else match Receive(r, channel[0])
      case Accepted(r', ack, _) =>
        (match Drain(r', channel[1..])
         case Failed => Failed
         case Drained(last, acks) => Drained(last, AckList(ack) + acks))
      case _ => Failed
  }

  /** Draining a channel that one more frame was sent on. */
  lemma {:induction false} DrainAppend(r: Receiver, channel: seq<Frame>, f: Frame)
    requires Drain(r, channel).Drained?
    requires Receive(Drain(r, channel).recv, f).Accepted?
    ensures var d := Drain(r, channel);
      var o := Receive(d.recv, f);
      Drain(r, channel + [f]) == Drained(o.recv, d.acks + AckList(o.ack))
    decreases channel
  {
    hide Receive;
    if channel == [] {
      assert channel + [f] == [f];
      var o := Receive(r, f);
      assert Drain(o.recv, []) == Drained(o.recv, []);
      assert [f][1..] == [];
      assert [] + AckList(o.ack) == AckList(o.ack) + [];
    } else {
      var o := Receive(r, channel[0]);
      DrainAppend(o.recv, channel[1..], f);
      assert (channel + [f])[0] == channel[0] && (channel + [f])[1..] == channel[1..] + [f];
      var d := Drain(o.recv, channel[1..]);
      var last := Receive(d.recv, f);
      assert AckList(o.ack) + (d.acks + AckList(last.ack)) == (AckList(o.ack) + d.acks) + AckList(last.ack);
    }
  }

  predicate IsReplyFrame(f: Frame, number: MessageNo) {
    f.number == number && (f.flags.typ.ResponseType? || f.flags.typ.ErrorType?)
  }

  predicate NoReplyFrame(channel: seq<Frame>, number: MessageNo) {
    forall k :: 0 <= k < |channel| ==> !IsReplyFrame(channel[k], number)
  }

  /** A reply that starts being awaited does not disturb the frames of other messages. */
  lemma ReceiveAwait(r: Receiver, f: Frame, number: MessageNo)
    requires Receive(r, f).Accepted? && !IsReplyFrame(f, number)
    ensures var o := Receive(r, f);
      Receive(Await(r, number), f) == Accepted(Await(o.recv, number), o.ack, o.state)
  {
    if f.flags.typ.IsAck() || f.flags.typ.UnknownType? || number in r.pendingResponses {
    } else if f.flags.typ.RequestType? {
    } else {
      var p: map<MessageNo, InMsg>, a := r.pendingResponses, AwaitedReply(number);
      var key: set<MessageNo> := {f.number};
      assert f.number in p && f.number != number;
      assert p[number := a] - key == (p - key)[number := a];
      var msg := ReceivedFrame(p[f.number], r.crc, f.payload, f.flags).msg;
      assert p[number := a][f.number := msg] == p[f.number := msg][number := a];
    }
  }

  lemma {:induction false} DrainAwait(r: Receiver, channel: seq<Frame>, number: MessageNo)
    requires Drain(r, channel).Drained? && NoReplyFrame(channel, number)
    ensures var d := Drain(r, channel);
      Drain(Await(r, number), channel) == Drained(Await(d.recv, number), d.acks)
    decreases channel
  {
    hide Receive, Await;
    if channel != [] {
      ReceiveAwait(r, channel[0], number);
      DrainAwait(Receive(r, channel[0]).recv, channel[1..], number);
    }
  }

  /** Messages are filed under their kind and number; delivered ones are not pending. */
  ghost predicate ReceiverInv(r: Receiver) {
    && (forall n :: n in r.pendingRequests ==>
          r.pendingRequests[n].number == n && r.pendingRequests[n].typ.RequestType? && n <= r.numRequests)
    && (forall n :: n in r.pendingResponses ==>
          r.pendingResponses[n].number == n && r.pendingResponses[n].typ.IsResponse())
    && (forall k :: k in r.delivered && !k.reply ==>
          k.number <= r.numRequests && k.number !in r.pendingRequests)
    && (forall k :: k in r.delivered && k.reply ==> k.number !in r.pendingResponses)
  }

  /** What a receiver keeps while it handles frames. */
  ghost predicate Extends(r: Receiver, r': Receiver) {
    && (forall k :: k in r.delivered ==> k in r'.delivered && r'.delivered[k] == r.delivered[k])
    && (forall n :: n in r'.pendingResponses ==> n in r.pendingResponses)
  }

  predicate IsRequestFrame(f: Frame, number: MessageNo) {
    f.number == number && f.flags.typ.RequestType?
  }

  /** A frame touches its own message only, and only it can ask for an ACK of that message. */
  predicate Untouched(r: Receiver, o: Outcome, f: Frame, number: MessageNo)
    requires o.Accepted?
  {
    && (!IsRequestFrame(f, number) ==>
          && (number in r.pendingRequests <==> number in o.recv.pendingRequests)
          && (number in r.pendingRequests ==> o.recv.pendingRequests[number] == r.pendingRequests[number])
          && (o.ack.Some? ==> o.ack.value.onReply || o.ack.value.number != number))
    && (!IsReplyFrame(f, number) ==>
          && (number in r.pendingResponses <==> number in o.recv.pendingResponses)
          && (number in r.pendingResponses ==> o.recv.pendingResponses[number] == r.pendingResponses[number])
          && (o.ack.Some? ==> !o.ack.value.onReply || o.ack.value.number != number))
  }

  lemma ReceiveKeeps(r: Receiver, f: Frame)
    requires ReceiverInv(r) && Receive(r, f).Accepted?
    ensures var o := Receive(r, f);
      ReceiverInv(o.recv) && Extends(r, o.recv) && forall n :: Untouched(r, o, f, n)
  {
    hide ReceivedFrame, NewInMsg;
    if !f.flags.typ.IsAck() && !f.flags.typ.UnknownType? {
      var found := FindPending(r, f).value;
      ReceivedKind(found.0, r.crc, f.payload, f.flags);
      NewKind(f);
      var msg := ReceivedFrame(found.0, r.crc, f.payload, f.flags).msg;
      if f.flags.typ.RequestType? {
        RequestKeeps(r, f, msg);
      } else {
        ReplyKeeps(r, f, msg);
      }
    }
  }

  lemma NewKind(f: Frame)
    ensures var m := NewInMsg(f.number, f.flags);
      !m.started && m.number == f.number && m.typ == f.flags.typ
  {
  }

  lemma RequestKeeps(r: Receiver, f: Frame, msg: InMsg)
    requires ReceiverInv(r) && f.flags.typ.RequestType? && FindPending(r, f).Some?
    requires msg.number == f.number && msg.typ.RequestType?
    ensures var r' := StoreMessage(FindPending(r, f).value.1, f, msg);
      && ReceiverInv(r') && Extends(r, r') && r'.pendingResponses == r.pendingResponses
      && forall n :: n != f.number ==>
           && (n in r.pendingRequests <==> n in r'.pendingRequests)
           && (n in r.pendingRequests ==> r'.pendingRequests[n] == r.pendingRequests[n])
  {
    hide NewInMsg;
  }

  lemma ReplyKeeps(r: Receiver, f: Frame, msg: InMsg)
    requires ReceiverInv(r) && (f.flags.typ.ResponseType? || f.flags.typ.ErrorType?) && FindPending(r, f).Some?
    requires msg.number == f.number && msg.typ.IsResponse()
    ensures var r' := StoreMessage(FindPending(r, f).value.1, f, msg);
      && ReceiverInv(r') && Extends(r, r') && r'.pendingRequests == r.pendingRequests
      && forall n :: n != f.number ==>
           && (n in r.pendingResponses <==> n in r'.pendingResponses)
           && (n in r.pendingResponses ==> r'.pendingResponses[n] == r.pendingResponses[n])
  {
  }

  predicate NoRequestFrame(channel: seq<Frame>, number: MessageNo) {
    forall k :: 0 <= k < |channel| ==> !IsRequestFrame(channel[k], number)
  }

  /** No frame in channel carries data of message k. */
  predicate NoFrame(channel: seq<Frame>, k: Key) {
    if k.reply then NoReplyFrame(channel, k.number) else NoRequestFrame(channel, k.number)
  }

  /** The messages that r is receiving. */
  function Pending(r: Receiver, reply: bool): map<MessageNo, InMsg> {
    if reply then r.pendingResponses else r.pendingRequests
  }

  lemma {:induction false} DrainKeeps(r: Receiver, channel: seq<Frame>)
    requires ReceiverInv(r) && Drain(r, channel).Drained?
    ensures var d := Drain(r, channel); ReceiverInv(d.recv) && Extends(r, d.recv)
    decreases channel
  {
    hide Receive;
    if channel != [] {
      ReceiveKeeps(r, channel[0]);
      DrainKeeps(Receive(r, channel[0]).recv, channel[1..]);
    }
  }

  /** The frames of other messages do not touch message k; ACKs of it come from its own frames only. */
  lemma {:induction false} DrainOthers(r: Receiver, channel: seq<Frame>, k: Key)
    requires ReceiverInv(r) && Drain(r, channel).Drained? && NoFrame(channel, k)
    ensures var d := Drain(r, channel);
      && (k.number in Pending(r, k.reply) <==> k.number in Pending(d.recv, k.reply))
      && (k.number in Pending(r, k.reply) ==>
            Pending(d.recv, k.reply)[k.number] == Pending(r, k.reply)[k.number])
      && (forall a :: a in d.acks ==> a.onReply != k.reply || a.number != k.number)
    decreases channel
  {
    hide Receive;
    if channel != [] {
      var o := Receive(r, channel[0]);
      ReceiveKeeps(r, channel[0]);
      assert Untouched(r, o, channel[0], k.number);
      DrainOthers(o.recv, channel[1..], k);
    }
  }

  /** The first frame sets the type of a message, later ones keep it. */
  lemma ReceivedKind(m: InMsg, crc: uint32, payload: seq<byte>, flags: FrameFlags)
    requires |payload| >= CHECKSUM_SIZE && ReceivedFrame(m, crc, payload, flags).FrameOk?
    ensures var r := ReceivedFrame(m, crc, payload, flags);
      && r.msg.number == m.number
      && r.msg.typ == (if m.started then m.typ else flags.typ)
      && r.msg.urgent == (if m.started then m.urgent else flags.urgent)
      && r.msg.noReply == (if m.started then m.noReply else flags.noReply)
  {
  }
}
