/** The object behind a connection, updating its queues and maps in place
    (class BLIPIO in src/blip/BLIPConnection.cc), proved against Senders and Receivers. */
module BlipConnection {
  import opened Bytes
  import opened Messages
  import opened MessagesOut
  import opened MessagesIn
  import opened Codecs
  import opened Outbox
  import opened Senders
  import opened Receivers
  import Endings
  import Network
  import Wire

  /** The outgoing side of a WebSocket: what has been handed to it, and what it will answer to the
      next sends, true while it has room for more. */
  class Socket {
    var sent: seq<seq<byte>>
    var answers: seq<bool>

    constructor (answers: seq<bool>)
      ensures sent == [] && this.answers == answers
    {
      sent, this.answers := [], answers;
    }

    method Send(frame: seq<byte>) returns (writeable: bool)
      modifies this
      ensures sent == old(sent) + [frame]
      ensures writeable == (old(answers) != [] && old(answers)[0])
      ensures answers == if old(answers) == [] then [] else old(answers)[1..]
    {
      sent := sent + [frame];
      writeable := answers != [] && answers[0];
      answers := if answers == [] then [] else answers[1..];
    }
  }

  /** The states of the messages of a queue. */
  ghost function Models(q: seq<MessageOut>, objects: set<MessageOut>): seq<OutMsg>
    requires forall i :: 0 <= i < |q| ==> q[i] in objects
    reads objects
  {
    seq(|q|, i requires 0 <= i < |q| reads objects => q[i].Model())
  }

  /** The messages of a map are among the objects and filed under their numbers. */
  ghost predicate ValidMap(m: map<MessageNo, MessageIn>, objects: set<MessageIn>)
    reads objects
  {
    forall n :: n in m ==> m[n] in objects && m[n].number == n && m[n].Ready()
  }

  /** The states of the messages of a map. */
  ghost function InModels(m: map<MessageNo, MessageIn>, objects: set<MessageIn>): map<MessageNo, InMsg>
    requires ValidMap(m, objects)
    reads objects
  {
    map n | n in m :: m[n].Model()
  }

  // ---------------------------------------------------------------- what the methods do

  /** The state of a connection and of its socket; completed are the requests whose replies have been
      reported as complete. */
  datatype Ends = Ends(send: Sender, recv: Receiver, writeable: bool, acks: seq<Ack>, open: bool, closing: bool,
                       completed: multiset<MessageNo>, answers: seq<bool>, wire: seq<seq<byte>>)

  /** One round of the loop of writeToWebSocket. */
  function WriteRound(e: Ends): Ends
    requires e.send.outbox != []
  {
    var w := WriteFrame(e.send);
    e.(send := w.sender, recv := AwaitOne(e.recv, w), wire := e.wire + Encoded(w.frame),
       writeable := e.answers != [] && e.answers[0], answers := if e.answers == [] then [] else e.answers[1..])
  }

  function AwaitOne(r: Receiver, w: Written): Receiver {
    match w.awaiting case None => r case Some(n) => Await(r, n)
  }

  function Encoded(f: Frame): seq<seq<byte>> {
    if f.flags.typ.UnknownType? then [] else [EncodeFrame(f)]
  }

  /** writeToWebSocket: writes frames while the socket accepts more. */
  function WriteAll(e: Ends): Ends
    decreases Work(e.send.outbox)
  {
    if !e.writeable || e.send.outbox == [] then e
    else
      WriteFrameProgress(e.send);
      WriteAll(WriteRound(e))
  }

  /** writeToWebSocket ends, with an empty outbox or a full socket, after no more frames than there
      are bytes and messages to send. */
  lemma {:induction false} WriteAllEnds(e: Ends)
    ensures WriteAll(e).send.outbox == [] || !WriteAll(e).writeable
    ensures |WriteAll(e).wire| <= |e.wire| + Work(e.send.outbox)
    ensures e.wire <= WriteAll(e).wire
    decreases Work(e.send.outbox)
  {
    hide WriteFrame, AwaitOne, EncodeFrame;
    if e.writeable && e.send.outbox != [] {
      WriteFrameProgress(e.send);
      WriteAllEnds(WriteRound(e));
    }
  }

  /** requeue with andWrite set. */
  function Requeued(e: Ends, m: OutMsg): Ends {
    WriteAll(e.(send := e.send.(outbox := Requeue(e.send.outbox, m))))
  }

  /** _queueMessage */
  function Queued(e: Ends, m: OutMsg): Ends
    requires m.number == 0 ==> e.send.lastMessageNo + 1 < UINT64_LIMIT
  {
    if e.open && !e.closing then WriteAll(e.(send := Enqueue(e.send, m))) else e
  }

  /** The first ACK wanted is queued. */
  function AckQueued(e: Ends): Ends
    requires e.acks != [] && (e.acks[0].number == 0 ==> e.send.lastMessageNo + 1 < UINT64_LIMIT)
  {
    Queued(e.(acks := e.acks[1..]), Network.AckOut(e.acks[0]))
  }

  /** An ACK for the message at position k of one of the queues: if that thaws it, it goes on being sent. */
  function AckMatched(e: Ends, frozen: bool, k: nat, byteCount: nat): Ends
    requires k < |if frozen then e.send.icebox else e.send.outbox|
  {
    var s := e.send;
    var m := AcceptAck((if frozen then s.icebox else s.outbox)[k], byteCount);
    if !frozen then e.(send := s.(outbox := s.outbox[k := m]))
    else if m.NeedsAck() then e.(send := s.(icebox := s.icebox[k := m]))
    else Requeued(e.(send := s.(icebox := RemoveAt(s.icebox, k))), m)
  }

  /** receivedAck */
  function AckReceived(e: Ends, number: nat, onResponse: bool, body: seq<byte>): Ends {
    var i := FindMessage(e.send.outbox, number, onResponse);
    var j := FindMessage(e.send.icebox, number, onResponse);
    var count := ReadUVarInt(body, UINT32_LIMIT);
    if count.None? then e
    else if i.Some? then AckMatched(e, false, i.value, count.value.0)
    else if j.Some? then AckMatched(e, true, j.value, count.value.0)
    else e
  }

  class BLIPIO {
    var outbox: seq<MessageOut>
    var icebox: seq<MessageOut>
    var writeable: bool
    var lastMessageNo: MessageNo
    const outputCodec: Codec
    var pendingRequests: map<MessageNo, MessageIn>
    var pendingResponses: map<MessageNo, MessageIn>
    var numRequestsReceived: nat
    const inputCodec: Codec
    var acks: seq<Ack>
    var open: bool
    var closingWithError: bool
    var completed: multiset<MessageNo>
    ghost var delivered: map<Key, InMsg>
    ghost var outgoing: set<MessageOut>
    ghost var inRequests: set<MessageIn>
    ghost var inResponses: set<MessageIn>

    constructor ()
      ensures Valid() && writeable && open && !closingWithError && acks == [] && completed == multiset{}
      ensures SenderModel() == NewSender() && ReceiverModel() == NewReceiver()
    {
      outbox, icebox, writeable, lastMessageNo := [], [], true, 0;
      outputCodec := new Codec();
      pendingRequests, pendingResponses, numRequestsReceived := map[], map[], 0;
      inputCodec := new Codec();
      acks, open, closingWithError, completed, delivered := [], true, false, multiset{}, map[];
      outgoing, inRequests, inResponses := {}, {}, {};
    }

    // -------------------------------------------------------------- state

    /** outgoing holds the messages of the queues. */
    ghost predicate ValidOut()
      reads this
    {
      && (forall i :: 0 <= i < |outbox| ==>
            outbox[i] in outgoing && outbox[i] !in icebox && !outbox[i].typ.UnknownType?)
      && (forall i :: 0 <= i < |icebox| ==> icebox[i] in outgoing && !icebox[i].typ.UnknownType?)
      && (forall i, j :: 0 <= i < j < |outbox| ==> outbox[i] != outbox[j])
      && (forall i, j :: 0 <= i < j < |icebox| ==> icebox[i] != icebox[j])
    }

    /** inRequests and inResponses hold the messages of the two maps. */
    ghost predicate ValidIn()
      reads this, inRequests, inResponses
    {
      ValidMap(pendingRequests, inRequests) && ValidMap(pendingResponses, inResponses) && inRequests !! inResponses
    }

    ghost predicate Valid()
      reads this, inRequests, inResponses
    {
      ValidOut() && ValidIn() && inputCodec != outputCodec
    }

    ghost function SenderModel(): Sender
      requires ValidOut()
      reads this, outgoing, outputCodec
    {
      Sender(Models(outbox, outgoing), Models(icebox, outgoing), lastMessageNo, outputCodec.checksum)
    }

    ghost function ReceiverModel(): Receiver
      requires ValidIn()
      reads this, inRequests, inResponses, inputCodec
    {
      Receiver(numRequestsReceived, InModels(pendingRequests, inRequests), InModels(pendingResponses, inResponses),
               inputCodec.checksum, delivered)
    }

    ghost function Model(ws: Socket): Ends
      requires Valid()
      reads this, inRequests, inResponses, outgoing, inputCodec, outputCodec, ws
    {
      Ends(SenderModel(), ReceiverModel(), writeable, acks, open, closingWithError, completed,
           ws.answers, ws.sent)
    }

    // -------------------------------------------------------------- outgoing

    /** The scan of requeue: before which message of the outbox msg goes. */
    method FindPosition(msg: MessageOut) returns (i: int)
      requires ValidOut()
      ensures i == InsertPos(Models(outbox, outgoing), msg.Model())
    {
      i := |outbox|;
      ghost var q := Models(outbox, outgoing);
      if msg.urgent && |outbox| > 1 {
        var isNew := msg.bytesSent == 0;
        while true
          invariant 0 < i <= |outbox|
          invariant ScanBack(q, isNew, |q| - 1) == ScanBack(q, isNew, i - 1)
          decreases i
        {
          i := i - 1;
          if outbox[i].urgent {
            if i + 1 != |outbox| {
              i := i + 1;
            }
            break;
          } else if isNew && outbox[i].bytesSent == 0 {
            break;
          }
          if i == 0 {
            break;
          }
        }
        i := i + 1;
      }
    }

    /** msg can be put into one of the queues. */
    ghost predicate Apart(msg: MessageOut)
      reads this
    {
      msg in outgoing && msg !in outbox && msg !in icebox && !msg.typ.UnknownType?
    }

    /** requeue, without the writing. */
    method RequeueMessage(msg: MessageOut)
      requires ValidOut() && Apart(msg)
      modifies this`outbox
      ensures ValidOut()
      ensures var s := old(SenderModel()); SenderModel() == s.(outbox := Requeue(s.outbox, msg.Model()))
    {
      hide InsertPos;
      var i := FindPosition(msg);
      ModelsInsert(outbox, outgoing, i, msg);
      InsertDistinct(outbox, i, msg);
      outbox := outbox[..i] + [msg] + outbox[i..];
    }

    method FreezeMessage(msg: MessageOut)
      requires ValidOut() && Apart(msg)
      modifies this`icebox
      ensures ValidOut()
      ensures var s := old(SenderModel()); SenderModel() == s.(icebox := s.icebox + [msg.Model()])
    {
      assert Models(icebox + [msg], outgoing) == Models(icebox, outgoing) + [msg.Model()];
      icebox := icebox + [msg];
    }

    /** Adds the response message of a request to pendingResponses. */
    method AddResponse(number: MessageNo)
      requires ValidIn()
      modifies this`pendingResponses, this`inResponses
      ensures ValidIn() && ReceiverModel() == Await(old(ReceiverModel()), number)
      ensures fresh(inResponses - old(inResponses))
    {
      hide InModels, ValidMap;
      MapKeys(pendingResponses, inResponses, number);
      if number !in pendingResponses {
        var response := new MessageIn(number, FrameFlags(ResponseType, false, false, false));
        inResponses := inResponses + {response};
        MapAdd(pendingResponses, old(inResponses), number, response);
        pendingResponses := pendingResponses[number := response];
      }
    }

    /** The next frame of msg, which has just been popped from the outbox. */
    method MakeFrame(msg: MessageOut) returns (data: seq<byte>, flags: FrameFlags)
      requires Valid() && Apart(msg)
      modifies msg`unsentPayload, msg`unsentBuffer, msg`source, msg`bytesSent, msg`unacked, outputCodec
      ensures Valid() && Apart(msg)
      ensures var s, m := old(SenderModel()), old(msg.Model());
        var sent := NextFrame(m, s.crc, FrameRoom(m, s.outbox));
        && flags == sent.flags && flags.typ == m.typ && msg.Model() == sent.msg
        && SenderModel() == s.(crc := sent.crc)
        && data == EncodeFrame(Frame(m.number, flags, sent.payload))
      ensures !msg.typ.IsAck() ==>
        var limit := if !msg.urgent && outbox != [] && outbox[0].urgent then 4096 else 16384;
        |data| <= limit && (flags.moreComing ==> |data| > limit - 1024)
      ensures ReceiverModel() == old(ReceiverModel())
    {
      hide NextFrame, PutUVarInt, EncodeFlags, InModels, ValidMap;
      if !msg.typ.IsAck() {
        Wire.NextFits(msg.Model(), SenderModel().outbox, outputCodec.checksum);
      }
      var maxSize := DEFAULT_FRAME_SIZE;
      if msg.urgent || outbox == [] || !outbox[0].urgent {
        maxSize := BIG_FRAME_SIZE;
      }
      var header := PutUVarInt(msg.number);
      VarIntMaxLengths(msg.number);
      NextFrameFlags(msg.Model(), outputCodec.checksum, maxSize - |header| - 1);
      var payload, progress;
      payload, flags, progress := msg.NextFrameToSend(outputCodec, maxSize - |header| - 1);
      data := header + [EncodeFlags(flags)] + payload;
      assert Models(outbox, outgoing) == old(Models(outbox, outgoing));
      assert Models(icebox, outgoing) == old(Models(icebox, outgoing));
    }

    /** Sends that frame. */
    method SendFrame(msg: MessageOut, ws: Socket) returns (flags: FrameFlags)
      requires Valid() && Apart(msg)
      modifies this`writeable, msg`unsentPayload, msg`unsentBuffer, msg`source, msg`bytesSent, msg`unacked
      modifies outputCodec, ws
      ensures Valid() && Apart(msg)
      ensures var s, m := old(SenderModel()), old(msg.Model());
        var sent := NextFrame(m, s.crc, FrameRoom(m, s.outbox));
        && flags == sent.flags && flags.typ == m.typ && msg.Model() == sent.msg
        && SenderModel() == s.(crc := sent.crc)
        && ws.sent == old(ws.sent) + [EncodeFrame(Frame(m.number, flags, sent.payload))]
      ensures writeable == (old(ws.answers) != [] && old(ws.answers)[0])
      ensures ws.answers == if old(ws.answers) == [] then [] else old(ws.answers)[1..]
      ensures ReceiverModel() == old(ReceiverModel())
    {
      hide NextFrame, FrameRoom, EncodeFrame, InModels, ValidMap, Models;
      var data;
      data, flags := MakeFrame(msg);
      writeable := ws.Send(data);
    }

    /** What becomes of a message whose frame has been sent. */
    method AfterFrame(msg: MessageOut, flags: FrameFlags)
      requires Valid() && Apart(msg)
      modifies this`outbox, this`icebox, this`pendingResponses, this`inResponses
      ensures Valid() && fresh(inResponses - old(inResponses))
      ensures var s, m := old(SenderModel()), msg.Model();
        SenderModel() == if !flags.moreComing then s
                         else if m.NeedsAck() then s.(icebox := s.icebox + [m])
                         else s.(outbox := Requeue(s.outbox, m))
      ensures var r, m := old(ReceiverModel()), msg.Model();
        ReceiverModel() == if !flags.moreComing && m.ExpectsReply() then Await(r, m.number) else r
    {
      hide Await, Requeue;
      if flags.moreComing {
        if msg.unacked >= MAX_UNACKED_BYTES {
          FreezeMessage(msg);
        } else {
          RequeueMessage(msg);
        }
      } else if msg.typ.RequestType? && !msg.noReply {
        AddResponse(msg.number);
      }
    }

    /** Takes the first message off the outbox. */
    method Pop() returns (msg: MessageOut)
      requires Valid() && outbox != []
      modifies this`outbox
      ensures Valid() && Apart(msg)
      ensures var s := old(SenderModel()); SenderModel() == s.(outbox := s.outbox[1..]) && msg.Model() == s.outbox[0]
      ensures ReceiverModel() == old(ReceiverModel())
    {
      msg := outbox[0];
      outbox := outbox[1..];
      assert Models(outbox, outgoing) == old(Models(outbox, outgoing))[1..];
    }

    /** One round of the loop of writeToWebSocket. */
    method WriteFrameTo(ws: Socket)
      requires Valid() && outbox != []
      modifies this`outbox, this`icebox, this`pendingResponses, this`inResponses, this`writeable
      modifies outgoing, outputCodec, ws
      ensures Valid() && fresh(inResponses - old(inResponses))
      ensures old(Model(ws)).send.outbox != [] && Model(ws) == WriteRound(old(Model(ws)))
    {
      hide NextFrame, FrameRoom, EncodeFrame, Await, Requeue, ValidIn, ValidOut, SenderModel, ReceiverModel;
      SameLength();
      KeepsReplying(SenderModel());
      var msg := Pop();
      var flags := SendFrame(msg, ws);
      AfterFrame(msg, flags);
    }

    /** writeToWebSocket. */
    method WriteToWebSocket(ws: Socket)
      requires Valid()
      modifies this`outbox, this`icebox, this`pendingResponses, this`inResponses, this`writeable
      modifies outgoing, outputCodec, ws
      ensures Valid() && fresh(inResponses - old(inResponses))
      ensures Model(ws) == WriteAll(old(Model(ws)))
    {
      hide WriteRound, Work, ValidIn, ValidOut, SenderModel, ReceiverModel;
      while writeable && outbox != []
        invariant Valid() && fresh(inResponses - old(inResponses))
        invariant WriteAll(Model(ws)) == WriteAll(old(Model(ws)))
        decreases Work(SenderModel().outbox)
      {
        SameLength();
        RoundProgress(Model(ws));
        WriteFrameTo(ws);
      }
      SameLength();
    }

    lemma SameLength()
      requires ValidOut()
      ensures |SenderModel().outbox| == |outbox|
    {
    }

    /** requeue with andWrite set. */
    method RequeueAndWrite(msg: MessageOut, ws: Socket)
      requires Valid() && Apart(msg)
      modifies this`outbox, this`icebox, this`pendingResponses, this`inResponses, this`writeable
      modifies outgoing, outputCodec, ws
      ensures Valid() && fresh(inResponses - old(inResponses))
      ensures Model(ws) == Requeued(old(Model(ws)), old(msg.Model()))
    {
      hide WriteAll, Requeue, Models, InModels;
      RequeueMessage(msg);
      WriteToWebSocket(ws);
    }

    /** _onWebSocketWriteable. */
    method OnWebSocketWriteable(ws: Socket)
      requires Valid()
      modifies this`outbox, this`icebox, this`pendingResponses, this`inResponses, this`writeable
      modifies outgoing, outputCodec, ws
      ensures Valid() && fresh(inResponses - old(inResponses))
      ensures Model(ws) == WriteAll(old(Model(ws)).(writeable := true))
    {
      hide WriteAll, Models, InModels;
      writeable := true;
      WriteToWebSocket(ws);
    }

    /** _icebox.remove: takes the first occurrence of msg out of the icebox. */
    method RemoveFrozen(msg: MessageOut, ghost j: nat)
      requires Valid() && j < |icebox| && icebox[j] == msg
      modifies this`icebox
      ensures Valid() && Apart(msg)
      ensures var s := old(SenderModel()); SenderModel() == s.(icebox := RemoveAt(s.icebox, j))
      ensures ReceiverModel() == old(ReceiverModel())
    {
      var k := 0;
      while icebox[k] != msg
        invariant 0 <= k <= j && msg !in icebox[..k]
        decreases j - k
      {
        k := k + 1;
      }
      assert k == j && msg !in outbox;
      ModelsRemove(icebox, outgoing, k);
      RemoveDistinct(icebox, k);
      icebox := RemoveAt(icebox, k);
    }

    /** thawMessage: back from the icebox to the outbox, and on with the writing. */
    method ThawMessage(msg: MessageOut, ghost j: nat, ws: Socket)
      requires Valid() && j < |icebox| && icebox[j] == msg
      modifies this`outbox, this`icebox, this`pendingResponses, this`inResponses, this`writeable
      modifies outgoing, outputCodec, ws
      ensures Valid() && fresh(inResponses - old(inResponses))
      ensures var e := old(Model(ws));
        Model(ws) == Requeued(e.(send := e.send.(icebox := RemoveAt(e.send.icebox, j))), old(msg.Model()))
    {
      hide WriteAll, Requeued, RemoveAt, ValidIn, ValidOut, SenderModel, ReceiverModel;
      RemoveFrozen(msg, j);
      RequeueAndWrite(msg, ws);
    }

    /** A message that has no number yet gets the next one. */
    method AssignNumber(msg: MessageOut)
      requires Valid() && msg !in outbox && msg !in icebox && !msg.typ.UnknownType?
      requires msg.number == 0 ==> lastMessageNo + 1 < UINT64_LIMIT
      modifies this`lastMessageNo, this`outgoing, msg`number
      ensures Valid() && Apart(msg) && outgoing == old(outgoing) + {msg}
      ensures msg.Model() == Number(old(SenderModel()), old(msg.Model()))
      ensures var s := old(SenderModel());
        SenderModel() == s.(lastMessageNo := s.lastMessageNo + if old(msg.number) == 0 then 1 else 0)
      ensures ReceiverModel() == old(ReceiverModel())
    {
      hide InModels, ValidMap;
      if msg.number == 0 {
        lastMessageNo := lastMessageNo + 1;
        msg.number := lastMessageNo;
      }
      outgoing := outgoing + {msg};
      assert Models(outbox, outgoing) == old(Models(outbox, outgoing));
      assert Models(icebox, outgoing) == old(Models(icebox, outgoing));
    }

    /** _queueMessage; ok is false where the message is told that it is disconnected. */
    method QueueMessage(msg: MessageOut, ws: Socket) returns (ok: bool)
      requires Valid() && msg !in outbox && msg !in icebox && !msg.typ.UnknownType?
      requires msg.number == 0 ==> lastMessageNo + 1 < UINT64_LIMIT
      modifies this`outbox, this`icebox, this`pendingResponses, this`inResponses, this`writeable
      modifies this`lastMessageNo, this`outgoing, outgoing, msg, outputCodec, ws
      ensures Valid() && fresh(inResponses - old(inResponses))
      ensures ok == (open && !closingWithError)
      ensures Model(ws) == Queued(old(Model(ws)), old(msg.Model()))
    {
      hide WriteAll, Requeue, Apart, ValidIn, ValidOut, SenderModel, ReceiverModel;
      if !open || closingWithError {
        return false;
      }
      ok := true;
      AssignNumber(msg);
      RequeueAndWrite(msg, ws);
    }

    /** The call that acknowledge has put behind the others: makes the first ACK wanted a message and queues
        it. */
    method QueueNextAck(ws: Socket)
      requires Valid() && acks != [] && (acks[0].number == 0 ==> lastMessageNo + 1 < UINT64_LIMIT)
      modifies this`outbox, this`icebox, this`pendingResponses, this`inResponses, this`writeable, this`acks
      modifies this`lastMessageNo, this`outgoing, outgoing, outputCodec, ws
      ensures Valid() && fresh(inResponses - old(inResponses))
      ensures Model(ws) == AckQueued(old(Model(ws)))
    {
      hide WriteAll, Requeue, Apart, ValidIn, ValidOut, SenderModel, ReceiverModel, PutUVarInt, Queued;
      var a := acks[0];
      DropAck(ws);
      var msg := MakeAckMessage(a, ws);
      var ok := QueueMessage(msg, ws);
    }

    method DropAck(ws: Socket)
      requires Valid() && acks != []
      modifies this`acks
      ensures Valid() && Model(ws) == old(Model(ws)).(acks := old(acks)[1..])
    {
      hide InModels, ValidMap, Models;
      acks := acks[1..];
    }

    /** The message that acknowledge makes. */
    method MakeAckMessage(a: Ack, ws: Socket) returns (msg: MessageOut)
      requires Valid()
      ensures Valid() && fresh(msg) && msg.Model() == Network.AckOut(a) && Model(ws) == old(Model(ws))
      ensures msg !in outbox && msg !in icebox && !msg.typ.UnknownType?
    {
      hide InModels, ValidMap, Models, PutUVarInt;
      var typ := if a.onReply then AckResponseType else AckRequestType;
      msg := new MessageOut(FrameFlags(typ, true, true, false), PutUVarInt(a.count), None, a.number);
    }

    // -------------------------------------------------------------- acknowledgements

    /** MessageQueue::findMessage in one of the two queues. */
    method FindIn(frozen: bool, number: MessageNo, isResponse: bool) returns (k: Option<nat>)
      requires ValidOut()
      ensures k == FindMessage(if frozen then SenderModel().icebox else SenderModel().outbox, number, isResponse)
      ensures k.Some? ==> k.value < |if frozen then icebox else outbox|
    {
      var queue := if frozen then icebox else outbox;
      var i := 0;
      while i < |queue|
        invariant 0 <= i <= |queue|
        invariant forall j :: 0 <= j < i ==>
          !(queue[j].number == number && queue[j].typ.IsResponse() == isResponse)
      {
        if queue[i].number == number && queue[i].typ.IsResponse() == isResponse {
          FindFirst(Models(queue, outgoing), number, isResponse, i);
          return Some(i);
        }
        i := i + 1;
      }
      FindFirst(Models(queue, outgoing), number, isResponse, i);
      k := None;
    }

    /** receivedAck. */
    method OnAck(number: MessageNo, onResponse: bool, body: seq<byte>, ws: Socket)
      requires Valid()
      modifies this`outbox, this`icebox, this`pendingResponses, this`inResponses, this`writeable
      modifies outgoing, outputCodec, ws
      ensures Valid() && fresh(inResponses - old(inResponses))
      ensures Model(ws) == AckReceived(old(Model(ws)), number, onResponse, body)
    {
      hide WriteAll, Requeue, ReadUVarInt, AcceptAck, ReceiverModel, ValidIn, RemoveAt, SenderModel, Models;
      var frozen := false;
      var k := FindIn(false, number, onResponse);
      if k.None? {
        k := FindIn(true, number, onResponse);
        if k.None? {
          return;
        }
        frozen := true;
      }
      var byteCount := ReadUVarInt(body, UINT32_LIMIT);
      if byteCount.None? {
        return;
      }
      AckFound(frozen, k.value, byteCount.value.0, ws);
    }

    /** The ACK is about the message at position k of one of the queues. */
    method AckFound(frozen: bool, k: nat, byteCount: nat, ws: Socket)
      requires Valid() && k < |if frozen then icebox else outbox|
      modifies this`outbox, this`icebox, this`pendingResponses, this`inResponses, this`writeable
      modifies outgoing, outputCodec, ws
      ensures Valid() && fresh(inResponses - old(inResponses))
      ensures k < |if frozen then old(SenderModel()).icebox else old(SenderModel()).outbox|
      ensures Model(ws) == AckMatched(old(Model(ws)), frozen, k, byteCount)
    {
      hide WriteAll, Requeue, AcceptAck, ReceiverModel, ValidIn, RemoveAt, SenderModel, Models;
      var msg := if frozen then icebox[k] else outbox[k];
      AcceptIn(msg, frozen, k, byteCount);
      if frozen && msg.unacked < MAX_UNACKED_BYTES {
        RemoveUpdated(old(SenderModel()).icebox, k, msg.Model());
        ThawMessage(msg, k, ws);
      }
    }

    /** Passes an ACK on to the message at position k of one of the queues. */
    method AcceptIn(msg: MessageOut, frozen: bool, ghost k: nat, byteCount: nat)
      requires Valid() && k < |if frozen then icebox else outbox| && msg == (if frozen then icebox else outbox)[k]
      modifies msg`unacked
      ensures Valid()
      ensures var s := old(SenderModel());
        && k < |if frozen then s.icebox else s.outbox|
        && msg.Model() == AcceptAck((if frozen then s.icebox else s.outbox)[k], byteCount)
        && SenderModel() == if frozen then s.(icebox := s.icebox[k := msg.Model()])
                            else s.(outbox := s.outbox[k := msg.Model()])
      ensures ReceiverModel() == old(ReceiverModel())
    {
      hide AcceptAck, InModels;
      msg.ReceivedAck(byteCount);
      ghost var o, i := old(Models(outbox, outgoing)), old(Models(icebox, outgoing));
      assert Models(outbox, outgoing) == if frozen then o else o[k := msg.Model()];
      assert Models(icebox, outgoing) == if frozen then i[k := msg.Model()] else i;
    }

    // -------------------------------------------------------------- incoming

    /** msg is the message that f belongs to, and held in its map until its last frame is there. */
    ghost predicate InHand(msg: MessageIn, f: Frame)
      reads this, msg
    {
      && msg.number == f.number && msg.Ready()
      && if f.flags.typ.RequestType? then
           && msg in inRequests && (f.number in pendingRequests <==> f.flags.moreComing)
           && (f.number in pendingRequests ==> pendingRequests[f.number] == msg)
         else
           && msg in inResponses && (f.number in pendingResponses <==> f.flags.moreComing)
           && (f.number in pendingResponses ==> pendingResponses[f.number] == msg)
    }

    /** The branch of pendingRequest for a new request. */
    method NewRequest(f: Frame) returns (msg: MessageIn)
      requires ValidIn() && f.flags.typ.RequestType? && f.number == numRequestsReceived + 1
      requires f.number !in pendingRequests
      modifies this`pendingRequests, this`numRequestsReceived, this`inRequests
      ensures ValidIn() && fresh(inRequests - old(inRequests))
      ensures InHand(msg, f) && msg.Model() == NewInMsg(f.number, f.flags)
      ensures ReceiverModel() == var r := old(ReceiverModel()); r.(numRequests := f.number,
        pendingRequests := if f.flags.moreComing then r.pendingRequests[f.number := msg.Model()]
                           else r.pendingRequests)
    {
      hide InModels, ValidMap;
      numRequestsReceived := numRequestsReceived + 1;
      msg := new MessageIn(f.number, f.flags);
      inRequests := inRequests + {msg};
      MapAdd(pendingRequests, old(inRequests), f.number, msg);
      if f.flags.moreComing {
        pendingRequests := pendingRequests[f.number := msg];
      }
    }

    /** pendingRequest; null where the source throws. */
    method PendingRequest(f: Frame) returns (msg: MessageIn?)
      requires ValidIn() && f.flags.typ.RequestType?
      modifies this`pendingRequests, this`numRequestsReceived, this`inRequests
      ensures ValidIn() && fresh(inRequests - old(inRequests))
      ensures var found := FindPending(old(ReceiverModel()), f);
        if msg == null then found.None? && ReceiverModel() == old(ReceiverModel())
        else found.Some? && InHand(msg, f) && msg.Model() == found.value.0 && ReceiverModel() == found.value.1
    {
      hide InModels, ValidMap;
      MapKeys(pendingRequests, inRequests, f.number);
      if f.number in pendingRequests {
        msg := pendingRequests[f.number];
        if !f.flags.moreComing {
          MapDrop(pendingRequests, inRequests, f.number);
          pendingRequests := pendingRequests - {f.number};
        }
      } else if f.number == numRequestsReceived + 1 {
        msg := NewRequest(f);
      } else {
        msg := null;
      }
    }

    /** pendingResponse; null where the source throws. */
    method PendingResponse(f: Frame) returns (msg: MessageIn?)
      requires ValidIn() && (f.flags.typ.ResponseType? || f.flags.typ.ErrorType?)
      modifies this`pendingResponses
      ensures ValidIn()
      ensures var found := FindPending(old(ReceiverModel()), f);
        if msg == null then found.None? && ReceiverModel() == old(ReceiverModel())
        else found.Some? && InHand(msg, f) && msg.Model() == found.value.0 && ReceiverModel() == found.value.1
    {
      hide InModels, ValidMap;
      MapKeys(pendingResponses, inResponses, f.number);
      if f.number in pendingResponses {
        msg := pendingResponses[f.number];
        if !f.flags.moreComing {
          MapDrop(pendingResponses, inResponses, f.number);
          pendingResponses := pendingResponses - {f.number};
        }
      } else {
        msg := null;
      }
    }

    /** The lookup by the type of the frame; null where the source throws. */
    method FindMessageIn(f: Frame) returns (msg: MessageIn?)
      requires Valid() && !f.flags.typ.IsAck() && !f.flags.typ.UnknownType?
      modifies this`pendingRequests, this`pendingResponses, this`numRequestsReceived, this`inRequests
      ensures Valid() && fresh(inRequests - old(inRequests)) && SenderModel() == old(SenderModel())
      ensures var found := FindPending(old(ReceiverModel()), f);
        if msg == null then found.None? && ReceiverModel() == old(ReceiverModel())
        else found.Some? && InHand(msg, f) && msg.Model() == found.value.0 && ReceiverModel() == found.value.1
    {
      hide InModels, ValidMap, FindPending, Models;
      if f.flags.typ.RequestType? {
        msg := PendingRequest(f);
      } else {
        msg := PendingResponse(f);
      }
    }

    /** What acknowledge does with the ACK it makes: it is queued behind the calls already waiting. */
    method SendAck(ack: Ack)
      requires Valid()
      modifies this`acks
      ensures Valid() && SenderModel() == old(SenderModel()) && ReceiverModel() == old(ReceiverModel())
      ensures acks == old(acks) + [ack]
    {
      hide InModels, ValidMap, Models;
      acks := acks + [ack];
    }

    /** Reads a frame into its message; ok is false where the source throws. */
    method ReadInto(msg: MessageIn, f: Frame) returns (ok: bool, state: ReceiveState)
      requires Valid() && InHand(msg, f) && |f.payload| >= CHECKSUM_SIZE
      modifies this`acks, msg, inputCodec
      ensures Valid() && InHand(msg, f) && SenderModel() == old(SenderModel())
      ensures ReceiverModel() == Updated(old(ReceiverModel()), f, msg.Model()).(crc := inputCodec.checksum)
      ensures var r := ReceivedFrame(old(msg.Model()), old(inputCodec.checksum), f.payload, f.flags);
        && acks == old(acks) + AckList(MakeAck(old(msg.Model()), r.Ack()))
        && ok == r.FrameOk?
        && (ok ==> r.msg == msg.Model() && r.crc == inputCodec.checksum && r.state == state)
    {
      hide ReceivedFrame, InModels, ValidMap, SenderModel, ValidOut;
      ghost var m := if f.flags.typ.RequestType? then pendingRequests else pendingResponses;
      ghost var objects := if f.flags.typ.RequestType? then inRequests else inResponses;
      ghost var before := InModels(m, objects);
      MapAll(m, objects);
      var onReply := msg.typ.IsResponse();
      var ack;
      ok, state, ack := msg.Received(inputCodec, f.payload, f.flags);
      MapUpdate(m, objects, f.number, msg, before);
      if ack.Some? {
        SendAck(Ack(onReply, msg.number, ack.value));
      }
    }

    /** The inner catch of _onWebSocketMessages: _pendingRequests.emplace or _pendingResponses.emplace. */
    method PutBackMessage(msg: MessageIn, f: Frame)
      requires Valid() && InHand(msg, f)
      modifies this`pendingRequests, this`pendingResponses
      ensures Valid() && SenderModel() == old(SenderModel())
      ensures ReceiverModel() == Endings.PutBack(old(ReceiverModel()), f, msg.Model())
    {
      hide InModels, ValidMap, Models;
      if f.flags.typ.RequestType? {
        MapKeys(pendingRequests, inRequests, f.number);
        if f.number !in pendingRequests {
          MapAdd(pendingRequests, inRequests, f.number, msg);
          assert inRequests + {msg} == inRequests;
          pendingRequests := pendingRequests[f.number := msg];
        }
      } else if f.flags.typ.ResponseType? {
        MapKeys(pendingResponses, inResponses, f.number);
        if f.number !in pendingResponses {
          MapAdd(pendingResponses, inResponses, f.number, msg);
          assert inResponses + {msg} == inResponses;
          pendingResponses := pendingResponses[f.number := msg];
        }
      }
    }

    ghost method RecordDelivery(k: Key, m: InMsg)
      requires Valid()
      modifies this`delivered
      ensures Valid() && SenderModel() == old(SenderModel())
      ensures var r := old(ReceiverModel()); ReceiverModel() == r.(delivered := r.delivered[k := m])
    {
      hide InModels, ValidMap, Models;
      delivered := delivered[k := m];
    }

    /** The end of receivedFrame: the progress report of a reply that is complete. */
    method ReportProgress(f: Frame, state: ReceiveState)
      requires Valid()
      modifies this`completed
      ensures Valid() && SenderModel() == old(SenderModel()) && ReceiverModel() == old(ReceiverModel())
      ensures completed == old(completed) + CompletedBy(f, state)
    {
      hide InModels, ValidMap, Models;
      if state.End? && (f.flags.typ.ResponseType? || f.flags.typ.ErrorType?) {
        completed := completed + multiset{f.number};
      }
    }

    /** A frame that is not an acknowledgement; ok is false where the source throws. */
    method HandleFrame(f: Frame) returns (ok: bool)
      requires Valid() && !f.flags.typ.IsAck() && !f.flags.typ.UnknownType?
      modifies this`pendingRequests, this`pendingResponses, this`numRequestsReceived, this`acks, this`delivered
      modifies this`completed
      modifies this`inRequests, inRequests, inResponses, inputCodec
      ensures Valid() && fresh(inRequests - old(inRequests))
      ensures SenderModel() == old(SenderModel())
      ensures match Receive(old(ReceiverModel()), f)
        case Accepted(r, ack, state) =>
          ok && ReceiverModel() == r && acks == old(acks) + AckList(ack)
          && completed == old(completed) + CompletedBy(f, state)
        case BadNumber =>
          !ok && ReceiverModel() == old(ReceiverModel()) && acks == old(acks) && completed == old(completed)
        case BadFrame(r, msg, ack) =>
          !ok && SameHeld(ReceiverModel(), Endings.PutBack(r, f, msg)) && acks == old(acks) + AckList(ack)
          && completed == old(completed)
    {
      hide ReceivedFrame, FindPending, InModels, ValidMap, ValidOut, SenderModel;
      var msg := FindMessageIn(f);
      if msg == null {
        return false;
      }
      ok := false;
      var state := Other;
      if |f.payload| >= CHECKSUM_SIZE {
        ok, state := ReadInto(msg, f);
      }
      if !ok {
        HeldAfterError(old(ReceiverModel()), f, msg.Model(), inputCodec.checksum);
        PutBackMessage(msg, f);
        return;
      }
      ReportProgress(f, state);
      if !f.flags.moreComing {
        RecordDelivery(Key(f.flags.typ.IsResponse(), f.number), msg.Model());
      }
    }

    /** One round of the loop of _onWebSocketMessages; ok is false where it throws. */
    method OnFrame(data: seq<byte>, ws: Socket) returns (ok: bool)
      requires Valid()
      modifies this, outgoing, inRequests, inResponses, inputCodec, outputCodec, ws
      ensures Valid() && ok == FrameIn(old(Model(ws)), data).1
      ensures Like(Model(ws), FrameIn(old(Model(ws)), data).0, ok)
      ensures outgoing == old(outgoing) && fresh(inRequests - old(inRequests)) && fresh(inResponses - old(inResponses))
    {
      hide InModels, ValidMap, Receive, AckReceived, ValidOut, ValidIn, SenderModel, ReceiverModel;
      ok := true;
      var frame := DecodeFrame(data);
      if frame.None? {
        return false;
      }
      var f := frame.value;
      if f.flags.typ.IsAck() {
        OnAck(f.number, f.flags.typ.AckResponseType?, f.payload, ws);
      } else if !f.flags.typ.UnknownType? {
        ok := HandleFrame(f);
      }
    }

    /** _closeWithError */
    method CloseWithError(ws: Socket)
      requires Valid()
      modifies this`closingWithError
      ensures Valid()
      ensures var e := old(Model(ws)); Model(ws) == e.(closing := e.closing || e.open)
    {
      hide InModels, ValidMap, Models;
      if open && !closingWithError {
        closingWithError := true;
      }
    }

    /** _onWebSocketMessages: the frames of a batch, up to the first one that is bad. */
    method OnWebSocketMessages(batch: seq<seq<byte>>, ws: Socket)
      requires Valid()
      modifies this, outgoing, inRequests, inResponses, inputCodec, outputCodec, ws
      ensures Valid()
      ensures var r := FramesIn(old(Model(ws)), batch); Like(Model(ws), r.0, r.1)
    {
      hide FrameIn, ValidOut, ValidIn, SenderModel, ReceiverModel;
      var i := 0;
      while i < |batch|
        invariant 0 <= i <= |batch| && Valid()
        invariant outgoing == old(outgoing)
        invariant fresh(inRequests - old(inRequests)) && fresh(inResponses - old(inResponses))
        invariant FramesIn(old(Model(ws)), batch) == FramesIn(Model(ws), batch[i..])
      {
        if closingWithError {
          return;
        }
        var ok := OnFrame(batch[i], ws);
        if !ok {
          CloseWithError(ws);
          return;
        }
        i := i + 1;
      }
    }

    // -------------------------------------------------------------- closing

    /** cancelAll of a queue: the numbers of the requests that are told that they are disconnected. */
    method Notify(frozen: bool) returns (reports: multiset<MessageNo>)
      requires ValidOut()
      ensures reports == Endings.Expecting(if frozen then SenderModel().icebox else SenderModel().outbox)
    {
      hide Endings.Expecting;
      var queue := if frozen then icebox else outbox;
      ghost var q := Models(queue, outgoing);
      reports := multiset{};
      Endings.ExpectingPrefix(q, 0);
      for i := 0 to |queue|
        invariant reports == Endings.Expecting(q[..i])
      {
        Endings.ExpectingPrefix(q, i);
        if queue[i].typ.RequestType? && !queue[i].noReply {
          reports := reports + multiset{queue[i].number};
        }
      }
      assert q[..|queue|] == q;
    }

    method EmptyQueues()
      requires Valid()
      modifies this`outbox, this`icebox
      ensures Valid() && ReceiverModel() == old(ReceiverModel())
      ensures SenderModel() == old(SenderModel()).(outbox := [], icebox := [])
    {
      hide ValidMap, InModels, Models;
      NothingHeld(outgoing, inRequests);
      outbox, icebox := [], [];
    }

    method EmptyMaps()
      requires Valid()
      modifies this`pendingRequests, this`pendingResponses
      ensures Valid() && SenderModel() == old(SenderModel())
      ensures ReceiverModel() == old(ReceiverModel()).(pendingRequests := map[], pendingResponses := map[])
    {
      hide ValidMap, InModels, Models;
      NothingHeld(outgoing, inRequests);
      NothingHeld(outgoing, inResponses);
      pendingRequests, pendingResponses := map[], map[];
    }

    /** cancelAll of all the queues and maps. */
    method CancelAll(ws: Socket) returns (reports: multiset<MessageNo>)
      requires Valid()
      modifies this`outbox, this`icebox, this`pendingRequests, this`pendingResponses
      ensures Valid()
      ensures reports == Reports(old(Model(ws))) && Model(ws) == Cancelled(old(Model(ws)))
    {
      hide ValidMap, InModels, Models, Endings.Expecting, SenderModel, ValidOut;
      var frozen;
      reports := Notify(false);
      frozen := Notify(true);
      MapAll(pendingResponses, inResponses);
      reports := reports + frozen + multiset(pendingResponses.Keys);
      EmptyQueues();
      EmptyMaps();
    }

    method MarkClosed(ws: Socket)
      requires Valid()
      modifies this`open
      ensures Valid() && Model(ws) == old(Model(ws)).(open := false)
    {
      hide ValidMap, InModels, Models;
      open := false;
    }

    /** _closed, with the frames that are still to be handled. */
    method OnClosed(batch: seq<seq<byte>>, ws: Socket) returns (reports: multiset<MessageNo>)
      requires Valid()
      modifies this, outgoing, inRequests, inResponses, inputCodec, outputCodec, ws
      ensures Valid()
      ensures var r := FramesIn(old(Model(ws)), batch);
        && reports == (if r.0.open then Reports(r.0) else multiset{})
        && Like(Model(ws), if r.0.open then Cancelled(r.0).(open := false) else r.0, r.1)
    {
      hide ValidIn, ValidOut, SenderModel, ReceiverModel, FramesIn, Endings.Expecting;
      reports := multiset{};
      OnWebSocketMessages(batch, ws);
      if open {
        MarkClosed(ws);
        reports := CancelAll(ws);
      }
    }
  }

  /** The requests that cancelAll reports as disconnected. */
  ghost function Reports(e: Ends): multiset<MessageNo> {
    Endings.Expecting(e.send.outbox) + Endings.Expecting(e.send.icebox) + multiset(e.recv.pendingResponses.Keys)
  }

  function Cancelled(e: Ends): Ends {
    e.(send := e.send.(outbox := [], icebox := []),
       recv := e.recv.(pendingRequests := map[], pendingResponses := map[]))
  }

  lemma NothingHeld(o: set<MessageOut>, i: set<MessageIn>)
    ensures Models([], o) == [] && ValidMap(map[], i) && InModels(map[], i) == map[]
  {
  }

  /** The replies that are reported as complete when a frame has been read. */
  function CompletedBy(f: Frame, state: ReceiveState): multiset<MessageNo> {
    if state.End? && Endings.IsReply(f) then multiset{f.number} else multiset{}
  }

  /** What an incoming frame does; false with it where the source throws. */
  function FrameIn(e: Ends, data: seq<byte>): (Ends, bool) {
    match DecodeFrame(data)
    case None => (e, false)
    case Some(f) =>
      if f.flags.typ.IsAck() then (AckReceived(e, f.number, f.flags.typ.AckResponseType?, f.payload), true)
      else if f.flags.typ.UnknownType? then (e, true)
      else match Receive(e.recv, f)
        case Accepted(r, ack, state) =>
          (e.(recv := r, acks := e.acks + AckList(ack), completed := e.completed + CompletedBy(f, state)), true)
        case BadNumber => (e, false)
        case BadFrame(r, msg, ack) =>
          (e.(recv := Endings.PutBack(r, f, msg), acks := e.acks + AckList(ack)), false)
  }

  /** What the frames of a batch do; false with it if one of them was bad. */
  function FramesIn(e: Ends, batch: seq<seq<byte>>): (Ends, bool)
    decreases |batch|
  {
    if batch == [] || e.closing then (e, true)
    else
      var r := FrameIn(e, batch[0]);
      if r.1 then FramesIn(r.0, batch[1..]) else (r.0.(closing := r.0.closing || r.0.open), false)
  }

  /** e is e', except that after an error it does not matter how far a message was read. */
  predicate Like(e: Ends, e': Ends, exact: bool) {
    if exact then e == e' else e == e'.(recv := e.recv) && SameHeld(e.recv, e'.recv)
  }

  /** r with the message of f, if it is still held, in the state m. */
  function Updated(r: Receiver, f: Frame, m: InMsg): Receiver {
    if !f.flags.moreComing then r
    else if f.flags.typ.RequestType? then r.(pendingRequests := r.pendingRequests[f.number := m])
    else r.(pendingResponses := r.pendingResponses[f.number := m])
  }

  /** After an error it does not matter how far the message of the frame was read. */
  lemma HeldAfterError(r: Receiver, f: Frame, m: InMsg, crc: uint32)
    requires !f.flags.typ.IsAck() && !f.flags.typ.UnknownType? && FindPending(r, f).Some?
    ensures var found := FindPending(r, f).value;
      SameHeld(Endings.PutBack(Updated(found.1, f, m).(crc := crc), f, m), Endings.PutBack(found.1, f, found.0))
  {
    hide NewInMsg;
  }

  lemma MapKeys(m: map<MessageNo, MessageIn>, objects: set<MessageIn>, number: MessageNo)
    requires ValidMap(m, objects)
    ensures number in m <==> number in InModels(m, objects)
    ensures number in m ==> m[number] in objects && m[number].number == number && m[number].Ready()
                            && m[number].Model() == InModels(m, objects)[number]
  {
  }

  lemma MapAdd(m: map<MessageNo, MessageIn>, objects: set<MessageIn>, number: MessageNo, msg: MessageIn)
    requires ValidMap(m, objects) && msg.number == number && msg.Ready()
    ensures ValidMap(m, objects + {msg}) && InModels(m, objects + {msg}) == InModels(m, objects)
    ensures ValidMap(m[number := msg], objects + {msg})
    ensures InModels(m[number := msg], objects + {msg}) == InModels(m, objects)[number := msg.Model()]
  {
  }

  lemma MapDrop(m: map<MessageNo, MessageIn>, objects: set<MessageIn>, number: MessageNo)
    requires ValidMap(m, objects)
    ensures ValidMap(m - {number}, objects) && InModels(m - {number}, objects) == InModels(m, objects) - {number}
  {
  }

  lemma MapAll(m: map<MessageNo, MessageIn>, objects: set<MessageIn>)
    requires ValidMap(m, objects)
    ensures InModels(m, objects).Keys == m.Keys
    ensures forall n :: n in m ==> m[n] in objects && m[n].number == n && m[n].Ready()
                                   && m[n].Model() == InModels(m, objects)[n]
  {
  }

  /** msg, and no other object of the map, has changed. */
  lemma MapUpdate(m: map<MessageNo, MessageIn>, objects: set<MessageIn>, number: MessageNo, msg: MessageIn,
                  before: map<MessageNo, InMsg>)
    requires before.Keys == m.Keys && msg in objects && msg.number == number && msg.Ready()
    requires number in m ==> m[number] == msg
    requires forall n :: n in m && n != number ==>
      m[n] in objects && m[n].number == n && m[n].Ready() && m[n].Model() == before[n]
    ensures ValidMap(m, objects)
    ensures InModels(m, objects) == if number in m then before[number := msg.Model()] else before
  {
  }

  /** r and r' hold messages of the same numbers, and have delivered the same. */
  predicate SameHeld(r: Receiver, r': Receiver) {
    && r.numRequests == r'.numRequests && r.delivered == r'.delivered
    && r.pendingRequests.Keys == r'.pendingRequests.Keys
    && r.pendingResponses.Keys == r'.pendingResponses.Keys
  }

  /** The whole of receivedAck: what the ACK changes, then the writing if that thaws a message. */
  lemma AckReceivedSteps(e: Ends, number: nat, onResponse: bool, body: seq<byte>)
    ensures var s := ReceivedAck(e.send, number, onResponse, body);
      AckReceived(e, number, onResponse, body)
      == if |s.icebox| < |e.send.icebox| then WriteAll(e.(send := s)) else e.(send := s)
  {
    hide WriteAll, AcceptAck, Requeue, ReadUVarInt;
  }

  lemma RemoveUpdated<T>(q: seq<T>, k: nat, x: T)
    requires k < |q|
    ensures |RemoveAt(q, k)| == |q| - 1 && RemoveAt(q[k := x], k) == RemoveAt(q, k)
  {
  }

  /** findMessage finds the first. */
  lemma {:induction false} FindFirst(q: seq<OutMsg>, number: MessageNo, isResponse: bool, i: nat)
    requires i <= |q|
    requires forall j :: 0 <= j < i ==> !(q[j].number == number && q[j].typ.IsResponse() == isResponse)
    requires i < |q| ==> q[i].number == number && q[i].typ.IsResponse() == isResponse
    ensures FindMessage(q, number, isResponse) == if i < |q| then Some(i) else None
  {
    if i > 0 {
      assert forall j :: 0 <= j < i - 1 ==> q[1..][j] == q[j + 1];
      FindFirst(q[1..], number, isResponse, i - 1);
    }
  }

  lemma RoundProgress(e: Ends)
    requires e.send.outbox != []
    ensures Work(WriteRound(e).send.outbox) < Work(e.send.outbox)
    ensures e.writeable ==> WriteAll(e) == WriteAll(WriteRound(e))
  {
    hide WriteFrame, AwaitOne, Encoded, Work;
    WriteFrameProgress(e.send);
  }

  lemma KeepsReplying(s: Sender)
    requires s.outbox != []
    ensures var m := s.outbox[0];
      NextFrame(m, s.crc, FrameRoom(m, s.outbox[1..])).msg.ExpectsReply() == m.ExpectsReply()
  {
    var m := s.outbox[0];
    if !m.IsAck() {
      NextFrameProperties(m, s.crc, FrameRoom(m, s.outbox[1..]));
    }
  }

  lemma ModelsInsert(q: seq<MessageOut>, objects: set<MessageOut>, i: nat, msg: MessageOut)
    requires i <= |q| && msg in objects && forall k :: 0 <= k < |q| ==> q[k] in objects
    ensures |Models(q, objects)| == |q|
    ensures Models(q[..i] + [msg] + q[i..], objects) == InsertAt(Models(q, objects), i, msg.Model())
  {
  }

  lemma InsertDistinct<T>(q: seq<T>, i: nat, x: T)
    requires i <= |q| && x !in q && forall j, k :: 0 <= j < k < |q| ==> q[j] != q[k]
    ensures var r := q[..i] + [x] + q[i..];
      && (forall j, k :: 0 <= j < k < |r| ==> r[j] != r[k])
      && (forall y :: y in r <==> y == x || y in q)
  {
    assert q == q[..i] + q[i..];
  }

  lemma ModelsRemove(q: seq<MessageOut>, objects: set<MessageOut>, i: nat)
    requires i < |q| && forall k :: 0 <= k < |q| ==> q[k] in objects
    ensures Models(RemoveAt(q, i), objects) == RemoveAt(Models(q, objects), i)
  {
  }

  lemma RemoveDistinct<T>(q: seq<T>, i: nat)
    requires i < |q| && forall j, k :: 0 <= j < k < |q| ==> q[j] != q[k]
    ensures var r := RemoveAt(q, i);
      && (forall j, k :: 0 <= j < k < |r| ==> r[j] != r[k])
      && (forall y :: y in r <==> y != q[i] && y in q)
  {
    assert q == q[..i] + [q[i]] + q[i + 1..];
  }

  // ---------------------------------------------------------------- the steps of the network model

  /** A round of the write loop is the step Write of a peer, and puts its frame on the wire. */
  lemma WriteRoundIsStep(e: Ends, x: Network.Peer, out: seq<Frame>, back: seq<Frame>)
    requires e.send == x.send && e.recv == x.recv && Network.Enabled(x, back, Network.Write)
    ensures var (x', out', _) := Network.Do(x, out, back, Network.Write);
      var e' := WriteRound(e);
      && e'.send == x'.send && e'.recv == x'.recv && e'.acks == e.acks
      && |out'| == |out| + 1 && e'.wire == e.wire + Encoded(out'[|out|])
  {
    hide WriteFrame, Await, Network.LiveAfterWrite;
  }

  /** Handling the bytes of a frame is the step Deliver of a peer; an ACK that thaws a message makes
      the writing go on. */
  lemma FrameInIsStep(e: Ends, x: Network.Peer, f: Frame)
    requires e.send == x.send && e.recv == x.recv && e.acks == x.acks && !x.failed
    requires !f.flags.typ.UnknownType?
    ensures var y := Network.DoDeliver(x, f);
      var r := FrameIn(e, EncodeFrame(f));
      && r.1 == !y.failed
      && (f.flags.typ.IsAck() ==>
            r.0 == if |y.send.icebox| < |e.send.icebox| then WriteAll(e.(send := y.send)) else e.(send := y.send))
      && (!f.flags.typ.IsAck() && r.1 ==> r.0 == e.(recv := y.recv, acks := y.acks, completed := r.0.completed))
  {
    hide WriteAll, Receive, ReceivedAck, AckReceived, Network.LiveAfterAck, DecodeFrame, EncodeFrame;
    FrameRoundTrip(f);
    AckReceivedSteps(e, f.number, f.flags.typ.AckResponseType?, f.payload);
  }

  /** Closing is the step Close of the life of a connection, with the same reports. */
  lemma CancelledIsClosed(e: Ends, io: Endings.Io)
    requires io.open && io.send == e.send && io.recv == e.recv
    ensures var io', e' := Endings.Closed(io), Cancelled(e);
      io'.send == e'.send && io'.recv == e'.recv && io'.disconnected == io.disconnected + Reports(e)
  {
    hide Endings.Expecting;
  }
}
