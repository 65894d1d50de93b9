/** The WebSocket object: receiving bytes and accounting for them, sending frames
    (src/websocket/WebSocketImpl.cc). */
module WebSockets {
  import opened Bytes
  import opened WebSocketFrames
  import opened WebSocketMessages
  import opened WebSocketParsers
  import opened WebSocketStreams
  import opened WebSocketProtocols
  import BackPressure
  import Utf8

  // ---------------------------------------------------------------- what is sent in answer

  /** What is sent in answer to a chunk: i is what the chunk has made of the inbox. The answer to a PING is
      refused once a CLOSE has been sent. */
  function Answer(server: bool, i: Inbox, random: seq<byte>): (frames: seq<seq<byte>>)
    requires |random| == 4
  {
    if i.msgToSend.None? || (i.closeSent && i.opToSend != CLOSE) then []
    else if i.opToSend >= 16 || |i.msgToSend.value| >= UINT64_LIMIT then []
    else [Format(!server, Message(i.opToSend, i.msgToSend.value), random)]
  }

  /** No CLOSE has been sent if none has been received and none was sent before. */
  lemma {:induction false} NotClosing(i: Inbox, ms: seq<Message>)
    requires TakeAll(i, ms).Some? && !i.closeSent
    ensures TakeAll(i, ms).value.closeSent ==> TakeAll(i, ms).value.closeReceived
    ensures i.closeReceived ==> !TakeAll(i, ms).value.closeSent
    decreases |ms|
  {
    hide Utf8.IsUtf8;
    if ms != [] {
      var i' := Take(i, ms[0]).value;
      if i'.closeSent {
        Closing(i', ms[1..]);
      } else {
        NotClosing(i', ms[1..]);
      }
    }
  }

  /** Once a CLOSE has been received, only a PING replaces the answer. */
  lemma {:induction false} Closing(i: Inbox, ms: seq<Message>)
    requires TakeAll(i, ms).Some? && i.closeReceived
    ensures var i' := TakeAll(i, ms).value;
      && i'.closeReceived && i'.closeSent == i.closeSent
      && if forall m :: m in ms ==> m.opCode != PING then i'.opToSend == i.opToSend && i'.msgToSend == i.msgToSend
         else i'.opToSend == PONG && i'.msgToSend.Some?
    decreases |ms|
  {
    hide Utf8.IsUtf8;
    if ms != [] {
      Closing(Take(i, ms[0]).value, ms[1..]);
      assert forall m :: m in ms <==> m == ms[0] || m in ms[1..];
    }
  }

  /** A CLOSE that comes in first is echoed unless a PING follows it in the same chunk: the answer to the
      PING takes the place of the echo, and is refused because a CLOSE counts as sent. */
  lemma CloseEchoed(server: bool, i: Inbox, a: seq<Message>, m: Message, b: seq<Message>, random: seq<byte>)
    requires |random| == 4 && m.opCode == CLOSE && |m.payload| < UINT64_LIMIT && !i.closeSent
    requires TakeAll(Emptied(i), a + ([m] + b)).Some?
    ensures Answer(server, TakeAll(Emptied(i), a + ([m] + b)).value, random)
         == if forall p :: p in b ==> p.opCode != PING then [Format(!server, m, random)] else []
  {
    hide TakeAll, Format;
    TakeAllAppend(Emptied(i), a, [m] + b);
    var before := TakeAll(Emptied(i), a).value;
    TakeFirst(before, m, b);
    NotClosing(Emptied(i), a);
    Closing(Take(before, m).value, b);
  }

  /** Other messages leave alone what is to be answered. */
  lemma {:induction false} AnswerStays(i: Inbox, ms: seq<Message>)
    requires TakeAll(i, ms).Some? && forall m :: m in ms ==> m.opCode != PING && m.opCode != CLOSE
    ensures var i' := TakeAll(i, ms).value;
      i'.opToSend == i.opToSend && i'.msgToSend == i.msgToSend && i'.closeSent == i.closeSent
    decreases |ms|
  {
    hide Utf8.IsUtf8;
    if ms != [] {
      assert ms[0] in ms;
      assert forall m :: m in ms[1..] ==> m in ms;
      AnswerStays(Take(i, ms[0]).value, ms[1..]);
    }
  }

  /** A CLOSE is sent, or has been, once one has been received. */
  lemma {:induction false} CloseStays(i: Inbox, ms: seq<Message>)
    requires TakeAll(i, ms).Some?
    ensures i.closeSent ==> TakeAll(i, ms).value.closeSent
    ensures (forall m :: m in ms ==> m.opCode != CLOSE) ==> TakeAll(i, ms).value.closeSent == i.closeSent
    ensures i.closeSent && (i.msgToSend.Some? ==> i.opToSend == PONG) ==>
              var i' := TakeAll(i, ms).value; i'.msgToSend.Some? ==> i'.opToSend == PONG
    decreases |ms|
  {
    hide Utf8.IsUtf8;
    if ms != [] {
      assert ms[0] in ms && forall m :: m in ms[1..] ==> m in ms;
      CloseStays(Take(i, ms[0]).value, ms[1..]);
    }
  }

  /** As long as no CLOSE has been sent or received, the last PING of a chunk is answered by a PONG that
      carries its payload (section 5.5.3 of RFC 6455), and a chunk without one is not answered. */
  lemma PingAnswered(server: bool, i: Inbox, a: seq<Message>, m: Message, b: seq<Message>, random: seq<byte>)
    requires |random| == 4 && m.opCode == PING && |m.payload| < UINT64_LIMIT && !i.closeSent
    requires TakeAll(Emptied(i), a + ([m] + b)).Some?
    requires forall p :: p in a ==> p.opCode != CLOSE
    requires forall p :: p in b ==> p.opCode != CLOSE && p.opCode != PING
    ensures Answer(server, TakeAll(Emptied(i), a + ([m] + b)).value, random)
         == [Format(!server, Message(PONG, m.payload), random)]
  {
    hide TakeAll, Format;
    TakeAllAppend(Emptied(i), a, [m] + b);
    var before := TakeAll(Emptied(i), a).value;
    TakeFirst(before, m, b);
    CloseStays(Emptied(i), a);
    AnswerStays(Take(before, m).value, b);
  }

  lemma NothingAnswered(server: bool, i: Inbox, ms: seq<Message>, random: seq<byte>)
    requires |random| == 4 && TakeAll(Emptied(i), ms).Some?
    requires i.closeSent || forall m :: m in ms ==> m.opCode != PING && m.opCode != CLOSE
    ensures Answer(server, TakeAll(Emptied(i), ms).value, random) == []
  {
    hide TakeAll, Format;
    if i.closeSent {
      CloseStays(Emptied(i), ms);
    } else {
      AnswerStays(Emptied(i), ms);
    }
  }

  // ---------------------------------------------------------------- chunks

  /** The inbox at the start of onReceive. */
  function Emptied(i: Inbox): Inbox {
    i.(deliveredBytes := 0, msgToSend := None)
  }

  function WithInbox(p: Parser, i: Inbox): Parser {
    p.(user := p.user.(inbox := i))
  }

  /** What a chunk makes of the state. */
  ghost function Chunked(server: bool, p: Parser, s: seq<byte>): (q: Parser)
    requires Sound(server, p)
    ensures Sound(server, q)
  {
    Consume(server, WithInbox(p, Emptied(p.user.inbox)), s)
  }

  /** Once the answer has been taken. */
  function Settled(q: Parser): Parser {
    WithInbox(q, q.user.inbox.(msgToSend := None))
  }

  ghost function AfterChunks(server: bool, p: Parser, chunks: seq<seq<byte>>): (q: Parser)
    requires Sound(server, p)
    ensures Sound(server, q)
    decreases |chunks|
  {
    if chunks == [] then p else AfterChunks(server, Settled(Chunked(server, p, chunks[0])), chunks[1..])
  }

  /** The bytes that all the chunks deliver. */
  ghost function DeliveredIn(server: bool, p: Parser, chunks: seq<seq<byte>>): nat
    requires Sound(server, p)
    decreases |chunks|
  {
    if chunks == [] then 0
    else
      var q := Chunked(server, p, chunks[0]);
      q.user.inbox.deliveredBytes + DeliveredIn(server, Settled(q), chunks[1..])
  }

  /** The frames sent in answer to all the chunks. */
  ghost function Answers(server: bool, p: Parser, chunks: seq<seq<byte>>, randoms: seq<seq<byte>>)
    : (frames: seq<seq<byte>>)
    requires Sound(server, p) && |randoms| == |chunks| && forall r :: r in randoms ==> |r| == 4
    decreases |chunks|
  {
    if chunks == [] then []
    else
      assert randoms[0] in randoms;
      var q := Chunked(server, p, chunks[0]);
      Answer(server, q.user.inbox, randoms[0]) + Answers(server, Settled(q), chunks[1..], randoms[1..])
  }

  /** The math that works: whatever the bytes, those of a chunk that are neither held nor delivered are never
      fewer than those that were held before. */
  lemma CompletedBytes(server: bool, p: Parser, s: seq<byte>)
    requires Sound(server, p) && Cut(server, p) && Small(p)
    ensures var q := Chunked(server, p, s);
      && q.user.inbox.deliveredBytes + q.user.Length() <= |s| + p.user.Length()
      && Cut(server, q) && Small(q)
  {
    hide Consume, ReadHead;
    ConsumeTakes(server, WithInbox(p, Emptied(p.user.inbox)), s);
    SmallConsume(server, WithInbox(p, Emptied(p.user.inbox)), s);
  }

  // ---------------------------------------------------------------- chunks of a stream

  /** The payload bytes of a frame that is cut off. */
  function Held(masked: bool, rest: seq<byte>): nat {
    match ReadHead(masked, rest) case None => 0 case Some(h) => |rest| - h.size
  }

  lemma HeldIsCurrent(server: bool, p: Parser, rest: seq<byte>)
    requires Reads(server, p, rest)
    ensures p.user.Length() == Held(server, rest)
  {
    hide ReadHead, PayloadOf;
    if p.readMessage {
      PayloadSize(server, rest, ReadHead(server, rest).value);
    }
  }

  /** The bytes of the messages that are delivered to the delegate. */
  function DataBytes(ms: seq<Message>): nat {
    if ms == [] then 0
    else (if ms[0].opCode == TEXT || ms[0].opCode == BINARY then |ms[0].payload| else 0) + DataBytes(ms[1..])
  }

  /** The texts and the binary messages of a list. */
  function DataMessages(ms: seq<Message>): seq<Message> {
    if ms == [] then []
    else (if ms[0].opCode == TEXT || ms[0].opCode == BINARY then [ms[0]] else []) + DataMessages(ms[1..])
  }

  /** Of messages that are all taken, those are delivered to the delegate, each as it is and in their order. */
  lemma {:induction false} TakeAllDelivers(i: Inbox, ms: seq<Message>)
    requires TakeAll(i, ms).Some?
    ensures var i' := TakeAll(i, ms).value;
      && i'.delivered == i.delivered + DataMessages(ms) && i'.deliveredBytes == i.deliveredBytes + DataBytes(ms)
    decreases |ms|
  {
    hide Utf8.IsUtf8;
    if ms != [] {
      var first: seq<Message> := if ms[0].opCode == TEXT || ms[0].opCode == BINARY then [ms[0]] else [];
      var i' := Take(i, ms[0]).value;
      assert i'.delivered == i.delivered + first;
      TakeAllDelivers(i', ms[1..]);
      assert i.delivered + first + DataMessages(ms[1..]) == i.delivered + (first + DataMessages(ms[1..]));
    }
  }

  /** A stream is made of what is delivered, what is held, and framing. */
  lemma {:induction false} FramingBytes(masked: bool, s: seq<byte>)
    requires WellFramed(masked, s)
    ensures DataBytes(Messages(masked, s)) + Held(masked, Rest(masked, s)) <= |s|
    decreases |s|
  {
    hide ReadHead, GoodStart;
    var head := ReadHead(masked, s);
    if head.Some? && head.value.Total() <= |s| {
      FramingBytes(masked, s[head.value.Total()..]);
      PayloadSize(masked, s, head.value);
    }
  }

  /** i and j differ only in what is counted and answered chunk by chunk. */
  predicate SameButChunk(i: Inbox, j: Inbox) {
    j == i.(deliveredBytes := j.deliveredBytes, msgToSend := j.msgToSend)
  }

  lemma {:induction false} TakeAllSame(i: Inbox, j: Inbox, ms: seq<Message>)
    requires SameButChunk(i, j)
    ensures TakeAll(i, ms).Some? <==> TakeAll(j, ms).Some?
    ensures TakeAll(i, ms).Some? ==> SameButChunk(TakeAll(i, ms).value, TakeAll(j, ms).value)
    decreases |ms|
  {
    hide Utf8.IsUtf8;
    if ms != [] && Take(i, ms[0]).Some? {
      TakeAllSame(Take(i, ms[0]).value, Take(j, ms[0]).value, ms[1..]);
    }
  }

  lemma {:induction false} DataBytesAppend(a: seq<Message>, b: seq<Message>)
    ensures DataBytes(a + b) == DataBytes(a) + DataBytes(b)
  {
    if a == [] {
      assert a + b == b;
    } else {
      assert (a + b)[0] == a[0] && (a + b)[1..] == a[1..] + b;
      DataBytesAppend(a[1..], b);
    }
  }

  lemma {:induction false} ConcatAppend(a: seq<seq<byte>>, b: seq<seq<byte>>)
    ensures Concat(a + b) == Concat(a) + Concat(b)
  {
    if a == [] {
      assert a + b == b;
    } else {
      assert (a + b)[0] == a[0] && (a + b)[1..] == a[1..] + b;
      ConcatAppend(a[1..], b);
    }
  }

  lemma SettledReads(server: bool, p: Parser, rest: seq<byte>, i: Inbox)
    requires Reads(server, p, rest)
    ensures Reads(server, WithInbox(p, i), rest)
  {
    hide ReadHead, PayloadOf, Rotated, Key;
  }

  /** A chunk of a stream of which no message is refused. */
  lemma ChunkReceived(server: bool, p: Parser, rest: seq<byte>, s: seq<byte>)
    requires Reads(server, p, rest) && WellFramed(server, rest + s)
    requires TakeAll(Emptied(p.user.inbox), Messages(server, rest + s)).Some?
    ensures var q, ms := Chunked(server, p, s), Messages(server, rest + s);
      && Some(q.user.inbox) == TakeAll(Emptied(p.user.inbox), ms)
      && Reads(server, Settled(q), Rest(server, rest + s)) && q.user.inbox.deliveredBytes == DataBytes(ms)
  {
    hide Reads, WellFramed, Messages, Rest, TakeAll, Consume, DataBytes;
    ReadsIs(server, p, rest);
    SettledReads(server, p, rest, Emptied(p.user.inbox));
    ConsumeMeaning(server, WithInbox(p, Emptied(p.user.inbox)), rest, s);
    var q := Chunked(server, p, s);
    SettledReads(server, q, Rest(server, rest + s), q.user.inbox.(msgToSend := None));
    TakeAllDelivers(Emptied(p.user.inbox), Messages(server, rest + s));
  }

  /** The frames that onReceive sends for a chunk: the last PING is answered. */
  lemma ChunkAnswered(server: bool, p: Parser, rest: seq<byte>, s: seq<byte>, a: seq<Message>, m: Message,
                      b: seq<Message>, random: seq<byte>)
    requires Reads(server, p, rest) && WellFramed(server, rest + s) && Messages(server, rest + s) == a + ([m] + b)
    requires TakeAll(Emptied(p.user.inbox), a + ([m] + b)).Some?
    requires |random| == 4 && |m.payload| < UINT64_LIMIT && !p.user.inbox.closeSent
    ensures var answer := Answer(server, Chunked(server, p, s).user.inbox, random);
      && (m.opCode == CLOSE ==>
            answer == if forall x :: x in b ==> x.opCode != PING then [Format(!server, m, random)] else [])
      && (m.opCode == PING && (forall x :: x in a ==> x.opCode != CLOSE)
            && (forall x :: x in b ==> x.opCode != CLOSE && x.opCode != PING) ==>
            answer == [Format(!server, Message(PONG, m.payload), random)])
  {
    hide Reads, WellFramed, Messages, Rest, TakeAll, Chunked, Answer, Format;
    ChunkReceived(server, p, rest, s);
    if m.opCode == CLOSE {
      CloseEchoed(server, p.user.inbox, a, m, b, random);
    } else if m.opCode == PING && (forall x :: x in a ==> x.opCode != CLOSE)
              && (forall x :: x in b ==> x.opCode != CLOSE && x.opCode != PING) {
      PingAnswered(server, p.user.inbox, a, m, b, random);
    }
  }

  /** The chunks of a stream of which no message is refused: what they make of the state, and the bytes they
      deliver, do not depend on how the stream is cut; only which PINGs are answered does. */
  lemma {:induction false} ChunksReceived(server: bool, p: Parser, rest: seq<byte>, chunks: seq<seq<byte>>)
    requires Reads(server, p, rest) && WellFramed(server, rest + Concat(chunks))
    requires TakeAll(Emptied(p.user.inbox), Messages(server, rest + Concat(chunks))).Some?
    ensures var q, ms := AfterChunks(server, p, chunks), Messages(server, rest + Concat(chunks));
      && SameButChunk(TakeAll(Emptied(p.user.inbox), ms).value, q.user.inbox)
      && q.user.inbox.delivered == p.user.inbox.delivered + DataMessages(ms)
      && Reads(server, q, Rest(server, rest + Concat(chunks))) && DeliveredIn(server, p, chunks) == DataBytes(ms)
    decreases |chunks|
  {
    hide Reads, WellFramed, Messages, Rest, TakeAll, Chunked, DataBytes, DataMessages;
    ReadsIs(server, p, rest);
    TakeAllDelivers(Emptied(p.user.inbox), Messages(server, rest + Concat(chunks)));
    if chunks == [] {
      assert rest + Concat(chunks) == rest;
      NoData();
      NothingTaken(Emptied(p.user.inbox));
    } else {
      var s, more := chunks[0], Concat(chunks[1..]);
      assert rest + Concat(chunks) == (rest + s) + more;
      StreamAppend(server, rest + s, more);
      var i := Emptied(p.user.inbox);
      var a, b := Messages(server, rest + s), Messages(server, Rest(server, rest + s) + more);
      TakeAllAppend(i, a, b);
      DataBytesAppend(a, b);
      ChunkReceived(server, p, rest, s);
      var next := Settled(Chunked(server, p, s));
      TakeAllSame(TakeAll(i, a).value, Emptied(next.user.inbox), b);
      ChunksReceived(server, next, Rest(server, rest + s), chunks[1..]);
    }
  }

  lemma NoData()
    ensures DataBytes([]) == 0
  {
  }

  // ---------------------------------------------------------------- the object

  class WebSocketImpl {
    const framing: bool
    const isServer: bool
    const assembler: Assembler
    const protocol: WebSocketProtocol
    var bufferedBytes: nat
    var bytesReceived: nat
    var wire: seq<seq<byte>>
    ghost var completed: nat
    ghost var unfreed: nat

    constructor (framing: bool, isServer: bool)
      ensures Valid() && this.framing == framing && this.isServer == isServer
      ensures bufferedBytes == bytesReceived == completed == unfreed == 0 && wire == []
      ensures State() == NewParser(protocol.mask[..])
    {
      this.framing, this.isServer := framing, isServer;
      var a := new Assembler();
      assembler := a;
      protocol := new WebSocketProtocol(isServer, a);
      bufferedBytes, bytesReceived, wire, completed, unfreed := 0, 0, [], 0, 0;
    }

    /** The state of the parser and of what has been received. */
    ghost function State(): Parser
      requires protocol.Owns(assembler)
      reads assembler, assembler.curMessage, protocol, protocol.mask, protocol.spill
    {
      protocol.State(assembler)
    }

    ghost predicate ValidState()
      reads assembler, assembler.curMessage, protocol, protocol.mask, protocol.spill
    {
      && protocol.Owns(assembler) && protocol.isServer == isServer
      && Sound(isServer, State()) && Cut(isServer, State()) && Small(State())
    }

    /** Every byte received has been reported by receiveComplete, or is part of a message that has been
        delivered and not been freed yet, or of the message that is being received. */
    ghost predicate Valid()
      reads this, assembler, assembler.curMessage, protocol, protocol.mask, protocol.spill
    {
      && ValidState() && assembler.msgToSend == None
      && bytesReceived == completed + unfreed + assembler.curMessageLength
    }

    /** receiveComplete, which tells the socket that bytes it has passed on have been handled. */
    method ReceiveComplete(byteCount: nat)
      modifies this`completed
      ensures completed == old(completed) + byteCount
    {
      completed := completed + byteCount;
    }

    /** The destructor of a delivered message. */
    method FreeMessage(size: nat)
      requires Valid() && size <= unfreed
      modifies this`completed, this`unfreed
      ensures Valid() && completed == old(completed) + size && unfreed == old(unfreed) - size
    {
      unfreed := unfreed - size;
      ReceiveComplete(size);
    }

    /** sendOp. The source makes a buffer of ten bytes more than the message, in which not every frame fits:
        see FrameFits. Here it has room for any frame. */
    method SendOp(message: seq<byte>, opCode: nat, random: seq<byte>) returns (writeable: bool)
      requires opCode < 16 && |random| == 4 && |message| < UINT64_LIMIT
      modifies this`bufferedBytes, this`wire
      ensures (bufferedBytes, writeable) == (
        var frame := if framing then Format(!isServer, Message(opCode, message), random) else message;
        BackPressure.SendOp(old(bufferedBytes), assembler.closeSent, opCode == CLOSE, |frame|))
      ensures wire == old(wire) + if assembler.closeSent && opCode != CLOSE then []
        else [if framing then Format(!isServer, Message(opCode, message), random) else message]
    {
      hide Format;
      if assembler.closeSent && opCode != CLOSE {
        return false;
      }
      var frame := message;
      if framing {
        FrameRoom(!isServer, Message(opCode, message), random);
        var buffer := new byte[|message| + 14];
        var newSize := FormatMessage(!isServer, buffer, message, opCode, random);
        frame := buffer[..newSize];
      }
      bufferedBytes := bufferedBytes + |frame|;
      writeable := bufferedBytes <= BackPressure.SEND_BUFFER_SIZE;
      wire := wire + [frame];
    }

    /** onWriteComplete; notify is whether the delegate is told that the socket is writeable. */
    method OnWriteComplete(size: nat) returns (notify: bool, disconnect: bool)
      requires size <= bufferedBytes
      modifies this`bufferedBytes
      ensures var closing := assembler.closeSent && assembler.closeReceived;
        && (bufferedBytes, notify) == BackPressure.WriteComplete(old(bufferedBytes), closing, size)
        && disconnect == (closing && bufferedBytes == 0)
    {
      notify := bufferedBytes > BackPressure.SEND_BUFFER_SIZE;
      bufferedBytes := bufferedBytes - size;
      if bufferedBytes > BackPressure.SEND_BUFFER_SIZE {
        notify := false;
      }
      disconnect := assembler.closeSent && assembler.closeReceived && bufferedBytes == 0;
      if disconnect {
        notify := false;
      }
    }

    method ResetDelivered()
      requires ValidState() && assembler.msgToSend == None
      modifies assembler`deliveredBytes
      ensures ValidState() && State() == WithInbox(old(State()), Emptied(old(State()).user.inbox))
    {
      hide ReadHead;
      assembler.deliveredBytes := 0;
    }

    /** onReceive up to the end of its locked block, with framing: the bytes that it reports. */
    method ReceiveFrames(buf: array<byte>) returns (completedBytes: int)
      requires ValidState() && assembler.msgToSend == None && protocol.MayRead(assembler, buf, 0, buf.Length)
      modifies assembler, assembler.curMessage, protocol, protocol.mask, protocol.spill, buf
      ensures ValidState() && fresh(assembler.Footprint() - old(assembler.Footprint()))
      ensures State() == Chunked(isServer, old(State()), old(buf[..]))
      ensures completedBytes == buf.Length + old(assembler.curMessageLength) - assembler.curMessageLength
                                - assembler.deliveredBytes >= 0
      ensures assembler.deliveredBytes == State().user.inbox.deliveredBytes
    {
      hide ReadHead, Consume, Sound;
      CompletedBytes(isServer, State(), buf[..]);
      ResetDelivered();
      var prevMessageLength := assembler.curMessageLength;
      assert buf[0..buf.Length] == buf[..];
      protocol.Consume(buf, 0, buf.Length, assembler);
      completedBytes := buf.Length + prevMessageLength - assembler.curMessageLength - assembler.deliveredBytes;
    }

    /** move(_msgToSend) */
    method TakeAnswer() returns (message: Option<seq<byte>>)
      requires ValidState()
      modifies assembler`msgToSend
      ensures ValidState() && State() == Settled(old(State()))
      ensures message == old(assembler.msgToSend) && assembler.msgToSend == None
    {
      hide ReadHead;
      message := assembler.msgToSend;
      assembler.msgToSend := None;
    }

    /** The end of onReceive: sends the answer that is left, if there is one. */
    method SendAnswer(random: seq<byte>)
      requires ValidState() && framing && |random| == 4
      modifies this`bufferedBytes, this`wire, assembler`msgToSend
      ensures ValidState() && State() == Settled(old(State())) && assembler.msgToSend == None
      ensures var answer := Answer(isServer, old(State()).user.inbox, random);
        wire == old(wire) + answer && bufferedBytes == old(bufferedBytes) + |Concat(answer)|
    {
      hide ReadHead, Format, Sound;
      var msgToSend := TakeAnswer();
      if msgToSend.Some? {
        var writeable := SendOp(msgToSend.value, assembler.opToSend, random);
      }
    }

    /** Without framing, every chunk is delivered as a binary message. */
    method DeliverChunk(data: seq<byte>)
      requires ValidState() && assembler.msgToSend == None
      modifies assembler`delivered, assembler`deliveredBytes
      ensures ValidState() && assembler.msgToSend == None
      ensures State().user.inbox.delivered == old(State()).user.inbox.delivered + [Message(BINARY, data)]
    {
      hide ReadHead;
      assembler.DeliverMessageToDelegate(data, true);
    }

    /** onReceive with framing, once the bytes have been counted. */
    method ReceiveFramed(buf: array<byte>, random: seq<byte>) returns (completedBytes: int)
      requires ValidState() && framing && assembler.msgToSend == None && |random| == 4
      requires protocol.MayRead(assembler, buf, 0, buf.Length)
      requires bytesReceived == completed + unfreed + assembler.curMessageLength + buf.Length
      modifies this`completed, this`unfreed, this`wire, this`bufferedBytes
      modifies assembler, assembler.curMessage, protocol, protocol.mask, protocol.spill, buf
      ensures Valid() && fresh(assembler.Footprint() - old(assembler.Footprint()))
      ensures completedBytes >= 0 && completed == old(completed) + completedBytes
      ensures var q := Chunked(isServer, old(State()), old(buf[..]));
        && State() == Settled(q) && unfreed == old(unfreed) + q.user.inbox.deliveredBytes
        && wire == old(wire) + Answer(isServer, q.user.inbox, random)
        && bufferedBytes == old(bufferedBytes) + |Concat(Answer(isServer, q.user.inbox, random))|
    {
      hide ReadHead, Consume, Sound, Small, Cut, Answer, Concat, State, WebSocketProtocol.Owns, Chunked;
      completedBytes := ReceiveFrames(buf);
      unfreed := unfreed + assembler.deliveredBytes;
      if completedBytes > 0 {
        ReceiveComplete(completedBytes);
      }
      SendAnswer(random);
    }

    /** onReceive, whatever the bytes and whatever came before: the bytes reported as completed are never
        negative, and no byte is lost; the state is what the parser makes of the chunk, and the answer that
        is left is sent. */
    method OnReceive(buf: array<byte>, random: seq<byte>) returns (completedBytes: int)
      requires Valid() && protocol.MayRead(assembler, buf, 0, buf.Length) && |random| == 4
      modifies this, assembler, assembler.curMessage, protocol, protocol.mask, protocol.spill, buf
      ensures Valid() && fresh(assembler.Footprint() - old(assembler.Footprint()))
      ensures bytesReceived == old(bytesReceived) + buf.Length
      ensures completedBytes >= 0 && completed == old(completed) + completedBytes
      ensures framing ==>
        var q := Chunked(isServer, old(State()), old(buf[..]));
        && State() == Settled(q) && unfreed == old(unfreed) + q.user.inbox.deliveredBytes
        && wire == old(wire) + Answer(isServer, q.user.inbox, random)
        && bufferedBytes == old(bufferedBytes) + |Concat(Answer(isServer, q.user.inbox, random))|
      ensures !framing ==>
        && completedBytes == 0 && unfreed == old(unfreed) + buf.Length
        && State().user.inbox.delivered == old(State().user.inbox.delivered) + [Message(BINARY, old(buf[..]))]
        && wire == old(wire) && bufferedBytes == old(bufferedBytes)
    {
      hide ReadHead, Consume, Sound, Small, Cut, Answer, Concat, State, WebSocketProtocol.Owns, Chunked;
      bytesReceived := bytesReceived + buf.Length;
      completedBytes := 0;
      if framing {
        completedBytes := ReceiveFramed(buf, random);
      } else {
        DeliverChunk(buf[..]);
        unfreed := unfreed + buf.Length;
      }
    }

    /** onReceive with framing, of the bytes of a chunk. */
    method ReceiveChunk(chunk: seq<byte>, random: seq<byte>)
      requires Valid() && framing && |random| == 4
      modifies this, assembler, assembler.curMessage, protocol, protocol.mask, protocol.spill
      ensures Valid() && fresh(assembler.Footprint() - old(assembler.Footprint()))
      ensures var q := Chunked(isServer, old(State()), chunk);
        && State() == Settled(q) && bytesReceived == old(bytesReceived) + |chunk|
        && unfreed == old(unfreed) + q.user.inbox.deliveredBytes
        && wire == old(wire) + Answer(isServer, q.user.inbox, random)
        && bufferedBytes == old(bufferedBytes) + |Concat(Answer(isServer, q.user.inbox, random))|
    {
      hide ReadHead, Consume, Sound, Small, Cut, Answer, Concat, Chunked, State;
      var buf := new byte[|chunk|](k requires 0 <= k < |chunk| => chunk[k]);
      assert buf[..] == chunk;
      var completedBytes := OnReceive(buf, random);
    }

    /** onReceive of one chunk after the other, whatever the bytes: the accounting holds all along (Valid),
        and the frames sent are the answers to the chunks. */
    method ReceiveAll(chunks: seq<seq<byte>>, randoms: seq<seq<byte>>)
      requires Valid() && framing && |randoms| == |chunks| && forall r :: r in randoms ==> |r| == 4
      modifies this, assembler, assembler.curMessage, protocol, protocol.mask, protocol.spill
      ensures Valid() && fresh(assembler.Footprint() - old(assembler.Footprint()))
      ensures State() == AfterChunks(isServer, old(State()), chunks)
      ensures bytesReceived == old(bytesReceived) + |Concat(chunks)|
      ensures unfreed == old(unfreed) + DeliveredIn(isServer, old(State()), chunks)
      ensures var sent := Answers(isServer, old(State()), chunks, randoms);
        wire == old(wire) + sent && bufferedBytes == old(bufferedBytes) + |Concat(sent)|
      decreases |chunks|
    {
      hide ReadHead, Sound, Small, Cut, Answer, Answers, Chunked, Concat, State, WebSocketProtocol.Owns;
      if chunks == [] {
        NoAnswers(isServer, State());
        return;
      }
      AnswersSplit(isServer, State(), chunks, randoms);
      assert randoms[0] in randoms;
      ReceiveChunk(chunks[0], randoms[0]);
      ReceiveAll(chunks[1..], randoms[1..]);
    }
  }

  lemma NoAnswers(server: bool, p: Parser)
    requires Sound(server, p)
    ensures Answers(server, p, [], []) == [] && Concat([]) == []
  {
  }

  /** The answers to the first chunk, and to the others. */
  lemma AnswersSplit(server: bool, p: Parser, chunks: seq<seq<byte>>, randoms: seq<seq<byte>>)
    requires Sound(server, p) && chunks != [] && |randoms| == |chunks| && forall r :: r in randoms ==> |r| == 4
    ensures randoms[0] in randoms && |Concat(chunks)| == |chunks[0]| + |Concat(chunks[1..])|
    ensures var q := Chunked(server, p, chunks[0]);
      var first := Answer(server, q.user.inbox, randoms[0]);
      var later := Answers(server, Settled(q), chunks[1..], randoms[1..]);
      var all := Answers(server, p, chunks, randoms);
      all == first + later && |Concat(all)| == |Concat(first)| + |Concat(later)|
  {
    hide Answer, Chunked;
    assert randoms[0] in randoms;
    var q := Chunked(server, p, chunks[0]);
    ConcatAppend(Answer(server, q.user.inbox, randoms[0]), Answers(server, Settled(q), chunks[1..], randoms[1..]));
  }
}
