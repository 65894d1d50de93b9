/** Incoming messages: reassembling properties and body from frames (src/blip/Message.cc). */
module MessagesIn {
  import opened Bytes
  import opened Messages
  import opened Codecs

  const INCOMING_ACK_THRESHOLD := 50000
  const MAX_PROPERTIES_SIZE := 102400
  const MAX_VARINT_LEN_32 := 5

  datatype ReceiveState = Other | Beginning | End

  // ---------------------------------------------------------------- the state of a message

  /** started: the first frame has been read (_in is allocated). The part of the properties still to
      be read is the last propsSize - |props| bytes of them. */
  datatype InMsg = InMsg(
    number: MessageNo, typ: MessageType, urgent: bool, noReply: bool,
    started: bool, rawBytes: nat, unacked: nat,
    propsSize: nat, props: seq<byte>, body: seq<byte>, complete: bool)
  {
    predicate PropertiesRead() {
      |props| >= propsSize
    }
  }

  function NewInMsg(number: MessageNo, flags: FrameFlags): InMsg {
    InMsg(number, flags.typ, flags.urgent, flags.noReply, false, 0, 0, 0, [], [], false)
  }

  /** The part of the encoded message that m has received. */
  function Assembled(m: InMsg): seq<byte> {
    if m.started then PutUVarInt(m.propsSize) + m.props + m.body else []
  }

  /** Body bytes are stored only once the properties are complete. */
  predicate Partial(m: InMsg) {
    m.started ==> |m.props| <= m.propsSize && (m.body != [] ==> m.PropertiesRead())
  }

  /** content is what MessageBuilder::finish makes of these encoded properties and this body. */
  predicate WellFormed(content: seq<byte>, props: seq<byte>, body: seq<byte>) {
    && content == PutUVarInt(|props|) + props + body
    && |props| <= MAX_PROPERTIES_SIZE
    && (props != [] ==> props[|props| - 1] == 0)
  }

  // ---------------------------------------------------------------- one frame

  /** MessageIn::acknowledge: the byte count of the ACK it sends, if it sends one. */
  function Acknowledge(m: InMsg, frameSize: nat): (InMsg, Option<nat>) {
    var raw := m.rawBytes + frameSize;
    var unacked := m.unacked + frameSize;
    if unacked >= INCOMING_ACK_THRESHOLD then (m.(rawBytes := raw, unacked := 0), Some(raw))
    else (m.(rawBytes := raw, unacked := unacked), None)
  }

  /** The first frame of a message: its flags, the size of its properties and what follows in the
      first few bytes. Returns the rest of the frame, or None where the source throws. */
  function ReadStart(m: InMsg, data: seq<byte>, flags: FrameFlags): Option<(InMsg, seq<byte>)> {
    var n := Min(|data|, MAX_VARINT_LEN_32);
    match ReadUVarInt(data[..n], UINT32_LIMIT)
    case None => None
    case Some(size) =>
      if size.0 > MAX_PROPERTIES_SIZE then None
      else
        var rest := data[size.1..n];
        var p := Min(size.0, |rest|);
        Some((m.(typ := flags.typ, urgent := flags.urgent, noReply := flags.noReply, started := true,
                 propsSize := size.0, props := rest[..p], body := rest[p..]),
              data[n..]))
  }

  /** Completes the properties from the frame, then appends the rest of it to the body. */
  function ReadRest(m: InMsg, frame: seq<byte>): InMsg {
    var n := if m.PropertiesRead() then 0 else Min(|frame|, m.propsSize - |m.props|);
    m.(props := m.props + frame[..n], body := m.body + frame[n..])
  }

  datatype FrameResult =
    | FrameOk(msg: InMsg, crc: uint32, state: ReceiveState, ack: Option<nat>)
    | FrameThrew(ack: Option<nat>)
  {
    function Ack(): Option<nat> { ack }
  }

  /** MessageIn::receivedFrame in Raw mode, crc being the codec's checksum. */
  function ReceivedFrame(m: InMsg, crc: uint32, payload: seq<byte>, flags: FrameFlags): FrameResult
    requires |payload| >= CHECKSUM_SIZE
  {
    var acked := Acknowledge(m, |payload|);
    var n := |payload| - CHECKSUM_SIZE;
    var start := if m.started then Some((acked.0, payload[..n])) else ReadStart(acked.0, payload[..n], flags);
    if start.None? then FrameThrew(acked.1)
    else
      var msg := ReadRest(start.value.0, start.value.1);
      var justFinished := msg.PropertiesRead() && !(m.started && m.PropertiesRead());
      if justFinished && msg.propsSize > 0 && msg.props[msg.propsSize - 1] != 0 then FrameThrew(acked.1)
      else if Dec32(payload[n..]) != Crc32(crc, payload[..n]) then FrameThrew(acked.1)
      else if !flags.moreComing && !msg.PropertiesRead() then FrameThrew(acked.1)
      else
        FrameOk(msg.(complete := msg.complete || !flags.moreComing), Crc32(crc, payload[..n]),
                if !flags.moreComing then End
                else if justFinished && !msg.typ.ErrorType? then Beginning
                else Other,
                acked.1)
  }

  // ---------------------------------------------------------------- what reception preserves

  /** What has been assembled determines the size of the properties. */
  lemma PropsSizeFromPrefix(m: InMsg, content: seq<byte>, props: seq<byte>, body: seq<byte>, rest: seq<byte>)
    requires m.started && WellFormed(content, props, body) && content == Assembled(m) + rest
    ensures m.propsSize == |props| && m.props + m.body + rest == props + body
  {
    hide PutUVarInt, GetUVarInt;
    var a, b := m.props + m.body + rest, props + body;
    assert content == PutUVarInt(m.propsSize) + a && content == PutUVarInt(|props|) + b;
    SameVarInt(m.propsSize, a, |props|, b);
  }

  /** No varint is the start of another. */
  lemma SameVarInt(m: nat, a: seq<byte>, n: nat, b: seq<byte>)
    requires PutUVarInt(m) + a == PutUVarInt(n) + b
    ensures m == n && a == b
  {
    hide PutUVarInt, GetUVarInt;
    VarIntRoundTrip(m, a);
    VarIntRoundTrip(n, b);
    assert a == (PutUVarInt(m) + a)[|PutUVarInt(m)|..];
    assert b == (PutUVarInt(n) + b)[|PutUVarInt(n)|..];
  }

  /** The start of a first frame that holds the whole size of the properties. */
  lemma ReadStartAssembles(m: InMsg, data: seq<byte>, flags: FrameFlags, content: seq<byte>,
                           props: seq<byte>, body: seq<byte>, rest: seq<byte>)
    requires WellFormed(content, props, body) && content == data + rest
    requires |data| >= MAX_VARINT_LEN_32 || rest == []
    ensures var r := ReadStart(m, data, flags);
      && r.Some? && r.value.0.started && Partial(r.value.0)
      && Assembled(r.value.0) + r.value.1 == data
      && r.value.0.typ == flags.typ
  {
    hide PutUVarInt, GetUVarInt, ReadUVarInt, ReadStart;
    var size := PutUVarInt(|props|);
    var n := Min(|data|, MAX_VARINT_LEN_32);
    VarIntMaxLengths(|props|);
    var tail := data[|size|..n];
    HeadOfContent(size, props, body, data, rest, n);
    VarIntRoundTrip(|props|, tail);
    ReadSize(data, n, size, tail, |props|);
    ReadStartIs(m, data, flags, |props|, |size|);
    JoinStart(size, tail, Min(|props|, |tail|), data, n);
  }

  /** A first frame whose size of the properties has been read. */
  lemma ReadStartIs(m: InMsg, data: seq<byte>, flags: FrameFlags, size: nat, length: nat)
    requires var n := Min(|data|, MAX_VARINT_LEN_32);
      ReadUVarInt(data[..n], UINT32_LIMIT) == Some((size, length)) && length <= n && size <= MAX_PROPERTIES_SIZE
    ensures var n := Min(|data|, MAX_VARINT_LEN_32);
      var tail := data[length..n];
      var p := Min(size, |tail|);
      ReadStart(m, data, flags) == Some((m.(typ := flags.typ, urgent := flags.urgent, noReply := flags.noReply,
        started := true, propsSize := size, props := tail[..p], body := tail[p..]), data[n..]))
  {
    hide ReadUVarInt;
  }

  lemma JoinStart(size: seq<byte>, tail: seq<byte>, p: nat, data: seq<byte>, n: nat)
    requires p <= |tail| && n <= |data| && data[..n] == size + tail
    ensures size + tail[..p] + tail[p..] + data[n..] == data
  {
    assert size + tail[..p] + tail[p..] == size + tail;
    assert data == data[..n] + data[n..];
  }

  lemma HeadOfContent(size: seq<byte>, props: seq<byte>, body: seq<byte>, data: seq<byte>,
                      rest: seq<byte>, n: nat)
    requires |size| <= n <= |data| && size + props + body == data + rest
    ensures data[..n] == size + data[|size|..n]
  {
    var content := data + rest;
    assert content[..|size|] == size && data[..n] == content[..n];
  }

  lemma ReadSize(data: seq<byte>, n: nat, size: seq<byte>, tail: seq<byte>, value: nat)
    requires n <= |data| && data[..n] == size + tail && value <= MAX_PROPERTIES_SIZE
    requires GetUVarInt(size + tail) == Some((value, |size|))
    ensures ReadUVarInt(data[..n], UINT32_LIMIT) == Some((value, |size|))
    ensures |size| <= n && data[|size|..n] == tail
  {
    hide GetUVarInt;
    assert data[..n][|size|..] == tail;
  }

  lemma Regroup(a: seq<byte>, p: seq<byte>, b: seq<byte>, f: seq<byte>, g: seq<byte>)
    requires f == [] || b == []
    ensures a + (p + f) + (b + g) == (a + p + b) + (f + g)
  {
    if f == [] {
      assert p + f == p && f + g == g;
    } else {
      assert b + g == g && a + p + b == a + p;
    }
  }

  lemma ReadRestAssembles(m: InMsg, frame: seq<byte>)
    requires m.started && Partial(m)
    ensures var r := ReadRest(m, frame); Partial(r) && Assembled(r) == Assembled(m) + frame
  {
    hide PutUVarInt;
    var n := if m.PropertiesRead() then 0 else Min(|frame|, m.propsSize - |m.props|);
    assert frame == frame[..n] + frame[n..];
    Regroup(PutUVarInt(m.propsSize), m.props, m.body, frame[..n], frame[n..]);
  }

  /** A frame that carries the next bytes of a well-formed message, with the right checksum, is
      accepted: it extends what has been assembled by exactly its data, and the last one delivers
      exactly the properties and the body that were sent. */
  lemma FrameAccepted(m: InMsg, crc: uint32, payload: seq<byte>, flags: FrameFlags,
                      content: seq<byte>, props: seq<byte>, body: seq<byte>, rest: seq<byte>)
    requires |payload| >= CHECKSUM_SIZE && Partial(m) && WellFormed(content, props, body)
    requires var n := |payload| - CHECKSUM_SIZE;
      && content == Assembled(m) + payload[..n] + rest
      && Dec32(payload[n..]) == Crc32(crc, payload[..n])
      && (!m.started ==> n >= MAX_VARINT_LEN_32 || rest == [])
    requires !flags.moreComing ==> rest == []
    ensures var n := |payload| - CHECKSUM_SIZE;
      var r := ReceivedFrame(m, crc, payload, flags);
      && r.FrameOk? && r.crc == Crc32(crc, payload[..n])
      && r.msg.started && Partial(r.msg) && Assembled(r.msg) == Assembled(m) + payload[..n]
      && r.msg.number == m.number
      && r.msg.rawBytes == m.rawBytes + |payload|
      && r.msg.unacked == Acknowledge(m, |payload|).0.unacked && r.ack == Acknowledge(m, |payload|).1
      && (r.state == End <==> !flags.moreComing)
      && (!flags.moreComing ==> r.msg.props == props && r.msg.body == body)
  {
    hide Crc32, Dec32, PutUVarInt, ReadStart, ReadRest;
    var n := |payload| - CHECKSUM_SIZE;
    var data := payload[..n];
    var acked := Acknowledge(m, |payload|);
    var start := if m.started then Some((acked.0, data)) else ReadStart(acked.0, data, flags);
    if !m.started {
      assert content == data + rest;
      ReadStartAssembles(acked.0, data, flags, content, props, body, rest);
    }
    var msg := ReadRest(start.value.0, start.value.1);
    ReadRestAssembles(start.value.0, start.value.1);
    assert Assembled(msg) == Assembled(m) + data by {
      assert [] + data == data;
    }
    PropsSizeFromPrefix(msg, content, props, body, rest);
    SplitProps(msg, props, body, rest);
    ReadKeeps(acked.0, data, flags);
  }

  lemma SplitProps(msg: InMsg, props: seq<byte>, body: seq<byte>, rest: seq<byte>)
    requires msg.started && Partial(msg) && msg.propsSize == |props|
    requires msg.props + msg.body + rest == props + body
    ensures msg.PropertiesRead() ==> msg.props == props && msg.body + rest == body
    ensures rest == [] ==> msg.PropertiesRead() && msg.body == body
  {
    var all := props + body;
    if msg.PropertiesRead() {
      assert msg.props == all[..|props|] && props == all[..|props|];
      assert msg.body + rest == all[|props|..] && body == all[|props|..];
      assert rest == [] ==> msg.body + rest == msg.body;
    } else {
      assert msg.body == [];
      assert rest == [] ==> |all| == |msg.props|;
    }
  }

  lemma ReadKeeps(m: InMsg, data: seq<byte>, flags: FrameFlags)
    ensures var start := if m.started then Some((m, data)) else ReadStart(m, data, flags);
      start.Some? ==>
        var r := ReadRest(start.value.0, start.value.1);
        r.started && r.number == m.number && r.rawBytes == m.rawBytes && r.unacked == m.unacked
  {
  }

  // ---------------------------------------------------------------- which frames are accepted

  /** The size that data begins with: a varint below 2^32 that takes k bytes and at most five. */
  predicate SizeRead(data: seq<byte>, k: nat, size: nat) {
    StartsVarInt(data, k) && k <= 5 && size == Base128(data[..k]) < UINT32_LIMIT
  }

  /** m together with more of it: size is that of its properties, all what is known of properties and body;
      the properties come first and take no more than their size. */
  predicate Holds(m: InMsg, size: nat, all: seq<byte>) {
    m.started && m.propsSize == size && m.props + m.body == all && |m.props| == Min(size, |all|)
  }

  /** The last four bytes of a frame, as a big-endian number, are the checksum over its data. */
  predicate ChecksumRight(crc: uint32, payload: seq<byte>)
    requires |payload| >= 4
  {
    Big32(payload, |payload| - 4) == Crc32(crc, payload[..|payload| - 4])
  }

  /** Properties that are complete end in NUL; those that are not may still be continued. */
  predicate PropsRight(size: nat, all: seq<byte>, moreComing: bool) {
    if |all| >= size then size > 0 ==> all[size - 1] == 0 else moreComing
  }

  /** The data of a first frame that is accepted begins with a size of at most 102400 bytes. */
  ghost predicate FirstRight(data: seq<byte>, moreComing: bool) {
    exists k: nat, size: nat ::
      SizeRead(data, k, size) && size <= 102400 && PropsRight(size, data[k..], moreComing)
  }

  /** The state that a frame reports: End for the last frame, Beginning for the frame that completes the
      properties of a message that is no error and not complete, Other for any other. */
  predicate StateRight(state: ReceiveState, flags: FrameFlags, typ: MessageType, justComplete: bool) {
    && (state == End <==> !flags.moreComing)
    && (state == Beginning <==> flags.moreComing && justComplete && typ != ErrorType)
  }

  lemma SizeReadIff(data: seq<byte>)
    ensures var size := ReadUVarInt(data[..Min(|data|, 5)], UINT32_LIMIT);
      if size.Some? then SizeRead(data, size.value.1, size.value.0) else forall k: nat, n: nat :: !SizeRead(data, k, n)
    ensures forall k: nat, n: nat :: SizeRead(data, k, n) ==>
              ReadUVarInt(data[..Min(|data|, 5)], UINT32_LIMIT) == Some((n, k))
  {
    hide GetUVarInt, Base128;
    var head := data[..Min(|data|, 5)];
    VarIntRead(head);
    forall k: nat, n: nat | SizeRead(data, k, n) ensures ReadUVarInt(head, UINT32_LIMIT) == Some((n, k)) {
      VarIntIs(head, k);
      assert head[..k] == data[..k];
    }
    var size := ReadUVarInt(head, UINT32_LIMIT);
    assert size.Some? ==> head[..size.value.1] == data[..size.value.1];
  }

  /** What a first frame holds behind the size. */
  lemma StartHolds(m: InMsg, data: seq<byte>, flags: FrameFlags, k: nat, size: nat)
    requires !m.started && m.props == m.body == [] && SizeRead(data, k, size) && size <= 102400
    ensures var start := ReadStart(m, data, flags);
      && start.Some?
      && var r := ReadRest(start.value.0, start.value.1);
         Holds(r, size, data[k..]) && FrameFlags(r.typ, r.urgent, r.noReply, flags.moreComing) == flags
  {
    hide ReadUVarInt, SizeRead;
    SizeReadIff(data);
    ReadStartIs(m, data, flags, size, k);
    var n := Min(|data|, 5);
    assert data[k..] == data[k..n] + data[n..];
    var start := ReadStart(m, data, flags).value;
    assert start.0.props + start.0.body == data[k..n];
    RestHolds(start.0, start.1, size, data[k..n]);
  }

  lemma RestHolds(m: InMsg, frame: seq<byte>, size: nat, all: seq<byte>)
    requires Holds(m, size, all)
    ensures Holds(ReadRest(m, frame), size, all + frame)
  {
    var n := if m.PropertiesRead() then 0 else Min(|frame|, m.propsSize - |m.props|);
    assert frame == frame[..n] + frame[n..];
    Regroup([], m.props, m.body, frame[..n], frame[n..]);
    assert [] + m.props == m.props && [] + (m.props + frame[..n]) == m.props + frame[..n];
  }

  /** Of any bytes, a first frame is accepted if and only if it begins with a size of at most 102400 bytes,
      its checksum is right, its properties, if it completes them, end in NUL, and, if no more are coming,
      it does complete them. */
  lemma FirstAcceptedIff(m: InMsg, crc: uint32, payload: seq<byte>, flags: FrameFlags)
    requires |payload| >= 4 && !m.started && m.props == m.body == []
    ensures ReceivedFrame(m, crc, payload, flags).FrameOk?
      <==> ChecksumRight(crc, payload)
           && FirstRight(payload[..|payload| - 4], flags.moreComing)
  {
    hide Crc32, ReadUVarInt, SizeRead, ReadStart, ReadRest, Dec32, Big32;
    var n := |payload| - 4;
    var data := payload[..n];
    Dec32IsBig32(payload, n);
    assert payload[n..n + 4] == payload[n..];
    SizeReadIff(data);
    var acked := Acknowledge(m, |payload|).0;
    var size := ReadUVarInt(data[..Min(|data|, 5)], UINT32_LIMIT);
    NoStart(acked, data, flags);
    if size.Some? && size.value.0 <= 102400 {
      StartHolds(acked, data, flags, size.value.1, size.value.0);
    }
  }

  /** What it adds: everything behind the size, and the flags. */
  lemma FirstAccepted(m: InMsg, crc: uint32, payload: seq<byte>, flags: FrameFlags, k: nat, size: nat)
    requires |payload| >= 4 && !m.started && m.props == m.body == []
    requires ReceivedFrame(m, crc, payload, flags).FrameOk? && SizeRead(payload[..|payload| - 4], k, size)
    ensures var r := ReceivedFrame(m, crc, payload, flags);
      var data := payload[..|payload| - 4];
      && Holds(r.msg, size, data[k..]) && r.crc == Crc32(crc, data)
      && FrameFlags(r.msg.typ, r.msg.urgent, r.msg.noReply, flags.moreComing) == flags
      && StateRight(r.state, flags, flags.typ, |data| - k >= size)
  {
    hide Crc32, ReadUVarInt, SizeRead, ReadStart, ReadRest, Dec32;
    var data := payload[..|payload| - 4];
    var acked := Acknowledge(m, |payload|).0;
    SizeReadIff(data);
    NoStart(acked, data, flags);
    StartHolds(acked, data, flags, k, size);
  }

  /** Of any bytes, a later frame is accepted if and only if its checksum is right, the properties, if it
      completes them, end in NUL, and, if no more are coming, they are complete then. */
  lemma NextAcceptedIff(m: InMsg, crc: uint32, payload: seq<byte>, flags: FrameFlags)
    requires |payload| >= 4 && Holds(m, m.propsSize, m.props + m.body)
    ensures var r := ReceivedFrame(m, crc, payload, flags);
      var all := m.props + m.body + payload[..|payload| - 4];
      && (r.FrameOk? <==> ChecksumRight(crc, payload)
                          && (m.PropertiesRead() || PropsRight(m.propsSize, all, flags.moreComing)))
      && (r.FrameOk? ==> && Holds(r.msg, m.propsSize, all) && r.crc == Crc32(crc, payload[..|payload| - 4])
                         && r.msg.typ == m.typ && r.msg.urgent == m.urgent && r.msg.noReply == m.noReply
                         && StateRight(r.state, flags, m.typ, |all| >= m.propsSize && !m.PropertiesRead()))
  {
    hide Crc32, ReadRest, Dec32, Big32;
    var n := |payload| - 4;
    Dec32IsBig32(payload, n);
    assert payload[n..n + 4] == payload[n..];
    var acked := Acknowledge(m, |payload|).0;
    RestHolds(acked, payload[..n], m.propsSize, m.props + m.body);
    RestKeepsFlags(acked, payload[..n]);
  }

  lemma RestKeepsFlags(m: InMsg, frame: seq<byte>)
    ensures var r := ReadRest(m, frame); r.typ == m.typ && r.urgent == m.urgent && r.noReply == m.noReply
  {
  }

  /** Every frame counts, accepted or not: an ACK of all the bytes of the message so far is wanted when
      50000 of them have not been acknowledged. */
  lemma FrameCounts(m: InMsg, crc: uint32, payload: seq<byte>, flags: FrameFlags)
    requires |payload| >= 4
    ensures var r, unacked := ReceivedFrame(m, crc, payload, flags), m.unacked + |payload|;
      && r.Ack() == (if unacked >= 50000 then Some(m.rawBytes + |payload|) else None)
      && (r.FrameOk? ==> && r.msg.number == m.number && r.msg.rawBytes == m.rawBytes + |payload|
                         && r.msg.unacked == (if unacked >= 50000 then 0 else unacked)
                         && r.msg.complete == (m.complete || !flags.moreComing))
  {
    hide Crc32, ReadStart, ReadRest, Dec32;
    ReadKeeps(Acknowledge(m, |payload|).0, payload[..|payload| - 4], flags);
    ReadCompletes(Acknowledge(m, |payload|).0, payload[..|payload| - 4], flags);
  }

  lemma ReadCompletes(m: InMsg, data: seq<byte>, flags: FrameFlags)
    ensures var start := if m.started then Some((m, data)) else ReadStart(m, data, flags);
      start.Some? ==> ReadRest(start.value.0, start.value.1).complete == m.complete
  {
  }

  lemma NoStart(m: InMsg, data: seq<byte>, flags: FrameFlags)
    ensures var size := ReadUVarInt(data[..Min(|data|, 5)], UINT32_LIMIT);
      size.None? || size.value.0 > 102400 ==> ReadStart(m, data, flags).None?
  {
    hide ReadUVarInt;
  }

  // ---------------------------------------------------------------- the message object

  class MessageIn {
    const number: MessageNo
    var typ: MessageType
    var urgent: bool
    var noReply: bool
    var started: bool
    var rawBytesReceived: nat
    var unackedBytes: nat
    var propertiesSize: nat
    var properties: seq<byte>
    var body: seq<byte>
    var complete: bool

    constructor (number: MessageNo, flags: FrameFlags)
      ensures Model() == NewInMsg(number, flags)
    {
      this.number, typ, urgent, noReply := number, flags.typ, flags.urgent, flags.noReply;
      started, rawBytesReceived, unackedBytes := false, 0, 0;
      propertiesSize, properties, body, complete := 0, [], [], false;
    }

    function Model(): InMsg
      reads this
    {
      InMsg(number, typ, urgent, noReply, started, rawBytesReceived, unackedBytes,
            propertiesSize, properties, body, complete)
    }

    /** There is no body before the first frame. */
    predicate Ready()
      reads this
    {
      !started ==> body == []
    }

    /** Counts the bytes of a frame; returns the count to acknowledge when one is due. */
    method UpdateAcknowledge(frameSize: nat) returns (ack: Option<nat>)
      modifies this`rawBytesReceived, this`unackedBytes
      ensures (Model(), ack) == Acknowledge(old(Model()), frameSize)
    {
      ack := None;
      rawBytesReceived, unackedBytes := rawBytesReceived + frameSize, unackedBytes + frameSize;
      if unackedBytes >= INCOMING_ACK_THRESHOLD {
        ack := Some(rawBytesReceived);
        unackedBytes := 0;
      }
    }

    /** The loop of readFrame: copies the frame into the body, 4096 bytes at a time. */
    method ReadFrame(codec: Codec, frame: seq<byte>)
      modifies this`body, codec
      ensures Model() == old(Model()).(body := old(body) + frame)
      ensures codec.checksum == Crc32(old(codec.checksum), frame)
    {
      hide CrcFold;
      var rest, i := frame, 0;
      Crc32Empty(codec.checksum);
      while |rest| > 0
        invariant 0 <= i <= |frame| && rest == frame[i..]
        invariant body == old(body) + frame[..i]
        invariant codec.checksum == Crc32(old(codec.checksum), frame[..i])
      {
        var output;
        output, rest := codec.WriteRaw(rest, 4096);
        Crc32Append(old(codec.checksum), frame[..i], output);
        assert frame[..i] + output == frame[..i + |output|];
        assert old(body) + frame[..i] + output == old(body) + frame[..i + |output|];
        body := body + output;
        i := i + |output|;
      }
      assert frame[..i] == frame;
    }

    /** The first-frame branch of receivedFrame; ok is false where the source throws. */
    method ReadFirst(codec: Codec, data: seq<byte>, flags: FrameFlags)
      returns (ok: bool, rest: seq<byte>, ghost k: nat)
      requires !started && body == []
      modifies this, codec
      ensures ok ==> ReadStart(old(Model()), data, flags) == Some((Model(), rest))
      ensures !ok ==> ReadStart(old(Model()), data, flags) == None
      ensures started && k <= |data| && rest == data[k..] && codec.checksum == Crc32(old(codec.checksum), data[..k])
    {
      typ, urgent, noReply, started := flags.typ, flags.urgent, flags.noReply, true;
      var dst;
      dst, rest := codec.WriteRaw(data, MAX_VARINT_LEN_32);
      k := Min(|data|, MAX_VARINT_LEN_32);
      var size := ReadUVarInt(dst, UINT32_LIMIT);
      if size.None? || size.value.0 > MAX_PROPERTIES_SIZE {
        return false, rest, k;
      }
      propertiesSize := size.value.0;
      dst := dst[size.value.1..];
      var n := Min(propertiesSize, |dst|);
      assert body + dst[n..] == dst[n..];
      properties, body := dst[..n], body + dst[n..];
      ok := true;
    }

    /** Continues the properties, then the body. */
    method ReadMore(codec: Codec, data: seq<byte>)
      modifies this`properties, this`body, codec
      ensures Model() == ReadRest(old(Model()), data)
      ensures codec.checksum == Crc32(old(codec.checksum), data)
    {
      var frame, done := data, [];
      Crc32Empty(codec.checksum);
      if |properties| < propertiesSize {
        done, frame := codec.WriteRaw(data, propertiesSize - |properties|);
        properties := properties + done;
      } else {
        assert properties + data[..0] == properties && data[0..] == data;
      }
      Crc32Append(old(codec.checksum), done, frame);
      assert done + frame == data;
      if |properties| >= propertiesSize {
        ReadFrame(codec, frame);
      } else {
        assert frame == [] && body + frame == body;
        Crc32Empty(codec.checksum);
      }
    }

    /** All the data of a frame; ok is false where the source throws. */
    method ReadData(codec: Codec, data: seq<byte>, flags: FrameFlags) returns (ok: bool)
      requires !started ==> body == []
      modifies this, codec
      ensures started
      ensures var m := old(Model());
        var start := if m.started then Some((m, data)) else ReadStart(m, data, flags);
        && ok == start.Some?
        && (ok ==> Model() == ReadRest(start.value.0, start.value.1)
                   && codec.checksum == Crc32(old(codec.checksum), data))
    {
      hide Crc32, ReadStart, ReadRest;
      ok := true;
      if started {
        ReadMore(codec, data);
      } else {
        var frame;
        ghost var k;
        ok, frame, k := ReadFirst(codec, data, flags);
        if ok {
          Crc32Append(old(codec.checksum), data[..k], frame);
          assert data[..k] + frame == data;
          ReadMore(codec, frame);
        }
      }
    }

    /** receivedFrame; ok is false where the source throws, and then only the ACK is of interest. */
    method Received(codec: Codec, payload: seq<byte>, flags: FrameFlags)
      returns (ok: bool, state: ReceiveState, ack: Option<nat>)
      requires |payload| >= CHECKSUM_SIZE && (!started ==> body == [])
      modifies this, codec
      ensures started
      ensures var r := ReceivedFrame(old(Model()), old(codec.checksum), payload, flags);
        && ack == r.Ack()
        && (ok <==> r.FrameOk?)
        && (ok ==> r == FrameOk(Model(), codec.checksum, state, ack))
      ensures ok ==> Big32(payload, |payload| - 4) == Crc32(old(codec.checksum), payload[..|payload| - 4])
    {
      hide Crc32, Dec32, Big32, ReadStart, ReadRest;
      state := Other;
      ack := UpdateAcknowledge(|payload|);
      var n := |payload| - CHECKSUM_SIZE;
      var checksum, data := payload[n..], payload[..n];
      var wasRead := started && |properties| >= propertiesSize;
      ok := ReadData(codec, data, flags);
      if !ok {
        return;
      }
      if |properties| >= propertiesSize && !wasRead {
        if propertiesSize > 0 && properties[propertiesSize - 1] != 0 {
          return false, Other, ack;
        }
        if !typ.ErrorType? {
          state := Beginning;
        }
      }
      ok := codec.ReadAndVerifyChecksum(checksum);
      assert checksum[..CHECKSUM_SIZE] == checksum;
      if !ok {
        return false, Other, ack;
      }
      Dec32IsBig32(payload, n);
      assert payload[n..n + 4] == checksum;
      if !flags.moreComing {
        if |properties| < propertiesSize {
          return false, Other, ack;
        }
        complete := true;
        state := End;
      }
    }
  }
}
