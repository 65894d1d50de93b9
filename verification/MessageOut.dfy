/** Outgoing messages: cutting a payload and a data source into frames (src/blip/MessageOut.cc). */
module MessagesOut {
  import opened Bytes
  import opened Messages
  import opened Codecs

  const DATA_BUFFER_SIZE := 16384
  const MAX_UNACKED_BYTES := 128000

  /** The bytes one call of a data source puts into the buffer it is given. */
  type ReadResult = r: seq<byte> | |r| <= DATA_BUFFER_SIZE

  // ---------------------------------------------------------------- the state of a message

  /** An outgoing message; source holds the results of the reads still to come, if it has a source. */
  datatype OutMsg = OutMsg(
    number: MessageNo, typ: MessageType, urgent: bool, noReply: bool,
    unsentPayload: seq<byte>, unsentBuffer: seq<byte>, source: Option<seq<ReadResult>>,
    bytesSent: nat, unacked: nat)
  {
    function Flags(): FrameFlags {
      FrameFlags(typ, urgent, noReply, false)
    }

    predicate IsAck() {
      typ.IsAck()
    }

    predicate NeedsAck() {
      unacked >= MAX_UNACKED_BYTES
    }

    predicate HasMore() {
      unsentPayload != [] || unsentBuffer != [] || source.Some?
    }

    /** A request whose sender waits for a reply. */
    predicate ExpectsReply() {
      typ.RequestType? && !noReply
    }

    /** The slice that dataToSend returns, once refilled. */
    function Available(): seq<byte> {
      if unsentPayload != [] then unsentPayload else unsentBuffer
    }
  }

  /** Everything a data source supplies before the code stops reading it: a short read is the last. */
  function SourceBytes(chunks: seq<ReadResult>): seq<byte> {
    if chunks == [] then []
    else if |chunks[0]| < DATA_BUFFER_SIZE then chunks[0]
    else chunks[0] + SourceBytes(chunks[1..])
  }

  /** The bytes of m that are still to be sent. */
  function Content(m: OutMsg): seq<byte> {
    m.unsentPayload + m.unsentBuffer
    + (match m.source case None => [] case Some(chunks) => SourceBytes(chunks))
  }

  /** All the bytes a data source would ever return. */
  function Flatten(chunks: seq<ReadResult>): seq<byte> {
    if chunks == [] then [] else chunks[0] + Flatten(chunks[1..])
  }

  /** A data source is read to its end if and only if it returns nothing after a short read. */
  lemma {:induction false} SourceReadToTheEnd(chunks: seq<ReadResult>)
    ensures SourceBytes(chunks) == Flatten(chunks)
       <==> forall i, j :: 0 <= i < j < |chunks| && |chunks[i]| < DATA_BUFFER_SIZE ==> chunks[j] == []
  {
    if chunks != [] {
      var rest := chunks[1..];
      SourceReadToTheEnd(rest);
      FlattenEmpty(rest);
      assert forall j :: 0 < j < |chunks| ==> chunks[j] == rest[j - 1];
      assert forall j :: 0 <= j < |rest| ==> rest[j] == chunks[j + 1];
      if |chunks[0]| < DATA_BUFFER_SIZE {
        assert SourceBytes(chunks) == Flatten(chunks) <==> Flatten(rest) == [];
      } else {
        assert SourceBytes(chunks) == Flatten(chunks) <==> SourceBytes(rest) == Flatten(rest) by {
          if SourceBytes(chunks) == Flatten(chunks) {
            assert SourceBytes(rest) == SourceBytes(chunks)[|chunks[0]|..];
            assert Flatten(rest) == Flatten(chunks)[|chunks[0]|..];
          }
        }
      }
    }
  }

  lemma {:induction false} FlattenEmpty(chunks: seq<ReadResult>)
    ensures Flatten(chunks) == [] <==> forall j :: 0 <= j < |chunks| ==> chunks[j] == []
  {
    if chunks != [] {
      FlattenEmpty(chunks[1..]);
      assert forall j :: 0 < j < |chunks| ==> chunks[j] == chunks[1..][j - 1];
    }
  }

  // ---------------------------------------------------------------- Contents

  /** Contents::readFromDataSource */
  function ReadFromSource(m: OutMsg): OutMsg
    requires m.source.Some?
  {
    var chunks := m.source.value;
    if chunks == [] then m.(unsentBuffer := [], source := None)
    else m.(unsentBuffer := chunks[0],
            source := if |chunks[0]| < DATA_BUFFER_SIZE then None else Some(chunks[1..]))
  }

  /** The state Contents::dataToSend leaves behind. */
  function Refill(m: OutMsg): OutMsg {
    if m.unsentPayload == [] && m.unsentBuffer == [] && m.source.Some? then ReadFromSource(m) else m
  }

  /** Moves the start of the slice that dataToSend returned. */
  function Advance(m: OutMsg, n: nat): OutMsg
    requires n <= |m.Available()|
  {
    if m.unsentPayload != [] then m.(unsentPayload := m.unsentPayload[n..])
    else m.(unsentBuffer := m.unsentBuffer[n..])
  }

  /** One iteration of the loop. */
  lemma FillStep(m: OutMsg, room: nat)
    requires room > 0
    ensures var r := Refill(m);
      var n := Min(|r.Available()|, room);
      Fill(m, room) == if n == 0 then (r, [])
                       else if room - n < 1024 then (Advance(r, n), r.Available()[..n])
                       else (Fill(Advance(r, n), room - n).0,
                             r.Available()[..n] + Fill(Advance(r, n), room - n).1)
  {
  }

  /** m and n differ in what they have left to send only. */
  predicate SameMessage(m: OutMsg, n: OutMsg) {
    && n.number == m.number && n.typ == m.typ && n.urgent == m.urgent && n.noReply == m.noReply
    && n.bytesSent == m.bytesSent && n.unacked == m.unacked
  }

  lemma RefillKeepsContent(m: OutMsg)
    ensures SameMessage(m, Refill(m)) && Content(Refill(m)) == Content(m)
    ensures Refill(m).Available() == [] ==> !Refill(m).HasMore() && Content(m) == []
  {
  }

  lemma AdvanceTakesPrefix(m: OutMsg, n: nat)
    requires n <= |m.Available()|
    ensures SameMessage(m, Advance(m, n))
    ensures Content(m) == m.Available()[..n] + Content(Advance(m, n))
  {
    if m.unsentPayload != [] {
      assert m.unsentPayload == m.unsentPayload[..n] + m.unsentPayload[n..];
    } else {
      assert m.unsentBuffer == m.unsentBuffer[..n] + m.unsentBuffer[n..];
    }
  }

  /** The do-while loop of nextFrameToSend in Raw mode: the message afterwards and the bytes copied. */
  function Fill(m: OutMsg, room: nat): (OutMsg, seq<byte>)
    requires room > 0
    decreases room
  {
    var r := Refill(m);
    var data := r.Available();
    if data == [] then (r, [])
    else
      var n := Min(|data|, room);
      var next := Advance(r, n);
      if room - n >= 1024 then
        var rest := Fill(next, room - n);
        (rest.0, data[..n] + rest.1)
      else (next, data[..n])
  }

  /** A frame takes the next bytes of its message and nothing else; unless it is the last one it
      comes within 1024 bytes of filling its buffer. */
  lemma {:induction false} FillTakesPrefix(m: OutMsg, room: nat)
    requires room > 0
    ensures SameMessage(m, Fill(m, room).0)
    ensures Content(m) == Fill(m, room).1 + Content(Fill(m, room).0)
    ensures |Fill(m, room).1| <= room
    ensures Fill(m, room).0.HasMore() ==> |Fill(m, room).1| >= 1 && |Fill(m, room).1| > room - 1024
    decreases room
  {
    var r := Refill(m);
    var data := r.Available();
    RefillKeepsContent(m);
    if data != [] {
      var n := Min(|data|, room);
      var next := Advance(r, n);
      AdvanceTakesPrefix(r, n);
      if room - n >= 1024 {
        FillTakesPrefix(next, room - n);
        var rest := Fill(next, room - n);
        assert data[..n] + (rest.1 + Content(rest.0)) == (data[..n] + rest.1) + Content(rest.0);
      }
    }
  }

  // ---------------------------------------------------------------- frames

  datatype SentFrame = SentFrame(msg: OutMsg, crc: uint32, flags: FrameFlags, payload: seq<byte>,
                                 progress: Option<ProgressState>)

  /** MessageOut::nextFrameToSend with room bytes of output, crc being the codec's checksum. */
  function NextFrame(m: OutMsg, crc: uint32, room: nat): SentFrame
    requires !m.IsAck() ==> room > CHECKSUM_SIZE
  {
    if m.IsAck() then
      var data := Refill(m).Available();
      SentFrame(Refill(m).(bytesSent := m.bytesSent + |data|), crc, m.Flags(),
                if |data| <= room then data else [], None)
    else
      var fill := Fill(m, room - CHECKSUM_SIZE);
      var crc' := Crc32(crc, fill.1);
      var payload := fill.1 + Enc32(crc');
      var msg := fill.0.(bytesSent := m.bytesSent + |payload|, unacked := m.unacked + |payload|);
      SentFrame(msg, crc', m.Flags().(moreComing := msg.HasMore()), payload,
                Some(if msg.HasMore() then Sending else if m.noReply then Complete else AwaitingReply))
  }

  /** Every frame fits its buffer with its checksum, carries the next bytes of the message and the
      checksum over everything sent so far, and a frame flagged kMoreComing carries at least a byte. */
  lemma NextFrameProperties(m: OutMsg, crc: uint32, room: nat)
    requires !m.IsAck() && room > CHECKSUM_SIZE
    ensures var s := NextFrame(m, crc, room);
      var n := |s.payload| - CHECKSUM_SIZE;
      && 0 <= n && |s.payload| <= room
      && Content(m) == s.payload[..n] + Content(s.msg)
      && Dec32(s.payload[n..]) == Crc32(crc, s.payload[..n]) == s.crc
      && (s.flags.moreComing ==> n >= 1 && |s.payload| > room - 1024)
      && (!s.flags.moreComing ==> Content(s.msg) == [])
      && s.msg.bytesSent == m.bytesSent + |s.payload| && s.msg.unacked == m.unacked + |s.payload|
      && SameMessage(m, s.msg.(bytesSent := m.bytesSent, unacked := m.unacked))
  {
    var s := NextFrame(m, crc, room);
    var fill := Fill(m, room - CHECKSUM_SIZE);
    FillTakesPrefix(m, room - CHECKSUM_SIZE);
    assert Content(s.msg) == Content(fill.0);
    assert s.payload[..|fill.1|] == fill.1 && s.payload[|fill.1|..] == Enc32(s.crc);
    Dec32Enc32(s.crc);
  }

  lemma NextFrameFlags(m: OutMsg, crc: uint32, room: nat)
    requires !m.IsAck() ==> room > CHECKSUM_SIZE
    ensures var f := NextFrame(m, crc, room); f.flags == m.Flags().(moreComing := f.flags.moreComing)
  {
  }

  /** MessageOut::receivedAck */
  function AcceptAck(m: OutMsg, byteCount: nat): OutMsg {
    if byteCount <= m.bytesSent then m.(unacked := Min(m.unacked, m.bytesSent - byteCount)) else m
  }

  // ---------------------------------------------------------------- unacknowledged bytes

  /** What changes the byte counts of a message: a frame that is sent, or an ACK that comes in. */
  datatype Traffic = FrameOut(room: nat, crc: uint32) | AckIn(byteCount: nat)

  function AfterTraffic(m: OutMsg, t: Traffic): OutMsg {
    match t
    case FrameOut(room, crc) => if !m.IsAck() && room > CHECKSUM_SIZE then NextFrame(m, crc, room).msg else m
    case AckIn(byteCount) => AcceptAck(m, byteCount)
  }

  /** m after all of ts, and the highest count acknowledged, leaving out counts of bytes not yet sent. */
  function AfterAll(m: OutMsg, ts: seq<Traffic>): (OutMsg, nat)
    decreases |ts|
  {
    if ts == [] then (m, 0)
    else
      var last := |ts| - 1;
      var before := AfterAll(m, ts[..last]);
      (AfterTraffic(before.0, ts[last]),
       if ts[last].AckIn? && before.1 < ts[last].byteCount <= before.0.bytesSent then ts[last].byteCount
       else before.1)
  }

  /** Whatever is sent and acknowledged, in whatever order: the unacknowledged bytes are those sent
      beyond the highest acknowledgement accepted. */
  lemma {:induction false} UnackedIsSentMinusAcked(m: OutMsg, ts: seq<Traffic>)
    requires m.bytesSent == m.unacked == 0
    ensures var (m', highest) := AfterAll(m, ts);
      highest <= m'.bytesSent && m'.unacked == m'.bytesSent - highest
    decreases |ts|
  {
    hide NextFrame;
    if ts != [] {
      var last := |ts| - 1;
      UnackedIsSentMinusAcked(m, ts[..last]);
      var before := AfterAll(m, ts[..last]).0;
      if ts[last].FrameOut? && !before.IsAck() && ts[last].room > CHECKSUM_SIZE {
        NextFrameProperties(before, ts[last].crc, ts[last].room);
      }
    }
  }

  // ---------------------------------------------------------------- the message object

  class MessageOut {
    var number: MessageNo
    const typ: MessageType
    const urgent: bool
    const noReply: bool
    var unsentPayload: seq<byte>
    var unsentBuffer: seq<byte>
    var source: Option<seq<ReadResult>>
    var bytesSent: nat
    var unacked: nat

    constructor (flags: FrameFlags, payload: seq<byte>, source: Option<seq<ReadResult>>, number: MessageNo)
      ensures Model() == OutMsg(number, flags.typ, flags.urgent, flags.noReply, payload, [], source, 0, 0)
    {
      this.number, typ, urgent, noReply := number, flags.typ, flags.urgent, flags.noReply;
      unsentPayload, unsentBuffer, this.source := payload, [], source;
      bytesSent, unacked := 0, 0;
    }

    function Model(): OutMsg
      reads this
    {
      OutMsg(number, typ, urgent, noReply, unsentPayload, unsentBuffer, source, bytesSent, unacked)
    }

    method ReadFromDataSource()
      requires source.Some?
      modifies this`unsentBuffer, this`source
      ensures Model() == ReadFromSource(old(Model()))
    {
      if source.value == [] {
        unsentBuffer, source := [], None;
      } else {
        var bytesWritten := source.value[0];
        unsentBuffer, source := bytesWritten, Some(source.value[1..]);
        if |bytesWritten| < DATA_BUFFER_SIZE {
          source := None;
        }
      }
    }

    method DataToSend() returns (data: seq<byte>)
      modifies this`unsentBuffer, this`source
      ensures Model() == Refill(old(Model())) && data == Model().Available()
    {
      if |unsentPayload| > 0 {
        return unsentPayload;
      }
      if unsentBuffer == [] && source.Some? {
        ReadFromDataSource();
      }
      data := unsentBuffer;
    }

    /** One codec.write of the slice that dataToSend returned. */
    method WriteSome(codec: Codec, data: seq<byte>, room: nat) returns (written: seq<byte>)
      requires room > 0 && data == Model().Available()
      modifies this`unsentPayload, this`unsentBuffer, codec
      ensures written == data[..Min(|data|, room)]
      ensures Model() == Advance(old(Model()), |written|)
      ensures codec.checksum == Crc32(old(codec.checksum), written)
    {
      var rest;
      written, rest := codec.WriteRaw(data, room);
      if unsentPayload != [] {
        unsentPayload := rest;
      } else {
        unsentBuffer := rest;
      }
    }

    /** The loop of nextFrameToSend: fills a buffer of room bytes. */
    method WriteData(codec: Codec, room: nat) returns (written: seq<byte>)
      requires room > 0
      modifies this`unsentPayload, this`unsentBuffer, this`source, codec
      ensures (Model(), written) == Fill(old(Model()), room)
      ensures codec.checksum == Crc32(old(codec.checksum), written)
    {
      hide Crc32, Fill, Refill, Advance;
      written := [];
      var left := room;
      ghost var fill := Fill(Model(), room);
      ghost var rest := fill.1;
      Crc32Empty(codec.checksum);
      while true
        invariant 0 < left <= room
        invariant Fill(Model(), left) == (fill.0, rest)
        invariant written + rest == fill.1
        invariant codec.checksum == Crc32(old(codec.checksum), written)
        decreases left
      {
        FillStep(Model(), left);
        var data := DataToSend();
        if data == [] {
          assert written + rest == written;
          break;
        }
        var some := WriteSome(codec, data, left);
        Crc32Append(old(codec.checksum), written, some);
        left := left - |some|;
        rest := if left < 1024 then [] else Fill(Model(), left).1;
        assert (written + some) + rest == written + (some + rest);
        written := written + some;
        if left < 1024 {
          assert written + rest == written;
          break;
        }
      }
    }

    /** Fills a buffer of room bytes; the codec's checksum runs over all the data written. */
    method NextFrameToSend(codec: Codec, room: nat)
      returns (payload: seq<byte>, flags: FrameFlags, progress: Option<ProgressState>)
      requires !typ.IsAck() ==> room > CHECKSUM_SIZE
      modifies this`unsentPayload, this`unsentBuffer, this`source, this`bytesSent, this`unacked, codec
      ensures SentFrame(Model(), codec.checksum, flags, payload, progress)
           == NextFrame(old(Model()), old(codec.checksum), room)
    {
      hide Crc32, Enc32, Fill;
      flags, progress := FrameFlags(typ, urgent, noReply, false), None;
      if typ.IsAck() {
        var data := DataToSend();
        payload := if |data| <= room then data else [];
        bytesSent := bytesSent + |data|;
        return;
      }
      payload := WriteData(codec, room - CHECKSUM_SIZE);
      var checksum := codec.WriteChecksum();
      payload := payload + checksum;
      bytesSent, unacked := bytesSent + |payload|, unacked + |payload|;
      if unsentPayload != [] || unsentBuffer != [] || source.Some? {
        flags, progress := flags.(moreComing := true), Some(Sending);
      } else if noReply {
        progress := Some(Complete);
      } else {
        progress := Some(AwaitingReply);
      }
    }

    method ReceivedAck(byteCount: nat)
      modifies this`unacked
      ensures Model() == AcceptAck(old(Model()), byteCount)
    {
      if byteCount <= bytesSent {
        unacked := Min(unacked, bytesSent - byteCount);
      }
    }
  }
}
