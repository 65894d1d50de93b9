/** What a connection puts on the wire, byte by byte, whatever its queues hold (writeToWebSocket in
    src/blip/BLIPConnection.cc and MessageOut::nextFrameToSend). */
module Wire {
  import opened Bytes
  import opened Messages
  import opened MessagesOut
  import opened Codecs
  import opened Outbox
  import opened Senders
  import opened Receivers
  import Network

  // ---------------------------------------------------------------- frames of messages

  /** The size of the next frame of m, rest being behind it in the outbox: at most 4096 bytes if m is normal
      and an urgent message follows, at most 16384 bytes otherwise, and within 1024 bytes of that unless it
      is the last frame of m. */
  lemma NextFits(m: OutMsg, rest: seq<OutMsg>, crc: uint32)
    requires !m.IsAck() && !m.typ.UnknownType?
    ensures var sent := NextFrame(m, crc, FrameRoom(m, rest));
      var limit := if !m.urgent && rest != [] && rest[0].urgent then 4096 else 16384;
      && sent.flags.typ == m.typ
      && var bytes := EncodeFrame(Frame(m.number, sent.flags, sent.payload));
         |bytes| <= limit && (sent.flags.moreComing ==> |bytes| > limit - 1024)
  {
    hide EncodeFrame, NextFrame, PutUVarInt;
    var sent := NextFrame(m, crc, FrameRoom(m, rest));
    NextFrameProperties(m, crc, FrameRoom(m, rest));
    NextFrameFlags(m, crc, FrameRoom(m, rest));
    FrameLength(Frame(m.number, sent.flags, sent.payload));
  }

  /** So the frames of the write loop fit. */
  lemma FrameFits(s: Sender)
    requires s.outbox != [] && !s.outbox[0].IsAck() && !s.outbox[0].typ.UnknownType?
    ensures var f := WriteFrame(s).frame;
      var limit := if !s.outbox[0].urgent && |s.outbox| > 1 && s.outbox[1].urgent then 4096 else 16384;
      && !f.flags.typ.UnknownType? && |EncodeFrame(f)| <= limit
      && (f.flags.moreComing ==> |EncodeFrame(f)| > limit - 1024)
  {
    hide EncodeFrame, NextFrame, Requeue, PutUVarInt, FrameRoom;
    NextFits(s.outbox[0], s.outbox[1..], s.crc);
  }

  /** The bytes of the next frame: its message's number and flags, the next bytes of the message, all that is
      left of it if no more are coming, and the checksum of all the data sent so far. */
  lemma FrameOnWire(s: Sender)
    requires s.outbox != [] && !s.outbox[0].IsAck() && !s.outbox[0].typ.UnknownType?
    ensures var m, w := s.outbox[0], WriteFrame(s);
      var bytes, more := EncodeFrame(w.frame), w.frame.flags.moreComing;
      var h, n := |bytes| - |w.frame.payload| - 1, |bytes| - 4;
      && 1 <= h < n && Header(bytes, h, m.number, FrameFlags(m.typ, m.urgent, m.noReply, more))
      && bytes[h + 1..n] <= Content(m) && (more || bytes[h + 1..n] == Content(m))
      && Big32(bytes, n) == Crc32(s.crc, bytes[h + 1..n]) == w.sender.crc
  {
    hide EncodeFrame, NextFrame, Content, Header, Crc32, Requeue, FrameRoom, Dec32, Big32;
    var m, rest := s.outbox[0], s.outbox[1..];
    var sent := NextFrame(m, s.crc, FrameRoom(m, rest));
    NextFrameProperties(m, s.crc, FrameRoom(m, rest));
    NextFrameFlags(m, s.crc, FrameRoom(m, rest));
    var f := WriteFrame(s).frame;
    FrameOctets(f);
    var k := |f.payload| - 4;
    var bytes, h := EncodeFrame(f), |EncodeFrame(f)| - |f.payload| - 1;
    assert bytes[h + 1..|bytes| - 4] == f.payload[..k] && bytes[|bytes| - 4..|bytes| - 4 + 4] == f.payload[k..];
    Dec32IsBig32(bytes, |bytes| - 4);
    EmptyContent(m, f.payload[..k], sent.msg);
  }

  lemma FrameLength(f: Frame)
    requires f.flags.typ.UnknownType? ==> f.flags.typ.code in {3, 6, 7}
    ensures |EncodeFrame(f)| == |PutUVarInt(f.number)| + 1 + |f.payload|
  {
  }

  lemma EmptyContent(m: OutMsg, data: seq<byte>, left: OutMsg)
    requires Content(m) == data + Content(left)
    ensures data <= Content(m) && (Content(left) == [] ==> data == Content(m))
  {
  }

  /** What is left of a message after a frame of it. */
  predicate Leaves(m: OutMsg, frame: Frame, left: OutMsg) {
    && left.bytesSent == m.bytesSent + |frame.payload| && left.unacked == m.unacked + |frame.payload|
    && SameMessage(m, left.(bytesSent := m.bytesSent, unacked := m.unacked))
    && |frame.payload| >= 4 && Content(m) == frame.payload[..|frame.payload| - 4] + Content(left)
  }

  /** Where what is left of a message goes: behind the messages in the icebox if 128000 bytes of it are
      unacknowledged, else back into the outbox. After its last frame a request that wants one begins to
      await its reply. Nothing else changes in the queues. */
  lemma FrameLeaves(s: Sender, left: OutMsg)
    requires s.outbox != [] && !s.outbox[0].IsAck()
    requires left == NextFrame(s.outbox[0], s.crc, FrameRoom(s.outbox[0], s.outbox[1..])).msg
    ensures var m, w := s.outbox[0], WriteFrame(s);
      var s', more := w.sender, w.frame.flags.moreComing;
      && Leaves(m, w.frame, left) && more == left.HasMore() && s'.lastMessageNo == s.lastMessageNo
      && s'.icebox == (if more && left.unacked >= 128000 then s.icebox + [left] else s.icebox)
      && s'.outbox == (if more && left.unacked < 128000 then Requeue(s.outbox[1..], left) else s.outbox[1..])
      && w.awaiting == (if !more && m.typ.RequestType? && !m.noReply then Some(m.number) else None)
      && w.progress == Some(if more then Sending else if m.noReply then Complete else AwaitingReply)
  {
    hide Content, Requeue, FrameRoom, Fill, Dec32, Crc32;
    var m, room := s.outbox[0], FrameRoom(s.outbox[0], s.outbox[1..]);
    NextFrameProperties(m, s.crc, room);
    NextFrameMore(m, s.crc, room);
  }

  // ---------------------------------------------------------------- acknowledgements

  /** An ACK goes out as one frame, urgent and marked as wanting no reply: type 4 for a request, 5 for a
      reply, and as its payload the varint of the count. It has no checksum and leaves that of the data
      alone; nothing of it stays behind. */
  lemma AckOnWire(s: Sender, a: Ack)
    requires s.outbox != [] && s.outbox[0] == Network.AckOut(a) && a.count < UINT64_LIMIT
    ensures var w := WriteFrame(s);
      var bytes := EncodeFrame(w.frame);
      var h := |bytes| - |w.frame.payload| - 1;
      && 1 <= h && Header(bytes, h, a.number, w.frame.flags)
      && bytes[h] == (if a.onReply then 5 else 4) + 0x10 + 0x20
      && StartsVarInt(bytes[h + 1..], |bytes| - h - 1) && Base128(bytes[h + 1..]) == a.count
      && w.sender == s.(outbox := s.outbox[1..]) && w.awaiting == None && w.progress == None
      && var left := NextFrame(s.outbox[0], s.crc, FrameRoom(s.outbox[0], s.outbox[1..])).msg;
         left.bytesSent == |w.frame.payload| && left.unacked == 0
  {
    hide Header, StartsVarInt, Base128, PutUVarInt, Requeue, Carries, Crc32;
    var m := s.outbox[0];
    VarIntMaxLengths(a.count);
    VarIntWritten(a.count);
    FrameOctets(WriteFrame(s).frame);
  }
}
