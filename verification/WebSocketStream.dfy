/** What the parser makes of streams: how many bytes it holds and delivers, whatever they are; which messages
    of a stream that formatMessage has written it hands on, and when that depends on the chunks. */
module WebSocketStreams {
  import opened Bytes
  import opened WebSocketFrames
  import opened WebSocketMessages
  import opened WebSocketParsers
  import Utf8

  // ---------------------------------------------------------------- any bytes

  /** The bytes delivered, and those held in the current message. */
  function Taken(u: Reception): nat {
    u.inbox.deliveredBytes + u.Length()
  }

  /** What is spilled is a header that is cut off. */
  predicate Cut(server: bool, p: Parser) {
    ReadHead(server, p.spill).None?
  }

  lemma ReceivedBytes(i: Inbox, m: Message)
    ensures i.deliveredBytes <= Received(i, m).deliveredBytes <= i.deliveredBytes + |m.payload|
  {
    hide Utf8.IsUtf8;
  }

  /** A fragment adds no more than its bytes; a message that is refused takes its own away. */
  lemma FragmentBytes(u: Reception, data: seq<byte>, remaining: nat, opCode: nat, fin: bool)
    ensures Taken(AddFragment(u, data, remaining, opCode, fin).0) <= Taken(u) + |data|
  {
    hide Received, Take;
    var c := if u.current.Some? then u.current.value else Current(opCode, |data| + remaining, []);
    ReceivedBytes(u.inbox, Message(c.opCode, c.bytes + data));
  }

  lemma PayloadSize(masked: bool, s: seq<byte>, h: Head)
    requires ReadHead(masked, s) == Some(h)
    ensures |PayloadOf(masked, s, h)| == Min(|s|, h.Total()) - h.size
  {
    hide ReadHead;
  }

  lemma OpenedBytes(server: bool, q: Parser, s: seq<byte>, h: Head)
    requires Sound(server, q) && !q.readMessage && q.spill == [] && q.opStack >= 0 && ReadHead(server, s) == Some(h)
    ensures var r := ConsumeOpened(server, q, s, h);
      Taken(r.p.user) <= Taken(q.user) + (if r.GoOn? then r.used else |s|) - h.size && r.p.spill == []
  {
    hide ReadHead, AddFragment, PayloadOf, Key, Rotated, Taken;
    var data := PayloadOf(server, s, h);
    var op, fin, n := q.opCodes[q.opStack], IsFin(s), |s| - h.size;
    PayloadSize(server, s, h);
    ForcedBytes(q);
    if IntLength(h) > n {
      FragmentBytes(q.user, data, IntLength(h) - n, op, fin);
    } else {
      FragmentBytes(q.user, data, 0, op, fin);
    }
  }

  lemma ForcedBytes(p: Parser)
    ensures Taken(Forced(p).user) == Taken(p.user)
  {
  }

  lemma MessageBytes(server: bool, p: Parser, s: seq<byte>, h: Head)
    requires Sound(server, p) && !p.readMessage && p.spill == [] && ReadHead(server, s) == Some(h)
    ensures var r := ConsumeMessage(server, p, s, h);
      Taken(r.p.user) <= Taken(p.user) + (if r.GoOn? then r.used else |s|) - h.size && r.p.spill == []
  {
    hide ReadHead, ConsumeOpened;
    var q := Opened(p, h.opCode, IsFin(s));
    if q.Some? {
      OpenedBytes(server, q.value, s, h);
    }
  }

  /** The bytes of a buffer that are delivered or held do not include those of its first header. */
  lemma {:induction false} ParseBytes(server: bool, p: Parser, s: seq<byte>)
    requires Sound(server, p) && !p.readMessage && p.spill == []
    ensures var q := ParseNext(server, p, s);
      && Cut(server, q)
      && if ReadHead(server, s).Some? then Taken(q.user) <= Taken(p.user) + |s| - ReadHead(server, s).value.size
         else Taken(q.user) == Taken(p.user)
    decreases |s|
  {
    hide ReadHead, ConsumeMessage, BadStart;
    NoHead(server, s);
    NoHead(server, []);
    var r := ParseOne(server, p, s);
    if ReadHead(server, s).Some? && |s| >= ShortHeader(server) && !BadStart(s) {
      MessageBytes(server, p, s, ReadHead(server, s).value);
    }
    if r.GoOn? {
      ParseBytes(server, r.p, s[r.used..]);
    }
  }

  lemma ContinueBytes(server: bool, p: Parser, s: seq<byte>)
    requires Sound(server, p) && p.readMessage
    ensures var q := Continue(server, p, s); Cut(server, q) && Taken(q.user) <= Taken(p.user) + |s|
  {
    hide ReadHead, AddFragment, ParseNext, Unmask, Rotated;
    NoHead(server, []);
    var op := p.opCodes[p.opStack];
    if p.remaining <= |s| {
      FragmentBytes(p.user, Unmasked(server, p, s[..p.remaining]), 0, op, p.lastFin);
      var u := AddFragment(p.user, Unmasked(server, p, s[..p.remaining]), 0, op, p.lastFin);
      if u.1 {
        ParseBytes(server, p.(readMessage := false, user := u.0,
                              opStack := if p.lastFin then p.opStack - 1 else p.opStack), s[p.remaining..]);
      }
    } else {
      FragmentBytes(p.user, Unmasked(server, p, s), p.remaining - |s|, op, p.lastFin);
    }
  }

  /** A header that is cut off is shorter than the whole header. */
  lemma HeadMissing(masked: bool, rest: seq<byte>, data: seq<byte>)
    ensures ReadHead(masked, rest).None? && ReadHead(masked, rest + data).Some? ==>
              |rest| < ReadHead(masked, rest + data).value.size
  {
    HeadPrefix(masked, rest, data);
  }

  /** Whatever the bytes of a chunk, and whatever came before: what is delivered and held then is no more
      than what was held before and the chunk. */
  lemma {:induction false} ConsumeTakes(server: bool, p: Parser, s: seq<byte>)
    requires Sound(server, p) && Cut(server, p)
    ensures var q := Consume(server, p, s); Cut(server, q) && Taken(q.user) <= Taken(p.user) + |s|
    decreases |s|
  {
    hide ReadHead, ParseNext, Continue;
    if p.readMessage {
      ContinueBytes(server, p, s);
    } else if p.spill == [] {
      ParseBytes(server, p, s);
    } else {
      var n := JoinSize(server, p, s);
      HeadMissing(server, p.spill, s[..n]);
      ParseBytes(server, p.(spill := []), p.spill + s[..n]);
      var q := ConsumeBuffer(server, p.(spill := []), p.spill + s[..n]);
      if s[n..] != [] {
        ConsumeTakes(server, q, s[n..]);
      }
    }
  }

  // ---------------------------------------------------------------- answers

  /** No message is longer than the limit. */
  predicate SmallUser(u: Reception) {
    && (u.current.Some? ==> |u.current.value.bytes| <= u.current.value.size <= MAX_MESSAGE_LENGTH)
    && (u.inbox.msgToSend.Some? ==> |u.inbox.msgToSend.value| <= MAX_MESSAGE_LENGTH)
    && u.inbox.opToSend in {0, PONG, CLOSE}
  }

  predicate Small(p: Parser) {
    SmallUser(p.user) && (p.readMessage ==> p.remaining <= MAX_MESSAGE_LENGTH)
  }

  lemma SmallFragment(u: Reception, data: seq<byte>, remaining: nat, opCode: nat, fin: bool)
    requires SmallUser(u) && |data| + remaining <= MAX_MESSAGE_LENGTH
    ensures SmallUser(AddFragment(u, data, remaining, opCode, fin).0)
  {
    hide Utf8.IsUtf8;
  }

  lemma SmallOpened(server: bool, q: Parser, s: seq<byte>, h: Head)
    requires Sound(server, q) && !q.readMessage && q.spill == [] && q.opStack >= 0 && ReadHead(server, s) == Some(h)
    requires Small(q)
    ensures Small(ConsumeOpened(server, q, s, h).p)
  {
    hide ReadHead, AddFragment, PayloadOf, Key, Rotated;
    var data := PayloadOf(server, s, h);
    var op, fin, n := q.opCodes[q.opStack], IsFin(s), |s| - h.size;
    PayloadSize(server, s, h);
    if IntLength(h) > MAX_MESSAGE_LENGTH {
    } else if IntLength(h) > n {
      SmallFragment(q.user, data, IntLength(h) - n, op, fin);
    } else if IntLength(h) == h.length {
      SmallFragment(q.user, data, 0, op, fin);
    }
  }

  lemma SmallMessage(server: bool, p: Parser, s: seq<byte>, h: Head)
    requires Sound(server, p) && !p.readMessage && p.spill == [] && ReadHead(server, s) == Some(h) && Small(p)
    ensures Small(ConsumeMessage(server, p, s, h).p)
  {
    hide ReadHead, ConsumeOpened;
    var q := Opened(p, h.opCode, IsFin(s));
    if q.Some? {
      SmallOpened(server, q.value, s, h);
    }
  }

  lemma {:induction false} SmallParse(server: bool, p: Parser, s: seq<byte>)
    requires Sound(server, p) && !p.readMessage && p.spill == [] && Small(p)
    ensures Small(ParseNext(server, p, s))
    decreases |s|
  {
    hide ReadHead, ConsumeMessage, BadStart;
    var r := ParseOne(server, p, s);
    if ReadHead(server, s).Some? && |s| >= ShortHeader(server) && !BadStart(s) {
      SmallMessage(server, p, s, ReadHead(server, s).value);
    }
    if r.GoOn? {
      SmallParse(server, r.p, s[r.used..]);
    }
  }

  lemma SmallContinue(server: bool, p: Parser, s: seq<byte>)
    requires Sound(server, p) && p.readMessage && Small(p)
    ensures Small(Continue(server, p, s))
  {
    hide AddFragment, ParseNext, Unmask, Rotated;
    var op := p.opCodes[p.opStack];
    if p.remaining <= |s| {
      SmallFragment(p.user, Unmasked(server, p, s[..p.remaining]), 0, op, p.lastFin);
      var u := AddFragment(p.user, Unmasked(server, p, s[..p.remaining]), 0, op, p.lastFin);
      if u.1 {
        SmallParse(server, p.(readMessage := false, user := u.0,
                              opStack := if p.lastFin then p.opStack - 1 else p.opStack), s[p.remaining..]);
      }
    } else {
      SmallFragment(p.user, Unmasked(server, p, s), p.remaining - |s|, op, p.lastFin);
    }
  }

  lemma {:induction false} SmallConsume(server: bool, p: Parser, s: seq<byte>)
    requires Sound(server, p) && Small(p)
    ensures Small(Consume(server, p, s))
    decreases |s|
  {
    hide ParseNext, Continue;
    if p.readMessage {
      SmallContinue(server, p, s);
    } else if p.spill == [] {
      SmallParse(server, p, s);
    } else {
      var n := JoinSize(server, p, s);
      SmallParse(server, p.(spill := []), p.spill + s[..n]);
      if s[n..] != [] {
        SmallConsume(server, ConsumeBuffer(server, p.(spill := []), p.spill + s[..n]), s[n..]);
      }
    }
  }

  // ---------------------------------------------------------------- any frame at all

  /** A frame that begins like s is refused wherever it comes: a reserved bit is set, the opcode is unknown,
      or a control frame is not final or has more than 125 bytes. */
  predicate Forbidden(s: seq<byte>)
    requires |s| >= 2
  {
    var opCode := s[0] % 16;
    s[0] / 16 % 8 != 0 || opCode in {3, 4, 5, 6, 7, 11, 12, 13, 14, 15}
    || (opCode in {8, 9, 10} && (s[0] < 128 || s[1] % 128 > 125))
  }

  /** It is refused here: it continues no message, or begins a third one, or is a text behind a frame that is
      not final. */
  predicate Misplaced(p: Parser, s: seq<byte>)
    requires |s| >= 2
  {
    var opCode := s[0] % 16;
    if opCode == 0 then p.opStack == -1 else p.opStack == 1 || (opCode == 1 && !p.lastFin)
  }

  /** Between two frames, whatever the bytes: the connection is closed because of a protocol error if and only
      if the next frame is forbidden, or misplaced, or its length, modulo 2^32, is above 2^20; then nothing of
      it is handed on. Only what there is of a header that is not forbidden is left over. */
  lemma RefusedIff(server: bool, p: Parser, s: seq<byte>)
    requires Sound(server, p) && !p.readMessage && p.spill == [] && !p.user.inbox.protocolError
    requires |s| >= ShortHeader(server)
    ensures var r, h := ParseOne(server, p, s), ReadHead(server, s);
      var refused := Forbidden(s)
        || (h.Some? && (Misplaced(p, s) || h.value.length % 0x1_0000_0000 > 0x10_0000));
      && (r.Left? <==> !Forbidden(s) && h.None?)
      && (!r.Left? ==> (r.p.user.inbox.protocolError <==> refused))
      && (refused ==> r.Stop? && r.p.user.current == p.user.current
                      && r.p.user.inbox == p.user.inbox.(protocolError := true, socketClosed := true))
  {
    hide ReadHead, BadStart, Forbidden, Misplaced, ConsumeMessage;
    ForbiddenIsBad(s);
    var h := ReadHead(server, s);
    if h.Some? {
      RefusedMessage(server, p, s, h.value);
    }
  }

  lemma ForbiddenIsBad(s: seq<byte>)
    requires |s| >= 2
    ensures BadStart(s) <==> Forbidden(s)
  {
  }

  lemma RefusedMessage(server: bool, p: Parser, s: seq<byte>, h: Head)
    requires Sound(server, p) && !p.readMessage && p.spill == [] && !p.user.inbox.protocolError
    requires |s| >= 2 && ReadHead(server, s) == Some(h)
    ensures var r := ConsumeMessage(server, p, s, h);
      var refused := Misplaced(p, s) || h.length % 0x1_0000_0000 > 0x10_0000;
      && !r.Left? && (r.p.user.inbox.protocolError <==> refused)
      && (refused ==> r.Stop? && r.p.user.current == p.user.current
                      && r.p.user.inbox == p.user.inbox.(protocolError := true, socketClosed := true))
  {
    hide ReadHead, PayloadOf, AddFragment, Rotated, Key;
    HeadCode(server, s);
    var q := Opened(p, h.opCode, IsFin(s));
    if q.Some? && IntLength(h) <= MAX_MESSAGE_LENGTH {
      var op, n := q.value.opCodes[q.value.opStack], |s| - h.size;
      var left := if IntLength(h) > n then IntLength(h) - n else 0;
      FragmentNoError(q.value.user, PayloadOf(server, s, h), left, op, IsFin(s));
    }
  }

  lemma FragmentNoError(u: Reception, data: seq<byte>, remaining: nat, opCode: nat, fin: bool)
    ensures AddFragment(u, data, remaining, opCode, fin).0.inbox.protocolError == u.inbox.protocolError
  {
  }

  /** Any other frame: its opcode, or that of the message it continues, and its payload, as far as it is
      there, are handed on as a fragment. A whole frame of a length below 2^32 is done with unless the
      fragment is refused; a final one ends its message. */
  lemma FrameHandled(server: bool, p: Parser, s: seq<byte>, h: Head)
    requires Sound(server, p) && !p.readMessage && p.spill == [] && |s| >= ShortHeader(server)
    requires ReadHead(server, s) == Some(h) && h.length <= 0x10_0000 && !Forbidden(s) && !Misplaced(p, s)
    ensures var r, fin, there := ParseOne(server, p, s), s[0] >= 128, Min(|s| - h.size, h.length);
      var depth := if s[0] % 16 == 0 then p.opStack else p.opStack + 1;
      var opCode := if s[0] % 16 == 0 then p.opCodes[p.opStack] else s[0] % 16;
      var u := AddFragment(p.user, PayloadOf(server, s, h), h.length - there, opCode, fin);
      && !r.Left? && r.p.user == u.0 && r.p.lastFin == fin && r.p.overrun == p.overrun
      && (r.GoOn? <==> there == h.length && u.1)
      && (r.GoOn? ==> r.used == h.Total() && r.p.opStack == if fin then depth - 1 else depth)
      && (there < h.length ==> r.p.readMessage && r.p.remaining == h.length - there && r.p.opStack == depth
                               && r.p.opCodes[depth] == opCode
                               && (server ==> r.p.mask == Rotated(Key(s, h), there)))
  {
    hide ReadHead, PayloadOf, AddFragment, Rotated, Key;
    HeadCode(server, s);
  }

  /** A length of 2^32 or more whose lower 32 bits are within the limit: only those count; if that many bytes
      are there, the source reads beyond its buffer. */
  lemma LengthCut(server: bool, p: Parser, s: seq<byte>, h: Head)
    requires Sound(server, p) && !p.readMessage && p.spill == [] && |s| >= ShortHeader(server)
    requires ReadHead(server, s) == Some(h) && !Forbidden(s) && !Misplaced(p, s)
    requires h.length >= 0x1_0000_0000 && h.length % 0x1_0000_0000 <= 0x10_0000
    ensures var r, low, there := ParseOne(server, p, s), h.length % 0x1_0000_0000, |s| - h.size;
      && r.Stop?
      && if low <= there then r.p.overrun && r.p.user == p.user
         else r.p.readMessage && r.p.remaining == low - there && r.p.overrun == p.overrun
  {
    hide ReadHead, PayloadOf, AddFragment, Rotated, Key;
    HeadCode(server, s);
  }

  /** More of a frame that was cut off: handed on as a fragment of the same message. When that is the rest of
      the frame, and is not refused, a final one ends its message and the buffer is parsed on. */
  lemma FrameContinued(server: bool, p: Parser, s: seq<byte>)
    requires Sound(server, p) && p.readMessage
    ensures var q, data := Continue(server, p, s), s[..Min(|s|, p.remaining)];
      var u := AddFragment(p.user, if server then Unmask(data, p.mask, 0) else data, p.remaining - |data|,
                           p.opCodes[p.opStack], p.lastFin);
      if |data| < p.remaining then
        && q.readMessage && q.user == u.0 && q.remaining == p.remaining - |s| && q.opStack == p.opStack
        && q.mask == if u.1 && server then Rotated(p.mask, |s|) else p.mask
      else if !u.1 then q.readMessage && q.user == u.0
      else
        var depth := if p.lastFin then p.opStack - 1 else p.opStack;
        q == ParseNext(server, p.(readMessage := false, user := u.0, opStack := depth), s[p.remaining..])
  {
    hide AddFragment, Unmask, Rotated, ParseNext;
    assert |s| < p.remaining ==> s[..Min(|s|, p.remaining)] == s;
  }

  lemma HeadCode(masked: bool, s: seq<byte>)
    ensures ReadHead(masked, s).Some? ==> |s| >= 2 && ReadHead(masked, s).value.opCode == s[0] % 16
  {
  }

  // ---------------------------------------------------------------- streams that formatMessage writes

  /** Between two frames. */
  predicate Idle(p: Parser) {
    !p.readMessage && p.opStack == -1 && p.lastFin && p.user.current.None? && !p.overrun
  }

  /** In a frame with header h, of which rest has arrived; what is there of its payload is unmasked. */
  predicate InFrame(server: bool, p: Parser, rest: seq<byte>, h: Head) {
    && p.readMessage && p.opStack == 0 && p.lastFin && p.spill == [] && !p.overrun
    && ReadHead(server, rest) == Some(h) && |rest| < h.Total() && h.length <= MAX_MESSAGE_LENGTH
    && p.remaining == h.Total() - |rest| && |p.opCodes| == 2 && p.opCodes[0] == h.opCode
    && p.user.current == Some(Current(h.opCode, h.length, PayloadOf(server, rest, h)))
    && (server ==> p.mask == Rotated(Key(rest, h), |rest| - h.size))
  }

  /** rest is what has been read of the frame that has not come to its end. */
  predicate Reads(server: bool, p: Parser, rest: seq<byte>) {
    && Sound(server, p)
    && if p.readMessage then ReadHead(server, rest).Some? && InFrame(server, p, rest, ReadHead(server, rest).value)
       else Idle(p) && p.spill == rest && ReadHead(server, rest).None?
  }

  /** The parser has gone through some messages: all of them, and then rest is what they leave over; or it
      has stopped at the first that is refused. */
  ghost predicate Handed(server: bool, i: Inbox, ms: seq<Message>, rest: seq<byte>, q: Parser) {
    && q.user.inbox == Until(i, ms)
    && if TakeAll(i, ms).Some? then Reads(server, q, rest) else q.spill == [] && !q.overrun
  }

  lemma GoodIsNotBad(s: seq<byte>)
    requires GoodStart(s) && |s| >= 2
    ensures !BadStart(s) && IsFin(s) && s[0] % 16 in {TEXT, BINARY, CLOSE, PING, PONG}
  {
  }

  /** A whole frame between two others. */
  lemma WholeFrame(server: bool, p: Parser, s: seq<byte>, h: Head)
    requires Sound(server, p) && Idle(p) && p.spill == [] && |s| >= 2 && GoodStart(s)
    requires ReadHead(server, s) == Some(h) && h.opCode == s[0] % 16 && h.length <= MAX_MESSAGE_LENGTH
    requires h.Total() <= |s|
    ensures var m := Message(h.opCode, PayloadOf(server, s, h));
      var r := ConsumeMessage(server, p, s, h);
      && r.p.user.inbox == Received(p.user.inbox, m)
      && if Take(p.user.inbox, m).Some? then r.GoOn? && r.used == h.Total() && Idle(r.p) && r.p.spill == []
         else r.Stop? && r.p.spill == [] && !r.p.overrun
  {
    hide ReadHead, PayloadOf, Received, Take;
    GoodIsNotBad(s);
    PayloadSize(server, s, h);
    assert [] + PayloadOf(server, s, h) == PayloadOf(server, s, h);
  }

  /** A frame that is cut off. */
  lemma PartFrame(server: bool, p: Parser, s: seq<byte>, h: Head)
    requires Sound(server, p) && Idle(p) && p.spill == [] && |s| >= 2 && GoodStart(s)
    requires ReadHead(server, s) == Some(h) && h.opCode == s[0] % 16 && h.length <= MAX_MESSAGE_LENGTH
    requires |s| < h.Total()
    ensures var r := ConsumeMessage(server, p, s, h);
      r.Stop? && Reads(server, r.p, s) && r.p.user.inbox == p.user.inbox
  {
    hide ReadHead, PayloadOf, Received, Take, Rotated, Key;
    GoodIsNotBad(s);
    PayloadSize(server, s, h);
    assert [] + PayloadOf(server, s, h) == PayloadOf(server, s, h);
  }

  lemma FirstFrame(masked: bool, s: seq<byte>, h: Head)
    requires WellFramed(masked, s) && ReadHead(masked, s) == Some(h)
    ensures GoodStart(s) && h.length <= MAX_MESSAGE_LENGTH
    ensures h.Total() <= |s| ==>
      var m, t := Message(h.opCode, PayloadOf(masked, s, h)), s[h.Total()..];
      WellFramed(masked, t) && Rest(masked, s) == Rest(masked, t) && Messages(masked, s) == [m] + Messages(masked, t)
  {
    hide ReadHead, PayloadOf, GoodStart;
  }

  lemma UntilFirst(i: Inbox, m: Message, ms: seq<Message>)
    ensures var all := [m] + ms;
      if Take(i, m).Some? then
        Until(i, all) == Until(Received(i, m), ms) && TakeAll(i, all) == TakeAll(Received(i, m), ms)
      else Until(i, all) == Received(i, m) && TakeAll(i, all).None?
  {
    hide Take;
    assert ([m] + ms)[1..] == ms;
  }

  /** _consume between two frames. */
  lemma {:induction false} ParseMeaning(server: bool, p: Parser, s: seq<byte>)
    requires Sound(server, p) && Idle(p) && p.spill == [] && WellFramed(server, s)
    ensures Handed(server, p.user.inbox, Messages(server, s), Rest(server, s), ParseNext(server, p, s))
    decreases |s|
  {
    hide ReadHead, ConsumeMessage, WellFramed, Messages, Rest, Until, TakeAll, PayloadOf, BadStart, GoodStart, Received,
         InFrame, Take;
    NoHead(server, s);
    HeadCode(server, s);
    if ReadHead(server, s).None? {
      StartOk(server, s);
      NoMessage(server, s);
      NothingTaken(p.user.inbox);
    } else {
      var h := ReadHead(server, s).value;
      FirstFrame(server, s, h);
      GoodIsNotBad(s);
      if h.Total() <= |s| {
        var m := Message(h.opCode, PayloadOf(server, s, h));
        WholeFrame(server, p, s, h);
        UntilFirst(p.user.inbox, m, Messages(server, s[h.Total()..]));
        if Take(p.user.inbox, m).Some? {
          ParseMeaning(server, ConsumeMessage(server, p, s, h).p, s[h.Total()..]);
        }
      } else {
        PartFrame(server, p, s, h);
        NoMessage(server, s);
        NothingTaken(p.user.inbox);
      }
    }
  }

  lemma StartOk(server: bool, s: seq<byte>)
    requires WellFramed(server, s)
    ensures |s| >= 2 ==> !BadStart(s)
  {
    hide ReadHead;
    if |s| >= 2 {
      GoodIsNotBad(s);
    }
  }

  lemma NothingTaken(i: Inbox)
    ensures Until(i, []) == i && TakeAll(i, []) == Some(i)
  {
  }

  /** The payload that ends with d. */
  lemma EndedPayload(server: bool, p: Parser, rest: seq<byte>, d: seq<byte>, h: Head)
    requires Sound(server, p) && InFrame(server, p, rest, h) && |d| <= p.remaining
    ensures ReadHead(server, rest + d) == Some(h)
    ensures PayloadOf(server, rest + d, h) == p.user.current.value.bytes + Unmasked(server, p, d)
    ensures |p.user.current.value.bytes| == |rest| - h.size
    ensures server ==> Rotated(p.mask, |d|) == Rotated(Key(rest + d, h), |rest + d| - h.size)
  {
    hide ReadHead, Unmask, Rotated, Key, PayloadOf;
    PayloadExtends(server, rest, d, h);
    PayloadSize(server, rest, h);
    if server {
      RotatedTwice(Key(rest, h), |rest| - h.size, |d|);
    }
  }

  /** _consume in the middle of a frame. */
  lemma ContinueMeaning(server: bool, p: Parser, rest: seq<byte>, s: seq<byte>)
    requires Reads(server, p, rest) && p.readMessage && WellFramed(server, rest + s)
    ensures Handed(server, p.user.inbox, Messages(server, rest + s), Rest(server, rest + s), Continue(server, p, s))
  {
    hide ReadHead, WellFramed, Messages, Rest, Until, TakeAll, PayloadOf, Received, Take, ParseNext, Unmasked,
         Rotated, Key;
    var h := ReadHead(server, rest).value;
    if p.remaining <= |s| {
      var d, t := s[..p.remaining], s[p.remaining..];
      assert rest + s == (rest + d) + t;
      EndedPayload(server, p, rest, d, h);
      FirstMessage(server, rest + d, t, h);
      var m := Message(h.opCode, PayloadOf(server, rest + d, h));
      UntilFirst(p.user.inbox, m, Messages(server, t));
      if Take(p.user.inbox, m).Some? {
        ParseMeaning(server, p.(readMessage := false, user := Reception(Received(p.user.inbox, m), None),
                                opStack := -1), t);
      }
    } else {
      EndedPayload(server, p, rest, s, h);
      NoMessage(server, rest + s);
      NothingTaken(p.user.inbox);
    }
  }

  /** One call of _consume, on what was spilled and more: the messages handed on are those of the stream up
      to and including the first that is refused. */
  lemma BufferMeaning(server: bool, p: Parser, rest: seq<byte>, s: seq<byte>)
    requires Reads(server, p, rest) && WellFramed(server, rest + s)
    ensures Handed(server, p.user.inbox, Messages(server, rest + s), Rest(server, rest + s),
                   ConsumeBuffer(server, p.(spill := []), p.spill + s))
  {
    hide ReadHead, WellFramed, Messages, Rest, Until, TakeAll, Handed, Continue, ParseNext;
    if p.readMessage {
      assert p.spill + s == s && p.(spill := []) == p;
      ContinueMeaning(server, p, rest, s);
    } else {
      ParseMeaning(server, p.(spill := []), rest + s);
    }
  }

  /** A chunk, unless it begins in the middle of a header, is one call of _consume: the messages that it
      hands on are all those of the stream if and only if at most the last of them is refused. */
  lemma ChunkMeaning(server: bool, p: Parser, rest: seq<byte>, s: seq<byte>)
    requires Reads(server, p, rest) && p.spill == [] && WellFramed(server, rest + s)
    ensures var i, ms, q := p.user.inbox, Messages(server, rest + s), Consume(server, p, s);
      && q.user.inbox == Until(i, ms)
      && q.user.inbox.log == i.log + ms[..Upto(i, ms)]
      && (q.user.inbox.log == i.log + ms <==> ms == [] || TakeAll(i, ms[..|ms| - 1]).Some?)
  {
    hide Reads, WellFramed, Messages, Rest, Until, TakeAll, ConsumeBuffer, Upto;
    var i, ms := p.user.inbox, Messages(server, rest + s);
    ReadsIs(server, p, rest);
    SpillAndMore(server, p, s);
    BufferMeaning(server, p, rest, s);
    UntilHandsOn(i, ms);
    assert |i.log + ms[..Upto(i, ms)]| == |i.log| + Upto(i, ms);
    assert ms[..|ms|] == ms;
  }

  lemma SpillAndMore(server: bool, p: Parser, s: seq<byte>)
    requires Sound(server, p)
    ensures p.spill == [] ==> p.(spill := []) == p && p.spill + s == s
    ensures p.spill == [] ==> Consume(server, p, s) == ConsumeBuffer(server, p, s)
  {
    hide ConsumeBuffer;
  }

  /** consume, on a chunk of which no message is refused. */
  lemma {:induction false} ConsumeMeaning(server: bool, p: Parser, rest: seq<byte>, s: seq<byte>)
    requires Reads(server, p, rest) && WellFramed(server, rest + s)
    requires TakeAll(p.user.inbox, Messages(server, rest + s)).Some?
    ensures var q := Consume(server, p, s);
      && Some(q.user.inbox) == TakeAll(p.user.inbox, Messages(server, rest + s))
      && Reads(server, q, Rest(server, rest + s))
    decreases |s|
  {
    hide Reads, WellFramed, Messages, Rest, Until, TakeAll, ConsumeBuffer;
    var i := p.user.inbox;
    ReadsIs(server, p, rest);
    if p.spill == [] {
      SpillAndMore(server, p, s);
      BufferMeaning(server, p, rest, s);
      UntilHandsOn(i, Messages(server, rest + s));
    } else {
      var n := JoinSize(server, p, s);
      var d, left := s[..n], s[n..];
      assert rest + s == (rest + d) + left && (left == [] ==> rest + s == rest + d);
      StreamAppend(server, rest + d, left);
      var a, b := Messages(server, rest + d), Messages(server, Rest(server, rest + d) + left);
      TakeAllAppend(i, a, b);
      BufferMeaning(server, p, rest, d);
      UntilHandsOn(i, a);
      if left != [] {
        ConsumeMeaning(server, ConsumeBuffer(server, p.(spill := []), p.spill + d), Rest(server, rest + d), left);
      }
    }
  }

  lemma ReadsIs(server: bool, p: Parser, rest: seq<byte>)
    requires Reads(server, p, rest)
    ensures Sound(server, p) && (p.spill != [] ==> p.spill == rest && !p.readMessage)
    ensures Messages(server, rest) == [] && Rest(server, rest) == rest
  {
    hide ReadHead;
    NoMessage(server, rest);
  }

  /** The last message of a stream is the only one to be refused, and nothing follows it. */
  ghost predicate OnlyLastRefused(i: Inbox, ms: seq<Message>, rest: seq<byte>) {
    ms != [] && TakeAll(i, ms[..|ms| - 1]).Some? && TakeAll(i, ms).None? && rest == []
  }

  /** A part of such a stream, and what follows it. */
  lemma LastRefusedSplit(server: bool, i: Inbox, s: seq<byte>, t: seq<byte>)
    requires WellFramed(server, s + t) && OnlyLastRefused(i, Messages(server, s + t), Rest(server, s + t))
    ensures var a, rest := Messages(server, s), Rest(server, s);
      && WellFramed(server, s) && WellFramed(server, rest + t)
      && Messages(server, s + t) == a + Messages(server, rest + t) && Rest(server, s + t) == Rest(server, rest + t)
      && if TakeAll(i, a).Some? then
           && OnlyLastRefused(TakeAll(i, a).value, Messages(server, rest + t), Rest(server, rest + t))
           && Until(i, a + Messages(server, rest + t)) == Until(TakeAll(i, a).value, Messages(server, rest + t))
         else t == [] && rest == [] && OnlyLastRefused(i, a, rest)
  {
    hide WellFramed, Messages, Rest, TakeAll, Until;
    StreamAppend(server, s, t);
    var a, rest := Messages(server, s), Rest(server, s);
    var b := Messages(server, rest + t);
    TakeAllAppend(i, a, b);
    if b == [] {
      assert a + b == a;
      NoMessagesLeft(server, rest + t);
      NothingTaken(i);
    } else {
      assert (a + b)[..|a + b| - 1] == a + b[..|b| - 1];
      TakeAllAppend(i, a, b[..|b| - 1]);
    }
    UntilAppend(i, a, b);
  }

  lemma {:induction false} UntilAppend(i: Inbox, a: seq<Message>, b: seq<Message>)
    ensures Until(i, a + b) == if TakeAll(i, a).Some? then Until(TakeAll(i, a).value, b) else Until(i, a)
    decreases |a|
  {
    hide Take;
    if a == [] {
      assert a + b == b;
    } else {
      assert (a + b)[0] == a[0] && (a + b)[1..] == a[1..] + b;
      if Take(i, a[0]).Some? {
        UntilAppend(Take(i, a[0]).value, a[1..], b);
      }
    }
  }

  lemma NoMessagesLeft(masked: bool, s: seq<byte>)
    ensures Messages(masked, s) == [] ==> Rest(masked, s) == s
  {
    hide ReadHead, PayloadOf;
  }

  /** consume, on the chunk with the refused message that ends the stream. */
  lemma {:induction false} ConsumeLast(server: bool, p: Parser, rest: seq<byte>, s: seq<byte>)
    requires Reads(server, p, rest) && WellFramed(server, rest + s)
    requires OnlyLastRefused(p.user.inbox, Messages(server, rest + s), Rest(server, rest + s))
    ensures var q := Consume(server, p, s);
      q.user.inbox == Until(p.user.inbox, Messages(server, rest + s)) && q.spill == []
    decreases |s|
  {
    hide Reads, WellFramed, Messages, Rest, Until, TakeAll, ConsumeBuffer;
    var i := p.user.inbox;
    ReadsIs(server, p, rest);
    if p.spill == [] {
      SpillAndMore(server, p, s);
      BufferMeaning(server, p, rest, s);
    } else {
      var n := JoinSize(server, p, s);
      var d, left := s[..n], s[n..];
      assert rest + s == (rest + d) + left && (left == [] ==> rest + s == rest + d);
      LastRefusedSplit(server, i, rest + d, left);
      BufferMeaning(server, p, rest, d);
      UntilHandsOn(i, Messages(server, rest + d));
      if left != [] {
        ConsumeLast(server, ConsumeBuffer(server, p.(spill := []), p.spill + d), Rest(server, rest + d), left);
      }
    }
  }

  // ---------------------------------------------------------------- any chunks

  /** However a stream of which no message is refused is chunked, the parser does what its messages do. */
  lemma {:induction false} ChunksMeaning(server: bool, p: Parser, rest: seq<byte>, chunks: seq<seq<byte>>)
    requires Reads(server, p, rest) && WellFramed(server, rest + Concat(chunks))
    requires TakeAll(p.user.inbox, Messages(server, rest + Concat(chunks))).Some?
    ensures var q := ConsumeAll(server, p, chunks);
      && Some(q.user.inbox) == TakeAll(p.user.inbox, Messages(server, rest + Concat(chunks)))
      && Reads(server, q, Rest(server, rest + Concat(chunks)))
    decreases |chunks|
  {
    hide Reads, WellFramed, Messages, Rest, Until, TakeAll, Consume;
    ReadsIs(server, p, rest);
    if chunks == [] {
      assert rest + Concat(chunks) == rest;
      NothingTaken(p.user.inbox);
    } else {
      var s, more := chunks[0], Concat(chunks[1..]);
      assert rest + Concat(chunks) == (rest + s) + more;
      StreamAppend(server, rest + s, more);
      TakeAllAppend(p.user.inbox, Messages(server, rest + s), Messages(server, Rest(server, rest + s) + more));
      ConsumeMeaning(server, p, rest, s);
      ChunksMeaning(server, Consume(server, p, s), Rest(server, rest + s), chunks[1..]);
    }
  }

  /** Chunks without bytes hand nothing on. */
  lemma {:induction false} EmptyChunks(server: bool, p: Parser, chunks: seq<seq<byte>>)
    requires Sound(server, p) && p.spill == [] && Concat(chunks) == []
    ensures ConsumeAll(server, p, chunks).user.inbox == p.user.inbox
    decreases |chunks|
  {
    hide Consume;
    if chunks != [] {
      EmptyChunk(server, p);
      EmptyChunks(server, Consume(server, p, chunks[0]), chunks[1..]);
    }
  }

  lemma EmptyChunk(server: bool, p: Parser)
    requires Sound(server, p) && p.spill == []
    ensures var q := Consume(server, p, []); q.spill == [] && q.user.inbox == p.user.inbox
  {
    hide Received, Take, ReadHead;
  }

  lemma {:induction false} LastRefusedInChunks(server: bool, p: Parser, rest: seq<byte>, chunks: seq<seq<byte>>)
    requires Reads(server, p, rest) && WellFramed(server, rest + Concat(chunks))
    requires OnlyLastRefused(p.user.inbox, Messages(server, rest + Concat(chunks)), Rest(server, rest + Concat(chunks)))
    ensures ConsumeAll(server, p, chunks).user.inbox
         == Until(p.user.inbox, Messages(server, rest + Concat(chunks)))
    decreases |chunks|
  {
    hide Reads, WellFramed, Messages, Rest, Until, TakeAll, Consume;
    var i := p.user.inbox;
    ReadsIs(server, p, rest);
    assert chunks == [] ==> rest + Concat(chunks) == rest;
    if chunks != [] {
      var s, more := chunks[0], Concat(chunks[1..]);
      assert rest + Concat(chunks) == (rest + s) + more;
      LastRefusedSplit(server, i, rest + s, more);
      if TakeAll(i, Messages(server, rest + s)).Some? {
        ConsumeMeaning(server, p, rest, s);
        LastRefusedInChunks(server, Consume(server, p, s), Rest(server, rest + s), chunks[1..]);
      } else {
        assert (rest + s) + more == rest + s;
        ConsumeLast(server, p, rest, s);
        EmptyChunks(server, Consume(server, p, s), chunks[1..]);
      }
    }
  }

  function Listed(ms: seq<(Message, seq<byte>)>): seq<Message> {
    seq(|ms|, i requires 0 <= i < |ms| => ms[i].0)
  }

  predicate AllSendable(ms: seq<(Message, seq<byte>)>) {
    forall i :: 0 <= i < |ms| ==> Sendable(ms[i].0) && |ms[i].1| == 4
  }

  /** Whatever the masks and the chunks, a parser between two frames that reads the messages written by
      formatMessage hands on exactly those, if at most the last of them is refused. */
  lemma WireInChunks(server: bool, p: Parser, ms: seq<(Message, seq<byte>)>, chunks: seq<seq<byte>>)
    requires Sound(server, p) && Idle(p) && p.spill == [] && AllSendable(ms) && Concat(chunks) == Wire(server, ms)
    requires ms == [] || TakeAll(p.user.inbox, Listed(ms)[..|ms| - 1]).Some?
    ensures ConsumeAll(server, p, chunks).user.inbox == Until(p.user.inbox, Listed(ms))
    ensures ConsumeAll(server, p, chunks).user.inbox.log == p.user.inbox.log + Listed(ms)
  {
    hide ReadHead, WellFramed, Messages, Rest, Wire, TakeAll, Until, ConsumeAll, Sendable;
    var i, list := p.user.inbox, Listed(ms);
    WireRoundTrip(server, ms);
    WireLeavesNothing(server, ms);
    NoHead(server, []);
    assert [] + Concat(chunks) == Wire(server, ms);
    UntilHandsOn(i, list);
    assert list[..|list|] == list;
    if TakeAll(i, list).Some? {
      ChunksMeaning(server, p, [], chunks);
    } else {
      NothingTaken(i);
      LastRefusedInChunks(server, p, [], chunks);
    }
  }

  /** The round trip of formatMessage and the parser: every list of messages, whatever the masks, comes out
      of every chunking of its bytes if and only if at most the last message of it is refused. */
  lemma RoundTripIff(server: bool, p: Parser, ms: seq<(Message, seq<byte>)>)
    requires Sound(server, p) && Idle(p) && p.spill == [] && AllSendable(ms)
    ensures (ms == [] || TakeAll(p.user.inbox, Listed(ms)[..|ms| - 1]).Some?)
       <==> forall chunks: seq<seq<byte>> :: Concat(chunks) == Wire(server, ms) ==>
              ConsumeAll(server, p, chunks).user.inbox.log == p.user.inbox.log + Listed(ms)
  {
    hide ReadHead, WellFramed, Messages, Wire, TakeAll, ConsumeAll, Sendable, Reads, Consume;
    if ms == [] || TakeAll(p.user.inbox, Listed(ms)[..|ms| - 1]).Some? {
      forall chunks: seq<seq<byte>> | Concat(chunks) == Wire(server, ms)
        ensures ConsumeAll(server, p, chunks).user.inbox.log == p.user.inbox.log + Listed(ms)
      {
        WireInChunks(server, p, ms, chunks);
      }
    } else {
      var s := Wire(server, ms);
      WireRoundTrip(server, ms);
      IdleReads(server, p);
      assert [] + s == s;
      ChunkMeaning(server, p, [], s);
      OneChunk(server, p, s);
    }
  }

  lemma IdleReads(server: bool, p: Parser)
    requires Sound(server, p) && Idle(p) && p.spill == []
    ensures Reads(server, p, [])
  {
  }

  lemma OneChunk(server: bool, p: Parser, s: seq<byte>)
    requires Sound(server, p)
    ensures Concat([s]) == s && ConsumeAll(server, p, [s]) == Consume(server, p, s)
  {
    hide Consume;
    assert [s][1..] == [];
  }

  // ---------------------------------------------------------------- where the chunks matter

  /** A frame of a client's peer with one byte of payload. */
  function ByteFrame(op: nat, x: byte): seq<byte>
    requires op < 16
  {
    [0x80 + op, 1, x]
  }

  lemma ByteFrameHead(op: nat, x: byte, t: seq<byte>)
    requires op in {TEXT, BINARY}
    ensures var s, h := ByteFrame(op, x) + t, Head(op, 2, 1);
      && ReadHead(false, s) == Some(h) && PayloadOf(false, s, h) == [x] && !BadStart(s) && IsFin(s) && s[3..] == t
  {
    var s := ByteFrame(op, x) + t;
    assert s[0] == 0x80 + op && s[1] == 1 && s[2] == x;
    assert s[2..3] == [x];
  }

  /** The parser of a client between two frames, or behind one refused text, and such a frame. */
  lemma ReadByteFrame(p: Parser, op: nat, x: byte, t: seq<byte>)
    requires Sound(false, p) && !p.readMessage && p.spill == [] && p.user.current.None? && p.lastFin
    requires p.opStack <= 0 && op in {TEXT, BINARY}
    ensures var m := Message(op, [x]);
      var q := p.(opCodes := p.opCodes[p.opStack + 1 := op], user := Reception(Received(p.user.inbox, m), None));
      Consume(false, p, ByteFrame(op, x) + t)
      == if Take(p.user.inbox, m).Some? then ParseNext(false, q, t) else q.(opStack := p.opStack + 1)
  {
    hide ReadHead, PayloadOf, Received, Take, BadStart, IsFin, ByteFrame, ConsumeMessage, ParseOne;
    var s, h := ByteFrame(op, x) + t, Head(op, 2, 1);
    ByteFrameHead(op, x, t);
    ByteFrameRound(p, op, x, t);
    ByteFrameTaken(p, op, x, t);
    SpillAndMore(false, p, s);
  }

  lemma ByteFrameTaken(p: Parser, op: nat, x: byte, t: seq<byte>)
    requires Sound(false, p) && !p.readMessage && p.spill == [] && p.user.current.None? && p.lastFin
    requires p.opStack <= 0 && op in {TEXT, BINARY}
    ensures var s, h, m := ByteFrame(op, x) + t, Head(op, 2, 1), Message(op, [x]);
      var q := p.(opCodes := p.opCodes[p.opStack + 1 := op], user := Reception(Received(p.user.inbox, m), None));
      && ReadHead(false, s) == Some(h)
      && ConsumeMessage(false, p, s, h)
         == if Take(p.user.inbox, m).Some? then GoOn(q, 3) else Stop(q.(opStack := p.opStack + 1))
  {
    hide ReadHead, PayloadOf, Received, Take, BadStart, IsFin, ByteFrame;
    var s, h := ByteFrame(op, x) + t, Head(op, 2, 1);
    ByteFrameHead(op, x, t);
    PayloadSize(false, s, h);
    assert [] + [x] == [x];
  }

  lemma ByteFrameRound(p: Parser, op: nat, x: byte, t: seq<byte>)
    requires Sound(false, p) && !p.readMessage && p.spill == [] && op in {TEXT, BINARY}
    ensures var s, h := ByteFrame(op, x) + t, Head(op, 2, 1);
      && ReadHead(false, s) == Some(h)
      && ParseOne(false, p, s) == ConsumeMessage(false, p, s, h)
  {
    hide ConsumeMessage;
    ByteFrameHead(op, x, t);
  }

  /** Texts of these bytes are refused. */
  lemma RefusedTexts(i: Inbox)
    ensures forall s :: s in {[0xFF], [0xFF, 0xFF], [0x82]} ==>
      var m := Message(TEXT, s); Take(i, m).None? && Received(i, m) == i.(log := i.log + [m])
  {
    Utf8.NoScalar([0xFF]);
    Utf8.NoScalar([0xFF, 0xFF]);
    Utf8.NoScalar([0x82]);
  }

  lemma ParseNothing(server: bool, p: Parser)
    requires Sound(server, p) && !p.readMessage && p.spill == []
    ensures ParseNext(server, p, []) == p
  {
  }

  lemma TwoChunks(server: bool, p: Parser, a: seq<byte>, b: seq<byte>)
    requires Sound(server, p)
    ensures ConsumeAll(server, p, [a, b]) == Consume(server, Consume(server, p, a), b)
  {
    hide Consume;
    assert [a, b][1..] == [b];
    OneChunk(server, Consume(server, p, a), b);
  }

  /** Behind a refused text the rest of the buffer is dropped: in one chunk the second message is lost, in
      two it is not. */
  lemma ChunksMatter(mask: seq<byte>)
    requires |mask| == 4
    ensures var p, a, b := NewParser(mask), ByteFrame(TEXT, 0xFF), ByteFrame(BINARY, 7);
      && Consume(false, p, a + b).user.inbox.log == [Message(TEXT, [0xFF])]
      && ConsumeAll(false, p, [a, b]).user.inbox.log == [Message(TEXT, [0xFF]), Message(BINARY, [7])]
  {
    hide ReadHead, ConsumeMessage, Utf8.IsUtf8, ParseOne, Consume, ParseNext, ByteFrame, ConsumeAll;
    var p, a, b := NewParser(mask), ByteFrame(TEXT, 0xFF), ByteFrame(BINARY, 7);
    RefusedTexts(p.user.inbox);
    ReadByteFrame(p, TEXT, 0xFF, b);
    ReadByteFrame(p, TEXT, 0xFF, []);
    assert a + [] == a && b + [] == b;
    var q := Consume(false, p, a);
    ReadByteFrame(q, BINARY, 7, []);
    ParseNothing(false, q.(opCodes := q.opCodes[1 := BINARY],
                           user := Reception(Received(q.user.inbox, Message(BINARY, [7])), None)));
    TwoChunks(false, p, a, b);
  }

  /** If the refused text ends in a later chunk, the parser stays in the middle of its frame, and takes the
      first byte of the next message for one more byte of payload. */
  lemma StuckInFrame(mask: seq<byte>)
    requires |mask| == 4
    ensures var q := ConsumeAll(false, NewParser(mask), [[0x81, 2, 0xFF], [0xFF], ByteFrame(BINARY, 7)]);
      q.user.inbox.log == [Message(TEXT, [0xFF, 0xFF]), Message(TEXT, [0x82])] && q.readMessage
  {
    hide ConsumeMessage, Utf8.IsUtf8, ParseNext, Consume, ConsumeAll;
    var p := NewParser(mask);
    RefusedTexts(p.user.inbox);
    var q1, q2 := InText(mask), RefusedInText(mask);
    FirstPart(mask);
    SecondPart(mask);
    ThirdPart(mask);
    ThreeChunks(false, p, [0x81, 2, 0xFF], [0xFF], ByteFrame(BINARY, 7));
  }

  lemma ThreeChunks(server: bool, p: Parser, a: seq<byte>, b: seq<byte>, c: seq<byte>)
    requires Sound(server, p)
    ensures ConsumeAll(server, p, [a, b, c]) == Consume(server, Consume(server, Consume(server, p, a), b), c)
  {
    hide Consume;
    assert [a, b, c][1..] == [b, c];
    TwoChunks(server, Consume(server, p, a), b, c);
  }

  /** The parser when the first byte of a text of two has arrived, and when the second has and the text is
      refused. */
  function InText(mask: seq<byte>): Parser {
    NewParser(mask).(readMessage := true, opStack := 0, remaining := 1,
                     user := Reception(NewInbox(), Some(Current(TEXT, 2, [0xFF]))))
  }

  function RefusedInText(mask: seq<byte>): Parser {
    InText(mask).(user := Reception(NewInbox().(log := [Message(TEXT, [0xFF, 0xFF])]), None))
  }

  lemma FirstPart(mask: seq<byte>)
    requires |mask| == 4
    ensures Consume(false, NewParser(mask), [0x81, 2, 0xFF]) == InText(mask)
  {
    hide Utf8.IsUtf8, Take, Received;
    var s: seq<byte> := [0x81, 2, 0xFF];
    assert ReadHead(false, s) == Some(Head(TEXT, 2, 2)) && s[2..3] == [0xFF];
    assert [TEXT, TEXT][0 := TEXT] == [TEXT, TEXT];
    var none: seq<byte> := [];
    assert none + [0xFF] == [0xFF];
  }

  lemma SecondPart(mask: seq<byte>)
    requires |mask| == 4
    ensures Consume(false, InText(mask), [0xFF]) == RefusedInText(mask)
  {
    hide Utf8.IsUtf8, Take, Received, ParseNext;
    RefusedTexts(NewInbox());
    var s: seq<byte> := [0xFF];
    assert s[..1] == s && [0xFF] + s == [0xFF, 0xFF];
    assert [] + [Message(TEXT, [0xFF, 0xFF])] == [Message(TEXT, [0xFF, 0xFF])];
  }

  lemma ThirdPart(mask: seq<byte>)
    requires |mask| == 4
    ensures var q := Consume(false, RefusedInText(mask), ByteFrame(BINARY, 7));
      q.readMessage && q.user.inbox.log == [Message(TEXT, [0xFF, 0xFF]), Message(TEXT, [0x82])]
  {
    hide Utf8.IsUtf8, Take, Received, ParseNext;
    var i := RefusedInText(mask).user.inbox;
    RefusedTexts(i);
    var s: seq<byte> := ByteFrame(BINARY, 7);
    var none: seq<byte> := [];
    assert s[..1] == [0x82] && none + [0x82] == [0x82];
  }
}
