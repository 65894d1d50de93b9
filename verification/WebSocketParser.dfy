/** The resumable frame parser as functions on values: what WebSocketProtocol in
    src/websocket/WebSocketProtocol.hh does with any bytes at all, and what that means for the streams
    that formatMessage writes. */
module WebSocketParsers {
  import opened Bytes
  import opened WebSocketFrames
  import opened WebSocketMessages

  // ---------------------------------------------------------------- rotating masks

  /** The mask that goes on where n bytes have been unmasked. */
  function Rotated(key: seq<byte>, n: nat): (r: seq<byte>)
    requires |key| == 4
    ensures |r| == 4
  {
    if n % 4 == 0 then key
    else if n % 4 == 1 then [key[1], key[2], key[3], key[0]]
    else if n % 4 == 2 then [key[2], key[3], key[0], key[1]]
    else [key[3], key[0], key[1], key[2]]
  }

  lemma RotatedAt(key: seq<byte>, n: nat, i: nat)
    requires |key| == 4
    ensures Rotated(key, n)[i % 4] == key[(i + n) % 4]
  {
    assert (i + n) % 4 == (i % 4 + n % 4) % 4;
  }

  lemma UnmaskRotated(data: seq<byte>, key: seq<byte>, n: nat)
    requires |key| == 4
    ensures Unmask(data, Rotated(key, n), 0) == Unmask(data, key, n)
  {
    hide XorByte, Rotated;
    forall i | 0 <= i < |data| ensures Rotated(key, n)[i % 4] == key[(i + n) % 4] {
      RotatedAt(key, n, i);
    }
  }

  lemma RotatedTwice(key: seq<byte>, m: nat, n: nat)
    requires |key| == 4
    ensures Rotated(Rotated(key, m), n) == Rotated(key, m + n)
  {
    var a, b := m % 4, n % 4;
    assert (m + n) % 4 == (a + b) % 4;
    assert 0 <= a < 4 && 0 <= b < 4;
  }

  lemma UnmaskGroups(a: seq<byte>, b: seq<byte>, mask: seq<byte>, n: nat)
    requires |mask| == 4 && |a| == 4 * n
    ensures Unmask(a + b, mask, 0) == Unmask(a, mask, 0) + Unmask(b, mask, 0)
  {
    hide Unmask;
    UnmaskAppend(a, b, mask, 0);
    UnmaskRotated(b, mask, |a|);
  }

  lemma UnmaskOne(a: seq<byte>, x: byte, mask: seq<byte>)
    requires |mask| == 4 && |a| < 4
    ensures Unmask(a + [x], mask, 0) == Unmask(a, mask, 0) + [XorByte(x, mask[|a|])]
  {
    hide XorByte;
    UnmaskAppend(a, [x], mask, 0);
  }

  /** Unmasking what has been unmasked up to n bytes on. */
  lemma UnmaskFurther(a: seq<byte>, b: seq<byte>, key: seq<byte>)
    requires |key| == 4
    ensures Unmask(a + b, key, 0) == Unmask(a, key, 0) + Unmask(b, Rotated(key, |a|), 0)
  {
    hide Unmask, Rotated;
    UnmaskAppend(a, b, key, 0);
    UnmaskRotated(b, key, |a|);
  }

  // ---------------------------------------------------------------- the state

  /** The fields of the parser, and the user that it hands fragments to. overrun tells that a frame
      announced a length that made the source read beyond its buffer: what it does then has no meaning. */
  datatype Parser = Parser(readMessage: bool, spill: seq<byte>, opStack: int, lastFin: bool, remaining: nat,
                           mask: seq<byte>, opCodes: seq<nat>, overrun: bool, user: Reception)

  function NewParser(mask: seq<byte>): Parser {
    Parser(false, [], -1, true, 0, mask, [TEXT, TEXT], false, Reception(NewInbox(), None))
  }

  /** What every state keeps, whatever the bytes. */
  predicate Sound(server: bool, p: Parser) {
    && -1 <= p.opStack <= 1 && |p.mask| == 4 && |p.opCodes| == 2 && |p.spill| < LongHeader(server)
    && (p.readMessage ==> p.opStack >= 0 && p.spill == [] && p.remaining > 0)
  }

  /** A frame that the loop of _consume refuses by its first two octets. */
  predicate BadStart(s: seq<byte>)
    requires |s| >= 2
  {
    var op := s[0] % 16;
    || s[0] / 0x10 % 8 != 0 || 2 < op < 8 || op > 10
    || (op > 2 && (!IsFin(s) || s[1] % 128 > MAX_CONTROL_LENGTH))
  }

  predicate IsFin(s: seq<byte>)
    requires |s| >= 1
  {
    s[0] / 128 == 1
  }

  /** refusePayloadLength compares the length as an int: its lower 32 bits. */
  function IntLength(h: Head): (n: nat)
    ensures n <= h.length
  {
    h.length % 0x1_0000_0000
  }

  /** forceClose */
  function Forced(p: Parser): Parser {
    p.(user := p.user.(inbox := Failed(p.user.inbox)))
  }

  /** Fewer bytes than any header has, or at least fewer than the longest. */
  lemma NoHead(masked: bool, s: seq<byte>)
    ensures |s| < ShortHeader(masked) ==> ReadHead(masked, s).None?
    ensures ReadHead(masked, s).None? ==> |s| < LongHeader(masked)
  {
  }

  // ---------------------------------------------------------------- one frame

  /** The start of consumeMessage: the opcode is pushed; None where the connection is closed. */
  function Opened(p: Parser, opCode: nat, fin: bool): (q: Option<Parser>)
    requires -1 <= p.opStack <= 1 && |p.opCodes| == 2
    ensures q.Some? ==> 0 <= q.value.opStack <= 1 && |q.value.opCodes| == 2
  {
    if opCode != 0 then
      if p.opStack == 1 || (!p.lastFin && opCode < 2) then None
      else Some(p.(opStack := p.opStack + 1, opCodes := p.opCodes[p.opStack + 1 := opCode], lastFin := fin))
    else if p.opStack == -1 then None
    else Some(p.(lastFin := fin))
  }

  /** What a round of the loop comes to: what there is of a header is left over, or the rest of the buffer
      is not looked at, or the frame took that many bytes of it. */
  datatype Round = Left | Stop(p: Parser) | GoOn(p: Parser, used: nat)

  /** The rest of consumeMessage, for the frame with header h at the start of s. */
  ghost function ConsumeOpened(server: bool, q: Parser, s: seq<byte>, h: Head): (r: Round)
    requires Sound(server, q) && !q.readMessage && q.spill == [] && q.opStack >= 0 && ReadHead(server, s) == Some(h)
    ensures !r.Left? && Sound(server, r.p)
    ensures r.GoOn? ==> !r.p.readMessage && r.p.spill == [] && r.used == h.Total() <= |s|
  {
    var op, fin, n := q.opCodes[q.opStack], IsFin(s), |s| - h.size;
    if IntLength(h) > MAX_MESSAGE_LENGTH then Stop(Forced(q))
    else if IntLength(h) > n then
      Stop(q.(readMessage := true, remaining := IntLength(h) - n,
              mask := if server then Rotated(Key(s, h), n) else q.mask,
              user := AddFragment(q.user, PayloadOf(server, s, h), IntLength(h) - n, op, fin).0))
    else if IntLength(h) < h.length then Stop(q.(overrun := true))
    else
      var u := AddFragment(q.user, PayloadOf(server, s, h), 0, op, fin);
      if !u.1 then Stop(q.(user := u.0))
      else GoOn(q.(user := u.0, opStack := if fin then q.opStack - 1 else q.opStack), h.Total())
  }

  /** consumeMessage */
  ghost function ConsumeMessage(server: bool, p: Parser, s: seq<byte>, h: Head): (r: Round)
    requires Sound(server, p) && !p.readMessage && p.spill == [] && ReadHead(server, s) == Some(h)
    ensures !r.Left? && Sound(server, r.p)
    ensures r.GoOn? ==> !r.p.readMessage && r.p.spill == [] && r.used == h.Total() <= |s|
  {
    var q := Opened(p, h.opCode, IsFin(s));
    if q.None? then Stop(Forced(p)) else ConsumeOpened(server, q.value, s, h)
  }

  // ---------------------------------------------------------------- one buffer

  /** One round of the loop of _consume. */
  ghost function ParseOne(server: bool, p: Parser, s: seq<byte>): (r: Round)
    requires Sound(server, p) && !p.readMessage && p.spill == []
    ensures r.Left? ==> |s| < LongHeader(server)
    ensures r.Stop? ==> Sound(server, r.p)
    ensures r.GoOn? ==> Sound(server, r.p) && !r.p.readMessage && r.p.spill == [] && 0 < r.used <= |s|
  {
    NoHead(server, s);
    if |s| < ShortHeader(server) then Left
    else if BadStart(s) then Stop(Forced(p))
    else match ReadHead(server, s)
      case None => Left
      case Some(h) => ConsumeMessage(server, p, s, h)
  }

  /** _consume from parseNext on: frames, and the header that is left over. */
  ghost function ParseNext(server: bool, p: Parser, s: seq<byte>): (q: Parser)
    requires Sound(server, p) && !p.readMessage && p.spill == []
    ensures Sound(server, q)
    decreases |s|
  {
    match ParseOne(server, p, s)
    case Left => p.(spill := s)
    case Stop(q) => q
    case GoOn(q, used) => ParseNext(server, q, s[used..])
  }

  function Unmasked(server: bool, p: Parser, s: seq<byte>): (r: seq<byte>)
    requires |p.mask| == 4
    ensures |r| == |s|
  {
    if server then Unmask(s, p.mask, 0) else s
  }

  /** consumeContinuation. A fragment that is refused leaves the parser in the middle of the frame. */
  ghost function Continue(server: bool, p: Parser, s: seq<byte>): (q: Parser)
    requires Sound(server, p) && p.readMessage
    ensures Sound(server, q)
  {
    var op := p.opCodes[p.opStack];
    if p.remaining <= |s| then
      var u := AddFragment(p.user, Unmasked(server, p, s[..p.remaining]), 0, op, p.lastFin);
      if !u.1 then p.(user := u.0)
      else ParseNext(server, p.(readMessage := false, user := u.0,
                                opStack := if p.lastFin then p.opStack - 1 else p.opStack), s[p.remaining..])
    else
      var left := p.remaining - |s|;
      var u := AddFragment(p.user, Unmasked(server, p, s), left, op, p.lastFin);
      p.(remaining := left, user := u.0, mask := if u.1 && server then Rotated(p.mask, |s|) else p.mask)
  }

  /** _consume, which starts with an empty spill. */
  ghost function ConsumeBuffer(server: bool, p: Parser, s: seq<byte>): (q: Parser)
    requires Sound(server, p) && p.spill == []
    ensures Sound(server, q)
  {
    if p.readMessage then Continue(server, p, s) else ParseNext(server, p, s)
  }

  /** How many bytes of s are joined with the spilled ones. */
  function JoinSize(server: bool, p: Parser, s: seq<byte>): (n: nat)
    requires Sound(server, p) && p.spill != []
    ensures n <= |s| && (n == 0 ==> s == [])
  {
    Min(|p.spill| + |s|, LongHeader(server)) - |p.spill|
  }

  /** consume */
  ghost function Consume(server: bool, p: Parser, s: seq<byte>): (q: Parser)
    requires Sound(server, p)
    ensures Sound(server, q)
    decreases |s|
  {
    if p.spill == [] then ConsumeBuffer(server, p, s)
    else
      var n := JoinSize(server, p, s);
      var q := ConsumeBuffer(server, p.(spill := []), p.spill + s[..n]);
      if s[n..] == [] then q else Consume(server, q, s[n..])
  }

  /** consume, on one chunk after the other. */
  ghost function ConsumeAll(server: bool, p: Parser, chunks: seq<seq<byte>>): (q: Parser)
    requires Sound(server, p)
    ensures Sound(server, q)
    decreases |chunks|
  {
    if chunks == [] then p else ConsumeAll(server, Consume(server, p, chunks[0]), chunks[1..])
  }

  // ---------------------------------------------------------------- frames cut off

  /** The payload of a frame of which more has arrived. */
  lemma PayloadExtends(masked: bool, rest: seq<byte>, d: seq<byte>, h: Head)
    requires ReadHead(masked, rest) == Some(h) && |rest| + |d| <= h.Total()
    ensures ReadHead(masked, rest + d) == Some(h)
    ensures masked ==> Key(rest + d, h) == Key(rest, h)
    ensures PayloadOf(masked, rest + d, h)
         == PayloadOf(masked, rest, h)
            + if masked then Unmask(d, Rotated(Key(rest, h), |rest| - h.size), 0) else d
  {
    hide ReadHead, Unmask, Rotated;
    HeadPrefix(masked, rest, d);
    var a := rest[h.size..];
    assert rest[h.size..Min(|rest|, h.Total())] == a;
    assert (rest + d)[h.size..Min(|rest + d|, h.Total())] == a + d;
    if masked {
      assert (rest + d)[h.size - 4..h.size] == rest[h.size - 4..h.size];
      UnmaskFurther(a, d, Key(rest, h));
    }
  }

  /** A whole frame with more behind it. */
  lemma FirstMessage(masked: bool, s: seq<byte>, t: seq<byte>, h: Head)
    requires WellFramed(masked, s + t) && ReadHead(masked, s) == Some(h) && |s| == h.Total()
    ensures WellFramed(masked, t) && h.length <= MAX_MESSAGE_LENGTH
    ensures Messages(masked, s + t) == [Message(h.opCode, PayloadOf(masked, s, h))] + Messages(masked, t)
    ensures Rest(masked, s + t) == Rest(masked, t)
  {
    hide ReadHead, PayloadOf, GoodStart;
    PayloadPrefix(masked, s, t, h);
    assert (s + t)[h.Total()..] == t;
  }

  lemma NoMessage(masked: bool, s: seq<byte>)
    requires ReadHead(masked, s).None? || |s| < ReadHead(masked, s).value.Total()
    ensures Messages(masked, s) == [] && Rest(masked, s) == s
  {
    hide ReadHead;
  }

  lemma {:induction false} TakeAllAppend(i: Inbox, a: seq<Message>, b: seq<Message>)
    ensures TakeAll(i, a + b) == match TakeAll(i, a) case None => None case Some(i') => TakeAll(i', b)
    decreases |a|
  {
    hide Take;
    if a == [] {
      assert a + b == b;
    } else {
      assert (a + b)[0] == a[0] && (a + b)[1..] == a[1..] + b;
      if Take(i, a[0]).Some? {
        TakeAllAppend(Take(i, a[0]).value, a[1..], b);
      }
    }
  }

  lemma {:induction false} TakeAllLogs(i: Inbox, ms: seq<Message>)
    requires TakeAll(i, ms).Some?
    ensures TakeAll(i, ms).value.log == i.log + ms
    decreases |ms|
  {
    if ms != [] {
      TakeAllLogs(Take(i, ms[0]).value, ms[1..]);
      assert i.log + [ms[0]] + ms[1..] == i.log + ms;
    }
  }

  lemma TakeFirst(i: Inbox, m: Message, ms: seq<Message>)
    ensures TakeAll(i, [m] + ms) == match Take(i, m) case None => None case Some(i') => TakeAll(i', ms)
  {
    hide Take;
    assert ([m] + ms)[1..] == ms;
  }
}
