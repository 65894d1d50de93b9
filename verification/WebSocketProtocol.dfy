/** The resumable frame parser (class WebSocketProtocol in src/websocket/WebSocketProtocol.hh): it
    unmasks in place and keeps unread header bytes, and does with any bytes what WebSocketParsers says. */
module WebSocketProtocols {
  import opened Bytes
  import opened WebSocketFrames
  import opened WebSocketMessages
  import Parsers = WebSocketParsers
  import opened WebSocketParsers
  import Streams = WebSocketStreams

  lemma RotatedPlace(k: nat, offset: nat)
    ensures (k + offset) % 4 == (k + offset % 4) % 4
  {
  }

  /** Rotating by 4 - n % 4 makes the mask go on behind n bytes. */
  method RotateMask(offset: nat, mask: array<byte>)
    requires mask.Length == 4
    modifies mask
    ensures mask[..] == Rotated(old(mask[..]), 4 - offset % 4)
  {
    var originalMask := [mask[0], mask[1], mask[2], mask[3]];
    RotatedPlace(0, offset);
    RotatedPlace(1, offset);
    RotatedPlace(2, offset);
    RotatedPlace(3, offset);
    assert offset % 4 in {0, 1, 2, 3};
    mask[(0 + offset) % 4] := originalMask[0];
    mask[(1 + offset) % 4] := originalMask[1];
    mask[(2 + offset) % 4] := originalMask[2];
    mask[(3 + offset) % 4] := originalMask[3];
  }

  // ---------------------------------------------------------------- unmasking in place

  /** Four steps of the loops below. */
  method UnmaskFour(buf: array<byte>, dst: nat, src: nat, mask: array<byte>)
    requires dst <= src && src + 4 <= buf.Length && mask.Length == 4 && mask != buf
    modifies buf
    ensures buf[dst..dst + 4] == Unmask(old(buf[src..src + 4]), mask[..], 0)
    ensures buf[..dst] == old(buf[..dst]) && buf[src + 4..] == old(buf[src + 4..])
  {
    hide XorByte;
    buf[dst] := XorByte(buf[src], mask[0]);
    buf[dst + 1] := XorByte(buf[src + 1], mask[1]);
    buf[dst + 2] := XorByte(buf[src + 2], mask[2]);
    buf[dst + 3] := XorByte(buf[src + 3], mask[3]);
  }

  /** The last, fewer than four bytes. */
  method UnmaskTail(buf: array<byte>, dst: nat, src: nat, mask: array<byte>, length: nat)
    requires dst <= src && src + length <= buf.Length && length < 4 && mask.Length == 4 && mask != buf
    modifies buf
    ensures buf[dst..dst + length] == Unmask(old(buf[src..src + length]), mask[..], 0)
    ensures buf[..dst] == old(buf[..dst]) && buf[src + length..] == old(buf[src + length..])
  {
    hide XorByte, Unmask;
    ghost var was, key := buf[..], mask[..];
    UnmaskNothing(key);
    var i := 0;
    while i < length
      invariant 0 <= i <= length && mask[..] == key
      invariant buf[..dst] == was[..dst] && buf[src + i..] == was[src + i..]
      invariant buf[dst..dst + i] == Unmask(was[src..src + i], key, 0)
    {
      UnmaskOne(was[src..src + i], was[src + i], key);
      assert was[src..src + i + 1] == was[src..src + i] + [was[src + i]];
      assert buf[src + i] == buf[src + i..][0] == was[src + i];
      buf[dst + i] := XorByte(buf[src + i], mask[i]);
      i := i + 1;
    }
  }

  lemma UnmaskNothing(mask: seq<byte>)
    requires |mask| == 4
    ensures Unmask([], mask, 0) == []
  {
  }

  /** One round of the loop of unmaskPrecise. */
  method UnmaskGroup(buf: array<byte>, dst: nat, src: nat, mask: array<byte>, i: nat,
          ghost was: seq<byte>, ghost n: nat)
    requires dst <= src && src + i + 4 <= buf.Length == |was| && mask.Length == 4 && mask != buf && i == 4 * n
    requires UnmaskedUpTo(buf[..], was, dst, src, mask[..], i)
    modifies buf
    ensures UnmaskedUpTo(buf[..], was, dst, src, mask[..], i + 4)
  {
    hide XorByte, Unmask, UnmaskedUpTo;
    ghost var before := buf[..];
    UnmaskFour(buf, dst + i, src + i, mask);
    NextGroup(was, before, buf[..], dst, src, mask[..], i, i + 4, n);
  }

  /** Moves length bytes from src down to dst, unmasking them. */
  method UnmaskPrecise(buf: array<byte>, dst: nat, src: nat, mask: array<byte>, length: nat)
    requires dst <= src && src + length <= buf.Length && mask.Length == 4 && mask != buf
    modifies buf
    ensures buf[dst..dst + length] == Unmask(old(buf[src..src + length]), mask[..], 0)
    ensures buf[..dst] == old(buf[..dst]) && buf[src + length..] == old(buf[src + length..])
  {
    hide XorByte, Unmask, UnmaskedUpTo;
    ghost var was, key := buf[..], mask[..];
    NoGroups(was, dst, src, key);
    var i := 0;
    ghost var n := 0;
    while length - i >= 4
      invariant 0 <= i <= length && i == 4 * n && mask[..] == key
      invariant UnmaskedUpTo(buf[..], was, dst, src, key, i)
    {
      UnmaskGroup(buf, dst, src, mask, i, was, n);
      i, n := i + 4, n + 1;
    }
    ghost var before := buf[..];
    UnmaskTail(buf, dst + i, src + i, mask, length - i);
    NextGroup(was, before, buf[..], dst, src, key, i, length, n);
    AllGroups(buf[..], was, dst, src, key, length);
  }

  /** The first i bytes of was[src..] have been unmasked and moved down to dst. */
  ghost predicate UnmaskedUpTo(s: seq<byte>, was: seq<byte>, dst: nat, src: nat, key: seq<byte>, i: nat)
    requires dst <= src && src + i <= |was| && |key| == 4
  {
    && |s| == |was| && s[..dst] == was[..dst] && s[src + i..] == was[src + i..]
    && s[dst..dst + i] == Unmask(was[src..src + i], key, 0)
  }

  lemma NoGroups(was: seq<byte>, dst: nat, src: nat, key: seq<byte>)
    requires dst <= src <= |was| && |key| == 4
    ensures UnmaskedUpTo(was, was, dst, src, key, 0)
  {
  }

  lemma AllGroups(s: seq<byte>, was: seq<byte>, dst: nat, src: nat, key: seq<byte>, i: nat)
    requires dst <= src && src + i <= |was| && |key| == 4 && UnmaskedUpTo(s, was, dst, src, key, i)
    ensures |s| == |was| && s[..dst] == was[..dst] && s[src + i..] == was[src + i..]
    ensures s[dst..dst + i] == Unmask(was[src..src + i], key, 0)
  {
  }

  lemma NextGroup(was: seq<byte>, before: seq<byte>, after: seq<byte>, dst: nat, src: nat, key: seq<byte>,
                  i: nat, j: nat, n: nat)
    requires |key| == 4 && i == 4 * n && i <= j && dst <= src && src + j <= |was| == |after|
    requires UnmaskedUpTo(before, was, dst, src, key, i)
    requires after[..dst + i] == before[..dst + i] && after[src + j..] == before[src + j..]
    requires after[dst + i..dst + j] == Unmask(before[src + i..src + j], key, 0)
    ensures UnmaskedUpTo(after, was, dst, src, key, j)
  {
    hide Unmask;
    var a, b := was[src..src + i], was[src + i..src + j];
    assert b == before[src + i..src + j] by {
      assert before[src + i..][..j - i] == was[src + i..][..j - i];
    }
    assert was[src..src + j] == a + b;
    UnmaskGroups(a, b, key, n);
    assert after[dst..dst + i] == after[..dst + i][dst..] == before[..dst + i][dst..] == before[dst..dst + i];
    assert after[dst..dst + j] == after[dst..dst + i] + after[dst + i..dst + j];
    assert after[src + j..] == before[src + i..][j - i..] == was[src + j..];
    assert after[..dst] == after[..dst + i][..dst] == was[..dst];
  }

  /** The mask lies in the bytes that are overwritten, so it is copied first. */
  method UnmaskPreciseCopyMask(buf: array<byte>, dst: nat, src: nat, maskAt: nat, length: nat)
    requires dst <= src && src + length <= buf.Length && maskAt + 4 <= buf.Length
    modifies buf
    ensures buf[dst..dst + length] == Unmask(old(buf[src..src + length]), old(buf[maskAt..maskAt + 4]), 0)
    ensures buf[..dst] == old(buf[..dst]) && buf[src + length..] == old(buf[src + length..])
  {
    hide Unmask;
    var mask := new byte[4];
    mask[0], mask[1], mask[2], mask[3] := buf[maskAt], buf[maskAt + 1], buf[maskAt + 2], buf[maskAt + 3];
    assert mask[..] == buf[maskAt..maskAt + 4];
    UnmaskPrecise(buf, dst, src, mask, length);
  }

  /** Unmasks the bytes from start to stop in place. */
  method UnmaskInplace(buf: array<byte>, start: nat, stop: nat, mask: array<byte>)
    requires start <= stop <= buf.Length && mask.Length == 4 && mask != buf
    modifies buf
    ensures buf[start..stop] == Unmask(old(buf[start..stop]), mask[..], 0)
    ensures buf[..start] == old(buf[..start]) && buf[stop..] == old(buf[stop..])
  {
    hide XorByte, Unmask, UnmaskedUpTo;
    ghost var was, key := buf[..], mask[..];
    NoGroups(was, start, start, key);
    var data := start;
    ghost var n := 0;
    while data < stop - 3
      invariant start <= data <= stop && data - start == 4 * n && mask[..] == key
      invariant UnmaskedUpTo(buf[..], was, start, start, key, data - start)
    {
      ghost var before := buf[..];
      UnmaskFour(buf, data, data, mask);
      NextGroup(was, before, buf[..], start, start, key, data - start, data - start + 4, n);
      data, n := data + 4, n + 1;
    }
    ghost var before := buf[..];
    UnmaskTail(buf, data, data, mask, stop - data);
    NextGroup(was, before, buf[..], start, start, key, data - start, stop - start, n);
    AllGroups(buf[..], was, start, start, key, stop - start);
  }

  // ---------------------------------------------------------------- the parser

  class WebSocketProtocol {
    const isServer: bool
    var readMessage: bool
    var spillLength: nat
    var opStack: int
    var lastFin: bool
    const spill: array<byte>
    var remainingBytes: nat
    const mask: array<byte>
    var opCode: seq<nat>
    ghost var overrun: bool

    constructor (isServer: bool, user: Assembler)
      requires user.Valid() && user.curMessage == null
      ensures Valid(user) && this.isServer == isServer && fresh(spill) && fresh(mask)
      ensures State(user) == NewParser(mask[..]).(user := user.State())
    {
      this.isServer, readMessage, spillLength, opStack, lastFin := isServer, false, 0, -1, true;
      spill, remainingBytes := new byte[LongHeader(isServer) - 1], 0;
      mask, opCode, overrun := new byte[4], [TEXT, TEXT], false;
      new;
      assert spill[..0] == [];
    }

    ghost predicate Owns(user: Assembler)
      reads this, user
    {
      && mask.Length == 4 && spill.Length == LongHeader(isServer) - 1 && spillLength <= spill.Length
      && mask != spill && user.Valid()
      && user.curMessage != mask && user.curMessage != spill
    }

    /** The state of the parser and of its user. */
    ghost function State(user: Assembler): Parser
      requires Owns(user)
      reads this, user, user.curMessage, mask, spill
    {
      Parser(readMessage, spill[..spillLength], opStack, lastFin, remainingBytes, mask[..], opCode, overrun,
             user.State())
    }

    ghost predicate Valid(user: Assembler)
      reads this, user, user.curMessage, mask, spill
    {
      Owns(user) && Sound(isServer, State(user))
    }

    /** buf[src..src + length] can be read and unmasked. */
    ghost predicate MayRead(user: Assembler, buf: array<byte>, src: nat, length: nat)
      reads user
    {
      src + length <= buf.Length && buf != mask && buf != spill && buf != user.curMessage
    }

    // -------------------------------------------------------------- unmasking

    /** Returns where the payload of the frame at src is, for a server after it has been unmasked. */
    method UnmaskWhole(buf: array<byte>, src: nat, headSize: nat, n: nat, ghost data: seq<byte>, ghost h: Head)
      returns (start: nat)
      requires headSize + n <= |data| && src + |data| <= buf.Length && data == buf[src..src + |data|]
      requires ReadHead(isServer, data) == Some(h) && h.size == headSize && h.length == n
      modifies buf
      ensures start + n <= src + headSize + n && buf[start..start + n] == PayloadOf(isServer, data, h)
      ensures buf[src + headSize + n..] == old(buf[src + headSize + n..])
    {
      hide ReadHead, Unmask, PayloadOf;
      start := src + headSize;
      if isServer {
        UnmaskWholeMasked(buf, src, headSize, n, data, h);
        start := src;
      } else {
        WholePayloadIs(false, data, h);
        SubSlice(buf[..], src, |data|, headSize, headSize + n);
      }
    }

    method UnmaskWholeMasked(buf: array<byte>, src: nat, headSize: nat, n: nat, ghost data: seq<byte>, ghost h: Head)
      requires 4 <= headSize && headSize + n <= |data| && src + |data| <= buf.Length && data == buf[src..src + |data|]
      requires ReadHead(true, data) == Some(h) && h.size == headSize && h.length == n
      modifies buf
      ensures buf[src..src + n] == PayloadOf(true, data, h)
      ensures buf[src + headSize + n..] == old(buf[src + headSize + n..])
    {
      hide ReadHead, Unmask, PayloadOf;
      WholePayloadIs(true, data, h);
      SubSlice(buf[..], src, |data|, headSize, headSize + n);
      SubSlice(buf[..], src, |data|, headSize - 4, headSize);
      ghost var body, key := buf[src + headSize..src + headSize + n], buf[src + headSize - 4..src + headSize];
      assert PayloadOf(true, data, h) == Unmask(body, key, 0);
      UnmaskPreciseCopyMask(buf, src, src + headSize, src + headSize - 4, n);
    }

    /** Returns where the n bytes behind the header at src are, for a server after it has taken the mask
        and moved them to src, unmasking them. */
    method UnmaskStart(buf: array<byte>, src: nat, headSize: nat, n: nat, ghost data: seq<byte>, ghost h: Head)
      returns (start: nat)
      requires mask.Length == 4 && mask != buf && src + headSize + n <= buf.Length
      requires data == buf[src..src + headSize + n] && h.size == headSize && n < h.length
      requires ReadHead(isServer, data) == Some(h)
      modifies mask, buf
      ensures mask[..] == if isServer then Rotated(Key(data, h), n) else old(mask[..])
      ensures start + n <= buf.Length && buf[start..start + n] == PayloadOf(isServer, data, h)
    {
      hide Unmask, Rotated, ReadHead, PayloadOf;
      PartialPayload(isServer, data, h);
      SubSlice(buf[..], src, headSize + n, headSize, headSize + n);
      start := src + headSize;
      if isServer {
        UnmaskMasked(buf, src, headSize, n, data, h);
        start := src;
      }
    }

    method UnmaskMasked(buf: array<byte>, src: nat, headSize: nat, n: nat, ghost data: seq<byte>, ghost h: Head)
      requires mask.Length == 4 && mask != buf && src + headSize + n <= buf.Length
      requires data == buf[src..src + headSize + n] && h.size == headSize >= 4 && n < h.length
      requires ReadHead(true, data) == Some(h)
      modifies mask, buf
      ensures mask[..] == Rotated(Key(data, h), n)
      ensures buf[src..src + n] == PayloadOf(true, data, h)
    {
      hide Unmask, Rotated, ReadHead, PayloadOf;
      PartialPayload(true, data, h);
      SubSlice(buf[..], src, headSize + n, headSize - 4, headSize);
      SubSlice(buf[..], src, headSize + n, headSize, headSize + n);
      ghost var body, key := buf[src + headSize..src + headSize + n], buf[src + headSize - 4..src + headSize];
      assert key == Key(data, h) && PayloadOf(true, data, h) == Unmask(body, key, 0);
      forall k | 0 <= k < 4 {
        mask[k] := buf[src + headSize - 4 + k];
      }
      assert mask[..] == key && buf[src + headSize..src + headSize + n] == body;
      UnmaskPrecise(buf, src, src + headSize, mask, n);
      NextMask(Key(data, h), n);
      RotateMask(4 - n % 4, mask);
    }

    /** The unmasking of the last bytes of a payload: groups of four, then what remains. */
    method UnmaskLast(buf: array<byte>, src: nat, count: nat)
      requires mask.Length == 4 && mask != buf && src + count <= buf.Length
      modifies buf
      ensures buf[src..src + count] == Unmask(old(buf[src..src + count]), mask[..], 0)
      ensures buf[..src] == old(buf[..src]) && buf[src + count..] == old(buf[src + count..])
    {
      hide XorByte, Unmask, UnmaskedUpTo;
      ghost var was, key := buf[..], mask[..];
      NoGroups(was, src, src, key);
      var n := count / 4;
      UnmaskInplace(buf, src, src + n * 4, mask);
      NextGroup(was, was, buf[..], src, src, key, 0, n * 4, 0);
      ghost var before := buf[..];
      UnmaskTail(buf, src + n * 4, src + n * 4, mask, count % 4);
      NextGroup(was, before, buf[..], src, src, key, n * 4, count, n);
      AllGroups(buf[..], was, src, src, key, count);
    }

    // -------------------------------------------------------------- frames

    /** The branch of consumeMessage for a frame that is there completely. */
    method ConsumeWhole(payLength: nat, headSize: nat, buf: array<byte>, src: nat, length: nat, fin: bool,
            user: Assembler, ghost h: Head)
      returns (ok: bool)
      requires Owns(user) && MayRead(user, buf, src, length) && 0 <= opStack < |opCode| && spillLength == 0
      requires ReadHead(isServer, buf[src..src + length]) == Some(h) && h.size == headSize && h.length == payLength
      requires headSize + payLength <= length
      modifies this`opStack, this`spillLength, buf, user, user.curMessage
      ensures Owns(user) && fresh(user.Footprint() - old(user.Footprint()))
      ensures var q := old(State(user));
        var u := AddFragment(q.user, PayloadOf(isServer, old(buf[src..src + length]), h), 0, q.opCodes[q.opStack], fin);
        && ok == u.1
        && State(user) == if ok then q.(user := u.0, opStack := if fin then q.opStack - 1 else q.opStack)
                          else q.(user := u.0)
      ensures buf[src + headSize + payLength..] == old(buf[src + headSize + payLength..])
    {
      hide ReadHead, PayloadOf, AddFragment;
      var start := UnmaskWhole(buf, src, headSize, payLength, buf[src..src + length], h);
      ok := user.HandleFragment(buf, start, payLength, 0, opCode[opStack], fin);
      if ok {
        if fin {
          opStack := opStack - 1;
        }
        spillLength := 0;
      }
    }

    /** The branch of consumeMessage for a frame that is cut off. */
    method ConsumePart(payLength: nat, headSize: nat, buf: array<byte>, src: nat, length: nat, fin: bool,
            user: Assembler, ghost h: Head)
      requires Owns(user) && MayRead(user, buf, src, length) && 0 <= opStack < |opCode| && spillLength == 0
      requires ReadHead(isServer, buf[src..src + length]) == Some(h) && h.size == headSize
      requires payLength == IntLength(h) && length < headSize + payLength
      modifies this`spillLength, this`readMessage, this`remainingBytes, mask, buf, user, user.curMessage
      ensures Owns(user) && fresh(user.Footprint() - old(user.Footprint()))
      ensures var q, data := old(State(user)), old(buf[src..src + length]);
        var n := length - headSize;
        State(user) == q.(readMessage := true, remaining := payLength - n,
          mask := if isServer then Rotated(Key(data, h), n) else q.mask,
          user := AddFragment(q.user, PayloadOf(isServer, data, h), payLength - n, q.opCodes[q.opStack], fin).0)
    {
      hide ReadHead, PayloadOf, AddFragment, Rotated, Key;
      var n := length - headSize;
      spillLength, readMessage := 0, true;
      remainingBytes := payLength + headSize - length;
      var start := UnmaskStart(buf, src, headSize, n, buf[src..src + length], h);
      var ok := user.HandleFragment(buf, start, n, remainingBytes, opCode[opStack], fin);
    }

    /** The start of consumeMessage: pushes the opcode; ok is false where the source closes the connection. */
    method OpenFrame(op: nat, fin: bool, user: Assembler) returns (ok: bool)
      requires Valid(user) && !readMessage
      modifies this`opStack, this`lastFin, this`opCode, user
      ensures Valid(user) && user.curMessage == old(user.curMessage) && (ok ==> opStack >= 0)
      ensures var q := Opened(old(State(user)), op, fin);
        ok == q.Some? && State(user) == if ok then q.value else Forced(old(State(user)))
    {
      if op != 0 {
        if opStack == 1 || (!lastFin && op < 2) {
          user.ProtocolError();
          return false;
        }
        opStack := opStack + 1;
        opCode := opCode[opStack := op];
      } else if opStack == -1 {
        user.ProtocolError();
        return false;
      }
      lastFin := fin;
      ok := true;
    }

    /** consumeMessage, once the opcode is pushed. */
    method ConsumeOpened(payLength: nat, headSize: nat, buf: array<byte>, src: nat, length: nat, fin: bool,
            user: Assembler, ghost h: Head)
      returns (stop: bool)
      requires Valid(user) && !readMessage && spillLength == 0 && opStack >= 0 && MayRead(user, buf, src, length)
      requires ReadHead(isServer, buf[src..src + length]) == Some(h) && h.size == headSize && h.length == payLength
      requires fin == IsFin(buf[src..src + length])
      modifies this`opStack, this`spillLength, this`readMessage, this`remainingBytes, this`overrun
      modifies mask, buf, user, user.curMessage
      ensures Owns(user) && fresh(user.Footprint() - old(user.Footprint()))
      ensures var r := Parsers.ConsumeOpened(isServer, old(State(user)), old(buf[src..src + length]), h);
        stop == r.Stop? && State(user) == r.p
      ensures !stop ==> headSize + payLength <= length
                        && buf[src + headSize + payLength..] == old(buf[src + headSize + payLength..])
    {
      hide ReadHead, PayloadOf, AddFragment, Rotated, Key;
      stop := true;
      var intLength := payLength % 0x1_0000_0000;
      if intLength > MAX_MESSAGE_LENGTH {
        user.ProtocolError();
      } else if intLength + headSize > length {
        ConsumePart(intLength, headSize, buf, src, length, fin, user, h);
      } else if intLength < payLength {
        overrun := true;
      } else {
        var ok := ConsumeWhole(payLength, headSize, buf, src, length, fin, user, h);
        stop := !ok;
      }
    }

    /** consumeMessage; stop is true where the rest of the buffer is not looked at. */
    method ConsumeMessage(payLength: nat, headSize: nat, buf: array<byte>, src: nat, length: nat,
            user: Assembler, ghost h: Head)
      returns (stop: bool)
      requires Valid(user) && !readMessage && spillLength == 0 && MayRead(user, buf, src, length)
      requires ReadHead(isServer, buf[src..src + length]) == Some(h) && h.size == headSize && h.length == payLength
      requires length > 0 && h.opCode == buf[src] % 16
      modifies this`opStack, this`spillLength, this`readMessage, this`remainingBytes, this`lastFin, this`opCode
      modifies this`overrun, mask, buf, user, user.curMessage
      ensures Valid(user) && fresh(user.Footprint() - old(user.Footprint()))
      ensures var r := Parsers.ConsumeMessage(isServer, old(State(user)), old(buf[src..src + length]), h);
        stop == r.Stop? && State(user) == r.p
      ensures !stop ==> headSize + payLength <= length
                        && buf[src + headSize + payLength..] == old(buf[src + headSize + payLength..])
    {
      hide ReadHead, Opened, Sound, Parsers.ConsumeOpened;
      ghost var data := buf[src..src + length];
      var fin := buf[src] / 128 == 1;
      assert data[0] == buf[src];
      stop := true;
      var ok := OpenFrame(buf[src] % 16, fin, user);
      if ok {
        stop := ConsumeOpened(payLength, headSize, buf, src, length, fin, user, h);
      }
    }

    /** The same, with what is left of the buffer. */
    method ConsumeFrame(payLength: nat, headSize: nat, buf: array<byte>, src0: nat, length0: nat,
            user: Assembler, ghost h: Head)
      returns (stop: bool, src: nat, length: nat)
      requires Valid(user) && !readMessage && spillLength == 0 && MayRead(user, buf, src0, length0)
      requires ReadHead(isServer, buf[src0..src0 + length0]) == Some(h) && h.size == headSize && h.length == payLength
      requires length0 > 0 && h.opCode == buf[src0] % 16
      modifies this`opStack, this`spillLength, this`readMessage, this`remainingBytes, this`lastFin, this`opCode
      modifies this`overrun, mask, buf, user, user.curMessage
      ensures Valid(user) && fresh(user.Footprint() - old(user.Footprint()))
      ensures var r := Parsers.ConsumeMessage(isServer, old(State(user)), old(buf[src0..src0 + length0]), h);
        && stop == r.Stop? && State(user) == r.p
        && (r.GoOn? ==> src == src0 + r.used && src + length == src0 + length0
                        && buf[src..src + length] == old(buf[src0..src0 + length0])[r.used..])
    {
      hide ReadHead, Sound, Parsers.ConsumeMessage;
      ghost var was := buf[..];
      src, length := src0, length0;
      stop := ConsumeMessage(payLength, headSize, buf, src0, length0, user, h);
      if !stop {
        src, length := src0 + payLength + headSize, length0 - (payLength + headSize);
        SameTail(was, buf[..], src0, length0, payLength + headSize);
      }
    }

    /** The branch of consumeContinuation that ends a frame. */
    method ContinueWhole(buf: array<byte>, src: nat, user: Assembler) returns (ok: bool)
      requires Valid(user) && readMessage && MayRead(user, buf, src, remainingBytes)
      modifies this`opStack, this`readMessage, buf, user, user.curMessage
      ensures Owns(user) && fresh(user.Footprint() - old(user.Footprint()))
      ensures var p := old(State(user));
        var u := AddFragment(p.user, Unmasked(isServer, p, old(buf[src..src + remainingBytes])), 0,
                             p.opCodes[p.opStack], p.lastFin);
        && ok == u.1
        && State(user) == if ok then p.(readMessage := false, user := u.0,
                                        opStack := if p.lastFin then p.opStack - 1 else p.opStack)
                          else p.(user := u.0)
      ensures buf[src + remainingBytes..] == old(buf[src + remainingBytes..])
    {
      hide AddFragment, Unmask;
      if isServer {
        UnmaskLast(buf, src, remainingBytes);
      }
      ok := user.HandleFragment(buf, src, remainingBytes, 0, opCode[opStack], lastFin);
      if ok {
        if lastFin {
          opStack := opStack - 1;
        }
        readMessage := false;
      }
    }

    /** The branch of consumeContinuation for a frame that goes on. */
    method ContinuePart(buf: array<byte>, src: nat, length: nat, user: Assembler)
      requires Valid(user) && readMessage && MayRead(user, buf, src, length) && length < remainingBytes
      modifies this`remainingBytes, mask, buf, user, user.curMessage
      ensures Owns(user) && fresh(user.Footprint() - old(user.Footprint()))
      ensures State(user) == Parsers.Continue(isServer, old(State(user)), old(buf[src..src + length]))
    {
      hide AddFragment, Unmask, Rotated, Parsers.ParseNext;
      if isServer {
        UnmaskInplace(buf, src, src + length, mask);
      }
      remainingBytes := remainingBytes - length;
      var ok := user.HandleFragment(buf, src, length, remainingBytes, opCode[opStack], lastFin);
      if ok && isServer {
        AdvanceMask(length);
      }
    }

    method AdvanceMask(length: nat)
      requires mask.Length == 4
      modifies mask
      ensures mask[..] == Rotated(old(mask[..]), length)
    {
      hide Rotated;
      NextMask(mask[..], length);
      if length % 4 != 0 {
        RotateMask(4 - length % 4, mask);
      }
    }

    /** consumeContinuation; more is true where the frame has ended and the buffer goes on. */
    method ConsumeContinuation(buf: array<byte>, src0: nat, length0: nat, user: Assembler)
      returns (more: bool, src: nat, length: nat)
      requires Valid(user) && readMessage && MayRead(user, buf, src0, length0)
      modifies this`opStack, this`readMessage, this`remainingBytes, mask, buf, user, user.curMessage
      ensures Valid(user) && fresh(user.Footprint() - old(user.Footprint()))
      ensures var q := Parsers.Continue(isServer, old(State(user)), old(buf[src0..src0 + length0]));
        if more then
          && src + length == src0 + length0 && src <= buf.Length && !readMessage && spillLength == 0
          && Parsers.ParseNext(isServer, State(user), buf[src..src + length]) == q
        else State(user) == q
    {
      hide AddFragment, Unmask, Unmasked, Rotated, Parsers.ParseNext;
      ghost var was, data := buf[..], buf[src0..src0 + length0];
      more, src, length := false, src0, length0;
      if remainingBytes <= length0 {
        assert data[..remainingBytes] == buf[src0..src0 + remainingBytes];
        more := ContinueWhole(buf, src0, user);
        if more {
          src, length := src0 + remainingBytes, length0 - remainingBytes;
          SameTail(was, buf[..], src0, length0, remainingBytes);
        }
      } else {
        ContinuePart(buf, src0, length0, user);
      }
    }

    /** The size of a header, and the length of the payload it announces; None if it is cut off. */
    method ReadHeader(buf: array<byte>, src: nat, length: nat) returns (head: Option<(nat, nat)>)
      requires src + length <= buf.Length && length >= ShortHeader(isServer)
      ensures var h := ReadHead(isServer, buf[src..src + length]);
        head == if h.None? then None else Some((h.value.size, h.value.length))
    {
      hide FromBe64;
      ghost var data := buf[src..src + length];
      assert forall k :: 0 <= k < length ==> data[k] == buf[src + k];
      assert length >= 10 ==> data[2..10] == buf[src + 2..src + 10];
      var payloadLength := buf[src + 1] % 128;
      if payloadLength < 126 {
        head := Some((ShortHeader(isServer), payloadLength));
      } else if payloadLength == 126 {
        if length < MediumHeader(isServer) {
          return None;
        }
        var a: int, b: int := buf[src + 2], buf[src + 3];
        head := Some((MediumHeader(isServer), a * 0x100 + b));
      } else {
        if length < LongHeader(isServer) {
          return None;
        }
        head := Some((LongHeader(isServer), FromBe64(buf[src + 2..src + 10])));
      }
    }

    /** The first test of the loop of _consume. */
    method RefusesStart(buf: array<byte>, src: nat, length: nat) returns (bad: bool)
      requires src + length <= buf.Length && length >= 2
      ensures bad == BadStart(buf[src..src + length])
    {
      ghost var data := buf[src..src + length];
      assert data[0] == buf[src] && data[1] == buf[src + 1];
      var op := buf[src] % 16;
      bad := buf[src] / 0x10 % 8 != 0 || 2 < op < 8 || op > 10
             || (op > 2 && (buf[src] / 128 != 1 || buf[src + 1] % 128 > MAX_CONTROL_LENGTH));
    }

    /** One round of the loop of _consume. */
    method ParseFrame(buf: array<byte>, src0: nat, length0: nat, user: Assembler)
      returns (stop: bool, left: bool, src: nat, length: nat)
      requires Valid(user) && !readMessage && spillLength == 0 && MayRead(user, buf, src0, length0)
      requires length0 >= ShortHeader(isServer)
      modifies this`opStack, this`spillLength, this`readMessage, this`remainingBytes, this`lastFin, this`opCode
      modifies this`overrun, mask, buf, user, user.curMessage
      ensures Valid(user) && fresh(user.Footprint() - old(user.Footprint()))
      ensures var r := ParseOne(isServer, old(State(user)), old(buf[src0..src0 + length0]));
        && left == r.Left? && stop == !r.GoOn?
        && (left ==> State(user) == old(State(user)) && buf[..] == old(buf[..]) && src == src0 && length == length0)
        && (!left ==> State(user) == r.p)
        && (!stop ==> src == src0 + r.used && src + length == src0 + length0
                      && buf[src..src + length] == old(buf[src0..src0 + length0])[r.used..])
    {
      hide ReadHead, Parsers.ConsumeMessage, BadStart;
      ghost var data := buf[src0..src0 + length0];
      assert data[0] == buf[src0];
      stop, left, src, length := true, false, src0, length0;
      var bad := RefusesStart(buf, src0, length0);
      if bad {
        user.ProtocolError();
        return;
      }
      var head := ReadHeader(buf, src0, length0);
      if head.None? {
        left := true;
        return;
      }
      Streams.HeadCode(isServer, data);
      stop, src, length := ConsumeFrame(head.value.1, head.value.0, buf, src0, length0, user,
                                        ReadHead(isServer, data).value);
    }

    /** parseNext: the loop of _consume, and the spilling of the unread bytes of a header. */
    method ParseNext(buf: array<byte>, src0: nat, length0: nat, user: Assembler)
      requires Valid(user) && !readMessage && spillLength == 0 && MayRead(user, buf, src0, length0)
      modifies this`opStack, this`spillLength, this`readMessage, this`remainingBytes, this`lastFin, this`opCode
      modifies this`overrun, mask, spill, buf, user, user.curMessage
      ensures Valid(user) && fresh(user.Footprint() - old(user.Footprint()))
      ensures State(user) == Parsers.ParseNext(isServer, old(State(user)), old(buf[src0..src0 + length0]))
    {
      hide ReadHead, ParseOne;
      var src: nat, length: nat := src0, length0;
      ghost var goal := Parsers.ParseNext(isServer, State(user), buf[src..src + length]);
      while length >= ShortHeader(isServer)
        invariant Valid(user) && !readMessage && spillLength == 0 && MayRead(user, buf, src, length)
        invariant Parsers.ParseNext(isServer, State(user), buf[src..src + length]) == goal
        invariant fresh(user.Footprint() - old(user.Footprint()))
      {
        var stop, left;
        stop, left, src, length := ParseFrame(buf, src, length, user);
        if left {
          Spill(buf, src, length, user);
          return;
        }
        if stop {
          return;
        }
      }
      TooShort(isServer, State(user), buf[src..src + length]);
      Spill(buf, src, length, user);
    }

    /** Keeps the bytes of a header that is cut off. */
    method Spill(buf: array<byte>, src: nat, length: nat, user: Assembler)
      requires Valid(user) && !readMessage && spillLength == 0 && MayRead(user, buf, src, length)
      requires length < LongHeader(isServer)
      modifies this`spillLength, spill
      ensures Valid(user) && State(user) == old(State(user)).(spill := buf[src..src + length])
    {
      forall i | 0 <= i < length {
        spill[i] := buf[src + i];
      }
      spillLength := length;
      assert spill[..length] == buf[src..src + length];
    }

    /** _consume */
    method ConsumeBuffer(buf: array<byte>, src: nat, length: nat, user: Assembler)
      requires Valid(user) && spillLength == 0 && MayRead(user, buf, src, length)
      modifies this`opStack, this`spillLength, this`readMessage, this`remainingBytes, this`lastFin, this`opCode
      modifies this`overrun, mask, spill, buf, user, user.curMessage
      ensures Valid(user) && fresh(user.Footprint() - old(user.Footprint()))
      ensures State(user) == Parsers.ConsumeBuffer(isServer, old(State(user)), old(buf[src..src + length]))
    {
      hide Parsers.ParseNext, Parsers.Continue;
      if readMessage {
        var more, src1, length1 := ConsumeContinuation(buf, src, length, user);
        if more {
          ParseNext(buf, src1, length1, user);
        }
      } else {
        ParseNext(buf, src, length, user);
      }
    }

    /** consume: whatever the bytes. */
    method Consume(buf: array<byte>, src0: nat, length0: nat, user: Assembler)
      requires Valid(user) && MayRead(user, buf, src0, length0)
      modifies this`opStack, this`spillLength, this`readMessage, this`remainingBytes, this`lastFin, this`opCode
      modifies this`overrun, mask, spill, buf, user, user.curMessage
      ensures Valid(user) && fresh(user.Footprint() - old(user.Footprint()))
      ensures State(user) == Parsers.Consume(isServer, old(State(user)), old(buf[src0..src0 + length0]))
    {
      hide Parsers.Consume, Parsers.ConsumeBuffer, Sound;
      var src: nat, length: nat := src0, length0;
      ghost var goal := Parsers.Consume(isServer, State(user), buf[src..src + length]);
      while spillLength > 0
        invariant Valid(user) && MayRead(user, buf, src, length) && src + length == src0 + length0
        invariant Parsers.Consume(isServer, State(user), buf[src..src + length]) == goal
        invariant fresh(user.Footprint() - old(user.Footprint()))
        decreases length, spillLength
      {
        var used := ConsumeJoined(buf, src, length, user);
        src, length := src + used, length - used;
        if length == 0 {
          return;
        }
      }
      NoSpill(isServer, State(user), buf[src..src + length]);
      ConsumeBuffer(buf, src, length, user);
    }

    method ConsumeChunk(chunk: seq<byte>, user: Assembler)
      requires Valid(user)
      modifies this`opStack, this`spillLength, this`readMessage, this`remainingBytes, this`lastFin, this`opCode
      modifies this`overrun, mask, spill, user, user.curMessage
      ensures Valid(user) && fresh(user.Footprint() - old(user.Footprint()))
      ensures State(user) == Parsers.Consume(isServer, old(State(user)), chunk)
    {
      hide Parsers.Consume, Sound;
      var buf := new byte[|chunk|](k requires 0 <= k < |chunk| => chunk[k]);
      assert buf[0..buf.Length] == chunk;
      Consume(buf, 0, buf.Length, user);
    }

    /** consume, called on one chunk after the other: whatever the bytes. */
    method ConsumeAll(chunks: seq<seq<byte>>, user: Assembler)
      requires Valid(user)
      modifies this`opStack, this`spillLength, this`readMessage, this`remainingBytes, this`lastFin, this`opCode
      modifies this`overrun, mask, spill, user, user.curMessage
      ensures Valid(user) && fresh(user.Footprint() - old(user.Footprint()))
      ensures State(user) == Parsers.ConsumeAll(isServer, old(State(user)), chunks)
      decreases |chunks|
    {
      hide Parsers.Consume, Sound;
      if chunks != [] {
        ConsumeChunk(chunks[0], user);
        ConsumeAll(chunks[1..], user);
      }
    }

    /** Any list of messages, any masks, any chunks: a parser between two frames that is called on every
        chunk of what formatMessage writes hands on exactly that list, if at most its last message is
        refused; see RoundTripIff for the other lists. */
    method ConsumeWire(ms: seq<(Message, seq<byte>)>, chunks: seq<seq<byte>>, user: Assembler)
      requires Valid(user) && spillLength == 0 && Streams.Idle(State(user))
      requires Streams.AllSendable(ms) && Concat(chunks) == Wire(isServer, ms)
      modifies this`opStack, this`spillLength, this`readMessage, this`remainingBytes, this`lastFin, this`opCode
      modifies this`overrun, mask, spill, user, user.curMessage
      ensures Valid(user)
      ensures State(user) == Parsers.ConsumeAll(isServer, old(State(user)), chunks)
      ensures ms == [] || TakeAll(old(user.Model()), Streams.Listed(ms)[..|ms| - 1]).Some? ==>
                user.log == old(user.log) + Streams.Listed(ms)
    {
      hide TakeAll, Wire, Sendable, Parsers.ConsumeAll, Sound, Until;
      ghost var p := State(user);
      if ms == [] || TakeAll(p.user.inbox, Streams.Listed(ms)[..|ms| - 1]).Some? {
        Streams.WireInChunks(isServer, p, ms, chunks);
      }
      ConsumeAll(chunks, user);
    }

    method JoinSpill(buf: array<byte>, src: nat, used: nat) returns (joined: array<byte>)
      requires spillLength <= spill.Length && src + used <= buf.Length && spillLength + used <= LongHeader(isServer)
      ensures fresh(joined) && joined.Length == LongHeader(isServer)
      ensures joined[0..spillLength + used] == spill[..spillLength] + buf[src..src + used]
    {
      joined := new byte[LongHeader(isServer)];
      forall i | 0 <= i < spillLength {
        joined[i] := spill[i];
      }
      forall i | 0 <= i < used {
        joined[spillLength + i] := buf[src + i];
      }
    }

    /** Joins the spilled bytes with as many new ones as a header can have, and consumes those. */
    method ConsumeSpill(buf: array<byte>, src: nat, length: nat, user: Assembler) returns (used: nat)
      requires Valid(user) && spillLength > 0 && MayRead(user, buf, src, length)
      modifies this`opStack, this`spillLength, this`readMessage, this`remainingBytes, this`lastFin, this`opCode
      modifies this`overrun, mask, spill, user, user.curMessage
      ensures Valid(user) && fresh(user.Footprint() - old(user.Footprint()))
      ensures var p, s := old(State(user)), buf[src..src + length];
        && used == JoinSize(isServer, p, s)
        && State(user) == Parsers.ConsumeBuffer(isServer, p.(spill := []), p.spill + s[..used])
    {
      hide Parsers.ConsumeBuffer;
      var bufLen := Min(spillLength + length, LongHeader(isServer));
      used := bufLen - spillLength;
      assert buf[src..src + length][..used] == buf[src..src + used];
      var joined := JoinSpill(buf, src, used);
      spillLength := 0;
      ConsumeBuffer(joined, 0, bufLen, user);
    }

    /** One round of the loop of consume. */
    method ConsumeJoined(buf: array<byte>, src: nat, length: nat, user: Assembler) returns (used: nat)
      requires Valid(user) && spillLength > 0 && MayRead(user, buf, src, length)
      modifies this`opStack, this`spillLength, this`readMessage, this`remainingBytes, this`lastFin, this`opCode
      modifies this`overrun, mask, spill, user, user.curMessage
      ensures Valid(user) && fresh(user.Footprint() - old(user.Footprint()))
      ensures used <= length && (length > 0 ==> used > 0)
      ensures Parsers.Consume(isServer, old(State(user)), buf[src..src + length])
           == if used == length then State(user)
              else Parsers.Consume(isServer, State(user), buf[src + used..src + length])
    {
      hide Parsers.Consume, Parsers.ConsumeBuffer, Sound, JoinSize;
      ghost var s := buf[src..src + length];
      Joined(isServer, State(user), s);
      used := ConsumeSpill(buf, src, length, user);
      assert s[used..] == buf[src + used..src + length];
    }
  }

  lemma NoSpill(server: bool, p: Parser, s: seq<byte>)
    requires Sound(server, p) && p.spill == []
    ensures Parsers.Consume(server, p, s) == Parsers.ConsumeBuffer(server, p, s)
  {
  }

  /** The first call of _consume, on the spilled bytes and as many new ones as a header can have. */
  lemma Joined(server: bool, p: Parser, s: seq<byte>)
    requires Sound(server, p) && p.spill != []
    ensures Sound(server, p.(spill := []))
    ensures var n := JoinSize(server, p, s);
      var q := Parsers.ConsumeBuffer(server, p.(spill := []), p.spill + s[..n]);
      Parsers.Consume(server, p, s) == if n == |s| then q else Parsers.Consume(server, q, s[n..])
  {
    hide Parsers.ConsumeBuffer;
  }

  /** What follows the bytes that have been unmasked. */
  lemma SameTail(was: seq<byte>, s: seq<byte>, src: nat, length: nat, used: nat)
    requires |s| == |was| && used <= length && src + length <= |s| && s[src + used..] == was[src + used..]
    ensures s[src + used..src + length] == was[src..src + length][used..]
  {
    assert s[src + used..src + length] == s[src + used..][..length - used];
    assert was[src..src + length][used..] == was[src + used..][..length - used];
  }

  lemma TooShort(server: bool, p: Parser, s: seq<byte>)
    requires Sound(server, p) && !p.readMessage && p.spill == [] && |s| < ShortHeader(server)
    ensures ParseOne(server, p, s).Left?
  {
  }

  lemma PartialPayload(masked: bool, data: seq<byte>, h: Head)
    requires ReadHead(masked, data) == Some(h) && |data| < h.Total()
    ensures PayloadOf(masked, data, h)
         == if masked then Unmask(data[h.size..|data|], data[h.size - 4..h.size], 0) else data[h.size..|data|]
    ensures masked ==> Key(data, h) == data[h.size - 4..h.size]
  {
    hide ReadHead, Unmask;
  }

  lemma WholePayloadIs(masked: bool, data: seq<byte>, h: Head)
    requires ReadHead(masked, data) == Some(h) && h.Total() <= |data|
    ensures PayloadOf(masked, data, h)
         == if masked then Unmask(data[h.size..h.Total()], data[h.size - 4..h.size], 0) else data[h.size..h.Total()]
  {
    hide ReadHead, Unmask;
  }

  lemma SubSlice(s: seq<byte>, start: nat, length: nat, i: nat, j: nat)
    requires start + length <= |s| && i <= j <= length
    ensures s[start..start + length][i..j] == s[start + i..start + j]
  {
    var a, b := s[start..start + length][i..j], s[start + i..start + j];
    assert forall k :: 0 <= k < j - i ==> a[k] == s[start..start + length][i + k] == b[k];
  }

  /** Rotating by 4 - n % 4 makes a mask go on behind n bytes. */
  lemma NextMask(key: seq<byte>, n: nat)
    requires |key| == 4
    ensures Rotated(key, 4 - (4 - n % 4) % 4) == Rotated(key, n)
    ensures n % 4 == 0 ==> Rotated(key, n) == key
  {
    assert n % 4 in {0, 1, 2, 3};
  }
}
