/** The frames of a WebSocket stream (section 5 of RFC 6455): how formatMessage writes them, and what
    a whole stream of them means. */
module WebSocketFrames {
  import opened Bytes

  const TEXT := 1
  const BINARY := 2
  const CLOSE := 8
  const PING := 9
  const PONG := 10
  const MAX_MESSAGE_LENGTH := 0x10_0000
  const MAX_CONTROL_LENGTH := 125

  datatype Message = Message(opCode: nat, payload: seq<byte>)

  predicate IsControl(opCode: nat) {
    opCode >= 8
  }

  // ---------------------------------------------------------------- masking

  /** Section 5.3 of RFC 6455, from octet offset of the payload on. */
  function Unmask(data: seq<byte>, mask: seq<byte>, offset: nat): (r: seq<byte>)
    requires |mask| == 4
    ensures |r| == |data|
  {
    seq(|data|, i requires 0 <= i < |data| => XorByte(data[i], mask[(i + offset) % 4]))
  }

  lemma UnmaskTwice(data: seq<byte>, mask: seq<byte>)
    requires |mask| == 4
    ensures Unmask(Unmask(data, mask, 0), mask, 0) == data
  {
    hide XorByte;
    forall i | 0 <= i < |data| ensures Unmask(Unmask(data, mask, 0), mask, 0)[i] == data[i] {
      XorByteInvolutive(data[i], mask[i % 4]);
    }
  }

  lemma UnmaskAppend(a: seq<byte>, b: seq<byte>, mask: seq<byte>, offset: nat)
    requires |mask| == 4
    ensures Unmask(a + b, mask, offset) == Unmask(a, mask, offset) + Unmask(b, mask, offset + |a|)
  {
    hide XorByte;
  }

  // ---------------------------------------------------------------- headers

  function Be16(n: nat): seq<byte>
    requires n < 0x1_0000
  {
    [n / 0x100, n % 0x100]
  }

  function Be64(n: nat): (s: seq<byte>)
    requires n < UINT64_LIMIT
    ensures |s| == 8
  {
    Enc32(n / 0x1_0000_0000) + Enc32(n % 0x1_0000_0000)
  }

  function FromBe64(s: seq<byte>): nat
    requires |s| == 8
  {
    var high: int, low: int := Dec32(s[..4]), Dec32(s[4..]);
    high * 0x1_0000_0000 + low
  }

  lemma Be64RoundTrip(n: nat)
    requires n < UINT64_LIMIT
    ensures FromBe64(Be64(n)) == n
  {
    Dec32Enc32(n / 0x1_0000_0000);
    Dec32Enc32(n % 0x1_0000_0000);
    assert Be64(n)[..4] == Enc32(n / 0x1_0000_0000) && Be64(n)[4..] == Enc32(n % 0x1_0000_0000);
  }

  /** The header of a frame: its size, mask included, and the length of the payload. */
  datatype Head = Head(opCode: nat, size: nat, length: nat) {
    function Total(): nat { size + length }
  }

  /** The size of the header that starts with these two octets. */
  function HeadSize(masked: bool, s: seq<byte>): (n: nat)
    requires |s| >= 2
    ensures 2 <= n <= LongHeader(masked)
  {
    (if s[1] % 128 < 126 then 2 else if s[1] % 128 == 126 then 4 else 10) + if masked then 4 else 0
  }

  function ShortHeader(masked: bool): nat { if masked then 6 else 2 }
  function MediumHeader(masked: bool): nat { if masked then 8 else 4 }
  function LongHeader(masked: bool): nat { if masked then 14 else 10 }

  /** The header at the start of s, if s holds all of it. */
  function ReadHead(masked: bool, s: seq<byte>): (h: Option<Head>)
    ensures h.Some? ==> 2 <= h.value.size <= |s| && (masked ==> h.value.size >= 6)
  {
    if |s| < 2 || |s| < HeadSize(masked, s) then None
    else
      var n: int := s[1] % 128;
      var length := if n < 126 then n
                    else if n == 126 then (var a: int, b: int := s[2], s[3]; a * 0x100 + b)
                    else FromBe64(s[2..10]);
      Some(Head(s[0] % 16, HeadSize(masked, s), length))
  }

  /** The masking key of a frame. */
  function Key(s: seq<byte>, h: Head): (key: seq<byte>)
    requires 4 <= h.size <= |s|
    ensures |key| == 4
  {
    s[h.size - 4..h.size]
  }

  /** The part of the payload that s holds. */
  function PayloadOf(masked: bool, s: seq<byte>, h: Head): seq<byte>
    requires ReadHead(masked, s) == Some(h)
  {
    var data := s[h.size..Min(|s|, h.Total())];
    if masked then Unmask(data, Key(s, h), 0) else data
  }

  // ---------------------------------------------------------------- a whole stream

  /** The first two octets of a frame that formatMessage can have written: one whole message, no
      reserved bits, a known opcode, and a short payload if it is a control frame. */
  predicate GoodStart(s: seq<byte>) {
    |s| >= 2 ==>
      && s[0] / 0x10 == 8 && s[0] % 16 in {TEXT, BINARY, CLOSE, PING, PONG}
      && (IsControl(s[0] % 16) ==> s[1] % 128 <= MAX_CONTROL_LENGTH)
  }

  /** A stream of such frames, the last one perhaps cut off. */
  predicate WellFramed(masked: bool, s: seq<byte>)
    decreases |s|
  {
    && GoodStart(s)
    && match ReadHead(masked, s)
       case None => true
       case Some(h) => h.length <= MAX_MESSAGE_LENGTH && (|s| < h.Total() || WellFramed(masked, s[h.Total()..]))
  }

  /** The messages that are complete in s. */
  function Messages(masked: bool, s: seq<byte>): seq<Message>
    decreases |s|
  {
    match ReadHead(masked, s)
    case None => []
    case Some(h) =>
      if |s| < h.Total() then []
      else [Message(h.opCode, PayloadOf(masked, s, h))] + Messages(masked, s[h.Total()..])
  }

  /** What follows them. */
  function Rest(masked: bool, s: seq<byte>): seq<byte>
    decreases |s|
  {
    match ReadHead(masked, s)
    case None => s
    case Some(h) => if |s| < h.Total() then s else Rest(masked, s[h.Total()..])
  }

  // ---------------------------------------------------------------- cutting a stream

  lemma HeadPrefix(masked: bool, a: seq<byte>, b: seq<byte>)
    ensures ReadHead(masked, a).Some? ==> ReadHead(masked, a + b) == ReadHead(masked, a)
    ensures |a| >= 2 ==> HeadSize(masked, a + b) == HeadSize(masked, a) && (GoodStart(a + b) ==> GoodStart(a))
    ensures |a| < 2 ==> GoodStart(a)
  {
    assert |a| >= 10 ==> (a + b)[2..10] == a[2..10];
  }

  lemma PayloadPrefix(masked: bool, a: seq<byte>, b: seq<byte>, h: Head)
    requires ReadHead(masked, a) == Some(h) && h.Total() <= |a|
    ensures ReadHead(masked, a + b) == Some(h) && PayloadOf(masked, a + b, h) == PayloadOf(masked, a, h)
  {
    hide ReadHead;
    HeadPrefix(masked, a, b);
    assert (a + b)[h.size..h.Total()] == a[h.size..h.Total()];
    assert masked ==> (a + b)[h.size - 4..h.size] == a[h.size - 4..h.size];
  }

  /** Wherever a stream is cut, its two parts have the messages of the whole, and no others. */
  lemma {:induction false} StreamAppend(masked: bool, a: seq<byte>, b: seq<byte>)
    requires WellFramed(masked, a + b)
    ensures WellFramed(masked, a) && WellFramed(masked, Rest(masked, a) + b)
    ensures Messages(masked, a + b) == Messages(masked, a) + Messages(masked, Rest(masked, a) + b)
    ensures Rest(masked, a + b) == Rest(masked, Rest(masked, a) + b)
    decreases |a|
  {
    hide ReadHead, PayloadOf, GoodStart;
    HeadPrefix(masked, a, b);
    var head := ReadHead(masked, a);
    if head.Some? && head.value.Total() <= |a| {
      var h := head.value;
      PayloadPrefix(masked, a, b, h);
      assert (a + b)[h.Total()..] == a[h.Total()..] + b;
      StreamAppend(masked, a[h.Total()..], b);
    }
  }

  /** What is left over is the beginning of one frame. */
  lemma {:induction false} RestIsPartial(masked: bool, s: seq<byte>)
    requires WellFramed(masked, s)
    ensures var r := Rest(masked, s);
      && WellFramed(masked, r) && Messages(masked, r) == [] && Rest(masked, r) == r
      && (ReadHead(masked, r).Some? ==> |r| < ReadHead(masked, r).value.Total())
    decreases |s|
  {
    hide ReadHead, GoodStart;
    var head := ReadHead(masked, s);
    if head.Some? && head.value.Total() <= |s| {
      RestIsPartial(masked, s[head.value.Total()..]);
    }
  }

  function Concat(chunks: seq<seq<byte>>): seq<byte> {
    if chunks == [] then [] else chunks[0] + Concat(chunks[1..])
  }

  /** The messages that come out of a stream that arrives in chunks, rest being left over before. */
  function Arriving(masked: bool, rest: seq<byte>, chunks: seq<seq<byte>>): seq<Message>
    decreases |chunks|
  {
    if chunks == [] then []
    else Messages(masked, rest + chunks[0]) + Arriving(masked, Rest(masked, rest + chunks[0]), chunks[1..])
  }

  /** However a stream is chunked, the same messages come out. */
  lemma {:induction false} ChunkingIndependence(masked: bool, rest: seq<byte>, chunks: seq<seq<byte>>)
    requires WellFramed(masked, rest + Concat(chunks)) && Messages(masked, rest) == []
    ensures Arriving(masked, rest, chunks) == Messages(masked, rest + Concat(chunks))
    decreases |chunks|
  {
    hide Messages, Rest, WellFramed;
    if chunks == [] {
      assert rest + Concat(chunks) == rest;
    } else {
      var a, b := rest + chunks[0], Concat(chunks[1..]);
      assert rest + Concat(chunks) == a + b;
      StreamAppend(masked, a, b);
      RestIsPartial(masked, a);
      ChunkingIndependence(masked, Rest(masked, a), chunks[1..]);
    }
  }

  // ---------------------------------------------------------------- formatting

  predicate Sendable(m: Message) {
    && m.opCode in {TEXT, BINARY, CLOSE, PING, PONG}
    && |m.payload| <= if IsControl(m.opCode) then MAX_CONTROL_LENGTH else MAX_MESSAGE_LENGTH
  }

  /** The octets that carry the length of the payload. */
  function LengthField(n: nat, bit: nat): seq<byte>
    requires n < UINT64_LIMIT && bit in {0, 128}
  {
    if n < 126 then [n + bit] else if n < 0x1_0000 then [126 + bit] + Be16(n) else [127 + bit] + Be64(n)
  }

  /** The header of a message; a client sets the mask bit and appends the key. */
  function FormatHead(masked: bool, m: Message, key: seq<byte>): seq<byte>
    requires m.opCode < 16 && |m.payload| < UINT64_LIMIT
  {
    var n, bit := |m.payload|, if masked then 128 else 0;
    [128 + m.opCode] + LengthField(n, bit) + if masked then key else []
  }

  function Format(masked: bool, m: Message, key: seq<byte>): seq<byte>
    requires m.opCode < 16 && |m.payload| < UINT64_LIMIT && |key| == 4
  {
    FormatHead(masked, m, key) + if masked then Unmask(m.payload, key, 0) else m.payload
  }

  lemma LengthFieldReads(first: byte, n: nat, bit: nat, after: seq<byte>)
    requires n < UINT64_LIMIT && bit in {0, 128}
    requires |after| >= if bit == 0 then 0 else 4
    ensures var field := LengthField(n, bit);
      var masked := bit == 128;
      var s := [first] + (field + after);
      && s[0] == first && (n < 126 ==> s[1] % 128 == n)
      && ReadHead(masked, s) == Some(Head(first % 16, 1 + |field| + if masked then 4 else 0, n))
  {
    hide FromBe64, Be64;
    var field := LengthField(n, bit);
    var s := [first] + (field + after);
    assert s[1] == field[0];
    if n >= 0x1_0000 {
      assert s[2..10] == field[1..9] == Be64(n);
      Be64RoundTrip(n);
    } else if n >= 126 {
      assert s[2] == field[1] && s[3] == field[2];
    }
  }

  lemma FormatHeadReads(masked: bool, m: Message, key: seq<byte>, rest: seq<byte>)
    requires m.opCode < 16 && |m.payload| < UINT64_LIMIT && |key| == 4
    ensures var f := FormatHead(masked, m, key);
      && ReadHead(masked, f + rest) == Some(Head(m.opCode, |f|, |m.payload|))
      && (f + rest)[0] == 128 + m.opCode
      && (|m.payload| < 126 ==> (f + rest)[1] % 128 == |m.payload|)
      && (masked ==> |f| >= 6 && (f + rest)[|f| - 4..|f|] == key)
  {
    hide ReadHead, Be64;
    var n, bit := |m.payload|, if masked then 128 else 0;
    var f, field := FormatHead(masked, m, key), LengthField(n, bit);
    var after := if masked then key + rest else rest;
    assert f + rest == [128 + m.opCode] + (field + after);
    LengthFieldReads(128 + m.opCode, n, bit, after);
    assert masked ==> (f + rest)[|f| - 4..|f|] == f[|f| - 4..] == key;
  }

  /** A formatted message followed by anything reads back as that message. */
  lemma FormatReads(masked: bool, m: Message, key: seq<byte>, rest: seq<byte>)
    requires Sendable(m) && |key| == 4
    ensures var s := Format(masked, m, key) + rest;
      && Messages(masked, s) == [m] + Messages(masked, rest) && Rest(masked, s) == Rest(masked, rest)
      && (WellFramed(masked, rest) ==> WellFramed(masked, s))
  {
    hide ReadHead, FormatHead, Unmask;
    var f := FormatHead(masked, m, key);
    var data := if masked then Unmask(m.payload, key, 0) else m.payload;
    var s := Format(masked, m, key) + rest;
    assert s == f + (data + rest);
    FormatHeadReads(masked, m, key, data + rest);
    var h := Head(m.opCode, |f|, |m.payload|);
    assert s[h.size..h.Total()] == data && s[h.Total()..] == rest;
    UnmaskTwice(m.payload, key);
    assert PayloadOf(masked, s, h) == m.payload;
  }

  /** The buffer that sendOp makes, ten bytes longer than the message, has room for the frame except for
      long messages of a client. */
  lemma FrameFits(masked: bool, m: Message, key: seq<byte>)
    requires m.opCode < 16 && |m.payload| < UINT64_LIMIT && |key| == 4
    ensures |Format(masked, m, key)| <= |m.payload| + 10 <==> !masked || |m.payload| < 0x1_0000
  {
    hide Unmask, Be64;
  }

  lemma FrameRoom(masked: bool, m: Message, key: seq<byte>)
    requires m.opCode < 16 && |m.payload| < UINT64_LIMIT && |key| == 4
    ensures |Format(masked, m, key)| <= |m.payload| + 14
  {
    hide Unmask, Be64;
  }

  // ---------------------------------------------------------------- octet by octet

  /** The second octet of a header and those behind it carry the mask bit and the length n of the payload
      (section 5.2 of RFC 6455): below 126 itself; below 65536 as 126 and two octets; else as 127 and
      eight octets, the highest first. */
  predicate CarriesLength(s: seq<byte>, masked: bool, n: nat) {
    && |s| >= 2 && (s[1] >= 128 <==> masked)
    && if n < 126 then s[1] % 128 == n
       else if n < 65536 then s[1] % 128 == 126 && |s| >= 4 && (var a: int, b: int := s[2], s[3]; a * 256 + b == n)
       else s[1] % 128 == 127 && |s| >= 10 && Big32(s, 2) * 0x1_0000_0000 + Big32(s, 6) == n
  }

  /** The octets of a formatted message: the final fragment of its opcode, without reserved bits; the length;
      a client's masking key; and the payload, every fourth octet from i on masked with octet i of the key. */
  lemma FormatOctets(masked: bool, m: Message, key: seq<byte>)
    requires m.opCode < 16 && |m.payload| < UINT64_LIMIT && |key| == 4
    ensures var s, n := Format(masked, m, key), |m.payload|;
      var h := (if n < 126 then 2 else if n < 65536 then 4 else 10) + if masked then 4 else 0;
      && |s| == h + n && s[0] == 0x80 + m.opCode && CarriesLength(s, masked, n)
      && (masked ==> s[h - 4..h] == key)
      && forall i :: 0 <= i < n ==> s[h + i] == if masked then XorByte(m.payload[i], key[i % 4]) else m.payload[i]
  {
    hide XorByte, CarriesLength, FormatHead;
    var s, f := Format(masked, m, key), FormatHead(masked, m, key);
    var data := if masked then Unmask(m.payload, key, 0) else m.payload;
    HeadCarries(masked, m, key, data);
    assert forall k :: 0 <= k < |f| ==> s[k] == f[k];
    assert forall i :: 0 <= i < |data| ==> s[|f| + i] == data[i];
  }

  lemma HeadCarries(masked: bool, m: Message, key: seq<byte>, data: seq<byte>)
    requires m.opCode < 16 && |m.payload| < UINT64_LIMIT && |key| == 4
    ensures var f, n := FormatHead(masked, m, key), |m.payload|;
      && |f| == (if n < 126 then 2 else if n < 65536 then 4 else 10) + (if masked then 4 else 0)
      && f[0] == 0x80 + m.opCode && CarriesLength(f + data, masked, n) && (masked ==> f[|f| - 4..] == key)
  {
    hide LengthField, CarriesLength;
    var n, bit := |m.payload|, if masked then 128 else 0;
    var after := (if masked then key else []) + data;
    FieldCarries([128 + m.opCode], n, bit, after);
    assert FormatHead(masked, m, key) + data == [128 + m.opCode] + LengthField(n, bit) + after;
  }

  lemma FieldCarries(first: seq<byte>, n: nat, bit: nat, after: seq<byte>)
    requires |first| == 1 && n < UINT64_LIMIT && bit in {0, 128}
    ensures |LengthField(n, bit)| == if n < 126 then 1 else if n < 65536 then 3 else 9
    ensures CarriesLength(first + LengthField(n, bit) + after, bit == 128, n)
  {
    hide Be64, Big32;
    var field := LengthField(n, bit);
    var s := first + field + after;
    assert forall k :: 0 <= k < |field| ==> s[1 + k] == field[k];
    if n >= 65536 {
      assert field[1..] == Be64(n);
      assert s[2..6] == field[1..][..4] && s[6..10] == field[1..][4..];
      LongLength(s, n);
    }
  }

  lemma LongLength(s: seq<byte>, n: nat)
    requires |s| >= 10 && n < UINT64_LIMIT && s[2..6] == Be64(n)[..4] && s[6..10] == Be64(n)[4..]
    ensures Big32(s, 2) * 0x1_0000_0000 + Big32(s, 6) == n
  {
    hide Big32, Dec32, Enc32;
    Dec32IsBig32(s, 2);
    Dec32IsBig32(s, 6);
    Be64RoundTrip(n);
  }

  /** What any octets are as a header: there is one unless they end inside it. */
  lemma HeadOctets(masked: bool, s: seq<byte>)
    ensures var h := ReadHead(masked, s);
      && (h.Some? <==> |s| >= 2 && |s| >= (if s[1] % 128 < 126 then 2 else if s[1] % 128 == 126 then 4 else 10)
                                          + if masked then 4 else 0)
      && (h.Some? ==>
            && h.value.opCode == s[0] % 16
            && h.value.size == (if s[1] % 128 < 126 then 2 else if s[1] % 128 == 126 then 4 else 10)
                               + (if masked then 4 else 0)
            && h.value.length == if s[1] % 128 < 126 then s[1] % 128
                                 else if s[1] % 128 == 126 then (var a: int, b: int := s[2], s[3]; a * 256 + b)
                                 else Big32(s, 2) * 0x1_0000_0000 + Big32(s, 6))
  {
    hide Big32, Dec32;
    if |s| >= 10 {
      Dec32IsBig32(s, 2);
      Dec32IsBig32(s, 6);
      assert s[2..10][..4] == s[2..6] && s[2..10][4..] == s[6..10];
    }
  }

  /** A list of messages with their masking keys. */
  function Wire(masked: bool, ms: seq<(Message, seq<byte>)>): seq<byte>
    requires forall i :: 0 <= i < |ms| ==> Sendable(ms[i].0) && |ms[i].1| == 4
  {
    if ms == [] then []
    else
      assert Sendable(ms[0].0) && |ms[0].1| == 4;
      Format(masked, ms[0].0, ms[0].1) + Wire(masked, ms[1..])
  }

  /** Whatever the masks, a stream of formatted messages reads back as exactly those messages. */
  lemma {:induction false} WireRoundTrip(masked: bool, ms: seq<(Message, seq<byte>)>)
    requires forall i :: 0 <= i < |ms| ==> Sendable(ms[i].0) && |ms[i].1| == 4
    ensures WellFramed(masked, Wire(masked, ms))
    ensures Messages(masked, Wire(masked, ms)) == seq(|ms|, i requires 0 <= i < |ms| => ms[i].0)
  {
    hide ReadHead, FormatHead, Format;
    if ms != [] {
      WireRoundTrip(masked, ms[1..]);
      FormatReads(masked, ms[0].0, ms[0].1, Wire(masked, ms[1..]));
    }
  }

  /** Nothing is left over behind formatted messages. */
  lemma {:induction false} WireLeavesNothing(masked: bool, ms: seq<(Message, seq<byte>)>)
    requires forall i :: 0 <= i < |ms| ==> Sendable(ms[i].0) && |ms[i].1| == 4
    ensures Rest(masked, Wire(masked, ms)) == []
  {
    hide ReadHead, FormatHead, Format;
    if ms == [] {
      NothingYet(masked);
    } else {
      WireLeavesNothing(masked, ms[1..]);
      FormatReads(masked, ms[0].0, ms[0].1, Wire(masked, ms[1..]));
    }
  }

  /** Together: any list of messages, any masks, any chunks. */
  lemma ChunkedRoundTrip(masked: bool, ms: seq<(Message, seq<byte>)>, chunks: seq<seq<byte>>)
    requires forall i :: 0 <= i < |ms| ==> Sendable(ms[i].0) && |ms[i].1| == 4
    requires Concat(chunks) == Wire(masked, ms)
    ensures Arriving(masked, [], chunks) == seq(|ms|, i requires 0 <= i < |ms| => ms[i].0)
  {
    hide Messages, Wire, WellFramed;
    WireRoundTrip(masked, ms);
    NothingYet(masked);
    assert [] + Concat(chunks) == Concat(chunks);
    ChunkingIndependence(masked, [], chunks);
  }

  lemma NothingYet(masked: bool)
    ensures Messages(masked, []) == [] && Rest(masked, []) == [] && WellFramed(masked, [])
  {
  }

  /** The loop at the end of formatMessage. */
  method MaskInPlace(dst: array<byte>, start: nat, length: nat, mask: seq<byte>)
    requires start + length <= dst.Length && |mask| == 4
    modifies dst
    ensures dst[..start] == old(dst[..start]) && dst[start + length..] == old(dst[start + length..])
    ensures dst[start..start + length] == Unmask(old(dst[start..start + length]), mask, 0)
  {
    hide XorByte;
    var i := 0;
    while i != length
      invariant 0 <= i <= length
      invariant forall k :: 0 <= k < dst.Length && !(start <= k < start + i) ==> dst[k] == old(dst[k])
      invariant forall k :: 0 <= k < i ==> dst[start + k] == XorByte(old(dst[start + k]), mask[k % 4])
    {
      dst[start + i] := XorByte(dst[start + i], mask[i % 4]);
      i := i + 1;
    }
  }

  /** memcpy */
  method Copy(dst: array<byte>, start: nat, data: seq<byte>)
    requires start + |data| <= dst.Length
    modifies dst
    ensures dst[..start] == old(dst[..start]) && dst[start..start + |data|] == data
    ensures dst[start + |data|..] == old(dst[start + |data|..])
  {
    forall i | start <= i < start + |data| {
      dst[i] := data[i - start];
    }
  }

  method MakeHeader(masked: bool, n: nat, opCode: nat, random: seq<byte>, ghost m: Message)
    returns (header: seq<byte>)
    requires opCode == m.opCode < 16 && n == |m.payload| < UINT64_LIMIT && |random| == 4
    ensures header == FormatHead(masked, m, random)
  {
    hide Be64;
    var bit := if masked then 128 else 0;
    header := [128 + opCode];
    if n < 126 {
      header := header + [n + bit];
    } else if n < 0x1_0000 {
      header := header + ([126 + bit] + Be16(n));
    } else {
      header := header + ([127 + bit] + Be64(n));
    }
    if masked {
      header := header + random;
    } else {
      assert header + [] == header;
    }
  }

  /** formatMessage, given a buffer that has room for the frame. */
  method FormatMessage(masked: bool, dst: array<byte>, src: seq<byte>, opCode: nat, random: seq<byte>)
    returns (size: nat)
    requires opCode < 16 && |src| < UINT64_LIMIT && |random| == 4
    requires dst.Length >= |Format(masked, Message(opCode, src), random)|
    modifies dst
    ensures size <= dst.Length && dst[..size] == Format(masked, Message(opCode, src), random)
  {
    hide XorByte, Unmask, FormatHead;
    var n := |src|;
    var header := MakeHeader(masked, n, opCode, random, Message(opCode, src));
    var start := |header|;
    Copy(dst, 0, header);
    Copy(dst, start, src);
    size := start + n;
    if masked {
      MaskInPlace(dst, start, n, random);
    }
    assert dst[..size] == dst[..start] + dst[start..size];
  }
}
