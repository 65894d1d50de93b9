/** Message types, frame flags and the encoding of frames (include/blip_cpp/BLIPProtocol.hh). */
module Messages {
  import opened Bytes

  /** MessageNo is a uint64_t. */
  type MessageNo = n: nat | n < UINT64_LIMIT

  datatype MessageType =
    | RequestType
    | ResponseType
    | ErrorType
    | AckRequestType
    | AckResponseType
    | UnknownType(code: nat)
  {
    /** Message::isResponse: every type but a request, acknowledgements included. */
    predicate IsResponse() {
      !RequestType?
    }

    predicate IsAck() {
      AckRequestType? || AckResponseType?
    }
  }

  function TypeOfCode(code: nat): MessageType
    requires code < 8
  {
    match code
    case 0 => RequestType
    case 1 => ResponseType
    case 2 => ErrorType
    case 4 => AckRequestType
    case 5 => AckResponseType
    case _ => UnknownType(code)
  }

  function CodeOfType(t: MessageType): (code: nat)
    requires t.UnknownType? ==> t.code in {3, 6, 7}
    ensures code < 8 && TypeOfCode(code) == t
  {
    match t
    case RequestType => 0
    case ResponseType => 1
    case ErrorType => 2
    case AckRequestType => 4
    case AckResponseType => 5
    case UnknownType(code) => code
  }

  /** The flags byte of a frame; kCompressed stays clear, as in a connection that does not compress. */
  datatype FrameFlags = FrameFlags(typ: MessageType, urgent: bool, noReply: bool, moreComing: bool)

  function EncodeFlags(f: FrameFlags): byte
    requires f.typ.UnknownType? ==> f.typ.code in {3, 6, 7}
  {
    CodeOfType(f.typ) + (if f.urgent then 0x10 else 0) + (if f.noReply then 0x20 else 0)
    + (if f.moreComing then 0x40 else 0)
  }

  function DecodeFlags(b: byte): FrameFlags {
    FrameFlags(TypeOfCode(b % 8), b / 0x10 % 2 == 1, b / 0x20 % 2 == 1, b / 0x40 % 2 == 1)
  }

  lemma FlagsRoundTrip(f: FrameFlags)
    requires f.typ.UnknownType? ==> f.typ.code in {3, 6, 7}
    ensures DecodeFlags(EncodeFlags(f)) == f && EncodeFlags(f) < 128
  {
    var c := CodeOfType(f.typ);
    assert TypeOfCode(c) == f.typ;
    assert EncodeFlags(f) % 8 == c;
  }

  /** What one frame carries after its message number and its flags. */
  datatype Frame = Frame(number: MessageNo, flags: FrameFlags, payload: seq<byte>)

  function EncodeFrame(f: Frame): seq<byte>
    requires f.flags.typ.UnknownType? ==> f.flags.typ.code in {3, 6, 7}
  {
    PutUVarInt(f.number) + [EncodeFlags(f.flags)] + f.payload
  }

  /** The header parse at the start of _onWebSocketMessages; None where it throws. */
  function DecodeFrame(s: seq<byte>): Option<Frame> {
    match ReadUVarInt(s, UINT64_LIMIT)
    case None => None
    case Some(number) =>
      var rest := s[number.1..];
      match ReadUVarInt(rest, UINT64_LIMIT)
      case None => None
      case Some(flags) => Some(Frame(number.0, DecodeFlags(flags.0 % 256), rest[flags.1..]))
  }

  /** The receiver reads back exactly the number, flags and payload that were written. */
  lemma FrameRoundTrip(f: Frame)
    requires f.flags.typ.UnknownType? ==> f.flags.typ.code in {3, 6, 7}
    ensures DecodeFrame(EncodeFrame(f)) == Some(f)
  {
    FlagsRoundTrip(f.flags);
    HeaderRoundTrip(f.number, EncodeFlags(f.flags), f.payload);
  }

  lemma HeaderRoundTrip(number: MessageNo, flags: byte, payload: seq<byte>)
    requires flags < 128
    ensures DecodeFrame(PutUVarInt(number) + [flags] + payload)
         == Some(Frame(number, DecodeFlags(flags), payload))
  {
    var head, rest := PutUVarInt(number), [flags] + payload;
    assert head + [flags] + payload == head + rest;
    VarIntRoundTrip(number, rest);
    assert (head + rest)[|head|..] == rest;
    assert GetUVarInt(rest) == Some((flags, 1));
    assert rest[1..] == payload;
  }

  // ---------------------------------------------------------------- octet by octet

  /** b carries f: the type in its lowest three bits, then kCompressed, kUrgent, kNoReply, kMoreComing. */
  predicate Carries(b: byte, f: FrameFlags) {
    && (f.typ == match b % 8
        case 0 => RequestType case 1 => ResponseType case 2 => ErrorType
        case 4 => AckRequestType case 5 => AckResponseType case code => UnknownType(code))
    && (f.urgent <==> b / 0x10 % 2 == 1) && (f.noReply <==> b / 0x20 % 2 == 1)
    && (f.moreComing <==> b / 0x40 % 2 == 1)
  }

  lemma FlagBits(f: FrameFlags)
    requires f.typ.UnknownType? ==> f.typ.code in {3, 6, 7}
    ensures var b := EncodeFlags(f); Carries(b, f) && b / 8 % 2 == 0 && b < 0x80
  {
    var c := CodeOfType(f.typ);
    assert TypeOfCode(c) == f.typ;
    assert EncodeFlags(f) % 8 == c && EncodeFlags(f) / 8 == EncodeFlags(f) / 0x10 * 2;
  }

  lemma BitsOfFlags(b: byte)
    ensures Carries(b, DecodeFlags(b))
  {
  }

  /** The first h bytes of s are the shortest varint of number, and the next carries the flags, with
      kCompressed and the highest bit clear. */
  predicate Header(s: seq<byte>, h: nat, number: nat, flags: FrameFlags) {
    && h < |s| && StartsVarInt(s, h) && Base128(s[..h]) == number && (h > 1 ==> s[h - 1] != 0)
    && Carries(s[h], flags) && s[h] / 8 % 2 == 0 && s[h] < 0x80
  }

  /** The bytes of a frame. */
  lemma FrameOctets(f: Frame)
    requires f.flags.typ.UnknownType? ==> f.flags.typ.code in {3, 6, 7}
    ensures var s := EncodeFrame(f);
      var h := |s| - |f.payload| - 1;
      h >= 1 && Header(s, h, f.number, f.flags) && s[h + 1..] == f.payload
  {
    hide PutUVarInt, Base128, EncodeFlags, Carries;
    var number := PutUVarInt(f.number);
    VarIntWritten(f.number);
    FlagBits(f.flags);
    var s := EncodeFrame(f);
    assert s[..|number|] == number && s[|number|] == EncodeFlags(f.flags) && s[|number| + 1..] == f.payload;
    assert forall i :: 0 <= i < |number| ==> s[i] == number[i];
  }

  /** What any bytes are as a frame: the number, the flags in the lower eight bits of a second varint, and
      the rest as payload. */
  lemma OctetsRead(s: seq<byte>, h: nat, k: nat)
    requires StartsVarInt(s, h) && StartsVarInt(s[h..], k)
    ensures var number, flags, f := Base128(s[..h]), Base128(s[h..][..k]), DecodeFrame(s);
      && (f.Some? <==> number < UINT64_LIMIT && flags < UINT64_LIMIT)
      && (f.Some? ==> f.value.number == number && Carries(flags % 256, f.value.flags)
                      && f.value.payload == s[h + k..])
  {
    hide GetUVarInt, Base128, DecodeFlags, Carries;
    VarIntIs(s, h);
    VarIntIs(s[h..], k);
    BitsOfFlags(Base128(s[h..][..k]) % 256);
    assert s[h..][k..] == s[h + k..];
  }

  /** They are none if a varint does not end. */
  lemma NoHeader(s: seq<byte>)
    requires forall h: nat, k: nat :: StartsVarInt(s, h) ==> !StartsVarInt(s[h..], k)
    ensures DecodeFrame(s).None?
  {
    hide GetUVarInt, Base128;
    VarIntRead(s);
    var number := ReadUVarInt(s, UINT64_LIMIT);
    if number.Some? {
      VarIntRead(s[number.value.1..]);
    }
  }

  /** MessageProgress::State, as far as an outgoing message or a reply reports it. */
  datatype ProgressState = Sending | AwaitingReply | ReceivingReply | Complete | Disconnected
}
