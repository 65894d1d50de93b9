/** Reassembling WebSocket messages and acting on them (handleFragment and receivedMessage in
    src/websocket/WebSocketImpl.cc). */
module WebSocketMessages {
  import opened Bytes
  import opened WebSocketFrames
  import Utf8

  // ---------------------------------------------------------------- what messages do

  /** What receiving messages changes in a WebSocketImpl; log holds the messages handed to it so far, those
      that it refused included, and delivered those that it has delivered to the delegate. */
  datatype Inbox = Inbox(log: seq<Message>, delivered: seq<Message>, deliveredBytes: nat, closeSent: bool,
                         closeReceived: bool, opToSend: nat, msgToSend: Option<seq<byte>>, socketClosed: bool,
                         protocolError: bool)

  function NewInbox(): Inbox {
    Inbox([], [], 0, false, false, 0, None, false, false)
  }

  /** receivedMessage; None where it returns false. */
  ghost function Take(i: Inbox, m: Message): Option<Inbox> {
    var i' := i.(log := i.log + [m]);
    if m.opCode == TEXT && !Utf8.IsUtf8(m.payload) then None
    else if m.opCode == TEXT || m.opCode == BINARY then
      Some(i'.(delivered := i.delivered + [m], deliveredBytes := i.deliveredBytes + |m.payload|))
    else if m.opCode == CLOSE then
      if i.closeReceived then None
      else if i.closeSent then Some(i'.(closeReceived := true, socketClosed := true))
      else Some(i'.(closeReceived := true, closeSent := true, msgToSend := Some(m.payload), opToSend := CLOSE))
    else if m.opCode == PING then Some(i'.(opToSend := PONG, msgToSend := Some(m.payload)))
    else if m.opCode == PONG then Some(i')
    else None
  }

  /** receivedMessage, a message that it refuses included: that one changes nothing else. */
  ghost function Received(i: Inbox, m: Message): Inbox {
    match Take(i, m) case None => i.(log := i.log + [m]) case Some(i') => i'
  }

  /** protocolError */
  function Failed(i: Inbox): Inbox {
    i.(protocolError := true, socketClosed := true)
  }

  ghost function TakeAll(i: Inbox, ms: seq<Message>): Option<Inbox>
    decreases |ms|
  {
    if ms == [] then Some(i)
    else match Take(i, ms[0])
      case None => None
      case Some(i') => TakeAll(i', ms[1..])
  }

  /** How many of ms are CLOSE messages. */
  function Closes(ms: seq<Message>): nat {
    if ms == [] then 0 else (if ms[0].opCode == CLOSE then 1 else 0) + Closes(ms[1..])
  }

  ghost predicate IsAcceptable(m: Message) {
    m.opCode in {TEXT, BINARY, CLOSE, PING, PONG} && (m.opCode == TEXT ==> Utf8.IsUtf8(m.payload))
  }

  /** Messages are taken if and only if each opcode is known, every text is UTF-8, and they hold no CLOSE
      after the first one ever received. */
  lemma {:induction false} TakenIff(i: Inbox, ms: seq<Message>)
    ensures TakeAll(i, ms).Some?
       <==> (forall m :: m in ms ==> IsAcceptable(m)) && Closes(ms) <= if i.closeReceived then 0 else 1
    decreases |ms|
  {
    hide Utf8.IsUtf8;
    if ms != [] {
      assert forall m :: m in ms <==> m == ms[0] || m in ms[1..];
      assert Take(i, ms[0]).Some? <==> IsAcceptable(ms[0]) && !(ms[0].opCode == CLOSE && i.closeReceived);
      if Take(i, ms[0]).Some? {
        TakenIff(Take(i, ms[0]).value, ms[1..]);
      }
    }
  }

  /** The first CLOSE received is sent back, unless one has been sent before; then the socket is closed. No other
      message changes that, and none is an error of the protocol. */
  lemma {:induction false} CloseFlags(i: Inbox, ms: seq<Message>)
    requires TakeAll(i, ms).Some?
    ensures var i', closes := TakeAll(i, ms).value, Closes(ms) > 0;
      && i'.closeReceived == (i.closeReceived || closes) && i'.closeSent == (i.closeSent || closes)
      && i'.socketClosed == (i.socketClosed || (closes && i.closeSent)) && i'.protocolError == i.protocolError
    decreases |ms|
  {
    hide Utf8.IsUtf8;
    if ms != [] {
      var i' := Take(i, ms[0]).value;
      CloseFlags(i', ms[1..]);
      TakenIff(i', ms[1..]);
    }
  }

  // ---------------------------------------------------------------- up to the first refused message

  /** The messages of a list, up to and including the first that is refused. */
  ghost function Until(i: Inbox, ms: seq<Message>): Inbox
    decreases |ms|
  {
    if ms == [] then i
    else match Take(i, ms[0])
      case None => Received(i, ms[0])
      case Some(i') => Until(i', ms[1..])
  }

  /** How many messages those are. */
  ghost function Upto(i: Inbox, ms: seq<Message>): (n: nat)
    ensures n <= |ms|
    decreases |ms|
  {
    if ms == [] then 0
    else match Take(i, ms[0])
      case None => 1
      case Some(i') => 1 + Upto(i', ms[1..])
  }

  /** All the messages are handed on if and only if at most the last is refused. */
  lemma {:induction false} UntilHandsOn(i: Inbox, ms: seq<Message>)
    ensures Until(i, ms).log == i.log + ms[..Upto(i, ms)]
    ensures Upto(i, ms) == |ms| <==> ms == [] || TakeAll(i, ms[..|ms| - 1]).Some?
    ensures TakeAll(i, ms).Some? ==> Until(i, ms) == TakeAll(i, ms).value && Upto(i, ms) == |ms|
    decreases |ms|
  {
    hide Take;
    if ms != [] {
      var rest := ms[1..];
      TakeLogs(i, ms[0]);
      if |ms| > 1 {
        assert ms[..|ms| - 1][0] == ms[0] && ms[..|ms| - 1][1..] == rest[..|rest| - 1];
      }
      if Take(i, ms[0]).Some? {
        var i' := Take(i, ms[0]).value;
        UntilHandsOn(i', rest);
        assert ms[..Upto(i, ms)] == [ms[0]] + rest[..Upto(i', rest)];
        assert i.log + [ms[0]] + rest[..Upto(i', rest)] == i.log + ms[..Upto(i, ms)];
      } else {
        assert ms[..1] == [ms[0]];
      }
    }
  }

  lemma TakeLogs(i: Inbox, m: Message)
    ensures Received(i, m).log == i.log + [m]
    ensures Take(i, m).Some? ==> Take(i, m).value.log == i.log + [m]
  {
    hide Utf8.IsUtf8;
  }

  // ---------------------------------------------------------------- reassembly

  /** The message that is being put together: what is there of size bytes. */
  datatype Current = Current(opCode: nat, size: nat, bytes: seq<byte>)

  datatype Reception = Reception(inbox: Inbox, current: Option<Current>) {
    /** _curMessageLength */
    function Length(): nat {
      match current case None => 0 case Some(c) => |c.bytes|
    }
  }

  /** handleFragment, with false on an error. */
  ghost function AddFragment(u: Reception, data: seq<byte>, remaining: nat, opCode: nat, fin: bool): (Reception, bool) {
    var c := if u.current.Some? then u.current.value else Current(opCode, |data| + remaining, []);
    if |c.bytes| + |data| > c.size then (u, false)
    else if fin && remaining == 0 then
      var m := Message(c.opCode, c.bytes + data);
      (Reception(Received(u.inbox, m), None), Take(u.inbox, m).Some?)
    else (u.(current := Some(c.(bytes := c.bytes + data))), true)
  }

  /** What the frames of a message come to, one after the other, each of them whole and only the last with
      its FIN bit set; those behind an error are not looked at. */
  ghost function AddFrames(u: Reception, opCode: nat, frames: seq<seq<byte>>): (Reception, bool)
    requires frames != []
    decreases |frames|
  {
    var r := AddFragment(u, frames[0], 0, opCode, |frames| == 1);
    if !r.1 || |frames| == 1 then r else AddFrames(r.0, 0, frames[1..])
  }

  /** The buffer has the size of the first frame. So a message in several frames is put together, under the
      opcode of the first, if and only if the others are empty; otherwise nothing is handed on. */
  lemma FragmentedMessage(i: Inbox, opCode: nat, frames: seq<seq<byte>>)
    requires frames != []
    ensures var r := AddFrames(Reception(i, None), opCode, frames);
      var m := Message(opCode, frames[0]);
      if forall k :: 0 < k < |frames| ==> frames[k] == [] then r == (Reception(Received(i, m), None), Take(i, m).Some?)
      else !r.1 && r.0.inbox == i
  {
    hide Take;
    var c := Current(opCode, |frames[0]|, frames[0]);
    assert [] + frames[0] == frames[0];
    if |frames| > 1 {
      LaterFrames(Reception(i, Some(c)), c, frames[1..]);
      assert forall k :: 0 < k < |frames| ==> frames[k] == frames[1..][k - 1];
      assert forall k :: 0 <= k < |frames| - 1 ==> frames[1..][k] == frames[k + 1];
    }
  }

  lemma {:induction false} LaterFrames(u: Reception, c: Current, frames: seq<seq<byte>>)
    requires frames != [] && u.current == Some(c) && |c.bytes| == c.size
    ensures var r := AddFrames(u, 0, frames);
      var m := Message(c.opCode, c.bytes);
      if forall k :: 0 <= k < |frames| ==> frames[k] == [] then
        r == (Reception(Received(u.inbox, m), None), Take(u.inbox, m).Some?)
      else !r.1 && r.0.inbox == u.inbox
    decreases |frames|
  {
    hide Take;
    if frames[0] == [] {
      assert c.bytes + frames[0] == c.bytes;
      if |frames| > 1 {
        LaterFrames(u, c, frames[1..]);
        assert forall k :: 0 < k < |frames| ==> frames[k] == frames[1..][k - 1];
      }
    }
  }

  /** A part of a frame is kept until the rest of it arrives, in a buffer of the size of the frame. */
  lemma PartKept(i: Inbox, data: seq<byte>, remaining: nat, opCode: nat, fin: bool)
    requires remaining > 0
    ensures AddFragment(Reception(i, None), data, remaining, opCode, fin)
         == (Reception(i, Some(Current(opCode, |data| + remaining, data))), true)
  {
    assert [] + data == data;
  }

  class Assembler {
    var curMessage: array?<byte>
    var curOpCode: nat
    var curMessageLength: nat
    var delivered: seq<Message>
    var deliveredBytes: nat
    var closeSent: bool
    var closeReceived: bool
    var opToSend: nat
    var msgToSend: Option<seq<byte>>
    var socketClosed: bool
    var protocolError: bool
    ghost var log: seq<Message>

    constructor ()
      ensures Valid() && curMessage == null && Model() == NewInbox()
    {
      curMessage, curOpCode, curMessageLength, deliveredBytes := null, 0, 0, 0;
      closeSent, closeReceived, opToSend, msgToSend, socketClosed := false, false, 0, None, false;
      protocolError, delivered, log := false, [], [];
    }

    ghost function Footprint(): set<object>
      reads this
    {
      {this} + if curMessage == null then {} else {curMessage}
    }

    ghost predicate Valid()
      reads this
    {
      curMessageLength <= if curMessage == null then 0 else curMessage.Length
    }

    ghost function Model(): Inbox
      reads this
    {
      Inbox(log, delivered, deliveredBytes, closeSent, closeReceived, opToSend, msgToSend, socketClosed,
            protocolError)
    }

    /** What has been received, and the part of the current message that is there. */
    ghost function State(): (u: Reception)
      requires Valid()
      reads this, curMessage
      ensures u.Length() == curMessageLength
    {
      Reception(Model(),
                if curMessage == null then None
                else Some(Current(curOpCode, curMessage.Length, curMessage[..curMessageLength])))
    }

    /** protocolError */
    method ProtocolError()
      requires Valid()
      modifies this`protocolError, this`socketClosed
      ensures Valid() && State() == old(State()).(inbox := Failed(old(Model())))
    {
      protocolError, socketClosed := true, true;
    }

    method DeliverMessageToDelegate(data: seq<byte>, binary: bool)
      modifies this`delivered, this`deliveredBytes
      ensures delivered == old(delivered) + [Message(if binary then BINARY else TEXT, data)]
      ensures deliveredBytes == old(deliveredBytes) + |data|
    {
      deliveredBytes := deliveredBytes + |data|;
      delivered := delivered + [Message(if binary then BINARY else TEXT, data)];
    }

    method ReceivedClose(message: seq<byte>) returns (ok: bool)
      modifies this`closeSent, this`closeReceived, this`opToSend, this`msgToSend, this`socketClosed
      ensures ok == !old(closeReceived)
      ensures Model() == var i := old(Model());
        if !ok then i
        else if i.closeSent then i.(closeReceived := true, socketClosed := true)
        else i.(closeReceived := true, closeSent := true, msgToSend := Some(message), opToSend := CLOSE)
    {
      if closeReceived {
        return false;
      }
      closeReceived := true;
      if closeSent {
        socketClosed := true;
      } else {
        closeSent := true;
        msgToSend := Some(message);
        opToSend := CLOSE;
      }
      ok := true;
    }

    method ReceivedMessage(opCode: nat, message: seq<byte>) returns (ok: bool)
      modifies this`delivered, this`deliveredBytes, this`closeSent, this`closeReceived, this`opToSend
      modifies this`msgToSend, this`socketClosed, this`log
      ensures ok == Take(old(Model()), Message(opCode, message)).Some?
      ensures Model() == Received(old(Model()), Message(opCode, message))
    {
      log := log + [Message(opCode, message)];
      if opCode == TEXT {
        ok := Utf8.IsValidUtf8(message);
        if ok {
          DeliverMessageToDelegate(message, false);
        }
      } else if opCode == BINARY {
        DeliverMessageToDelegate(message, true);
        ok := true;
      } else if opCode == CLOSE {
        ok := ReceivedClose(message);
      } else if opCode == PING {
        opToSend := PONG;
        msgToSend := Some(message);
        ok := true;
      } else {
        ok := opCode == PONG;
      }
    }

    /** handleFragment; ok is false on an error. */
    method HandleFragment(buf: array<byte>, start: nat, length: nat, remaining: nat, opCode: nat, fin: bool)
      returns (ok: bool)
      requires Valid() && start + length <= buf.Length && buf != curMessage
      modifies this, curMessage
      ensures Valid() && fresh(Footprint() - old(Footprint()))
      ensures (State(), ok) == AddFragment(old(State()), old(buf[start..start + length]), remaining, opCode, fin)
    {
      hide Take, Utf8.IsUtf8;
      if curMessage == null {
        curOpCode := opCode;
        curMessage := new byte[length + remaining];
        curMessageLength := 0;
      }
      if curMessageLength + length > curMessage.Length {
        return false;
      }
      ghost var before, data := curMessage[..curMessageLength], buf[start..start + length];
      var target := curMessage;
      forall i | 0 <= i < length {
        target[curMessageLength + i] := buf[start + i];
      }
      curMessageLength := curMessageLength + length;
      assert curMessage[..curMessageLength] == before + data;
      if fin && remaining == 0 {
        var message := curMessage[..curMessageLength];
        curMessage := null;
        ok := ReceivedMessage(curOpCode, message);
        curMessageLength := 0;
        return;
      }
      ok := true;
    }
  }
}
