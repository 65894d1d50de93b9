/** Building messages, and looking properties up in received ones (src/blip/MessageBuilder.cc and
    MessageIn::property in src/blip/Message.cc). */
module MessageBuilders {
  import opened Bytes
  import opened Messages
  import opened MessagesIn

  datatype Property = Property(name: seq<byte>, value: seq<byte>)

  predicate NulFree(s: seq<byte>) {
    0 !in s
  }

  predicate Encodable(ps: seq<Property>) {
    forall i :: 0 <= i < |ps| ==> NulFree(ps[i].name) && NulFree(ps[i].value)
  }

  function EncodeOne(p: Property): seq<byte> {
    p.name + [0] + p.value + [0]
  }

  /** The properties of a message as they are sent: every name and value followed by a NUL. */
  function Encode(ps: seq<Property>): seq<byte> {
    if ps == [] then [] else EncodeOne(ps[0]) + Encode(ps[1..])
  }

  /** The value of the first property with this name. */
  function FirstValue(ps: seq<Property>, name: seq<byte>): Option<seq<byte>> {
    if ps == [] then None
    else if ps[0].name == name then Some(ps[0].value)
    else FirstValue(ps[1..], name)
  }

  // ---------------------------------------------------------------- lookup

  /** What receivedFrame has checked of the properties of a message. */
  predicate Terminated(block: seq<byte>) {
    block == [] || block[|block| - 1] == 0
  }

  /** The position of the first NUL. */
  function Length(s: seq<byte>): (n: nat)
    requires s != [] && Terminated(s)
    ensures n < |s| && s[n] == 0 && NulFree(s[..n])
  {
    if s[0] == 0 then 0
    else
      var n := Length(s[1..]);
      assert s[..n + 1] == [s[0]] + s[1..][..n];
      n + 1
  }

  /** The NUL-terminated strings that a block consists of. */
  function Strings(block: seq<byte>): seq<seq<byte>>
    requires Terminated(block)
    decreases |block|
  {
    if block == [] then [] else [block[..Length(block)]] + Strings(block[Length(block) + 1..])
  }

  /** The string behind the first one that equals name and stands at an even position. */
  function Find(strings: seq<seq<byte>>, name: seq<byte>): Option<seq<byte>> {
    if |strings| < 2 then None
    else if strings[0] == name then Some(strings[1])
    else Find(strings[2..], name)
  }

  /** strlen of the string at position start. */
  method StrLen(block: seq<byte>, start: nat) returns (n: nat)
    requires start < |block| && Terminated(block)
    ensures start + n < |block| && n == Length(block[start..])
  {
    n := 0;
    while block[start + n] != 0
      invariant start + n < |block|
      invariant NulFree(block[start..start + n])
      decreases |block| - n
    {
      assert block[start..start + n + 1] == block[start..start + n] + [block[start + n]];
      n := n + 1;
    }
    LengthIs(block[start..], n);
  }

  lemma LengthIs(s: seq<byte>, n: nat)
    requires n < |s| && Terminated(s) && s[n] == 0 && NulFree(s[..n])
    ensures Length(s) == n
  {
    var m := Length(s);
    assert forall i :: 0 <= i < m ==> s[i] in s[..m];
    assert forall i :: 0 <= i < n ==> s[i] in s[..n];
  }

  /** MessageIn::property */
  method Lookup(properties: seq<byte>, name: seq<byte>) returns (value: Option<seq<byte>>)
    requires Terminated(properties)
    ensures value == Find(Strings(properties), name)
  {
    hide Strings, Find, Length;
    var key, end := 0, |properties|;
    assert properties[0..] == properties;
    while key < end
      invariant 0 <= key <= end && Terminated(properties[key..])
      invariant Find(Strings(properties), name) == Find(Strings(properties[key..]), name)
    {
      var n := StrLen(properties, key);
      var endOfKey := key + n;
      var val := endOfKey + 1;
      NextString(properties, key, n);
      if val >= end {
        FindNothing(properties[key..endOfKey], name);
        break;
      }
      var m := StrLen(properties, val);
      var endOfVal := val + m;
      NextString(properties, val, m);
      FindStep(properties[key..endOfKey], properties[val..endOfVal], Strings(properties[endOfVal + 1..]), name);
      if name == properties[key..endOfKey] {
        return Some(properties[val..endOfVal]);
      }
      key := endOfVal + 1;
    }
    NoStrings(properties[key..], name);
    value := None;
  }

  /** The first string of the rest of a block. */
  lemma NextString(block: seq<byte>, start: nat, n: nat)
    requires Terminated(block) && start < |block| && n == Length(block[start..])
    ensures var end := start + n;
      && Terminated(block[end + 1..])
      && Strings(block[start..]) == [block[start..end]] + Strings(block[end + 1..])
      && (end + 1 == |block| ==> Strings(block[start..]) == [block[start..end]])
  {
    var rest := block[start..];
    assert rest[..n] == block[start..start + n] && rest[n + 1..] == block[start + n + 1..];
  }

  lemma FindStep(key: seq<byte>, value: seq<byte>, rest: seq<seq<byte>>, name: seq<byte>)
    ensures Find([key] + ([value] + rest), name) == if key == name then Some(value) else Find(rest, name)
  {
    assert ([key] + ([value] + rest))[2..] == rest;
  }

  lemma FindNothing(key: seq<byte>, name: seq<byte>)
    ensures Find([key], name) == None
  {
  }

  lemma NoStrings(block: seq<byte>, name: seq<byte>)
    requires Terminated(block)
    ensures block == [] ==> Find(Strings(block), name) == None
  {
  }

  // ---------------------------------------------------------------- round trip

  lemma {:induction false} EncodeTerminated(ps: seq<Property>)
    ensures Terminated(Encode(ps))
    ensures ps != [] ==> Encode(ps) != []
  {
    if ps != [] {
      EncodeTerminated(ps[1..]);
    }
  }

  lemma FirstString(s: seq<byte>, rest: seq<byte>)
    requires NulFree(s) && Terminated(rest)
    ensures var block := s + [0] + rest; Terminated(block) && Strings(block) == [s] + Strings(rest)
  {
    var block := s + [0] + rest;
    assert block[..|s|] == s && block[|s| + 1..] == rest;
    LengthIs(block, |s|);
  }

  /** Reading a property back from what has been sent gives the first value added under its name, or
      nothing if there is none. */
  lemma {:induction false} LookupRoundTrip(ps: seq<Property>, name: seq<byte>)
    requires Encodable(ps)
    ensures Terminated(Encode(ps)) && Find(Strings(Encode(ps)), name) == FirstValue(ps, name)
  {
    hide Strings, Find;
    EncodeTerminated(ps);
    if ps == [] {
      NoStrings([], name);
    } else {
      var p, rest := ps[0], Encode(ps[1..]);
      LookupRoundTrip(ps[1..], name);
      FirstString(p.value, rest);
      FirstString(p.name, p.value + [0] + rest);
      assert Encode(ps) == p.name + [0] + (p.value + [0] + rest);
      FindStep(p.name, p.value, Strings(rest), name);
    }
  }

  /** Every string followed by a NUL. */
  function Joined(strings: seq<seq<byte>>): seq<byte> {
    if strings == [] then [] else strings[0] + [0] + Joined(strings[1..])
  }

  lemma JoinFirst(s: seq<byte>, strings: seq<seq<byte>>)
    ensures Joined([s] + strings) == s + [0] + Joined(strings)
  {
    assert ([s] + strings)[1..] == strings;
  }

  /** The strings of a block hold no NUL, and with one behind each they are the block. */
  lemma {:induction false} StringsJoin(block: seq<byte>)
    requires Terminated(block)
    ensures Joined(Strings(block)) == block && forall s :: s in Strings(block) ==> NulFree(s)
    decreases |block|
  {
    hide Length;
    if block != [] {
      var n := Length(block);
      var rest := block[n + 1..];
      StringsJoin(rest);
      assert Strings(block) == [block[..n]] + Strings(rest);
      JoinFirst(block[..n], Strings(rest));
      assert block == block[..n] + [0] + rest;
    }
  }

  /** The encoded properties are the names and values in turn, each followed by a NUL. */
  lemma {:induction false} EncodedStrings(ps: seq<Property>)
    requires Encodable(ps)
    ensures Terminated(Encode(ps))
    ensures var strings := Strings(Encode(ps));
      && |strings| == 2 * |ps|
      && forall i :: 0 <= i < |ps| ==> strings[2 * i] == ps[i].name && strings[2 * i + 1] == ps[i].value
  {
    hide Strings;
    EncodeTerminated(ps);
    if ps == [] {
      NoneThere();
    } else {
      var p, rest := ps[0], Encode(ps[1..]);
      EncodedStrings(ps[1..]);
      FirstString(p.value, rest);
      FirstString(p.name, p.value + [0] + rest);
      assert Encode(ps) == p.name + [0] + (p.value + [0] + rest);
      var strings, later := Strings(Encode(ps)), Strings(rest);
      assert strings == [p.name] + ([p.value] + later);
      forall i | 0 <= i < |ps| ensures strings[2 * i] == ps[i].name && strings[2 * i + 1] == ps[i].value {
        if i > 0 {
          assert strings[2 * i] == later[2 * (i - 1)] && ps[i] == ps[1..][i - 1];
        }
      }
    }
  }

  lemma NoneThere()
    ensures Strings([]) == []
  {
  }

  /** What is found is the string behind the first one at an even position that equals the name. */
  lemma {:induction false} FoundFirst(strings: seq<seq<byte>>, name: seq<byte>)
    ensures match Find(strings, name)
      case None => forall i :: 0 <= i && 2 * i + 1 < |strings| ==> strings[2 * i] != name
      case Some(value) => exists i ::
        && 0 <= i && 2 * i + 1 < |strings| && strings[2 * i] == name && value == strings[2 * i + 1]
        && forall j :: 0 <= j < i ==> strings[2 * j] != name
    decreases |strings|
  {
    if |strings| >= 2 && strings[0] != name {
      var rest := strings[2..];
      FoundFirst(rest, name);
      assert forall i :: 1 <= i && 2 * i + 1 < |strings| ==> strings[2 * i] == rest[2 * (i - 1)];
      if Find(rest, name).Some? {
        var i :| 0 <= i && 2 * i + 1 < |rest| && rest[2 * i] == name && Find(rest, name).value == rest[2 * i + 1]
                 && forall j :: 0 <= j < i ==> rest[2 * j] != name;
        assert strings[2 * (i + 1)] == name && strings[2 * (i + 1) + 1] == rest[2 * i + 1];
      }
    } else if |strings| >= 2 {
      assert strings[2 * 0] == name;
    }
  }

  lemma {:induction false} EncodeAppend(ps: seq<Property>, p: Property)
    ensures Encode(ps + [p]) == Encode(ps) + EncodeOne(p)
  {
    if ps == [] {
      assert ps + [p] == [p] && [p][1..] == [];
    } else {
      EncodeAppend(ps[1..], p);
      assert (ps + [p])[1..] == ps[1..] + [p];
    }
  }

  // ---------------------------------------------------------------- the builder object

  class MessageBuilder {
    var typ: MessageType
    var urgent: bool
    var noReply: bool
    var output: seq<byte>
    var properties: seq<byte>
    var wroteProperties: bool
    ghost var list: seq<Property>
    ghost var body: seq<byte>

    constructor (profile: Option<seq<byte>>)
      requires profile.Some? ==> NulFree(profile.value)
      ensures Valid() && !wroteProperties && body == [] && typ.RequestType? && !urgent && !noReply
      ensures list == if profile.Some? then [Property(PROFILE, profile.value)] else []
    {
      typ, urgent, noReply := RequestType, false, false;
      output, properties, wroteProperties, list, body := [], [], false, [], [];
      new;
      if profile.Some? {
        AddProperty(PROFILE, profile.value);
      }
    }

    /** A builder of a reply to a request. */
    constructor Reply(requestUrgent: bool)
      ensures Valid() && !wroteProperties && body == [] && list == []
      ensures typ.ResponseType? && urgent == requestUrgent && !noReply
    {
      typ, urgent, noReply := ResponseType, requestUrgent, false;
      output, properties, wroteProperties, list, body := [], [], false, [], [];
    }

    ghost predicate Valid()
      reads this
    {
      && Encodable(list) && properties == Encode(list)
      && if wroteProperties then WellFormed(output, properties, body) else output == [] && body == []
    }

    method WriteTokenizedString(str: seq<byte>)
      requires NulFree(str)
      modifies this`properties
      ensures properties == old(properties) + str + [0]
    {
      properties := properties + str + [0];
    }

    method AddProperty(name: seq<byte>, value: seq<byte>)
      requires Valid() && !wroteProperties && NulFree(name) && NulFree(value)
      modifies this`properties, this`list
      ensures Valid() && list == old(list) + [Property(name, value)]
    {
      WriteTokenizedString(name);
      WriteTokenizedString(value);
      EncodeAppend(list, Property(name, value));
      list := list + [Property(name, value)];
    }

    /** ok is false where the source throws. */
    method FinishProperties() returns (ok: bool)
      requires Valid()
      modifies this`output, this`wroteProperties
      ensures Valid() && ok == wroteProperties == (|properties| <= MAX_PROPERTIES_SIZE)
    {
      ok := true;
      EncodeTerminated(list);
      if !wroteProperties {
        if |properties| > MAX_PROPERTIES_SIZE {
          return false;
        }
        output := output + PutUVarInt(|properties|) + properties;
        wroteProperties := true;
        assert output == PutUVarInt(|properties|) + properties + body;
      }
    }

    method Write(data: seq<byte>) returns (ok: bool)
      requires Valid()
      modifies this`output, this`wroteProperties, this`body
      ensures Valid() && ok == (|properties| <= MAX_PROPERTIES_SIZE)
      ensures body == if ok then old(body) + data else old(body)
    {
      ok := true;
      EncodeTerminated(list);
      if !wroteProperties {
        ok := FinishProperties();
      }
      if ok {
        assert output + data == PutUVarInt(|properties|) + properties + (body + data);
        output, body := output + data, body + data;
      }
    }

    /** The encoded message; None where the source throws. */
    method Finish() returns (content: Option<seq<byte>>)
      requires Valid()
      modifies this`output, this`wroteProperties
      ensures Valid() && (content.Some? <==> |Encode(list)| <= MAX_PROPERTIES_SIZE)
      ensures content.Some? ==> WellFormed(content.value, Encode(list), body)
    {
      var ok := FinishProperties();
      content := if ok then Some(output) else None;
    }

    method Flags() returns (flags: FrameFlags)
      ensures flags == FrameFlags(typ, urgent, noReply, false)
    {
      flags := FrameFlags(typ, urgent, noReply, false);
    }
  }

  /** "Profile" */
  const PROFILE: seq<byte> := [80, 114, 111, 102, 105, 108, 101]
}
