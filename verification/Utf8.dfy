/** isValidUtf8 of src/websocket/WebSocketProtocol.hh, against the definition of UTF-8 in RFC 3629. */
module Utf8 {
  import opened Bytes

  /** The Unicode scalar values: every code point but the surrogates (section 3 of RFC 3629). */
  type Scalar = c: int | 0 <= c < 0xD800 || 0xE000 <= c < 0x11_0000

  /** The octets of one character (the table in section 3 of RFC 3629). */
  function EncodeScalar(c: Scalar): (s: seq<byte>)
    ensures 1 <= |s| <= 4
  {
    if c < 0x80 then [c]
    else if c < 0x800 then [0xC0 + c / 0x40, 0x80 + c % 0x40]
    else if c < 0x1_0000 then [0xE0 + c / 0x1000, 0x80 + c / 0x40 % 0x40, 0x80 + c % 0x40]
    else [0xF0 + c / 0x4_0000, 0x80 + c / 0x1000 % 0x40, 0x80 + c / 0x40 % 0x40, 0x80 + c % 0x40]
  }

  function Encode(cs: seq<Scalar>): seq<byte> {
    if cs == [] then [] else EncodeScalar(cs[0]) + Encode(cs[1..])
  }

  ghost predicate IsUtf8(s: seq<byte>) {
    exists cs: seq<Scalar> :: Encode(cs) == s
  }

  // ---------------------------------------------------------------- one character

  /** The value of two, three or four octets of the form 110xxxxx, 1110xxxx or 11110xxx and 10xxxxxx. */
  function Value(s: seq<byte>): int
    requires 2 <= |s| <= 4
  {
    var a: int, b: int := s[0], s[1];
    if |s| == 2 then (a - 0xC0) * 0x40 + (b - 0x80)
    else
      var c: int := s[2];
      if |s| == 3 then (a - 0xE0) * 0x1000 + (b - 0x80) * 0x40 + (c - 0x80)
      else
        var d: int := s[3];
        (a - 0xF0) * 0x4_0000 + (b - 0x80) * 0x1000 + (c - 0x80) * 0x40 + (d - 0x80)
  }

  predicate IsTail(b: byte) {
    0x80 <= b < 0xC0
  }

  lemma TwoOctets(s: seq<byte>)
    requires |s| == 2 && 0xC2 <= s[0] < 0xE0 && IsTail(s[1])
    ensures var c := Value(s); 0x80 <= c < 0x800 && EncodeScalar(c) == s
  {
  }

  lemma ThreeOctets(s: seq<byte>)
    requires |s| == 3 && 0xE0 <= s[0] < 0xF0 && IsTail(s[1]) && IsTail(s[2])
    requires s[0] == 0xE0 ==> s[1] >= 0xA0
    requires s[0] == 0xED ==> s[1] < 0xA0
    ensures var c := Value(s); (0x800 <= c < 0xD800 || 0xE000 <= c < 0x1_0000) && EncodeScalar(c) == s
  {
    var a: int, b: int, c: int := s[0], s[1], s[2];
    var v := Value(s);
    assert v / 0x40 == (a - 0xE0) * 0x40 + (b - 0x80) && v % 0x40 == c - 0x80;
    assert v / 0x1000 == v / 0x40 / 0x40;
  }

  lemma FourOctets(s: seq<byte>)
    requires |s| == 4 && 0xF0 <= s[0] <= 0xF4 && IsTail(s[1]) && IsTail(s[2]) && IsTail(s[3])
    requires s[0] == 0xF0 ==> s[1] >= 0x90
    requires s[0] == 0xF4 ==> s[1] < 0x90
    ensures var c := Value(s); 0x1_0000 <= c < 0x11_0000 && EncodeScalar(c) == s
  {
    var a: int, b: int, c: int, d: int := s[0], s[1], s[2], s[3];
    var v := Value(s);
    var w := (a - 0xF0) * 0x1000 + (b - 0x80) * 0x40 + (c - 0x80);
    assert v / 0x40 == w && v % 0x40 == d - 0x80;
    assert w / 0x40 == (a - 0xF0) * 0x40 + (b - 0x80) && w % 0x40 == c - 0x80;
    assert v / 0x1000 == w / 0x40 && v / 0x4_0000 == v / 0x1000 / 0x40;
  }

  /** The octets that a character starts with tell its length and its range (section 4 of RFC 3629). */
  lemma Octets(c: Scalar)
    ensures var s := EncodeScalar(c);
      && (forall k :: 1 <= k < |s| ==> IsTail(s[k]))
      && (|s| == 1 <==> s[0] < 0x80)
      && (|s| == 2 <==> 0xC2 <= s[0] < 0xE0)
      && (|s| == 3 <==> 0xE0 <= s[0] < 0xF0)
      && (|s| == 4 <==> 0xF0 <= s[0] <= 0xF4)
      && (s[0] == 0xE0 ==> s[1] >= 0xA0) && (s[0] == 0xED ==> s[1] < 0xA0)
      && (s[0] == 0xF0 ==> s[1] >= 0x90) && (s[0] == 0xF4 ==> s[1] < 0x90)
  {
    if c >= 0x1_0000 {
      var w := c / 0x1000;
      assert c / 0x4_0000 == w / 0x40;
      assert w >= 0x10 && w <= 0x10F;
    } else if c >= 0x800 {
      var w := c / 0x40;
      assert c / 0x1000 == w / 0x40;
      assert w >= 0x20 && (w < 0x360 || w >= 0x380) && w < 0x400;
    }
  }

  /** No encoding is a proper prefix of another, and none encodes two characters. */
  lemma SameStart(c: Scalar, d: Scalar, s: seq<byte>)
    requires EncodeScalar(c) <= s && EncodeScalar(d) <= s
    ensures c == d
  {
    var x, y := EncodeScalar(c), EncodeScalar(d);
    assert x == s[..|x|] && y == s[..|y|];
    Octets(c);
    Octets(d);
    assert x[0] == y[0];
    assert |x| == |y| && x == y;
    ValueOf(c);
    ValueOf(d);
  }

  lemma ValueOf(c: Scalar)
    ensures |EncodeScalar(c)| > 1 ==> Value(EncodeScalar(c)) == c
    ensures |EncodeScalar(c)| == 1 ==> EncodeScalar(c)[0] == c
  {
    if c >= 0x1_0000 {
      var w := c / 0x40;
      assert c / 0x1000 == w / 0x40 && c / 0x4_0000 == w / 0x40 / 0x40;
    } else if c >= 0x800 {
      assert c / 0x1000 == c / 0x40 / 0x40;
    }
  }

  // ---------------------------------------------------------------- strings

  /** The octets of some character stand at the start of s. */
  ghost predicate StartsScalar(s: seq<byte>) {
    exists c: Scalar :: EncodeScalar(c) <= s
  }

  lemma StartsWithScalar(s: seq<byte>)
    requires s != [] && IsUtf8(s)
    ensures StartsScalar(s)
  {
    var cs: seq<Scalar> :| Encode(cs) == s;
    assert EncodeScalar(cs[0]) <= s;
  }

  lemma AfterScalar(s: seq<byte>, c: Scalar)
    requires EncodeScalar(c) <= s
    ensures IsUtf8(s) <==> IsUtf8(s[|EncodeScalar(c)|..])
  {
    hide EncodeScalar;
    var x := EncodeScalar(c);
    var rest := s[|x|..];
    assert s == x + rest;
    if IsUtf8(rest) {
      var cs: seq<Scalar> :| Encode(cs) == rest;
      assert ([c] + cs)[1..] == cs;
      assert Encode([c] + cs) == s;
    }
    if IsUtf8(s) {
      var cs: seq<Scalar> :| Encode(cs) == s;
      assert EncodeScalar(cs[0]) <= s;
      SameStart(c, cs[0], s);
      assert Encode(cs[1..]) == rest;
    }
  }

  lemma PrefixAt(x: seq<byte>, s: seq<byte>)
    ensures x <= s ==> |x| <= |s| && forall k :: 0 <= k < |x| ==> x[k] == s[k]
  {
  }

  /** No character starts like s, so that s is not UTF-8. */
  lemma NoScalar(s: seq<byte>)
    requires s != [] && s[0] >= 0x80
    requires 0xC2 <= s[0] < 0xE0 ==> |s| < 2 || !IsTail(s[1])
    requires 0xE0 <= s[0] < 0xF0 ==>
               (|s| < 3 || !IsTail(s[1]) || !IsTail(s[2])
                || (s[0] == 0xE0 && s[1] < 0xA0) || (s[0] == 0xED && s[1] >= 0xA0))
    requires 0xF0 <= s[0] <= 0xF4 ==>
               (|s| < 4 || !IsTail(s[1]) || !IsTail(s[2]) || !IsTail(s[3])
                || (s[0] == 0xF0 && s[1] < 0x90) || (s[0] == 0xF4 && s[1] >= 0x90))
    ensures !StartsScalar(s) && !IsUtf8(s)
  {
    hide EncodeScalar, IsUtf8;
    forall c: Scalar ensures !(EncodeScalar(c) <= s) {
      PrefixAt(EncodeScalar(c), s);
      Octets(c);
    }
    if IsUtf8(s) {
      StartsWithScalar(s);
      assert false;
    }
  }

  /** The bit patterns that the code tests, as ranges. */
  predicate Continues(b: byte) {
    b / 0x40 == 2  // (b & 0xc0) == 0x80
  }

  lemma Patterns(b: byte)
    ensures Continues(b) <==> IsTail(b)
    ensures b >= 0x80 ==> (b / 0x20 % 4 == 2 <==> 0xC0 <= b < 0xE0)
    ensures b / 2 == 0x60 <==> b == 0xC0 || b == 0xC1
    ensures b / 0x10 == 0xE <==> 0xE0 <= b < 0xF0
    ensures b / 8 == 0x1E <==> 0xF0 <= b < 0xF8
    ensures b / 0x20 == 4 <==> 0x80 <= b < 0xA0
    ensures b / 0x20 == 5 <==> 0xA0 <= b < 0xC0
    ensures b / 0x10 == 8 <==> 0x80 <= b < 0x90
  {
  }

  /** isValidUtf8 accepts exactly the byte strings that encode some sequence of scalar values. */
  method IsValidUtf8(s: seq<byte>) returns (ok: bool)
    ensures ok <==> IsUtf8(s)
  {
    hide IsUtf8, EncodeScalar, Value;
    var i, e := 0, |s|;
    assert s[0..] == s;
    Empty();
    while i != e
      invariant 0 <= i <= e
      invariant IsUtf8(s) <==> IsUtf8(s[i..])
    {
      while s[i] < 0x80
        invariant 0 <= i < e
        invariant IsUtf8(s) <==> IsUtf8(s[i..])
        decreases e - i
      {
        Ascii(s, i);
        i := i + 1;
        if i == e {
          return true;
        }
      }
      var n := CharacterLength(s, i);
      if n == 0 {
        return false;
      }
      i := i + n;
    }
    assert s[e..] == [];
    ok := true;
  }

  lemma Empty()
    ensures IsUtf8([])
  {
    assert Encode([]) == [];
  }

  lemma Ascii(s: seq<byte>, i: nat)
    requires i < |s| && s[i] < 0x80
    ensures IsUtf8(s[i..]) <==> IsUtf8(s[i + 1..])
    ensures i + 1 == |s| ==> IsUtf8(s[i + 1..])
  {
    hide IsUtf8;
    Empty();
    assert i + 1 == |s| ==> s[i + 1..] == [];
    assert EncodeScalar(s[i]) <= s[i..];
    AfterScalar(s[i..], s[i]);
    assert s[i..][1..] == s[i + 1..];
  }

  /** The tests on a character of several octets: its length, or 0 if no character starts here. */
  method CharacterLength(s: seq<byte>, i: nat) returns (n: nat)
    requires i < |s| && s[i] >= 0x80
    ensures n == 0 <==> !StartsScalar(s[i..])
    ensures n > 0 ==> i + n <= |s| && exists c: Scalar :: EncodeScalar(c) == s[i..i + n]
    ensures n == 0 ==> !IsUtf8(s[i..])
    ensures n > 0 ==> (IsUtf8(s[i..]) <==> IsUtf8(s[i + n..]))
  {
    hide IsUtf8, EncodeScalar, Value;
    forall b: byte { Patterns(b); }
    ghost var t := s[i..];
    assert forall k :: 0 <= k < |t| ==> t[k] == s[i + k];
    if s[i] / 0x20 % 4 == 2 {
      if i + 1 >= |s| || !Continues(s[i + 1]) || s[i] / 2 == 0x60 {
        NoScalar(t);
        return 0;
      }
      n := 2;
      TwoOctets(t[..2]);
    } else if s[i] / 0x10 == 0xE {
      if i + 2 >= |s| || !Continues(s[i + 1]) || !Continues(s[i + 2])
         || (s[i] == 0xE0 && s[i + 1] / 0x20 == 4) || (s[i] == 0xED && s[i + 1] / 0x20 == 5) {
        NoScalar(t);
        return 0;
      }
      n := 3;
      ThreeOctets(t[..3]);
    } else if s[i] / 8 == 0x1E {
      if i + 3 >= |s| || !Continues(s[i + 1]) || !Continues(s[i + 2]) || !Continues(s[i + 3])
         || (s[i] == 0xF0 && s[i + 1] / 0x10 == 8) || (s[i] == 0xF4 && s[i + 1] > 0x8F) || s[i] > 0xF4 {
        NoScalar(t);
        return 0;
      }
      n := 4;
      FourOctets(t[..4]);
    } else {
      NoScalar(t);
      return 0;
    }
    assert EncodeScalar(Value(t[..n])) <= t && t[..n] == s[i..i + n];
    AfterScalar(t, Value(t[..n]));
    assert t[n..] == s[i + n..];
  }
}
