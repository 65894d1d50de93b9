/** Byte strings, the unsigned varint and the fixed-width integers of the wire formats. */
module Bytes {

  type byte = b: int | 0 <= b < 256

  datatype Option<+T> = None | Some(value: T)

  function Min(a: int, b: int): int {
    if a <= b then a else b
  }

  // ---------------------------------------------------------------- bitwise exclusive or

  /** Bitwise exclusive or of the low k bits. */
  function Xor(a: nat, b: nat, k: nat): nat
    decreases k
  {
    if k == 0 then 0 else (if a % 2 == b % 2 then 0 else 1) + 2 * Xor(a / 2, b / 2, k - 1)
  }

  function Pow2(k: nat): (p: nat)
    ensures p > 0
  {
    if k == 0 then 1 else 2 * Pow2(k - 1)
  }

  lemma {:induction false} XorBound(a: nat, b: nat, k: nat)
    ensures Xor(a, b, k) < Pow2(k)
  {
    if k > 0 {
      XorBound(a / 2, b / 2, k - 1);
    }
  }

  lemma {:induction false} XorInvolutive(a: nat, b: nat, k: nat)
    requires a < Pow2(k)
    ensures Xor(Xor(a, b, k), b, k) == a
  {
    if k > 0 {
      XorInvolutive(a / 2, b / 2, k - 1);
      var y := Xor(a, b, k);
      assert y % 2 == (if a % 2 == b % 2 then 0 else 1) && y / 2 == Xor(a / 2, b / 2, k - 1);
    }
  }

  /** Bit i of n. */
  predicate Bit(n: nat, i: nat) {
    if i == 0 then n % 2 == 1 else Bit(n / 2, i - 1)
  }

  lemma {:induction false} XorBits(a: nat, b: nat, k: nat, i: nat)
    requires i < k
    ensures Bit(Xor(a, b, k), i) <==> Bit(a, i) != Bit(b, i)
  {
    var x := Xor(a, b, k);
    assert x % 2 == (if a % 2 == b % 2 then 0 else 1) && x / 2 == Xor(a / 2, b / 2, k - 1);
    if i > 0 {
      XorBits(a / 2, b / 2, k - 1, i - 1);
    }
  }

  /** Exclusive or of two bytes, as the masking of WebSocket payloads uses it. */
  function XorByte(a: byte, b: byte): byte {
    assert Pow2(8) == 256;
    XorBound(a, b, 8);
    Xor(a, b, 8)
  }

  /** Every bit of the result tells whether the two bytes differ there. */
  lemma XorByteBits(a: byte, b: byte)
    ensures forall i :: 0 <= i < 8 ==> (Bit(XorByte(a, b), i) <==> Bit(a, i) != Bit(b, i))
  {
    forall i | 0 <= i < 8 ensures Bit(XorByte(a, b), i) <==> Bit(a, i) != Bit(b, i) {
      XorBits(a, b, 8, i);
    }
  }

  lemma XorByteInvolutive(a: byte, b: byte)
    ensures XorByte(XorByte(a, b), b) == a
  {
    assert Pow2(8) == 256;
    XorInvolutive(a, b, 8);
  }

  // ---------------------------------------------------------------- unsigned varint

  /** Little-endian base-128 encoding; the high bit of every byte but the last is set. */
  function PutUVarInt(n: nat): (s: seq<byte>)
    ensures |s| > 0
  {
    if n < 128 then [n] else [n % 128 + 128] + PutUVarInt(n / 128)
  }

  /** The number at the start of s and the number of bytes it takes, or None if s ends inside it. */
  function GetUVarInt(s: seq<byte>): (r: Option<(nat, nat)>)
    ensures r.Some? ==> 1 <= r.value.1 <= |s|
  {
    if s == [] then None
    else if s[0] < 128 then Some((s[0], 1))
    else match GetUVarInt(s[1..])
      case None => None
      case Some(r) => Some((s[0] - 128 + 128 * r.0, r.1 + 1))
  }

  const UINT32_LIMIT: nat := 0x1_0000_0000
  const UINT64_LIMIT: nat := 0x1_0000_0000_0000_0000

  /** Reads a varint that has to be below limit (ReadUVarInt and ReadUVarInt32). */
  function ReadUVarInt(s: seq<byte>, limit: nat): (r: Option<(nat, nat)>)
    ensures r.Some? ==> 1 <= r.value.1 <= |s| && r.value.0 < limit
  {
    match GetUVarInt(s)
    case None => None
    case Some(r) => if r.0 < limit then Some(r) else None
  }

  lemma {:induction false} VarIntRoundTrip(n: nat, rest: seq<byte>)
    ensures GetUVarInt(PutUVarInt(n) + rest) == Some((n, |PutUVarInt(n)|))
  {
    var s := PutUVarInt(n) + rest;
    if n >= 128 {
      VarIntRoundTrip(n / 128, rest);
      assert s[1..] == PutUVarInt(n / 128) + rest;
    }
  }

  /** The number that bytes stand for, seven bits in each, the lowest first. */
  function Base128(s: seq<byte>): nat {
    if s == [] then 0 else s[0] % 128 + 128 * Base128(s[1..])
  }

  /** A varint of k bytes at the start of s: the high bit of each but the last is set. */
  predicate StartsVarInt(s: seq<byte>, k: nat) {
    1 <= k <= |s| && s[k - 1] < 128 && forall i :: 0 <= i < k - 1 ==> s[i] >= 128
  }

  /** A number is written as the shortest varint that stands for it. */
  lemma {:induction false} VarIntWritten(n: nat)
    ensures var s := PutUVarInt(n);
      StartsVarInt(s, |s|) && Base128(s) == n && (|s| > 1 ==> s[|s| - 1] != 0)
  {
    if n >= 128 {
      VarIntWritten(n / 128);
      var s, rest := PutUVarInt(n), PutUVarInt(n / 128);
      assert s[1..] == rest;
      assert forall i :: 0 < i < |s| ==> s[i] == rest[i - 1];
    }
  }

  /** Of any bytes, a varint is read if and only if one of them has its high bit clear; the first such
      byte ends it. */
  lemma {:induction false} VarIntRead(s: seq<byte>)
    ensures match GetUVarInt(s)
      case None => forall i :: 0 <= i < |s| ==> s[i] >= 128
      case Some(r) => StartsVarInt(s, r.1) && r.0 == Base128(s[..r.1])
  {
    if s != [] && s[0] >= 128 {
      VarIntRead(s[1..]);
      assert forall i :: 0 < i < |s| ==> s[i] == s[1..][i - 1];
      var r := GetUVarInt(s[1..]);
      if r.Some? {
        assert s[..r.value.1 + 1][1..] == s[1..][..r.value.1];
      }
    }
  }

  /** No two varints start at the same place. */
  lemma VarIntIs(s: seq<byte>, k: nat)
    requires StartsVarInt(s, k)
    ensures GetUVarInt(s) == Some((Base128(s[..k]), k))
  {
    VarIntRead(s);
  }

  function Pow128(k: nat): (p: nat)
    ensures p > 0
  {
    if k == 0 then 1 else 128 * Pow128(k - 1)
  }

  lemma {:induction false} VarIntLength(n: nat, k: nat)
    requires k > 0 && n < Pow128(k)
    ensures |PutUVarInt(n)| <= k
  {
    if n >= 128 {
      assert k > 1 by { assert Pow128(1) == 128 * Pow128(0); }
      VarIntLength(n / 128, k - 1);
    }
  }

  /** kMaxVarintLen64 is 10, kMaxVarintLen32 is 5. */
  lemma VarIntMaxLengths(n: nat)
    ensures n < UINT64_LIMIT ==> |PutUVarInt(n)| <= 10
    ensures n < UINT32_LIMIT ==> |PutUVarInt(n)| <= 5
  {
    assert Pow128(2) == 128 * Pow128(1);
    assert Pow128(4) == 128 * 128 * Pow128(2);
    assert Pow128(5) == 128 * Pow128(4);
    assert Pow128(7) == 128 * 128 * Pow128(5);
    assert Pow128(9) == 128 * 128 * Pow128(7);
    assert Pow128(10) == 128 * Pow128(9);
    if n < UINT64_LIMIT { VarIntLength(n, 10); }
    if n < UINT32_LIMIT { VarIntLength(n, 5); }
  }

  // ---------------------------------------------------------------- big-endian integers

  type uint32 = n: int | 0 <= n < 0x1_0000_0000

  /** endian::enc32 */
  function Enc32(n: uint32): (s: seq<byte>)
    ensures |s| == 4
  {
    [n / 0x100_0000, n / 0x1_0000 % 0x100, n / 0x100 % 0x100, n % 0x100]
  }

  /** endian::dec32 */
  function Dec32(s: seq<byte>): uint32
    requires |s| == 4
  {
    var a: int, b: int, c: int, d: int := s[0], s[1], s[2], s[3];
    a * 0x100_0000 + b * 0x1_0000 + c * 0x100 + d
  }

  /** The number in the four bytes of s from position i on, the highest byte first. */
  function Big32(s: seq<byte>, i: nat): (n: int)
    requires i + 4 <= |s|
  {
    var a: int, b: int, c: int, d: int := s[i], s[i + 1], s[i + 2], s[i + 3];
    ((a * 0x100 + b) * 0x100 + c) * 0x100 + d
  }

  lemma Dec32IsBig32(s: seq<byte>, i: nat)
    requires i + 4 <= |s|
    ensures Dec32(s[i..i + 4]) == Big32(s, i)
  {
  }

  lemma Dec32Enc32(n: uint32)
    ensures Dec32(Enc32(n)) == n
  {
    var a, b := n / 0x100, n / 0x1_0000;
    assert b == a / 0x100 && n / 0x100_0000 == b / 0x100;
  }
}
