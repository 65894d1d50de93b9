/** The running checksum and the uncompressed mode of Codec (src/util/Codec.cc). */
module Codecs {
  import opened Bytes

  const CHECKSUM_SIZE := 4

  // ---------------------------------------------------------------- CRC-32

  /** One byte's step of the checksum. No property of the polynomial is used, so it is left open:
      everything proved here holds of every byte-wise checksum. */
  const CRC_STEP: (uint32, byte) -> uint32

  function CrcFold(c: uint32, data: seq<byte>): uint32
    decreases data
  {
    if data == [] then c else CrcFold(CRC_STEP(c, data[0]), data[1..])
  }

  /** zlib's crc32(crc, data): the checksum of some data continued over more data. */
  function Crc32(crc: uint32, data: seq<byte>): uint32 {
    0xFFFF_FFFF - CrcFold(0xFFFF_FFFF - crc, data)
  }

  lemma {:induction false} CrcFoldAppend(c: uint32, a: seq<byte>, b: seq<byte>)
    ensures CrcFold(c, a + b) == CrcFold(CrcFold(c, a), b)
    decreases a
  {
    if a == [] {
      assert a + b == b;
    } else {
      assert (a + b)[1..] == a[1..] + b;
      CrcFoldAppend(CRC_STEP(c, a[0]), a[1..], b);
    }
  }

  /** The running checksum depends on the bytes only, not on how they were cut into writes. */
  lemma Crc32Append(crc: uint32, a: seq<byte>, b: seq<byte>)
    ensures Crc32(crc, a + b) == Crc32(Crc32(crc, a), b)
  {
    hide CrcFold;
    CrcFoldAppend(0xFFFF_FFFF - crc, a, b);
  }

  lemma Crc32Empty(crc: uint32)
    ensures Crc32(crc, []) == crc
  {
  }

  /** One byte more is one step more, on the complement of the checksum: every byte counts. */
  lemma Crc32Next(crc: uint32, data: seq<byte>, b: byte)
    ensures Crc32(crc, data + [b]) == 0xFFFF_FFFF - CRC_STEP(0xFFFF_FFFF - Crc32(crc, data), b)
  {
    CrcFoldAppend(0xFFFF_FFFF - crc, data, [b]);
    assert CrcFold(CrcFold(0xFFFF_FFFF - crc, data), [b]) == CRC_STEP(CrcFold(0xFFFF_FFFF - crc, data), b) by {
      assert [b][1..] == [];
    }
  }

  // ---------------------------------------------------------------- the codec object

  class Codec {
    var checksum: uint32

    constructor ()
      ensures checksum == Crc32(0, [])
    {
      checksum := Crc32(0, []);
    }

    method AddToChecksum(data: seq<byte>)
      modifies this
      ensures checksum == Crc32(old(checksum), data)
    {
      checksum := Crc32(checksum, data);
    }

    /** The four bytes written at the end of a frame. */
    method WriteChecksum() returns (output: seq<byte>)
      ensures |output| == CHECKSUM_SIZE && Dec32(output) == checksum
      ensures output == Enc32(checksum)
    {
      output := Enc32(checksum);
      Dec32Enc32(checksum);
    }

    /** False where the source throws CorruptData. */
    method ReadAndVerifyChecksum(input: seq<byte>) returns (ok: bool)
      ensures ok <==> |input| >= CHECKSUM_SIZE && Dec32(input[..CHECKSUM_SIZE]) == checksum
    {
      if |input| < CHECKSUM_SIZE {
        return false;
      }
      ok := Dec32(input[..CHECKSUM_SIZE]) == checksum;
    }

    /** Copies as much of input as fits into room bytes of output, advancing both. */
    method WriteRaw(input: seq<byte>, room: nat) returns (written: seq<byte>, rest: seq<byte>)
      requires room > 0
      modifies this
      ensures written + rest == input
      ensures |written| == Min(|input|, room)
      ensures written == input[..Min(|input|, room)] && rest == input[Min(|input|, room)..]
      ensures checksum == Crc32(old(checksum), written)
    {
      var count := Min(|input|, room);
      AddToChecksum(input[..count]);
      written, rest := input[..count], input[count..];
    }
  }
}
