/** Trailer locator: the last 16 bytes of a file carrying an SGJW block are a
    fixed signature, and the 4 bytes before them hold the little-endian
    absolute offset of the block's first field. */
module Trailer {
  import opened Types
  import opened Codec

  const EofBytes: nat := 16
  const OffsetBytes: nat := 4

  const Signature: seq<byte> := [
    0x37, 0x66, 0x07, 0x1A, 0x12, 0x3A, 0x4C, 0x9F,
    0xA9, 0x5D, 0x21, 0xD2, 0xDA, 0x7D, 0x26, 0xBC
  ]

  /** `Binary_Verification_EOF`. */
  function VerifyEof(buffer: seq<byte>): (r: Status)
    ensures r == Success || r == InvalidEof
  {
    if |buffer| < EofBytes then InvalidEof
    else if buffer[|buffer| - EofBytes..] == Signature then Success
    else InvalidEof
  }

  /** The check accepts exactly the buffers that end with the signature. */
  lemma VerifyEofIff(buffer: seq<byte>)
    ensures VerifyEof(buffer) == Success <==> exists prefix :: buffer == prefix + Signature
  {
    if VerifyEof(buffer) == Success {
      var prefix := buffer[..|buffer| - EofBytes];
      assert buffer == prefix + Signature;
    }
    if exists prefix :: buffer == prefix + Signature {
      var prefix :| buffer == prefix + Signature;
      assert buffer[|buffer| - EofBytes..] == Signature;
    }
  }

  /** A single differing byte anywhere in the last 16 is rejected, whatever
      the length of the buffer. */
  lemma {:induction false} CorruptSignatureRejected(buffer: seq<byte>, i: nat)
    requires |buffer| >= EofBytes
    requires i < EofBytes
    requires buffer[|buffer| - EofBytes + i] != Signature[i]
    ensures VerifyEof(buffer) == InvalidEof
  {
    assert buffer[|buffer| - EofBytes..][i] != Signature[i];
  }

  /** `Binary_Get_Offsite`: 0 for a buffer too short to hold the offset and
      the signature, otherwise the little-endian u32 right before them. */
  function GetOffset(buffer: seq<byte>): (r: uint32)
    ensures r != 0 ==> |buffer| >= EofBytes + OffsetBytes
  {
    if |buffer| < EofBytes + OffsetBytes then 0
    else UintLE(buffer[|buffer| - EofBytes - OffsetBytes .. |buffer| - EofBytes])
  }

  /** The offset is read from the four bytes in front of the last sixteen,
      whatever those sixteen and the bytes before the offset are. */
  lemma {:induction false} GetOffsetOfTrailer(prefix: seq<byte>, pointer: seq<byte>, tail: seq<byte>)
    requires |pointer| == OffsetBytes && |tail| == EofBytes
    ensures GetOffset(prefix + pointer + tail) == UintLE(pointer)
  {
    var buffer := prefix + pointer + tail;
    assert buffer[|buffer| - EofBytes - OffsetBytes .. |buffer| - EofBytes] == pointer;
  }
}
