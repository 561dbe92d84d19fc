/** What the reader delivers for a whole buffer: when the block and its
    appendix are read, which status each malformed trailer produces, and
    what a successful read leaves in the record. */
module Outcome {
  import opened Types
  import opened Codec
  import opened Trailer
  import opened Record
  import opened Fields
  import opened Reader
  import opened Layout

  /** The appendix length the block at `s` stores in its last four bytes. */
  function AppendixLengthAt(buffer: seq<byte>, s: nat): nat
    requires Fits(buffer, s)
  {
    UintLE(buffer[BlockEnd(buffer, s) - 4 .. BlockEnd(buffer, s)])
  }

  /** The block at `s` and, when its length is positive, the appendix right
      after it lie inside the buffer. */
  predicate BlockFits(buffer: seq<byte>, s: nat) {
    && Fits(buffer, s)
    && (AppendixLengthAt(buffer, s) == 0 || BlockEnd(buffer, s) + AppendixLengthAt(buffer, s) <= |buffer|)
  }

  /** The facts about the walk from `s` that the block read builds on. */
  lemma {:induction false} BlockWalk(buffer: seq<byte>, s: nat, rec: Snapshot)
    requires Fits(buffer, s)
    ensures Walk(buffer, Table, s, rec).Some?
    ensures Walk(buffer, Table, s, rec).value.cursor == BlockEnd(buffer, s)
    ensures Get(Walk(buffer, Table, s, rec).value.rec, AppendixLength) == Some(U32(AppendixLengthAt(buffer, s)))
  {
    WalkResult(buffer, s, rec);
    WalkResultLength(buffer, s, BlockEnd(buffer, s), rec);
  }

  /** The block read from `s` succeeds exactly when the table and the
      appendix it announces fit in the buffer. */
  lemma {:induction false} BlockSucceedsIff(buffer: seq<byte>, s: nat, rec: Snapshot)
    ensures Block(buffer, s, rec).Some? <==> BlockFits(buffer, s)
  {
    WalkSucceedsIff(buffer, s, rec);
    if Fits(buffer, s) {
      BlockWalk(buffer, s, rec);
    }
  }

  /** After a successful block read the appendix slot holds the
      `AppendixLengthAt` bytes that follow the block, NUL-terminated, when
      that length is positive, and is as it was otherwise; the length slot
      holds that length. */
  lemma {:induction false} BlockAppendix(buffer: seq<byte>, s: nat, rec: Snapshot)
    requires BlockFits(buffer, s)
    ensures Block(buffer, s, rec).Some?
    ensures var r := Block(buffer, s, rec).value;
      var e := BlockEnd(buffer, s);
      var n := AppendixLengthAt(buffer, s);
      && Get(r, AppendixLength) == Some(U32(n))
      && Get(r, Appendix) == (if n > 0 then Some(Chars(buffer[e .. e + n] + [0])) else Get(rec, Appendix))
  {
    BlockSucceedsIff(buffer, s, rec);
    BlockWalk(buffer, s, rec);
    WalkResult(buffer, s, rec);
  }

  /** After a successful block read version, width, height, date and matrix
      are the ones stored at s, s + 2, s + 4, s + 6 and s + 20. */
  lemma {:induction false} BlockLeading(buffer: seq<byte>, s: nat, rec: Snapshot)
    requires BlockFits(buffer, s)
    ensures Block(buffer, s, rec).Some?
    ensures var r := Block(buffer, s, rec).value;
      && Get(r, Version) == Some(U16At(buffer, s))
      && Get(r, Width) == Some(U16At(buffer, s + 2))
      && Get(r, Height) == Some(U16At(buffer, s + 4))
      && Get(r, Date) == Some(Chars(buffer[s + 6 .. s + MatrixOffset] + [0]))
      && Get(r, Matrix) == Some(Floats(Cells(buffer, s + MatrixOffset, CountAt(buffer, s))))
  {
    BlockSucceedsIff(buffer, s, rec);
    WalkResult(buffer, s, rec);
  }

  /** After a successful block read the slot of entry `k` after the matrix
      holds that entry decoded where the entries before it end; the appendix
      read leaves these slots alone. */
  lemma {:induction false} BlockTrailing(buffer: seq<byte>, s: nat, rec: Snapshot, k: nat)
    requires BlockFits(buffer, s) && k < |Tail|
    ensures Block(buffer, s, rec).Some?
    ensures Get(Block(buffer, s, rec).value, Tail[k].slot)
      == DecodeField(buffer, MatrixEnd(buffer, s) + Span(Tail[..k]), Tail[k])
  {
    BlockSucceedsIff(buffer, s, rec);
    WalkTrailing(buffer, s, rec, k);
    var p := Walk(buffer, Table, s, rec).value;
    assert Tail[k].slot != Appendix by {
      TailShape();
      assert TailEntry(Tail[k]);
    }
    WithChangesOnlyItsSlot(p.rec, Appendix, DecodeField(buffer, p.cursor, AppendixField(UintOf(Get(p.rec, AppendixLength)))), Tail[k].slot);
  }

  /** After a successful block read every table slot is filled. */
  lemma {:induction false} BlockFilled(buffer: seq<byte>, s: nat, rec: Snapshot)
    requires Block(buffer, s, rec).Some?
    ensures forall j :: 0 <= j < |Table| ==> Get(Block(buffer, s, rec).value, Table[j].slot).Some?
  {
    WalkFills(buffer, s, rec);
    var p := Walk(buffer, Table, s, rec).value;
    forall j | 0 <= j < |Table|
      ensures Get(Block(buffer, s, rec).value, Table[j].slot).Some?
    {
      WithChangesOnlyItsSlot(p.rec, Appendix, DecodeField(buffer, p.cursor, AppendixField(UintOf(Get(p.rec, AppendixLength)))), Table[j].slot);
    }
  }

  /** A buffer the reader accepts: it ends with the signature, the offset in
      front of the signature is not 0, and the block it points to fits. */
  predicate Accepted(buffer: seq<byte>) {
    && VerifyEof(buffer) == Success
    && GetOffset(buffer) != 0
    && BlockFits(buffer, GetOffset(buffer))
  }

  /** The reader succeeds on a non-empty buffer exactly when it accepts it. */
  lemma {:induction false} DecodeSucceedsIff(buffer: seq<byte>, rec: Snapshot)
    ensures Decode(buffer, rec).0 == Success <==> Accepted(buffer)
  {
    if VerifyEof(buffer) == Success && GetOffset(buffer) != 0 {
      BlockSucceedsIff(buffer, GetOffset(buffer), rec);
    }
  }

  /** A buffer whose trailing offset is 0 is rejected with `InvalidOffset`,
      whatever precedes it, and the record is released. */
  lemma {:induction false} ZeroOffsetRejected(prefix: seq<byte>, rec: Snapshot)
    ensures Decode(prefix + [0, 0, 0, 0] + Signature, rec) == (InvalidOffset, Empty())
  {
    var buffer := prefix + [0, 0, 0, 0] + Signature;
    assert buffer == (prefix + [0, 0, 0, 0]) + Signature;
    VerifyEofIff(buffer);
    GetOffsetOfTrailer(prefix, [0, 0, 0, 0], Signature);
    assert UintLE([0, 0, 0, 0]) == 0;
  }

  /** A buffer with a single wrong byte in its last sixteen is rejected with
      `InvalidEof` before anything else is looked at, and the record is
      released. */
  lemma {:induction false} CorruptTrailerRejected(buffer: seq<byte>, i: nat, rec: Snapshot)
    requires |buffer| >= EofBytes && i < EofBytes
    requires buffer[|buffer| - EofBytes + i] != Signature[i]
    ensures Decode(buffer, rec) == (InvalidEof, Empty())
  {
    CorruptSignatureRejected(buffer, i);
  }

  /** A buffer too short to hold the offset and the signature is rejected:
      as an invalid EOF when its signature check fails, and otherwise as an
      invalid offset, because the locator then reports 0. */
  lemma {:induction false} ShortBufferRejected(buffer: seq<byte>, rec: Snapshot)
    requires |buffer| < EofBytes + OffsetBytes
    ensures Decode(buffer, rec) == (if VerifyEof(buffer) == Success then InvalidOffset else InvalidEof, Empty())
  {
    assert GetOffset(buffer) == 0;
  }

  /** A block whose table overruns the buffer is rejected with
      `FieldReadFailed`, and the record is released. */
  lemma {:induction false} TruncatedBlockRejected(buffer: seq<byte>, rec: Snapshot)
    requires VerifyEof(buffer) == Success && GetOffset(buffer) != 0
    requires !Fits(buffer, GetOffset(buffer))
    ensures Decode(buffer, rec) == (FieldReadFailed, Empty())
  {
    BlockSucceedsIff(buffer, GetOffset(buffer), rec);
  }
}
