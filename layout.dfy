/** The block layout that the reader's field table implies: where each field
    sits relative to the located offset, how far the cursor moves, when the
    walk succeeds, and what a successful walk leaves in the record. */
module Layout {
  import opened Types
  import opened Codec
  import opened Record
  import opened Fields
  import opened Reader

  /** Bytes before the matrix: version, width, height and date. */
  const MatrixOffset: nat := 20
  /** Bytes of the thirteen fields after the matrix. */
  const TailLength: nat := 138

  /** The 2-byte integer field at `c`. */
  function U16At(buffer: seq<byte>, c: nat): Value
    requires c + 2 <= |buffer|
  {
    U16(UintLE(buffer[c .. c + 2]))
  }

  /** Width and height as the block at `s` stores them. */
  function WidthAt(buffer: seq<byte>, s: nat): nat
    requires s + 4 <= |buffer|
  {
    U16At(buffer, s + 2).u16
  }

  function HeightAt(buffer: seq<byte>, s: nat): nat
    requires s + 6 <= |buffer|
  {
    U16At(buffer, s + 4).u16
  }

  /** The matrix element count, width * height. */
  function CountAt(buffer: seq<byte>, s: nat): nat
    requires s + 6 <= |buffer|
  {
    WidthAt(buffer, s) * HeightAt(buffer, s)
  }

  /** The cursor after the matrix. */
  function MatrixEnd(buffer: seq<byte>, s: nat): nat
    requires s + 6 <= |buffer|
  {
    s + MatrixOffset + 4 * Max1(CountAt(buffer, s))
  }

  /** The cursor after the last table entry. */
  function BlockEnd(buffer: seq<byte>, s: nat): nat
    requires s + 6 <= |buffer|
  {
    MatrixEnd(buffer, s) + TailLength
  }

  /** The whole table fits in the buffer from `s`. */
  predicate Fits(buffer: seq<byte>, s: nat) {
    s + 6 <= |buffer| && BlockEnd(buffer, s) <= |buffer|
  }

  /** The first five entries fit: up to and including the matrix cells. */
  predicate PrefixFits(buffer: seq<byte>, s: nat) {
    s + 6 <= |buffer| && s + MatrixOffset + 4 * CountAt(buffer, s) <= |buffer|
  }

  /** The record after the first five entries. */
  function PrefixRecord(buffer: seq<byte>, s: nat, rec: Snapshot): Snapshot
    requires PrefixFits(buffer, s)
  {
    FromWidth(buffer, s, With(rec, Version, Some(U16At(buffer, s))))
  }

  /** The record after entries 1 to 4, from the record `r1` before them. */
  function FromWidth(buffer: seq<byte>, s: nat, r1: Snapshot): Snapshot
    requires PrefixFits(buffer, s)
  {
    FromHeight(buffer, s, With(r1, Width, Some(U16At(buffer, s + 2))))
  }

  function FromHeight(buffer: seq<byte>, s: nat, r2: Snapshot): Snapshot
    requires PrefixFits(buffer, s)
  {
    FromDate(buffer, s, With(r2, Height, Some(U16At(buffer, s + 4))))
  }

  function FromDate(buffer: seq<byte>, s: nat, r3: Snapshot): Snapshot
    requires PrefixFits(buffer, s)
  {
    var r4 := With(r3, Date, Some(Chars(buffer[s + 6 .. s + MatrixOffset] + [0])));
    With(r4, Matrix, Some(Floats(Cells(buffer, s + MatrixOffset, CountAt(buffer, s)))))
  }

  /** The entries after the matrix. */
  const Tail: seq<FieldInfo> := Table[5..]

  /** The bytes the descriptors `infos` advance the cursor by, none of them
      being the matrix. */
  function Span(infos: seq<FieldInfo>): nat
    decreases |infos|
  {
    if infos == [] then 0 else AllocSize(infos[0]) + Span(infos[1..])
  }

  /** An entry after the matrix: a count-0 entry (one integer, float or
      character array) read exactly as wide as it advances the cursor, into
      none of the five leading slots nor the appendix. */
  predicate TailEntry(info: FieldInfo) {
    && info.kind != FloatMatrix
    && info.count == 0
    && AllocSize(info) == ReadExtent(info)
    && info.slot != Version && info.slot != Width && info.slot != Height
    && info.slot != Date && info.slot != Matrix && info.slot != Appendix
  }

  predicate AllTail(infos: seq<FieldInfo>) {
    forall k :: 0 <= k < |infos| ==> TailEntry(infos[k])
  }

  /** The descriptor of the appendix length, the last entry of the table. */
  const LengthEntry: FieldInfo := FieldInfo(AppendixLength, AppendixLengthBytes, 0, UInt32)

  /** The thirteen entries after the matrix are all tail entries and end
      with the appendix length. */
  lemma TailShape()
    ensures |Tail| == 13 && AllTail(Tail) && Tail[12] == LengthEntry
  {
  }

  /** The last seven entries after the matrix span 120 bytes. */
  lemma TailLengthLast()
    ensures Span(Tail[6..]) == 120
  {
    assert Tail[12..] == [LengthEntry];
    assert Span(Tail[12..]) == 4;
    assert Span(Tail[11..]) == 8;
    assert Span(Tail[10..]) == 16;
    assert Span(Tail[9..]) == 24;
    assert Span(Tail[8..]) == 56;
    assert Span(Tail[7..]) == 88;
  }

  lemma TailLengthValue()
    ensures Span(Tail) == TailLength
  {
    TailLengthLast();
    assert Span(Tail[5..]) == 124;
    assert Span(Tail[4..]) == 125;
    assert Span(Tail[3..]) == 129;
    assert Span(Tail[2..]) == 130;
    assert Span(Tail[1..]) == 134;
    assert Tail[0..] == Tail;
  }

  /** What follows a tail entry is tail entries too. */
  lemma {:induction false} TailRest(infos: seq<FieldInfo>)
    requires infos != [] && AllTail(infos)
    ensures TailEntry(infos[0]) && AllTail(infos[1..])
  {
    assert forall k :: 0 <= k < |infos| - 1 ==> infos[1..][k] == infos[k + 1];
  }

  /** A tail entry whose bytes do not fit fails the walk. */
  lemma {:induction false} TailStops(buffer: seq<byte>, infos: seq<FieldInfo>, c: nat, rec: Snapshot)
    requires infos != [] && TailEntry(infos[0])
    requires c + AllocSize(infos[0]) > |buffer|
    ensures Walk(buffer, infos, c, rec).None?
  {
    WalkStops(buffer, infos, c, rec, infos[0]);
  }

  /** A tail entry whose bytes fit hands on the cursor moved by its size. */
  lemma {:induction false} TailAdvances(buffer: seq<byte>, infos: seq<FieldInfo>, c: nat, next: nat, rec: Snapshot)
    requires infos != [] && TailEntry(infos[0])
    requires next == c + AllocSize(infos[0]) && next <= |buffer|
    ensures Walk(buffer, infos, c, rec)
      == Walk(buffer, infos[1..], next, With(rec, infos[0].slot, DecodeField(buffer, c, infos[0])))
  {
    var info := infos[0];
    WalkAdvances(buffer, infos, c, rec, info, next, With(rec, info.slot, DecodeField(buffer, c, info)));
  }

  /** The entries after the matrix succeed exactly when their bytes fit, and
      then leave the cursor at `e`, `Span(infos)` past `c`. */
  lemma {:induction false} WalkTailCursor(buffer: seq<byte>, infos: seq<FieldInfo>, c: nat, e: nat, rec: Snapshot)
    requires AllTail(infos)
    requires e == c + Span(infos)
    requires infos == [] ==> c <= |buffer|
    decreases |infos|
    ensures Walk(buffer, infos, c, rec).Some? <==> e <= |buffer|
    ensures Walk(buffer, infos, c, rec).Some? ==> Walk(buffer, infos, c, rec).value.cursor == e
  {
    if infos != [] {
      TailRest(infos);
      var next := c + AllocSize(infos[0]);
      if next <= |buffer| {
        TailAdvances(buffer, infos, c, next, rec);
        WalkTailCursor(buffer, infos[1..], next, e, With(rec, infos[0].slot, DecodeField(buffer, c, infos[0])));
      } else {
        TailStops(buffer, infos, c, rec);
      }
    }
  }

  /** The five leading slots and the appendix. */
  predicate Leading(t: Slot) {
    t == Version || t == Width || t == Height || t == Date || t == Matrix || t == Appendix
  }

  /** No descriptor of `infos` names the slot `t`. */
  predicate Unnamed(infos: seq<FieldInfo>, t: Slot) {
    forall k :: 0 <= k < |infos| ==> infos[k].slot != t
  }

  /** Every leading slot is one no tail entry names. */
  lemma {:induction false} LeadingUnnamed(infos: seq<FieldInfo>, t: Slot)
    requires AllTail(infos) && Leading(t)
    ensures Unnamed(infos, t)
  {
    forall k | 0 <= k < |infos|
      ensures infos[k].slot != t
    {
      assert TailEntry(infos[k]);
    }
  }

  /** The entries after the matrix leave alone every slot none of them
      names, the leading slots among them. */
  lemma {:induction false} WalkTailKeeps(buffer: seq<byte>, infos: seq<FieldInfo>, c: nat, rec: Snapshot, t: Slot)
    requires AllTail(infos)
    requires Unnamed(infos, t)
    decreases |infos|
    ensures Walk(buffer, infos, c, rec).Some? ==> Get(Walk(buffer, infos, c, rec).value.rec, t) == Get(rec, t)
  {
    if infos != [] {
      TailRest(infos);
      var next := c + AllocSize(infos[0]);
      if next <= |buffer| {
        TailAdvances(buffer, infos, c, next, rec);
        var rec' := With(rec, infos[0].slot, DecodeField(buffer, c, infos[0]));
        assert forall k :: 0 <= k < |infos| - 1 ==> infos[1..][k] == infos[k + 1];
        WalkTailKeeps(buffer, infos[1..], next, rec', t);
        WithChangesOnlyItsSlot(rec, infos[0].slot, DecodeField(buffer, c, infos[0]), t);
      } else {
        TailStops(buffer, infos, c, rec);
      }
    }
  }

  /** No two descriptors of `infos` name the same slot. */
  predicate DistinctSlots(infos: seq<FieldInfo>) {
    forall a, b :: 0 <= a < b < |infos| ==> infos[a].slot != infos[b].slot
  }

  /** Among distinct descriptors, no entry after entry `k` names its slot. */
  lemma {:induction false} DistinctUnnamed(infos: seq<FieldInfo>, k: nat)
    requires DistinctSlots(infos) && k < |infos|
    ensures Unnamed(infos[k + 1..], infos[k].slot)
  {
    assert forall j :: k < j < |infos| ==> infos[k + 1..][j - k - 1] == infos[j];
  }

  /** The span of the first `k` descriptors is the first one's size plus the
      span of the `k - 1` after it. */
  lemma {:induction false} SpanPrefixStep(infos: seq<FieldInfo>, k: nat)
    requires 0 < k <= |infos|
    ensures Span(infos[..k]) == AllocSize(infos[0]) + Span(infos[1..][..k - 1])
  {
    assert infos[..k][0] == infos[0];
    assert infos[..k][1..] == infos[1..][..k - 1];
  }

  /** After a successful walk over tail entries none of which after the first
      names its slot, that slot holds the first entry decoded at `c`. */
  lemma {:induction false} WalkTailFirst(buffer: seq<byte>, infos: seq<FieldInfo>, c: nat, rec: Snapshot)
    requires AllTail(infos) && infos != [] && Unnamed(infos[1..], infos[0].slot)
    ensures Walk(buffer, infos, c, rec).Some? ==>
      Get(Walk(buffer, infos, c, rec).value.rec, infos[0].slot) == DecodeField(buffer, c, infos[0])
  {
    TailRest(infos);
    var next := c + AllocSize(infos[0]);
    if next <= |buffer| {
      TailAdvances(buffer, infos, c, next, rec);
      var rec' := With(rec, infos[0].slot, DecodeField(buffer, c, infos[0]));
      WalkTailKeeps(buffer, infos[1..], next, rec', infos[0].slot);
      WithChangesOnlyItsSlot(rec, infos[0].slot, DecodeField(buffer, c, infos[0]), infos[0].slot);
    } else {
      TailStops(buffer, infos, c, rec);
    }
  }

  /** Entry `k - 1` of `rest`, given as `entry` at `at`, the cursor plus the
      span of the entries before it, is where the walk over `rest` from `next`
      leaves it. */
  lemma {:induction false} TailValueStep(buffer: seq<byte>, rest: seq<FieldInfo>, next: nat, rec': Snapshot, k: nat,
                                         entry: FieldInfo, at: nat)
    requires AllTail(rest) && 0 < k <= |rest| && Unnamed(rest[k..], rest[k - 1].slot)
    requires entry == rest[k - 1] && at == next + Span(rest[..k - 1])
    decreases k, 0
    ensures Walk(buffer, rest, next, rec').Some? ==>
      Get(Walk(buffer, rest, next, rec').value.rec, entry.slot) == DecodeField(buffer, at, entry)
  {
    WalkTailValue(buffer, rest, next, rec', k - 1);
  }

  /** Entry `k` of `infos` is entry `k - 1` of `rest`, and the entries after
      it are the same in both. */
  lemma {:induction false} UnnamedStep(infos: seq<FieldInfo>, rest: seq<FieldInfo>, k: nat)
    requires 0 < k < |infos| && rest == infos[1..]
    requires Unnamed(infos[k + 1..], infos[k].slot)
    ensures Unnamed(rest[k..], rest[k - 1].slot)
  {
    assert rest[k..] == infos[k + 1..];
    assert rest[k - 1] == infos[k];
  }

  /** After a successful walk over tail entries, the slot of entry `k`, which
      no later entry names, holds that entry decoded at `c` plus the span of
      the entries before it. */
  lemma {:induction false} WalkTailValue(buffer: seq<byte>, infos: seq<FieldInfo>, c: nat, rec: Snapshot, k: nat)
    requires AllTail(infos) && k < |infos| && Unnamed(infos[k + 1..], infos[k].slot)
    decreases k, 3
    ensures Walk(buffer, infos, c, rec).Some? ==>
      Get(Walk(buffer, infos, c, rec).value.rec, infos[k].slot) == DecodeField(buffer, c + Span(infos[..k]), infos[k])
  {
    if k == 0 {
      WalkTailFirst(buffer, infos, c, rec);
      assert infos[..0] == [];
    } else {
      WalkTailLater(buffer, infos, c, rec, k);
    }
  }

  /** `WalkTailValue` for an entry after the first: a walk whose first entry
      does not fit fails, and one whose first entry fits goes on with the
      rest, which `WalkTailPast` handles. */
  lemma {:induction false} WalkTailLater(buffer: seq<byte>, infos: seq<FieldInfo>, c: nat, rec: Snapshot, k: nat)
    requires AllTail(infos) && 0 < k < |infos| && Unnamed(infos[k + 1..], infos[k].slot)
    decreases k, 2
    ensures Walk(buffer, infos, c, rec).Some? ==>
      Get(Walk(buffer, infos, c, rec).value.rec, infos[k].slot) == DecodeField(buffer, c + Span(infos[..k]), infos[k])
  {
    TailRest(infos);
    var next := c + AllocSize(infos[0]);
    if next <= |buffer| {
      TailAdvances(buffer, infos, c, next, rec);
      WalkTailPast(buffer, infos, c, next, k, infos[1..], With(rec, infos[0].slot, DecodeField(buffer, c, infos[0])));
    } else {
      TailStops(buffer, infos, c, rec);
    }
  }

  /** The walk over the entries after the first, from the cursor `next` past
      the first, finds entry `k - 1` of them where entry `k` of `infos` lies. */
  lemma {:induction false} WalkTailPast(buffer: seq<byte>, infos: seq<FieldInfo>, c: nat, next: nat, k: nat,
                                        rest: seq<FieldInfo>, rec': Snapshot)
    requires AllTail(infos) && 0 < k < |infos| && Unnamed(infos[k + 1..], infos[k].slot)
    requires next == c + AllocSize(infos[0]) && rest == infos[1..]
    decreases k, 1
    ensures Walk(buffer, rest, next, rec').Some? ==>
      Get(Walk(buffer, rest, next, rec').value.rec, infos[k].slot) == DecodeField(buffer, c + Span(infos[..k]), infos[k])
  {
    if Walk(buffer, rest, next, rec').Some? {
      TailRest(infos);
      UnnamedStep(infos, rest, k);
      SpanPrefixStep(infos, k);
      TailValueStep(buffer, rest, next, rec', k, infos[k], c + Span(infos[..k]));
    }
  }

  /** The field table names the members in record order. */
  lemma TableInRecordOrder()
    ensures forall i :: 0 <= i < |Table| ==> Table[i].slot == ReleaseOrder[i]
  {
  }

  /** The entries after the matrix name thirteen different slots. */
  lemma TailSlotsDistinct()
    ensures DistinctSlots(Tail)
  {
    TableInRecordOrder();
    ReleaseOrderCoversRecord(Version);
    assert forall k :: 0 <= k < |Tail| ==> Tail[k] == Table[k + 5];
  }

  /** The appendix length as the last entry, read from the four bytes before
      `e`. */
  lemma {:induction false} WalkLastEntry(buffer: seq<byte>, infos: seq<FieldInfo>, c: nat, e: nat, rec: Snapshot)
    requires infos == [LengthEntry]
    requires e == c + AppendixLengthBytes && e <= |buffer|
    ensures Walk(buffer, infos, c, rec).Some?
    ensures Get(Walk(buffer, infos, c, rec).value.rec, AppendixLength) == Some(U32(UintLE(buffer[e - 4 .. e])))
  {
    var v := DecodeField(buffer, c, LengthEntry);
    assert v == Some(U32(UintLE(buffer[e - 4 .. e])));
    WalkAdvances(buffer, infos, c, rec, LengthEntry, e, With(rec, AppendixLength, v));
    assert infos[1..] == [];
  }

  /** The last entry read is the appendix length, from the four bytes before
      the final cursor `e`. */
  lemma {:induction false} WalkTailLength(buffer: seq<byte>, infos: seq<FieldInfo>, c: nat, e: nat, rec: Snapshot)
    requires AllTail(infos) && infos != [] && infos[|infos| - 1] == LengthEntry
    requires e == c + Span(infos) && e <= |buffer|
    decreases |infos|
    ensures e >= 4
    ensures Walk(buffer, infos, c, rec).Some? ==>
      Get(Walk(buffer, infos, c, rec).value.rec, AppendixLength) == Some(U32(UintLE(buffer[e - 4 .. e])))
  {
    TailRest(infos);
    var next := c + AllocSize(infos[0]);
    if |infos| > 1 {
      TailAdvances(buffer, infos, c, next, rec);
      WalkTailLength(buffer, infos[1..], next, e, With(rec, infos[0].slot, DecodeField(buffer, c, infos[0])));
    } else {
      assert infos == [LengthEntry];
      assert Span(infos[1..]) == 0;
      WalkLastEntry(buffer, infos, c, e, rec);
    }
  }

  /** The steps through the first entries pass from `Table[i..]` to
      `Table[i + 1..]`. */
  lemma DropNext(i: nat)
    requires i < |Table|
    ensures Table[i..] != [] && Table[i..][0] == Table[i] && Table[i..][1..] == Table[i + 1..]
  {
  }

  /** Entries 0 to 2 (version, width, height): a 2-byte integer from `c` to
      `next`. */
  lemma {:induction false} Uint16Step(buffer: seq<byte>, i: nat, slot: Slot, c: nat, next: nat, rec: Snapshot)
    requires i < 3 && slot == Table[i].slot && next == c + 2
    ensures next > |buffer| ==> Walk(buffer, Table[i..], c, rec).None?
    ensures next <= |buffer| ==>
      Walk(buffer, Table[i..], c, rec) == Walk(buffer, Table[i + 1..], next, With(rec, slot, Some(U16At(buffer, c))))
  {
    DropNext(i);
    var info := Table[i];
    assert info.kind == UInt16 && info.size == 2 && info.count == 0;
    if next > |buffer| {
      WalkStops(buffer, Table[i..], c, rec, info);
    } else {
      WalkAdvances(buffer, Table[i..], c, rec, info, next, With(rec, info.slot, DecodeField(buffer, c, info)));
    }
  }

  /** Entry 3: the 14-byte date from `c` to `next`, kept with its terminator. */
  lemma {:induction false} DateStep(buffer: seq<byte>, c: nat, next: nat, rec: Snapshot)
    requires next == c + DateBytes
    ensures next > |buffer| ==> Walk(buffer, Table[3..], c, rec).None?
    ensures next <= |buffer| ==>
      Walk(buffer, Table[3..], c, rec) == Walk(buffer, Table[4..], next, With(rec, Date, Some(Chars(buffer[c .. next] + [0]))))
  {
    DropNext(3);
    var info := Table[3];
    if next > |buffer| {
      WalkStops(buffer, Table[3..], c, rec, info);
    } else {
      WalkAdvances(buffer, Table[3..], c, rec, info, next, With(rec, Date, DecodeField(buffer, c, info)));
    }
  }

  /** Entry 4: the matrix of `n` = width * height cells from `c`, after which
      the cursor is at `next`, 4 * max(n, 1) further on. */
  lemma {:induction false} MatrixStep(buffer: seq<byte>, c: nat, n: nat, next: nat, rec: Snapshot)
    requires n == UintOf(Get(rec, Width)) * UintOf(Get(rec, Height))
    requires next == c + 4 * Max1(n)
    ensures c + 4 * n > |buffer| ==> Walk(buffer, Table[4..], c, rec).None?
    ensures c + 4 * n <= |buffer| ==>
      Walk(buffer, Table[4..], c, rec) == Walk(buffer, Tail, next, With(rec, Matrix, Some(Floats(Cells(buffer, c, n)))))
  {
    DropNext(4);
    var info := Table[4].(count := n);
    assert info == Resolve(Table[4], rec);
    if c + 4 * n > |buffer| {
      WalkStops(buffer, Table[4..], c, rec, info);
    } else {
      assert AllocSize(info) == 4 * Max1(n);
      WalkAdvances(buffer, Table[4..], c, rec, info, next, With(rec, Matrix, DecodeField(buffer, c, info)));
    }
  }

  /** Entries 3 and 4, once width and height are in the record. */
  lemma {:induction false} WalkFromDate(buffer: seq<byte>, s: nat, r3: Snapshot)
    requires s + 6 <= |buffer|
    requires UintOf(Get(r3, Width)) == WidthAt(buffer, s) && UintOf(Get(r3, Height)) == HeightAt(buffer, s)
    ensures !PrefixFits(buffer, s) ==> Walk(buffer, Table[3..], s + 6, r3).None?
    ensures PrefixFits(buffer, s) ==>
      Walk(buffer, Table[3..], s + 6, r3) == Walk(buffer, Tail, MatrixEnd(buffer, s), FromDate(buffer, s, r3))
  {
    DateStep(buffer, s + 6, s + MatrixOffset, r3);
    if s + MatrixOffset <= |buffer| {
      var r4 := With(r3, Date, Some(Chars(buffer[s + 6 .. s + MatrixOffset] + [0])));
      assert Get(r4, Width) == Get(r3, Width) && Get(r4, Height) == Get(r3, Height);
      MatrixStep(buffer, s + MatrixOffset, CountAt(buffer, s), MatrixEnd(buffer, s), r4);
    }
  }

  lemma {:induction false} WalkFromHeight(buffer: seq<byte>, s: nat, r2: Snapshot)
    requires s + 4 <= |buffer|
    requires UintOf(Get(r2, Width)) == WidthAt(buffer, s)
    ensures !PrefixFits(buffer, s) ==> Walk(buffer, Table[2..], s + 4, r2).None?
    ensures PrefixFits(buffer, s) ==>
      Walk(buffer, Table[2..], s + 4, r2) == Walk(buffer, Tail, MatrixEnd(buffer, s), FromHeight(buffer, s, r2))
  {
    Uint16Step(buffer, 2, Height, s + 4, s + 6, r2);
    if s + 6 <= |buffer| {
      var r3 := With(r2, Height, Some(U16At(buffer, s + 4)));
      assert Get(r3, Width) == Get(r2, Width);
      WalkFromDate(buffer, s, r3);
    }
  }

  lemma {:induction false} WalkFromWidth(buffer: seq<byte>, s: nat, r1: Snapshot)
    requires s + 2 <= |buffer|
    ensures !PrefixFits(buffer, s) ==> Walk(buffer, Table[1..], s + 2, r1).None?
    ensures PrefixFits(buffer, s) ==>
      Walk(buffer, Table[1..], s + 2, r1) == Walk(buffer, Tail, MatrixEnd(buffer, s), FromWidth(buffer, s, r1))
  {
    Uint16Step(buffer, 1, Width, s + 2, s + 4, r1);
    if s + 4 <= |buffer| {
      WalkFromHeight(buffer, s, With(r1, Width, Some(U16At(buffer, s + 2))));
    }
  }

  /** The first five entries fail the walk when they do not fit. */
  lemma {:induction false} WalkPrefixFails(buffer: seq<byte>, s: nat, rec: Snapshot)
    requires !PrefixFits(buffer, s)
    ensures Walk(buffer, Table, s, rec).None?
  {
    assert Table[0..] == Table;
    Uint16Step(buffer, 0, Version, s, s + 2, rec);
    if s + 2 <= |buffer| {
      WalkFromWidth(buffer, s, With(rec, Version, Some(U16At(buffer, s))));
    }
  }

  /** The first five entries: version, width and height at s, s + 2 and s + 4,
      the date at s + 6, then the width * height matrix cells from s + 20, each
      4 bytes; the cursor then stands at `MatrixEnd`, which is 4 bytes past
      the date even for an empty matrix. */
  lemma {:induction false} WalkPrefix(buffer: seq<byte>, s: nat, rec: Snapshot)
    requires PrefixFits(buffer, s)
    ensures Walk(buffer, Table, s, rec) == Walk(buffer, Tail, MatrixEnd(buffer, s), PrefixRecord(buffer, s, rec))
  {
    assert Table[0..] == Table;
    Uint16Step(buffer, 0, Version, s, s + 2, rec);
    WalkFromWidth(buffer, s, With(rec, Version, Some(U16At(buffer, s))));
  }

  /** The table walk from `s` succeeds exactly when the whole table fits:
      the three leading integers, and everything up to `BlockEnd`, 158 bytes
      plus 4 * max(width * height, 1) past `s`. */
  lemma {:induction false} WalkSucceedsIff(buffer: seq<byte>, s: nat, rec: Snapshot)
    ensures Walk(buffer, Table, s, rec).Some? <==> Fits(buffer, s)
  {
    if !PrefixFits(buffer, s) {
      WalkPrefixFails(buffer, s, rec);
      if s + 6 <= |buffer| {
        assert Max1(CountAt(buffer, s)) >= CountAt(buffer, s);
      }
    } else {
      WalkPrefix(buffer, s, rec);
      TailShape();
      TailLengthValue();
      WalkTailCursor(buffer, Tail, MatrixEnd(buffer, s), BlockEnd(buffer, s), PrefixRecord(buffer, s, rec));
    }
  }

  /** Under `Fits` the first five entries fit as well. */
  lemma {:induction false} FitsPrefix(buffer: seq<byte>, s: nat)
    requires Fits(buffer, s)
    ensures PrefixFits(buffer, s)
  {
    assert Max1(CountAt(buffer, s)) >= CountAt(buffer, s);
  }

  /** The appendix length a successful walk from `s` reads: the last four
      bytes of the block, which end at `e` = `BlockEnd`. */
  lemma {:induction false} WalkResultLength(buffer: seq<byte>, s: nat, e: nat, rec: Snapshot)
    requires Fits(buffer, s) && e == BlockEnd(buffer, s)
    ensures e >= 4
    ensures Walk(buffer, Table, s, rec).Some?
    ensures Get(Walk(buffer, Table, s, rec).value.rec, AppendixLength) == Some(U32(UintLE(buffer[e - 4 .. e])))
  {
    FitsPrefix(buffer, s);
    WalkPrefix(buffer, s, rec);
    TailShape();
    TailLengthValue();
    WalkTailCursor(buffer, Tail, MatrixEnd(buffer, s), e, PrefixRecord(buffer, s, rec));
    WalkTailLength(buffer, Tail, MatrixEnd(buffer, s), e, PrefixRecord(buffer, s, rec));
  }

  /** The leading slots of the record after the first five entries. */
  lemma {:induction false} PrefixRecordValues(buffer: seq<byte>, s: nat, rec: Snapshot)
    requires PrefixFits(buffer, s)
    ensures var r5 := PrefixRecord(buffer, s, rec);
      && Get(r5, Version) == Some(U16At(buffer, s))
      && Get(r5, Width) == Some(U16At(buffer, s + 2))
      && Get(r5, Height) == Some(U16At(buffer, s + 4))
      && Get(r5, Date) == Some(Chars(buffer[s + 6 .. s + MatrixOffset] + [0]))
      && Get(r5, Matrix) == Some(Floats(Cells(buffer, s + MatrixOffset, CountAt(buffer, s))))
      && Get(r5, Appendix) == Get(rec, Appendix)
  {
  }

  /** What a successful walk from `s` leaves: the cursor at `BlockEnd`; the
      version from s; width,
      height and date from s + 2, s + 4 and s + 6; the width * height matrix
      cells from s + 20; and the appendix slot as it was. */
  lemma {:induction false} WalkResult(buffer: seq<byte>, s: nat, rec: Snapshot)
    requires Fits(buffer, s)
    ensures Walk(buffer, Table, s, rec).Some?
    ensures var p := Walk(buffer, Table, s, rec).value;
      && p.cursor == BlockEnd(buffer, s)
      && Get(p.rec, Version) == Some(U16At(buffer, s))
      && Get(p.rec, Width) == Some(U16At(buffer, s + 2))
      && Get(p.rec, Height) == Some(U16At(buffer, s + 4))
      && Get(p.rec, Date) == Some(Chars(buffer[s + 6 .. s + MatrixOffset] + [0]))
      && Get(p.rec, Matrix) == Some(Floats(Cells(buffer, s + MatrixOffset, CountAt(buffer, s))))
      && Get(p.rec, Appendix) == Get(rec, Appendix)
  {
    FitsPrefix(buffer, s);
    WalkPrefix(buffer, s, rec);
    var r5 := PrefixRecord(buffer, s, rec);
    var m := MatrixEnd(buffer, s);
    PrefixRecordValues(buffer, s, rec);
    TailShape();
    TailLengthValue();
    WalkTailCursor(buffer, Tail, m, BlockEnd(buffer, s), r5);
    LeadingUnnamed(Tail, Version);
    LeadingUnnamed(Tail, Width);
    LeadingUnnamed(Tail, Height);
    LeadingUnnamed(Tail, Date);
    LeadingUnnamed(Tail, Matrix);
    LeadingUnnamed(Tail, Appendix);
    WalkTailKeeps(buffer, Tail, m, r5, Version);
    WalkTailKeeps(buffer, Tail, m, r5, Width);
    WalkTailKeeps(buffer, Tail, m, r5, Height);
    WalkTailKeeps(buffer, Tail, m, r5, Date);
    WalkTailKeeps(buffer, Tail, m, r5, Matrix);
    WalkTailKeeps(buffer, Tail, m, r5, Appendix);
  }

  /** The walk over the tail from `m` fills the slot of entry `k` as
      `WalkTailValue` says. */
  lemma {:induction false} TailValue(buffer: seq<byte>, m: nat, r5: Snapshot, k: nat)
    requires k < |Tail|
    ensures Walk(buffer, Tail, m, r5).Some? ==>
      Get(Walk(buffer, Tail, m, r5).value.rec, Tail[k].slot) == DecodeField(buffer, m + Span(Tail[..k]), Tail[k])
  {
    TailShape();
    TailSlotsDistinct();
    DistinctValue(buffer, Tail, m, r5, k);
  }

  /** `WalkTailValue` for tail entries that name distinct slots. */
  lemma {:induction false} DistinctValue(buffer: seq<byte>, infos: seq<FieldInfo>, c: nat, rec: Snapshot, k: nat)
    requires AllTail(infos) && DistinctSlots(infos) && k < |infos|
    ensures Walk(buffer, infos, c, rec).Some? ==>
      Get(Walk(buffer, infos, c, rec).value.rec, infos[k].slot) == DecodeField(buffer, c + Span(infos[..k]), infos[k])
  {
    DistinctUnnamed(infos, k);
    WalkTailValue(buffer, infos, c, rec, k);
  }

  /** What a successful walk from `s` leaves in the slots after the matrix:
      entry `k` of the tail decoded where the entries before it end. */
  lemma {:induction false} WalkTrailing(buffer: seq<byte>, s: nat, rec: Snapshot, k: nat)
    requires Fits(buffer, s) && k < |Tail|
    ensures Walk(buffer, Table, s, rec).Some?
    ensures Get(Walk(buffer, Table, s, rec).value.rec, Tail[k].slot)
      == DecodeField(buffer, MatrixEnd(buffer, s) + Span(Tail[..k]), Tail[k])
  {
    WalkSucceedsIff(buffer, s, rec);
    FitsPrefix(buffer, s);
    PrefixTrailing(buffer, s, rec, k, MatrixEnd(buffer, s), PrefixRecord(buffer, s, rec));
  }

  /** `WalkTrailing` for a walk whose first five entries fit, with the
      matrix ending at `m` and the record `r5` after the first five. */
  lemma {:induction false} PrefixTrailing(buffer: seq<byte>, s: nat, rec: Snapshot, k: nat, m: nat, r5: Snapshot)
    requires PrefixFits(buffer, s) && k < |Tail|
    requires m == MatrixEnd(buffer, s) && r5 == PrefixRecord(buffer, s, rec)
    ensures Walk(buffer, Table, s, rec).Some? ==>
      Get(Walk(buffer, Table, s, rec).value.rec, Tail[k].slot) == DecodeField(buffer, m + Span(Tail[..k]), Tail[k])
  {
    WalkPrefix(buffer, s, rec);
    TailValue(buffer, m, r5, k);
  }

  /** A successful walk never empties a slot that was filled. */
  lemma {:induction false} WalkKeepsFilled(buffer: seq<byte>, infos: seq<FieldInfo>, c: nat, rec: Snapshot, t: Slot)
    requires Get(rec, t).Some?
    decreases |infos|
    ensures Walk(buffer, infos, c, rec).Some? ==> Get(Walk(buffer, infos, c, rec).value.rec, t).Some?
  {
    if infos != [] {
      var info := Resolve(infos[0], rec);
      var d := DecodeField(buffer, c, info);
      if d.Some? {
        var rec' := With(rec, info.slot, d);
        WalkAdvances(buffer, infos, c, rec, info, c + AllocSize(info), rec');
        WithChangesOnlyItsSlot(rec, info.slot, d, t);
        WalkKeepsFilled(buffer, infos[1..], c + AllocSize(info), rec', t);
      }
    }
  }

  /** A successful walk fills the slot of every descriptor it walks. */
  lemma {:induction false} WalkFillsEntry(buffer: seq<byte>, infos: seq<FieldInfo>, c: nat, rec: Snapshot, j: nat)
    requires j < |infos|
    decreases j
    ensures Walk(buffer, infos, c, rec).Some? ==> Get(Walk(buffer, infos, c, rec).value.rec, infos[j].slot).Some?
  {
    var info := Resolve(infos[0], rec);
    var d := DecodeField(buffer, c, info);
    if d.Some? {
      var rec' := With(rec, info.slot, d);
      WalkAdvances(buffer, infos, c, rec, info, c + AllocSize(info), rec');
      if j == 0 {
        WithChangesOnlyItsSlot(rec, info.slot, d, info.slot);
        WalkKeepsFilled(buffer, infos[1..], c + AllocSize(info), rec', info.slot);
      } else {
        WalkFillsEntry(buffer, infos[1..], c + AllocSize(info), rec', j - 1);
      }
    }
  }

  /** All or nothing: once the walk of the table succeeds, every slot of the
      table is filled. */
  lemma {:induction false} WalkFills(buffer: seq<byte>, c: nat, rec: Snapshot)
    ensures Walk(buffer, Table, c, rec).Some? ==>
      forall j :: 0 <= j < |Table| ==> Get(Walk(buffer, Table, c, rec).value.rec, Table[j].slot).Some?
  {
    forall j | 0 <= j < |Table|
      ensures Walk(buffer, Table, c, rec).Some? ==> Get(Walk(buffer, Table, c, rec).value.rec, Table[j].slot).Some?
    {
      WalkFillsEntry(buffer, Table, c, rec, j);
    }
  }
}
