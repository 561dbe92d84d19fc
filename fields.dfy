/** Field descriptors and the per-field read step: `Read_Field_Value`
    decodes one typed field at the cursor, `Read_Field` stores it in its slot
    and advances the cursor. */
module Fields {
  import opened Types
  import opened Codec
  import opened Record

  // Field sizes, in bytes
  const VersionBytes: nat := 2
  const WidthBytes: nat := 2
  const HeightBytes: nat := 2
  const DateBytes: nat := 14
  const Float32Bytes: nat := 4
  const EmissivityBytes: nat := 4
  const AmbientTempBytes: nat := 4
  const FovBytes: nat := 1
  const DistanceBytes: nat := 4
  const HumidityBytes: nat := 1
  const ReflectiveTempBytes: nat := 4
  const ManufacturerBytes: nat := 32
  const ProductBytes: nat := 32
  const SnBytes: nat := 32
  const LongitudeBytes: nat := 8
  const LatitudeBytes: nat := 8
  const AltitudeBytes: nat := 4
  const AppendixLengthBytes: nat := 4

  datatype FieldType = UInt8 | UInt16 | UInt32 | Float32 | Float64 | CharArray | FloatMatrix

  /** A `FieldInfo`: the member it fills, the size of one element, the
      number of elements (0 for a single element) and the type. The debug label is
      not modelled. */
  datatype FieldInfo = FieldInfo(slot: Slot, size: nat, count: nat, kind: FieldType)

  /** The element count of a slot: `n`, a count of 0 meaning one element. */
  function Max1(n: nat): nat {
    if n != 0 then n else 1
  }

  /** What `Read_Field` allocates for the slot and how far it advances the
      cursor: `count` elements of `size` bytes, a count of 0 meaning a single
      element. */
  function AllocSize(info: FieldInfo): (r: nat)
    ensures info.count <= 1 ==> r == info.size
  {
    info.size * Max1(info.count)
  }

  /** The bytes of the buffer, from the cursor on, that decoding the field
      reads. */
  function ReadExtent(info: FieldInfo): nat {
    match info.kind
    case UInt8 => 1
    case UInt16 => 2
    case UInt32 => 4
    case Float32 => 4
    case Float64 => 8
    case CharArray => info.size
    case FloatMatrix => 4 * info.count
  }

  /** The `count` float32 bit patterns laid out from `offset`, 4 bytes each. */
  function Cells(buffer: seq<byte>, offset: nat, count: nat): (cells: seq<uint32>)
    requires offset + 4 * count <= |buffer|
    ensures |cells| == count
    ensures forall i :: 0 <= i < count ==> cells[i] == UintLE(buffer[offset + 4 * i .. offset + 4 * i + 4])
  {
    seq(count, i requires 0 <= i < count => UintLE(buffer[offset + 4 * i .. offset + 4 * i + 4]))
  }

  /** What `Read_Field_Value` stores for the field at `offset`, or `None` when
      the field does not lie inside the buffer. The source has no such check
      (it reads out of bounds); the model reports it as a read failure. */
  function DecodeField(buffer: seq<byte>, offset: nat, info: FieldInfo): (r: Option<Value>)
    ensures r.Some? <==> offset + ReadExtent(info) <= |buffer|
  {
    if |buffer| < offset + ReadExtent(info) then None
    else
      match info.kind
      case UInt8 => Some(U8(UintLE(buffer[offset .. offset + 1])))
      case UInt16 => Some(U16(UintLE(buffer[offset .. offset + 2])))
      case UInt32 => Some(U32(UintLE(buffer[offset .. offset + 4])))
      case Float32 => Some(F32(UintLE(buffer[offset .. offset + 4])))
      case Float64 => Pow256Widths(); Some(F64(UintLE(buffer[offset .. offset + 8])))
      case CharArray => Some(Chars(buffer[offset .. offset + info.size] + [0]))
      case FloatMatrix => Some(Floats(Cells(buffer, offset, info.count)))
  }

  /** A character field yields its `size` bytes unchanged followed by a NUL
      at index `size`. */
  lemma CharFieldIsVerbatim(buffer: seq<byte>, offset: nat, info: FieldInfo)
    requires info.kind == CharArray
    requires offset + info.size <= |buffer|
    ensures DecodeField(buffer, offset, info).Some?
    ensures var chars := DecodeField(buffer, offset, info).value.chars;
      |chars| == info.size + 1 && chars[..info.size] == buffer[offset .. offset + info.size]
      && chars[info.size] == 0
  {
    var chars := DecodeField(buffer, offset, info).value.chars;
    assert chars[..info.size] == buffer[offset .. offset + info.size];
  }

  /** `Read_Field_Value`. The integer cases narrow the 64-bit read to the
      field's width, which loses nothing because the read is that wide. */
  method ReadFieldValue(buffer: seq<byte>, offset: nat, info: FieldInfo) returns (r: Option<Value>)
    ensures r == DecodeField(buffer, offset, info)
  {
    if |buffer| < offset + ReadExtent(info) {
      return None;
    }
    match info.kind
    case UInt8 =>
      var u := GetUint(buffer, offset, 1);
      r := Some(U8(u));
    case UInt16 =>
      var u := GetUint(buffer, offset, 2);
      r := Some(U16(u));
    case UInt32 =>
      var u := GetUint(buffer, offset, 4);
      r := Some(U32(u));
    case Float32 =>
      var f := GetFloat32(buffer, offset);
      r := Some(F32(f));
    case Float64 =>
      var f := GetFloat64(buffer, offset);
      r := Some(F64(f));
    case CharArray =>
      // the corrected slot: room for the bytes and the terminator, which
      // GetChars' precondition demands
      var chars := new byte[info.size + 1];
      GetChars(buffer, offset, info.size, chars);
      assert chars[..] == chars[..info.size] + [chars[info.size]];
      r := Some(Chars(chars[..]));
    case FloatMatrix =>
      var cells := ReadCells(buffer, offset, info.count);
      r := Some(Floats(cells));
  }

  /** The matrix loop of `Read_Field_Value`: `count` float32 cells read one
      after another from `offset`. */
  method ReadCells(buffer: seq<byte>, offset: nat, count: nat) returns (r: seq<uint32>)
    requires offset + 4 * count <= |buffer|
    ensures r == Cells(buffer, offset, count)
  {
    var cells := new uint32[count];
    for i := 0 to count
      invariant forall k :: 0 <= k < i ==> cells[k] == UintLE(buffer[offset + 4 * k .. offset + 4 * k + 4])
    {
      cells[i] := GetFloat32(buffer, offset + i * 4);
    }
    r := cells[..];
  }

  /** `Read_Field`: on success the decoded value is in the field's own slot
      and the cursor has moved by `AllocSize(info)`; on failure that slot is
      NULL, the cursor has not moved, and the result is `FieldReadFailed`.
      No other slot changes either way. */
  method ReadField(buffer: seq<byte>, offset: nat, info: FieldInfo, obj: StateGridJpeg)
    returns (rc: Status, next: nat)
    modifies obj
    ensures DecodeField(buffer, offset, info).Some? ==>
      rc == Success && next == offset + AllocSize(info)
      && obj.slots == With(old(obj.slots), info.slot, DecodeField(buffer, offset, info))
    ensures DecodeField(buffer, offset, info).None? ==>
      rc == FieldReadFailed && next == offset
      && obj.slots == With(old(obj.slots), info.slot, None)
  {
    // Malloc_Field gives the slot a fresh allocation, which cannot fail here
    var v := ReadFieldValue(buffer, offset, info);
    if v.None? {
      // the slot is freed and set to NULL
      obj.slots := With(obj.slots, info.slot, None);
      return FieldReadFailed, offset;
    }
    obj.slots := With(obj.slots, info.slot, v);
    rc, next := Success, offset + AllocSize(info);
  }

  /** The bytes `Read_Field_Value` writes into the slot: a character field
      writes its terminator after its `size` bytes. */
  function WrittenBytes(info: FieldInfo): nat {
    if info.kind == CharArray then ReadExtent(info) + 1 else ReadExtent(info)
  }

  /** As written, a character field's allocation of `AllocSize` bytes is one
      short: the NUL lands one past the end of the slot. */
  lemma {:induction false} CharTerminatorOverrunsSlot(info: FieldInfo)
    requires info.kind == CharArray && info.count == 0
    ensures WrittenBytes(info) == AllocSize(info) + 1
  {
    assert AllocSize(info) == info.size * 1;
  }

  /** Corrected slot size: one extra byte for a character field's NUL. */
  function SlotBytes(info: FieldInfo): nat {
    if info.kind == CharArray then AllocSize(info) + 1 else AllocSize(info)
  }

  /** A descriptor whose element size is its type's width, as every entry of
      the reader's table and its appendix descriptor are. */
  predicate WellSized(info: FieldInfo) {
    match info.kind
    case UInt8 => info.size == 1
    case UInt16 => info.size == 2
    case UInt32 => info.size == 4
    case Float32 => info.size == 4
    case Float64 => info.size == 8
    case CharArray => true
    case FloatMatrix => info.size == 4
  }

  /** With the corrected size, what the decoder writes fits the slot, and the
      value the model stores is exactly that wide for a count-0 character
      field. */
  lemma {:induction false} WritesFitSlot(info: FieldInfo)
    requires WellSized(info)
    ensures WrittenBytes(info) <= SlotBytes(info)
    ensures info.kind == CharArray && info.count == 0 ==> WrittenBytes(info) == SlotBytes(info)
  {
    var m := Max1(info.count);
    assert AllocSize(info) == info.size * m;
    assert info.size <= info.size * m;
    if info.kind == FloatMatrix {
      assert 4 * info.count <= 4 * m;
    }
  }
}
