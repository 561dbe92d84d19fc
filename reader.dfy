/** `State_Grid_JPEG_Reader`: verifies the trailer, walks the field table from
    the located offset, reads the optional appendix, and releases the record
    on any failure after the file has been read. */
module Reader {
  import opened Types
  import opened Codec
  import opened Trailer
  import opened Record
  import opened Fields

  /** The reader's `fields[]` table, in block order. The matrix entry's count
      is 0 here and is resolved from width and height just before it is read. */
  const Table: seq<FieldInfo> := [
    FieldInfo(Version, VersionBytes, 0, UInt16),
    FieldInfo(Width, WidthBytes, 0, UInt16),
    FieldInfo(Height, HeightBytes, 0, UInt16),
    FieldInfo(Date, DateBytes, 0, CharArray),
    FieldInfo(Matrix, Float32Bytes, 0, FloatMatrix),
    FieldInfo(Emissivity, EmissivityBytes, 0, Float32),
    FieldInfo(AmbientTemp, AmbientTempBytes, 0, Float32),
    FieldInfo(Fov, FovBytes, 0, UInt8),
    FieldInfo(Distance, DistanceBytes, 0, UInt32),
    FieldInfo(Humidity, HumidityBytes, 0, UInt8),
    FieldInfo(ReflectiveTemp, ReflectiveTempBytes, 0, Float32),
    FieldInfo(Manufacturer, ManufacturerBytes, 0, CharArray),
    FieldInfo(Product, ProductBytes, 0, CharArray),
    FieldInfo(SerialNumber, SnBytes, 0, CharArray),
    FieldInfo(Longitude, LongitudeBytes, 0, Float64),
    FieldInfo(Latitude, LatitudeBytes, 0, Float64),
    FieldInfo(Altitude, AltitudeBytes, 0, UInt32),
    FieldInfo(AppendixLength, AppendixLengthBytes, 0, UInt32)
  ]

  /** The integer a slot points to (`*obj->width`, `*obj->appendix_length`);
      0 for a slot that holds no integer. */
  function UintOf(v: Option<Value>): nat {
    match v
    case Some(U8(n)) => n
    case Some(U16(n)) => n
    case Some(U32(n)) => n
    case _ => 0
  }

  /** The descriptor as the loop passes it to `Read_Field`: the matrix count
      becomes width * height of the record so far. The product is taken
      without the source's `int` overflow. */
  function Resolve(info: FieldInfo, rec: Snapshot): FieldInfo {
    if info.kind == FloatMatrix then info.(count := UintOf(Get(rec, Width)) * UintOf(Get(rec, Height)))
    else info
  }

  /** Resolving touches only the count: the slot, element size and kind are
      those of the table entry; the matrix gets width * height elements and
      every other entry is passed on as it is. */
  lemma ResolveSetsOnlyCount(info: FieldInfo, rec: Snapshot)
    ensures Resolve(info, rec).slot == info.slot && Resolve(info, rec).size == info.size
    ensures Resolve(info, rec).kind == info.kind
    ensures info.kind == FloatMatrix ==> Resolve(info, rec).count == UintOf(Get(rec, Width)) * UintOf(Get(rec, Height))
    ensures info.kind != FloatMatrix ==> Resolve(info, rec) == info
  {
  }

  /** The appendix descriptor built from the decoded appendix length. */
  function AppendixField(length: nat): FieldInfo {
    FieldInfo(Appendix, length, 0, CharArray)
  }

  /** Where a successful table walk leaves the record and the cursor. */
  datatype Progress = Progress(rec: Snapshot, cursor: nat)

  /** The walk over the descriptors `infos` with the cursor at `cursor`:
      `None` as soon as one field fails, otherwise the record and cursor after
      the last one. The reader walks `Table`. */
  function Walk(buffer: seq<byte>, infos: seq<FieldInfo>, cursor: nat, rec: Snapshot): Option<Progress>
    decreases |infos|
  {
    if infos == [] then Some(Progress(rec, cursor))
    else
      var info := Resolve(infos[0], rec);
      var value := DecodeField(buffer, cursor, info);
      if value.None? then None
      else Walk(buffer, infos[1..], cursor + AllocSize(info), With(rec, info.slot, value))
  }

  /** The walk never moves the cursor backwards. */
  lemma {:induction false} WalkMovesForward(buffer: seq<byte>, infos: seq<FieldInfo>, cursor: nat, rec: Snapshot)
    decreases |infos|
    ensures Walk(buffer, infos, cursor, rec).Some? ==> Walk(buffer, infos, cursor, rec).value.cursor >= cursor
  {
    if infos != [] {
      var info := Resolve(infos[0], rec);
      var value := DecodeField(buffer, cursor, info);
      if value.Some? {
        WalkMovesForward(buffer, infos[1..], cursor + AllocSize(info), With(rec, info.slot, value));
      }
    }
  }

  /** A failing entry fails the whole walk. */
  lemma {:induction false} WalkStops(buffer: seq<byte>, infos: seq<FieldInfo>, cursor: nat, rec: Snapshot, info: FieldInfo)
    requires infos != []
    requires info == Resolve(infos[0], rec)
    requires DecodeField(buffer, cursor, info).None?
    ensures Walk(buffer, infos, cursor, rec).None?
  {
  }

  /** A successful entry hands the rest of the walk the advanced cursor and
      the record with that entry's slot filled. */
  lemma {:induction false} WalkAdvances(buffer: seq<byte>, infos: seq<FieldInfo>, cursor: nat, rec: Snapshot,
                     info: FieldInfo, next: nat, rec': Snapshot)
    requires infos != []
    requires info == Resolve(infos[0], rec)
    requires DecodeField(buffer, cursor, info).Some?
    requires next == cursor + AllocSize(info)
    requires rec' == With(rec, info.slot, DecodeField(buffer, cursor, info))
    ensures Walk(buffer, infos, cursor, rec) == Walk(buffer, infos[1..], next, rec')
  {
  }

  /** The block read from `start`: the table walk followed by the appendix,
      which is read only when the decoded appendix length is non-NULL and
      positive. `None` when any read fails. */
  function Block(buffer: seq<byte>, start: nat, rec: Snapshot): Option<Snapshot> {
    match Walk(buffer, Table, start, rec)
    case None => None
    case Some(p) =>
      if Get(p.rec, AppendixLength).Some? && UintOf(Get(p.rec, AppendixLength)) > 0 then
        match DecodeField(buffer, p.cursor, AppendixField(UintOf(Get(p.rec, AppendixLength))))
        case None => None
        case Some(v) => Some(With(p.rec, Appendix, Some(v)))
      else Some(p.rec)
  }

  /** A block read succeeds only after its table walk does, and the appendix
      read that follows changes no slot but the appendix. */
  lemma {:induction false} BlockKeepsWalk(buffer: seq<byte>, start: nat, rec: Snapshot, t: Slot)
    requires t != Appendix
    ensures Block(buffer, start, rec).Some? ==> Walk(buffer, Table, start, rec).Some?
    ensures Block(buffer, start, rec).Some? ==>
      Get(Block(buffer, start, rec).value, t) == Get(Walk(buffer, Table, start, rec).value.rec, t)
  {
    var w := Walk(buffer, Table, start, rec);
    if w.Some? {
      var p := w.value;
      var length := Get(p.rec, AppendixLength);
      WithChangesOnlyItsSlot(p.rec, Appendix, DecodeField(buffer, p.cursor, AppendixField(UintOf(length))), t);
    }
  }

  /** The status and the record the reader leaves once it holds a non-empty
      buffer: the signature is checked first, then the offset, then the
      block; every failure leaves the record released. */
  function Decode(buffer: seq<byte>, rec: Snapshot): (r: (Status, Snapshot))
    ensures r.0 == Success || r.0 == InvalidEof || r.0 == InvalidOffset || r.0 == FieldReadFailed
    ensures r.0 != Success ==> r.1 == Empty()
  {
    if VerifyEof(buffer) != Success then (InvalidEof, Empty())
    else if GetOffset(buffer) == 0 then (InvalidOffset, Empty())
    else
      match Block(buffer, GetOffset(buffer), rec)
      case None => (FieldReadFailed, Empty())
      case Some(r) => (Success, r)
  }

  /** The reader's loop over the field table, from `start`: on success the
      record and cursor are where the walk leaves them. On failure the record
      is partly filled; the caller releases it. */
  method ReadTable(buffer: seq<byte>, start: nat, obj: StateGridJpeg) returns (rc: Status, offset: nat)
    modifies obj
    ensures rc == Success || rc == FieldReadFailed
    ensures rc == Success ==> Walk(buffer, Table, start, old(obj.slots)) == Some(Progress(obj.slots, offset))
    ensures rc != Success ==> Walk(buffer, Table, start, old(obj.slots)).None?
  {
    var fields := Table;
    offset := start;
    rc := Success;
    ghost var walk := Walk(buffer, Table, start, obj.slots);
    assert Table[0..] == Table;
    var i: nat := 0;
    while i < |fields|
      invariant i <= |fields| == |Table|
      invariant forall j :: i <= j < |Table| ==> fields[j] == Table[j]
      invariant rc == Success && walk == Walk(buffer, Table[i..], offset, obj.slots)
    {
      if fields[i].kind == FloatMatrix {
        // *obj->width and *obj->height were read by the entries before
        fields := fields[i := fields[i].(count := UintOf(Get(obj.slots, Width)) * UintOf(Get(obj.slots, Height)))];
      }
      var info := fields[i];
      ghost var before := obj.slots;
      var next;
      rc, next := ReadField(buffer, offset, info, obj);
      if rc != Success {
        WalkStops(buffer, Table[i..], offset, before, info);
        return;
      }
      WalkAdvances(buffer, Table[i..], offset, before, info, next, obj.slots);
      assert Table[i..][1..] == Table[i + 1..];
      offset := next;
      i := i + 1;
    }
  }

  /** The field loop followed by the appendix read, from `start`. */
  method ReadBlock(buffer: seq<byte>, start: nat, obj: StateGridJpeg) returns (rc: Status)
    modifies obj
    ensures rc == Success || rc == FieldReadFailed
    ensures rc == Success <==> Block(buffer, start, old(obj.slots)).Some?
    ensures rc == Success ==> obj.slots == Block(buffer, start, old(obj.slots)).value
  {
    var offset;
    rc, offset := ReadTable(buffer, start, obj);
    if rc == Success && Get(obj.slots, AppendixLength).Some? && UintOf(Get(obj.slots, AppendixLength)) > 0 {
      var next;
      rc, next := ReadField(buffer, offset, AppendixField(UintOf(Get(obj.slots, AppendixLength))), obj);
    }
  }

  /** `State_Grid_JPEG_Reader`. `filepath` is `None` for a NULL path and
      `contents` is the buffer the file read delivers, empty when that read
      fails. A NULL argument or a failed read returns before the record is
      touched; otherwise the outcome is `Decode` of the buffer. */
  method Read(filepath: Option<string>, contents: seq<byte>, obj: StateGridJpeg?) returns (rc: Status)
    modifies obj
    ensures filepath.None? || obj == null ==> rc == InvalidParams
    ensures filepath.None? && obj != null ==> obj.slots == old(obj.slots)
    ensures filepath.Some? && obj != null && contents == [] ==>
      rc == ReadFailed && obj.slots == old(obj.slots)
    ensures filepath.Some? && obj != null && contents != [] ==>
      (rc, obj.slots) == Decode(contents, old(obj.slots))
  {
    if filepath.None? || obj == null {
      return InvalidParams;
    }
    var buffer := contents;
    if |buffer| == 0 {
      return ReadFailed;
    }
    rc := VerifyEof(buffer);
    if rc == Success {
      var start := GetOffset(buffer);
      if start == 0 {
        rc := InvalidOffset;
      } else {
        rc := ReadBlock(buffer, start, obj);
      }
    }
    // cleanup: the buffer is dropped; a failure releases the record
    if rc != Success {
      var _ := Delete(obj);
    }
  }
}
