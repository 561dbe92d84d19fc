/** The decoded record (`StateGridJPEG`): nineteen independently allocated
    slots, one per field of the block plus the appendix, each NULL until a
    field is read into it, and `State_Grid_JPEG_Delete`, which releases them. */
module Record {
  import opened Types

  /** The record's members; a field descriptor names the one it fills. */
  datatype Slot =
    | Version | Width | Height | Date | Matrix | Emissivity | AmbientTemp
    | Fov | Distance | Humidity | ReflectiveTemp | Manufacturer | Product
    | SerialNumber | Longitude | Latitude | Altitude | AppendixLength | Appendix

  /** What one slot holds once a field has been read into it. Integers keep
      their unsigned value, floats their IEEE-754 bit pattern, a character
      field the copied bytes followed by the NUL terminator, and the matrix
      its cells in row-major order. */
  datatype Value =
    | U8(u8: byte)
    | U16(u16: uint16)
    | U32(u32: uint32)
    | F32(f32: uint32)
    | F64(f64: uint64)
    | Chars(chars: seq<byte>)
    | Floats(cells: seq<uint32>)

  /** The contents of all slots of a record at one moment: a member that is
      not in the map is NULL. */
  type Snapshot = map<Slot, Value>

  /** The contents of member `s`. */
  function Get(rec: Snapshot, s: Slot): Option<Value> {
    if s in rec then Some(rec[s]) else None
  }

  /** The snapshot after `*field_ptr = v` for member `s`. */
  function With(rec: Snapshot, s: Slot, v: Option<Value>): Snapshot {
    match v
    case None => rec - {s}
    case Some(x) => rec[s := x]
  }

  /** Storing into one member changes that member and no other. */
  lemma WithChangesOnlyItsSlot(rec: Snapshot, s: Slot, v: Option<Value>, t: Slot)
    ensures Get(With(rec, s, v), t) == (if t == s then v else Get(rec, t))
  {
  }

  /** The order in which `State_Grid_JPEG_Delete` lists the members for
      release, which is the order of the record. */
  const ReleaseOrder: seq<Slot> := [
    Version, Width, Height, Date, Matrix, Emissivity, AmbientTemp, Fov, Distance,
    Humidity, ReflectiveTemp, Manufacturer, Product, SerialNumber, Longitude,
    Latitude, Altitude, AppendixLength, Appendix
  ]

  /** The release list names every member of the record exactly once. */
  lemma ReleaseOrderCoversRecord(t: Slot)
    ensures |ReleaseOrder| == 19
    ensures exists i :: 0 <= i < 19 && ReleaseOrder[i] == t
    ensures forall i, j :: 0 <= i < j < 19 ==> ReleaseOrder[i] != ReleaseOrder[j]
  {
    match t
    case Version => assert ReleaseOrder[0] == t;
    case Width => assert ReleaseOrder[1] == t;
    case Height => assert ReleaseOrder[2] == t;
    case Date => assert ReleaseOrder[3] == t;
    case Matrix => assert ReleaseOrder[4] == t;
    case Emissivity => assert ReleaseOrder[5] == t;
    case AmbientTemp => assert ReleaseOrder[6] == t;
    case Fov => assert ReleaseOrder[7] == t;
    case Distance => assert ReleaseOrder[8] == t;
    case Humidity => assert ReleaseOrder[9] == t;
    case ReflectiveTemp => assert ReleaseOrder[10] == t;
    case Manufacturer => assert ReleaseOrder[11] == t;
    case Product => assert ReleaseOrder[12] == t;
    case SerialNumber => assert ReleaseOrder[13] == t;
    case Longitude => assert ReleaseOrder[14] == t;
    case Latitude => assert ReleaseOrder[15] == t;
    case Altitude => assert ReleaseOrder[16] == t;
    case AppendixLength => assert ReleaseOrder[17] == t;
    case Appendix => assert ReleaseOrder[18] == t;
  }

  /** The pointers `State_Grid_JPEG_Delete` collects for release: position i
      holds the member `ReleaseOrder[i]`. */
  function Pointers(rec: Snapshot): (p: seq<Option<Value>>)
    ensures |p| == 19
    ensures forall i :: 0 <= i < 19 ==> p[i] == Get(rec, ReleaseOrder[i])
  {
    [
      Get(rec, Version), Get(rec, Width), Get(rec, Height), Get(rec, Date), Get(rec, Matrix),
      Get(rec, Emissivity), Get(rec, AmbientTemp), Get(rec, Fov), Get(rec, Distance),
      Get(rec, Humidity), Get(rec, ReflectiveTemp), Get(rec, Manufacturer), Get(rec, Product),
      Get(rec, SerialNumber), Get(rec, Longitude), Get(rec, Latitude), Get(rec, Altitude),
      Get(rec, AppendixLength), Get(rec, Appendix)
    ]
  }

  /** The all-NULL record: every member cleared, as a release leaves it. */
  function Empty(): Snapshot {
    map[]
  }

  /** The positions among the first `n` pointers that are not NULL, in
      increasing order: the pointers a release loop frees. */
  function Occupied(pointers: seq<Option<Value>>, n: nat): seq<nat>
    requires n <= |pointers|
  {
    if n == 0 then []
    else Occupied(pointers, n - 1) + (if pointers[n - 1].Some? then [n - 1] else [])
  }

  /** The release loop frees exactly the non-NULL pointers, each once and in
      order. */
  lemma {:induction false} OccupiedExactlyOnce(pointers: seq<Option<Value>>, n: nat)
    requires n <= |pointers|
    ensures forall i :: i in Occupied(pointers, n) <==> 0 <= i < n && pointers[i].Some?
    ensures forall a, b :: 0 <= a < b < |Occupied(pointers, n)| ==>
              Occupied(pointers, n)[a] < Occupied(pointers, n)[b] < n
  {
    if n > 0 {
      OccupiedExactlyOnce(pointers, n - 1);
      var prev := Occupied(pointers, n - 1);
      assert forall k :: 0 <= k < |prev| ==> prev[k] in prev;
    }
  }

  /** The positions a release frees are those of the members that are set,
      so every non-NULL member is freed and no NULL one is. */
  lemma {:induction false} ReleasedMembers(rec: Snapshot)
    ensures forall i :: i in Occupied(Pointers(rec), 19) <==> 0 <= i < 19 && ReleaseOrder[i] in rec
  {
    OccupiedExactlyOnce(Pointers(rec), 19);
  }

  /** An all-NULL record has nothing to release. */
  lemma {:induction false} OccupiedNone(pointers: seq<Option<Value>>, n: nat)
    requires n <= |pointers|
    requires forall i :: 0 <= i < |pointers| ==> pointers[i] == None
    ensures Occupied(pointers, n) == []
  {
    if n > 0 {
      OccupiedNone(pointers, n - 1);
    }
  }

  /** A `StateGridJPEG` object. Its nineteen pointer members are the
      members of `slots`; the reader and the release routine update them in
      place through the object. */
  class StateGridJpeg {
    var slots: Snapshot

    /** A zero-initialised record. */
    constructor ()
      ensures slots == Empty()
    {
      slots := Empty();
    }
  }

  /** `State_Grid_JPEG_Delete`: does nothing for a NULL record; otherwise frees
      each non-NULL pointer once, returning the positions it freed (the index
      the source's debug line prints), and leaves every slot NULL. */
  method Delete(obj: StateGridJpeg?) returns (released: seq<nat>)
    modifies obj
    ensures obj == null ==> released == []
    ensures obj != null ==> released == Occupied(Pointers(old(obj.slots)), 19)
    ensures obj != null ==> obj.slots == Empty()
  {
    released := [];
    if obj == null {
      return;
    }
    var pointers := Pointers(obj.slots);
    for i := 0 to 19
      invariant released == Occupied(pointers, i)
    {
      if pointers[i].Some? {
        released := released + [i];
      }
    }
    // every member is cleared
    obj.slots := Empty();
  }

  /** Calling `Delete` a second time frees nothing and leaves the record as
      the first call did. */
  method DeleteTwice(obj: StateGridJpeg?) returns (first: seq<nat>, second: seq<nat>)
    modifies obj
    ensures obj == null ==> first == []
    ensures obj != null ==> first == Occupied(Pointers(old(obj.slots)), 19)
    ensures second == []
    ensures obj != null ==> obj.slots == Empty()
  {
    first := Delete(obj);
    second := Delete(obj);
    OccupiedNone(Pointers(Empty()), 19);
  }
}
