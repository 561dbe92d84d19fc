# SGJW trailer decoder, modelled in Dafny

SGJW is a C library that reads the thermal-imaging block which a State Grid
JPEG file carries after its image data. The last 16 bytes of such a file are
a fixed signature. The 4 bytes in front of them hold, little-endian, the
absolute offset of the block. The block is a fixed sequence of typed fields:
- version, width and height;
- a 14-byte date;
- a width × height matrix of float32 cells;
- emissivity, temperatures, field of view, distance and humidity;
- manufacturer, product and serial-number strings;
- longitude, latitude and altitude;
- an appendix length, followed by that many appendix bytes when it is
  positive.

`State_Grid_JPEG_Reader` checks the signature. It locates the block, then
walks a table of field descriptors (`FieldInfo`). Each descriptor is read by
`Read_Field` into its own freshly allocated slot of a `StateGridJPEG`
record. On any failure after the file has been read, the reader releases
the record with `State_Grid_JPEG_Delete`; a NULL argument or a failed file
read returns before that and leaves the record as it was.

The model follows the C file `inc/sgjw.c` module by module:

- `Types`: the status codes, the nullable slot (`Option`) and the fixed-width
  integer types.
- `Codec`: the little-endian primitives `Binary_Get_Uint_L2B`, the two float
  readers and `Binary_Get_Char`, as methods. `GetUint` and `GetChars` are
  loops. `GetUint` and the float readers, which call it, are proved against
  `UintLE`, the value of a little-endian byte string; `GetChars` is proved
  against the slice of the buffer it copies.
- `Trailer`: the signature check and the offset locator.
- `Record`: the record. It is a class whose `slots` map holds the nineteen
  pointer members; a member absent from the map is NULL. The module also
  holds `State_Grid_JPEG_Delete`.
- `Fields`: field descriptors, `Read_Field_Value` and `Read_Field`.
  `DecodeField` is the specification function of a single field read.
- `Reader`: the descriptor table, the reader's loop and the reader itself.
  `Walk`, `Block` and `Decode` are the specification functions of the loop,
  of the block with its appendix, and of the whole read.
- `Layout`: the byte layout the table implies, and when the walk succeeds.
  The version, width and height sit at s, s + 2 and s + 4; the date at
  s + 6; the matrix at s + 20. The thirteen fields after the matrix take 138 bytes.
  The block ends at s + 158 + 4 · max(width · height, 1).
- `Outcome`: when a buffer is accepted, which status each malformed input
  produces, and what an accepted buffer leaves in the record.

Floats are kept as their IEEE-754 bit patterns: `uint32` for float32 and
`uint64` for float64. The file read (`Open_File_In_Binary`) becomes a
parameter of `Reader.Read`: the buffer it delivers, which is empty when the
read fails.

## Model

| member | source | states |
|---|---|---|
| Codec.UintLE | inc/sgjw.c:101-109 | the little-endian value of n bytes is below 256^n, so four bytes give a 32-bit and eight a 64-bit value |
| Codec.UintLEAppendByte | inc/sgjw.c:104-107 | one step of the shift-and-OR loop adds the next byte at weight 256^i |
| Codec.UintLEInjective | inc/sgjw.c:101-109 | the little-endian decoding of a fixed width is injective |
| Codec.GetUint | inc/sgjw.c:101-109 | the result is the little-endian value of exactly the first min(nbytes, 8) bytes at the offset, and fits in 64 bits |
| Codec.GetFloat32 | inc/sgjw.c:111-120 | the float's bit pattern is the 4-byte little-endian value at the offset |
| Codec.GetFloat64 | inc/sgjw.c:122-131 | the double's bit pattern is the 8-byte little-endian value at the offset |
| Codec.GetChars | inc/sgjw.c:133-139 | the first `length` bytes of the target are the source bytes, index `length` holds NUL, and nothing beyond it changes |
| Trailer.VerifyEof | inc/sgjw.c:179-186 | the check yields only success or an invalid-EOF status |
| Trailer.VerifyEofIff | inc/sgjw.c:179-186 | the check succeeds exactly for the buffers that end with the 16-byte signature |
| Trailer.CorruptSignatureRejected | inc/sgjw.c:179-186 | one wrong byte anywhere in the last 16 makes the check fail |
| Trailer.GetOffset | inc/sgjw.c:188-195 | a non-zero offset only comes from a buffer long enough to hold the offset and the signature; a shorter one yields 0 |
| Trailer.GetOffsetOfTrailer | inc/sgjw.c:188-195 | the offset is the little-endian value of the 4 bytes in front of the last 16, whatever surrounds them |
| Record.WithChangesOnlyItsSlot | inc/sgjw.c:246-252 | storing through one field pointer changes that member and no other |
| Record.ReleaseOrderCoversRecord | inc/sgjw.c:413-433 | the release list names each of the nineteen members exactly once |
| Record.Pointers | inc/sgjw.c:413-433 | position i of the release list holds member i of the release order, so every member is listed once |
| Record.ReleasedMembers | inc/sgjw.c:436-443 | the release loop frees position i exactly when member i of the release order is set |
| Record.OccupiedExactlyOnce | inc/sgjw.c:436-443 | the release loop frees exactly the non-NULL members, each once, in increasing position |
| Record.OccupiedNone | inc/sgjw.c:436-443 | an all-NULL record has nothing to free |
| Record.Delete | inc/sgjw.c:407-447 | a NULL record is left alone; otherwise exactly the non-NULL members are freed, in order, and every member is NULL afterwards |
| Record.DeleteTwice | inc/sgjw.c:407-447 | releasing a record a second time frees nothing |
| Fields.AllocSize | inc/sgjw.c:239 | a field of count 0 or 1 is allocated, and moves the cursor by, exactly its element size |
| Fields.Cells | inc/sgjw.c:223-228 | the matrix holds `count` cells, cell i being the 4 bytes at offset + 4i |
| Fields.DecodeField | inc/sgjw.c:201-234 | a field decodes exactly when the bytes it reads lie inside the buffer |
| Fields.ReadCells | inc/sgjw.c:223-228 | the matrix loop reads, one float32 after another, exactly the `count` cells `Cells` lays out from the offset |
| Fields.CharFieldIsVerbatim | inc/sgjw.c:220-222 | a character field keeps its `size` bytes unchanged and adds one NUL |
| Fields.ReadFieldValue | inc/sgjw.c:201-234 | the per-type read yields what `DecodeField` specifies, the matrix through `ReadCells`; a character field is read into a slot of `size` + 1 bytes, so the terminator `GetChars` writes stays inside it |
| Fields.ReadField | inc/sgjw.c:236-283 | on success the field's slot holds the decoded value and the cursor moves by size · (count or 1); on failure the slot is NULL, the cursor stays and the status is a field-read failure; no other slot changes |
| Fields.CharTerminatorOverrunsSlot | inc/sgjw.c:239 | as written, a count-0 character field writes one byte more than its slot is allocated |
| Fields.WritesFitSlot | inc/sgjw.c:239 | with one byte added for a character field's NUL, what the field read writes fits the slot |
| Reader.Decode | inc/sgjw.c:307-398 | the reader returns success, invalid EOF, invalid offset or a field-read failure, and the record is empty after every failure |
| Reader.ResolveSetsOnlyCount | inc/sgjw.c:356-359 | before each field the loop changes only the descriptor's count: the matrix gets width · height elements of the record read so far, and every other descriptor is used as it is |
| Reader.WalkMovesForward | inc/sgjw.c:355-367 | the table walk never moves the cursor backwards |
| Reader.BlockKeepsWalk | inc/sgjw.c:369-389 | the block read succeeds only after its table walk does, and the appendix read after it changes no member but the appendix |
| Reader.WalkStops | inc/sgjw.c:361-366 | proof step for `ReadTable`: a failing field ends the walk as a failure |
| Reader.WalkAdvances | inc/sgjw.c:361-366 | proof step for `ReadTable`: a successful field hands the rest of the walk the advanced cursor and the filled slot |
| Reader.ReadTable | inc/sgjw.c:352-367 | the loop over the descriptor table, with the matrix count set to width · height just before the matrix, ends where `Walk` says, or fails exactly when `Walk` fails |
| Reader.ReadBlock | inc/sgjw.c:352-389 | the loop plus the appendix read succeeds exactly when `Block` does, and then leaves `Block`'s record |
| Reader.Read | inc/sgjw.c:289-399 | NULL arguments give invalid-params and an empty read gives read-failed, both with the record untouched; otherwise status and record are those of `Decode` |
| Layout.TailShape | inc/sgjw.c:336-348 | the thirteen entries after the matrix are count-0 entries, none of them the matrix, read exactly as wide as the cursor moves, and the last one is the 4-byte appendix length |
| Layout.TailLengthValue | inc/sgjw.c:336-348 | the entries after the matrix span 138 bytes |
| Layout.WalkTailCursor | inc/sgjw.c:355-367 | the thirteen fields after the matrix succeed exactly when their bytes fit, and the cursor ends their span further on |
| Layout.WalkTailKeeps | inc/sgjw.c:355-367 | the thirteen fields after the matrix leave alone every member none of them names, among them version, width, height, date, matrix and appendix |
| Layout.TableInRecordOrder | inc/sgjw.c:330-349 | the field table names the members in record order |
| Layout.TailSlotsDistinct | inc/sgjw.c:336-348 | the thirteen trailing descriptors fill thirteen different members |
| Layout.WalkTailValue | inc/sgjw.c:355-367 | after a successful walk over entries of the kind that follow the matrix, the member of entry k, which no later entry names, holds that entry decoded at the start cursor plus the bytes of the entries before it |
| Layout.WalkTrailing | inc/sgjw.c:336-367 | a successful walk leaves in each of the thirteen trailing members its value decoded right after the matrix plus the bytes of the trailing entries before it |
| Layout.WalkTailLength | inc/sgjw.c:348 | the appendix length is the 4 bytes just before the cursor at the end of the table |
| Layout.Uint16Step | inc/sgjw.c:331-333 | version, width and height are 2-byte integers read in turn |
| Layout.DateStep | inc/sgjw.c:334 | the date is the next 14 bytes, kept with a NUL |
| Layout.MatrixStep | inc/sgjw.c:356-361 | the matrix has width · height cells; the cursor moves 4 · max(width · height, 1) |
| Layout.WalkPrefixFails | inc/sgjw.c:330-335 | the walk fails when the fields up to the matrix do not fit |
| Layout.WalkPrefix | inc/sgjw.c:330-335 | the first five fields lie at s, s + 2, s + 4, s + 6 and s + 20, and the cursor then stands after the matrix |
| Layout.WalkSucceedsIff | inc/sgjw.c:330-367 | the table walk succeeds exactly when the block, of 158 + 4 · max(width · height, 1) bytes, fits |
| Layout.WalkResult | inc/sgjw.c:330-367 | a successful walk ends at the block end and holds the version, width, height, date and matrix stored in the block, with the appendix slot untouched |
| Layout.WalkResultLength | inc/sgjw.c:348 | a successful walk holds the appendix length from the block's last four bytes |
| Layout.WalkKeepsFilled | inc/sgjw.c:355-367 | a successful walk never empties a filled slot |
| Layout.WalkFillsEntry | inc/sgjw.c:355-367 | a successful walk fills the slot of every descriptor it walks |
| Layout.WalkFills | inc/sgjw.c:355-367 | a successful walk of the table fills all eighteen table slots |
| Outcome.BlockSucceedsIff | inc/sgjw.c:352-389 | the block read succeeds exactly when the table fits and, for a positive appendix length, the appendix after it fits too |
| Outcome.BlockAppendix | inc/sgjw.c:370-389 | after a block read the appendix slot holds the announced number of bytes following the block, NUL-terminated, when the length is positive, and is unchanged when it is 0 |
| Outcome.BlockLeading | inc/sgjw.c:330-359 | after a block read version, width, height, date and matrix are the ones stored at s, s + 2, s + 4, s + 6 and s + 20 |
| Outcome.BlockTrailing | inc/sgjw.c:336-389 | after a block read each of the thirteen trailing members holds its value decoded after the matrix, at the bytes of the trailing entries before it, untouched by the appendix read |
| Outcome.BlockFilled | inc/sgjw.c:352-389 | after a block read every table slot is filled |
| Outcome.DecodeSucceedsIff | inc/sgjw.c:289-399 | the reader succeeds exactly when the signature matches, the offset is non-zero, and the block and announced appendix fit |
| Outcome.ZeroOffsetRejected | inc/sgjw.c:316-322 | a zero offset in front of a valid signature is rejected as an invalid offset, whatever precedes it, and the record is released |
| Outcome.CorruptTrailerRejected | inc/sgjw.c:307-313 | a wrong signature byte is rejected as invalid EOF, and the record is released |
| Outcome.ShortBufferRejected | inc/sgjw.c:188-195 | a buffer under 20 bytes is rejected, as invalid EOF when the signature check fails and as invalid offset otherwise, and the record is released |
| Outcome.TruncatedBlockRejected | inc/sgjw.c:361-366 | a block overrunning the buffer is a field-read failure, and the record is released |

## Left out

- File I/O (`Open_File_In_Binary`): the buffer it delivers is a parameter of `Reader.Read`. A failed open, allocation or short read all deliver an empty buffer, which gives the read-failed status.
- Debug output (`Debug`, the per-type printout in `Read_Field`, the freed-index messages): it prints and changes no state. The matrix printout reads cells 0 and 1 even when the matrix has fewer cells; this is not modelled.
- Allocation failure in `Malloc_Field`: allocation always succeeds in the model. The malloc-failed status is therefore never produced.
- Float semantics: a float32 or float64 is its bit pattern, so the reinterpretation through the source's union is the identity.
- `State_Grid_JPEG_Writer` is an empty stub in the source and is not modelled.
- The `StateGridJPEG` record and the `SGJW_*` status codes are used by `inc/sgjw.c` but defined in neither `inc/sgjw.c` nor `inc/sgjw.h`. `inc/sgjw.h` holds only includes and two prototypes, and its `State_Grid_JPEG_Reader` takes only a path, where `inc/sgjw.c:289` takes a path and a record; the model follows the C file. The nineteen record members are the ones the field table and the release list name (`inc/sgjw.c:330-349` and `413-433`). The statuses are a datatype with one case per status name the code returns, apart from the allocation failure; their numeric values are unknown and not modelled.
- Fields.DecodeField: the source reads past the end of the buffer when a field does not fit. The model checks first and reports a field-read failure, which every walk, block and decode lemma relies on.
- Reader.Resolve: the matrix count width · height is taken as a mathematical product. In the source the two 16-bit values are multiplied as `int`, which overflows for products above 2^31 − 1.
- Record.StateGridJpeg: the nineteen pointer members are a map from member to value. Pointer identity, aliasing and the leak when the reader overwrites a member that was already set are not modelled.
- Fields.ReadFieldValue: the source's `default` branch (unknown field type) cannot be reached, because the descriptor's type is a datatype with seven cases.
- Fields.ReadField: the slot of an empty matrix (width · height = 0) is 4 bytes that the read never writes; the model records an empty cell sequence.

## Findings

| source | as written | input that shows it | evidently intended | confidence | as-written member | corrected member |
|---|---|---|---|---|---|---|
| inc/sgjw.c:239 | a character field's slot is `size` bytes, but `Binary_Get_Char` (line 138) writes the NUL terminator at index `size`, one byte past it | any block: the 14-byte date gets a 14-byte slot and 15 bytes are written; likewise the 32-byte strings and the appendix | the slot of a character field has one extra byte for the terminator | not executed | Fields.CharTerminatorOverrunsSlot | Fields.ReadFieldValue |
