# Git pack file decoder (pkg/pack/packfile.go) in Dafny

This project models the sequential pack-file decoder of `pkg/pack/packfile.go`.
A `PackFile` session reads a Git pack front to back through a read-ahead buffer:

- it checks the 12-byte header (the "PACK" signature, version 2 or 3, the object count);
- then, for each declared object, it decodes the type/size header;
- for a ref-delta it skips the 20-byte base id;
- for an ofs-delta it decodes the relative base offset and checks its bounds;
- it appends an `Object{offset, type, size}` to the catalog;
- it inflates the object's data, using exactly as many input bytes as the inflater consumed.

Four modules:

- `PackFormat` (`pack_format.dfy`) holds the byte layout as pure functions, the error taxonomy and the
  proofs about it. It covers the big-endian header words, the type/size varint with uint64 wrap-around,
  the ofs-delta offset loop with its byte-wide accumulator, the uint32 bounds check and the whole
  object header. Next to the decoders are Git's encoders, which the decoders are proved to invert,
  with one exception: the ofs-delta decoder `DecodeOfsOffset` inverts Git's offset writer only for
  distances below 256 (`OfsAsWrittenRoundTripBelow256`), and misreads 261 (`OfsAsWrittenMisreads`).
- `ZStream` (`zstream.dfy`) is the inflater as an abstract step with the contract of a single zlib
  `inflate` call. The step reads a prefix of the window it is given. It never takes back output and
  never writes past the output buffer. It reports `Z_OK` only when it made progress. A run of calls is
  a sequence of `Call`s, each made on the stream the calls before it left.
- `PackWalk` (`pack_walk.dfy`) states what the decoding loops do over the whole file. `Drives` says a
  run of `Inflate` calls on an object's data is made on consecutive spans of the file. `RunResult` is
  the outcome that `unpackEntryData` reads off the run's last call. `Walks` says the objects are read
  one after another, each header starting where the previous object's data ended.
- `PackReader` (`pack_file.dfy`) holds the class `PackFile` with the source's fields (`curOffset`,
  `version`, `objectNums`, `objects`) and the buffer state. Its methods are `Fill`, `Use`,
  `ReadByte`, `ParseHeader`, `ParseObjects` and `UnpackEntryData`. The object invariant is
  "`curOffset` is the number of bytes used, modulo 2^32".

How each loop is proved:

- The type/size loop, the ofs-delta loop and the header switch are proved equal to the `PackFormat`
  functions `DecodeTypeSize`, `DecodeOfsOffset` and `DecodeObjectHeader`.
- The inflate loop of `unpackEntryData` returns a ghost trace of the `Inflate` calls it made. Its
  contract says the trace is a run of the given inflater on consecutive spans of the file, starting at
  the object's data (`PackWalk.Drives`). The result is `PackWalk.RunResult` of that trace. The cursor
  advances by exactly the bytes the stream consumed. `PackWalk.DrivenConsumesSource` proves those bytes
  are the file's bytes. `ZStream.UsedIsConsumed` proves their number is the sum of
  `inputLength - AvailIn()` over the calls.
- The `ParseObjects` loop is proved against `PackWalk.Walks`, and `PackWalk.WalksCatalogue` shows that
  a walk is a faithful catalogue of the headers read. On failure, the error is either the failing
  header's `DecodeObjectHeader` error, or the `RunResult` error of the last object's run; in the
  second case the cursor is where that run stopped, which is the end of the file for Truncated
  (`PackWalk.HeaderFailed`, `PackWalk.DataFailed`).

The buffer (`newBuffer`, `Fill`, `Use`, `Buffer`) is defined outside packfile.go and is not part of
this model. It is modelled on its observable contract: the file is a byte sequence `source`, `pos`
bytes have been used and the next `avail` are buffered. `Fill(min)` fails with `Truncated` when fewer
than `min` bytes remain. Otherwise, when fewer than `min` bytes are buffered, it refills to
`max(min, chunk)` bytes, capped at the end of the file; when at least `min` are buffered it leaves the
buffer alone. Callers rely only on "at least `min`, at most what is left".

Where Git's pack format (gitformat-pack) and this code differ, the model follows the code:

- The ofs-delta accumulator `baseOffset` is a Go `byte` (packfile.go:114), so its increment and
  `(baseOffset << 7) + (b & 127)` wrap modulo 256. Git's format uses an unbounded accumulator. The
  consequences are under "## Findings".

Other behaviour of the code that the model keeps:

- The bounds check computes `curOffset - baseOffset` in uint32 and tests `<= 0 || >= curOffset`.
  Because the subtraction wraps, this rejects exactly the offsets outside `0 < baseOffset < curOffset`
  (the contract of `PackFormat.OutOfBound`).
- On an error, the objects appended so far stay in `objects`. That includes the entry of an object
  whose data then fails to inflate, because the append comes before `unpackEntryData`. The catalog is
  not rolled back.
- Errors carry no object index. The resources of the inflater are not released on error paths.

## Model

| member | source | states |
|---|---|---|
| `PackFormat.TypeOfTag` | pkg/pack/packfile.go:98-150 | tags 1, 2, 3, 4, 6, 7 are commit, tree, blob, tag, ofs-delta and ref-delta (inverse of Git's numbering); every other tag, and only those, has no type |
| `PackFormat.TypeBitsAgree` | pkg/pack/packfile.go:84 | the arithmetic type extraction equals the source's 8-bit `(b >> 4) & 7` |
| `PackFormat.LowBitsAgree` | pkg/pack/packfile.go:85-88 | the arithmetic helpers equal the source's 8-bit `b & 15`, `b & 127` and `b & 0x80 != 0` |
| `PackFormat.BigEndianDecodesBytes` | pkg/pack/packfile.go:57-67 | reading a big-endian 32-bit word gives back the value those four bytes encode |
| `PackFormat.BigEndianEncodesValue` | pkg/pack/packfile.go:57-67 | four bytes are determined by their big-endian word |
| `PackFormat.DecodePackHeader` | pkg/pack/packfile.go:57-67 | the header is accepted iff the first word is the "PACK" signature and the second is 2 or 3; then version and count are the second and third big-endian words; every rejection is BadSignature or BadVersion |
| `PackFormat.PackHeaderAcceptedIff` | pkg/pack/packfile.go:50-73 | the header is accepted iff bytes 0-3 are "PACK" and bytes 4-7 are big-endian 2 or 3; then version is byte 7 and the count is bytes 8-11; a wrong signature gives BadSignature |
| `PackFormat.PackHeaderRoundTrip` | pkg/pack/packfile.go:50-73 | decoding an encoded header gives back its version and count, or BadVersion when the version is not 2 or 3 |
| `PackFormat.ShiftIn` | pkg/pack/packfile.go:94 | `size += (uint64(b) & 0x7f) << shift` leaves the size unchanged once the shift reaches 64, as Go's `<<` on uint64 does |
| `PackFormat.ShiftInExact` | pkg/pack/packfile.go:94 | the uint64 shift-and-add is plain addition when no overflow occurs |
| `PackFormat.SizeTail` | pkg/pack/packfile.go:88-96 | the continuation loop ends within the input, after the index it started at, and fails only with Truncated |
| `PackFormat.DecodeTypeSize` | pkg/pack/packfile.go:79-96 | a decoded type/size header takes at least one byte, stays within the input and has a 3-bit tag; the only error is Truncated |
| `PackFormat.SizeTailStops` | pkg/pack/packfile.go:88-96 | the loop stops at the first byte with bit 7 clear; every byte before it had bit 7 set |
| `PackFormat.TypeSizeConsumesHeader` | pkg/pack/packfile.go:79-96 | the tag is bits 4-6 of the first byte, and the header is exactly the bytes up to and including the first byte with bit 7 clear |
| `PackFormat.SizeGroupsDecode` | pkg/pack/packfile.go:88-96 | the loop decodes a base-128 group sequence into `size + v * 2^shift` and consumes exactly its bytes |
| `PackFormat.TypeSizeRoundTrip` | pkg/pack/packfile.go:84-96 | for every tag below 8 and every size below 2^64, decoding Git's encoding recovers tag and size and consumes exactly the encoded bytes |
| `PackFormat.LongSizeDecode` | pkg/pack/packfile.go:84-96 | a header of two or more bytes decodes to the tag and size Git encoded in it |
| `PackFormat.OfsShift` | pkg/pack/packfile.go:125 | `(baseOffset << 7) + (b & 127)` on a Go byte keeps only bit 0 of `baseOffset`, moved to bit 7, above the low seven bits of `b` |
| `PackFormat.OfsTail` | pkg/pack/packfile.go:114-126 | the byte-wide ofs-delta loop ends within the input and fails only with Truncated or OffsetOverflow |
| `PackFormat.DecodeOfsOffset` | pkg/pack/packfile.go:109-126 | the relative offset takes at least one byte, stays within the input, and fails only with Truncated or OffsetOverflow |
| `PackFormat.OfsTailStops` | pkg/pack/packfile.go:115-126 | the ofs-delta loop stops at the first byte with bit 7 clear; every byte before it had bit 7 set |
| `PackFormat.OfsOffsetConsumesLocator` | pkg/pack/packfile.go:109-126 | an accepted offset is exactly the bytes up to and including the first byte with bit 7 clear |
| `PackFormat.OverflowAt255` | pkg/pack/packfile.go:115-118 | a continuation bit seen while the accumulator is 255 gives OffsetOverflow, whatever follows |
| `PackFormat.OverflowBeforeTruncation` | pkg/pack/packfile.go:115-123 | the increment and its zero check come before the next byte is read: `[0x80, 0xff]` gives OffsetOverflow even though the input then ends, where Git's rule reports Truncated |
| `PackFormat.EncodeOfsShape` | pkg/pack/packfile.go:114-126 | Git's offset writer produces bytes whose continuation bit is set on all but the last byte, carrying the distance under the increment-then-shift rule |
| `PackFormat.EncodeOfsValue` | pkg/pack/packfile.go:114-126 | the bytes Git writes for a distance carry that distance under the increment-then-shift rule |
| `PackFormat.EncodeOfsFlags` | pkg/pack/packfile.go:115 | Git's writer sets the continuation bit on every byte but the last |
| `PackFormat.WideOfsPrefix` | pkg/pack/packfile.go:114-126 | the unbounded loop over a run of continuation bytes has accumulated their increment-then-shift value |
| `PackFormat.WideOfsRoundTrip` | pkg/pack/packfile.go:114-126 | Git's increment-then-shift rule on an unbounded accumulator inverts Git's offset writer for every distance |
| `PackFormat.OfsShiftIsWideMod256` | pkg/pack/packfile.go:116-125 | one byte-wide increment-and-shift step equals the unbounded step modulo 256 |
| `PackFormat.OfsTailIsWideMod256` | pkg/pack/packfile.go:114-126 | the byte-wide loop yields the unbounded value modulo 256 over the same bytes; it runs out of input exactly where the unbounded loop does |
| `PackFormat.OfsAsWrittenIsWideMod256` | pkg/pack/packfile.go:109-126 | whenever the source's decoder succeeds, Git's rule succeeds on the same bytes and the source's value is Git's value modulo 256 |
| `PackFormat.OfsAsWrittenRoundTripBelow256` | pkg/pack/packfile.go:109-126 | the source's decoder inverts Git's offset writer for every distance below 256 |
| `PackFormat.OfsAsWrittenMisreads` | pkg/pack/packfile.go:114-126 | Git encodes 261 as [0x81, 0x05]; Git's rule reads 261, the source's byte-wide loop reads 5 |
| `PackFormat.OutOfBound` | pkg/pack/packfile.go:127-128 | the uint32 check `curOffset - base <= 0 or >= curOffset` rejects iff not `0 < base < curOffset` |
| `PackFormat.DecodeObjectHeader` | pkg/pack/packfile.go:77-150 | an accepted object header ends after its first byte and within the input |
| `PackFormat.HeaderAfterTypeSize` | pkg/pack/packfile.go:98-130 | after the type/size bytes: a ref-delta takes 20 more bytes, or is Truncated when fewer are left; an ofs-delta takes its offset bytes when its base is in range, gives DeltaBaseOutOfBound when it is not, and passes on the offset decoder's error; the other known kinds take nothing more |
| `PackFormat.ObjectHeaderLayout` | pkg/pack/packfile.go:98-150 | an accepted header has a known type; a ref-delta consumes exactly 20 more bytes; an ofs-delta consumes its offset bytes and points to `0 < base < curOffset`; other types consume nothing more |
| `PackFormat.UnknownTypeRejected` | pkg/pack/packfile.go:148-150 | tags 0 and 5 give BadType once the type/size bytes are read |
| `PackFormat.ObjectHeaderRoundTrip` | pkg/pack/packfile.go:79-130 | a whole encoded object header decodes to its kind and size and stops exactly at its end; ofs-deltas need `0 < distance < curOffset` and distance below 256 |
| `PackFormat.PlainHeaderRoundTrip` | pkg/pack/packfile.go:79-96 | a commit, tree, blob or tag header decodes to its kind and size and ends right after the type/size bytes |
| `PackFormat.RefHeaderRoundTrip` | pkg/pack/packfile.go:79-107 | a ref-delta header decodes to its kind and size and ends after the 20-byte base id |
| `PackFormat.OfsHeaderRoundTrip` | pkg/pack/packfile.go:79-130 | an ofs-delta header with `0 < distance < curOffset` and distance below 256 decodes to its kind and size and ends after the offset bytes |
| `PackFormat.OfsHeaderFromParts` | pkg/pack/packfile.go:108-130 | an ofs-delta header whose type/size bytes and offset bytes decode, with the base in range, is accepted and ends after the offset bytes |
| `ZStream.Advance` | pkg/pack/packfile.go:239-249 | after an inflate step the stream has consumed `inputLength - AvailIn` more bytes, appended to what it consumed before |
| `ZStream.ChainedAppend` | pkg/pack/packfile.go:233-250 | the loop may call Inflate again only after Z_OK, on the stream the last call left and a non-empty window; doing so extends the run |
| `ZStream.UsedIsConsumed` | pkg/pack/packfile.go:249 | the stream has consumed exactly the sum of `inputLength - AvailIn()` over the calls of a run |
| `PackWalk.RunResult` | pkg/pack/packfile.go:233-253 | the outcome of a run: success iff the last call reported Z_STREAM_END with TotalOut equal to the size, and then the final stream; Truncated iff no call was made or the last reported Z_OK; the inflater's error iff the last call failed |
| `PackWalk.DrivesAppend` | pkg/pack/packfile.go:233-250 | one more call on the span right after what the stream consumed extends the run; a successful call advances the stream by the bytes it took, keeps TotalOut within the size, and returns Z_OK only with progress |
| `PackWalk.DrivenConsumesSource` | pkg/pack/packfile.go:239-249 | the bytes a run consumed are the file's bytes from the start of the object's data on |
| `PackWalk.RunAccounts` | pkg/pack/packfile.go:239-249 | the bytes a run consumed are the file's next bytes, and there are as many as the sum of `inputLength - AvailIn()` over its calls |
| `PackWalk.CataloguesAppend` | pkg/pack/packfile.go:187-192 | appending the entry for a header decoded at the current start, after the previous header, keeps the catalog a faithful record of the headers read |
| `PackWalk.WalksAppend` | pkg/pack/packfile.go:76-202 | after a fully decompressed object, reading the next one where its data ended extends the walk; the walk then ends where the new object's data ended |
| `PackWalk.WalksCatalogue` | pkg/pack/packfile.go:75-205 | a walk starts at the first header and is a catalogue: every entry's offset, type and size are those of the header at its start, and each header ends before the next object starts |
| `PackWalk.WalkExtend` | pkg/pack/packfile.go:76-202 | a record read where the walk ends extends the walk; if it passed, its object completed and the cursor is where the new walk ends; if it failed, the error is its run's and the cursor is where that run stopped |
| `PackWalk.NextRecord` | pkg/pack/packfile.go:76-202 | one pass of the loop, header or data, extends the walk by the record's entry if any; a pass leaves a completed last object with the cursor at the walk's end; a failure is the header's error at the walk's end or the last run's error with the cursor where it stopped |
| `PackReader.PackFile.constructor` | pkg/pack/packfile.go:39-48 | a new session has an empty buffer, cursor 0, no header fields and an empty catalog |
| `PackReader.PackFile.Fill` | pkg/pack/packfile.go:26-28 | succeeds iff at least `min` bytes are left; then at least `min` bytes are buffered and the buffered span (`buffer()`, packfile.go:30-32) is returned; what was buffered before stays buffered, as a prefix of the new span; on failure nothing changes |
| `PackReader.PackFile.Use` | pkg/pack/packfile.go:34-37 | uses exactly `length` buffered bytes: the new buffered span is the old one without its first `length` bytes; advances `curOffset` by `length` modulo 2^32; no other field changes |
| `PackReader.PackFile.ReadByte` | pkg/pack/packfile.go:207-215 | returns the first unused byte and advances the cursor by exactly 1, or fails with Truncated without moving |
| `PackReader.PackFile.ParseHeader` | pkg/pack/packfile.go:50-73 | when 12 bytes are left: advances by exactly 12 even on error, and sets version and count exactly when DecodePackHeader accepts them; otherwise Truncated with nothing moved |
| `PackReader.PackFile.ReadTypeAndSize` | pkg/pack/packfile.go:79-96 | the loop returns DecodeTypeSize at the cursor and leaves the cursor just after the header |
| `PackReader.PackFile.ReadOfsOffset` | pkg/pack/packfile.go:108-126 | the loop returns DecodeOfsOffset at the cursor, including its errors, and leaves the cursor just after the offset bytes |
| `PackReader.PackFile.ReadObjectHeader` | pkg/pack/packfile.go:77-150 | returns DecodeObjectHeader at the cursor (bounds check against the cursor at the header's start) and leaves the cursor on the object's data |
| `PackReader.PackFile.InflateBuffered` | pkg/pack/packfile.go:234-249 | Truncated, with nothing used, iff the file is exhausted; otherwise the inflater is called on the whole buffered span (the window starts at the cursor and reaches the end of what is buffered), and exactly `inputLength - AvailIn` bytes are used (none if it failed) |
| `PackReader.PackFile.UnpackEntryData` | pkg/pack/packfile.go:221-261 | the calls made form a run of the inflater on consecutive spans of the file from the cursor; the result is `RunResult` of that run; the cursor advances by exactly the bytes the stream consumed; Truncated only at the end of the file |
| `PackReader.PackFile.ParseObject` | pkg/pack/packfile.go:77-199 | either the header fails to decode, nothing is appended and its error is returned; or its entry is appended, the cursor ends where the inflate run on its data stopped, the record passes exactly when that run completed, and otherwise fails with the run's error, Truncated only at the end of the file |
| `PackReader.PackFile.ParseObjects` | pkg/pack/packfile.go:75-205 | the appended entries are a walk from the cursor: each header starts where the previous object's data ended and each entry records its header; success after exactly `objectNums` complete objects; a failure is either the error of the header where the walk ended, or the error of the last object's inflate run with the cursor where that run stopped (the end of the file for Truncated) |

## Left out

- Opening and closing the file (`NewPackFile`, `Close`): file I/O. The constructor takes the file's contents.
- `log.Printf` calls: diagnostics only.
- The inflater's algorithm (`InflateInit`, `Inflate`, `InflateEnd`, `SetInBuf`, `SetOutBuf` of the C zlib binding). It is a parameter satisfying `ZStream.Conforming`. `InflateInit` and `InflateEnd` are assumed not to fail.
- The contents of the decompressed output buffer: `ParseObjects` discards them. Only `TotalOut` is modelled.
- The buffer's real refill policy and its memory management. When fewer than `min` bytes are buffered, `Fill` refills to a fixed `chunk` (or `min`, if larger); callers rely only on its contract.
- `PackReader.PackFile.UnpackEntryData`: the conversion `int(obj.size)` is not modelled. A size of 2^63 or more would make `make` panic in the source; the model takes the size as a natural number.
- `PackReader.PackFile.ReadTypeAndSize`: `shift` is a Go `int` and is unbounded here. It could only overflow after about 2^60 header bytes.
- Delta application, SHA-1 identity, and keeping the ref-delta base id or the ofs-delta base offset. The source computes or skips these but records none of them.
- The commented-out C code in packfile.go: it is not executed. Its extra `MSB(base_offset, 7)` overflow check is absent from the Go code and from the model.
- Releasing inflater resources on error paths, and adding the object index to error messages: the source does neither.
- `PackReader.PackFile.InflateBuffered`: does not model the uint32 conversion of `inputLength - AvailIn()` at packfile.go:249. The model passes the difference to `Use` as a natural number. The difference is at most the buffered span, so the conversion would only truncate for a buffer of 2^32 bytes or more, which the model does not rule out.
- `PackFormat.ShiftIn`: its own contract states only the case of a shift of 64 or more. `ShiftInExact` states the case without overflow. The wrap-around of an overflowing sum is stated only by its definition.
- `PackFormat.OverflowAt255`: states that a continuation byte at accumulator 255 overflows. That this is the only way OffsetOverflow arises is stated only by the definition of `OfsTail`.

## Findings

| source | as written | input that shows it | evidently intended | confidence | as-written member | corrected member |
|---|---|---|---|---|---|---|
| pkg/pack/packfile.go:114-125 | the ofs-delta accumulator `baseOffset` is a Go `byte`, so the increment and `(baseOffset << 7) + (b & 127)` wrap modulo 256; any distance of 256 or more is misread, and a valid pack can then fail with a spurious offset-overflow or out-of-bound error | `[0x81, 0x05]`, Git's encoding of distance 261, is read as 5 | an unbounded (or at least uint64) accumulator, as in Git's format, which reads 261 | high (proved, not executed) | `PackFormat.DecodeOfsOffset`, `PackFormat.OfsAsWrittenMisreads` | `PackFormat.DecodeWideOfs`, `PackFormat.WideOfsRoundTrip` |

The decoding session follows the code as written and uses `DecodeOfsOffset`. `PackFormat.OfsAsWrittenIsWideMod256` proves that the code's value is Git's value modulo 256 over the same bytes. `PackFormat.OfsAsWrittenRoundTripBelow256` proves that the two agree on every distance below 256.
