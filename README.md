# PNG chunk walk of bandit's `parse` package, in Dafny

`src/parse/parsePNG.go` reads a PNG file into a `PNG` record. The file is a
sequence of chunks after an 8-byte signature. Each chunk is a big-endian
32-bit length, a 4-byte type, that many data bytes and a 4-byte CRC.
`ParseMain` does four things:

- it populates the first chunk at offset 8;
- it validates it as the IHDR header with `parseIHDR`, which fills the width,
  height, bit depth, colour type and the three method fields;
- it appends it to the record's chunk list;
- it then loops: populate the next chunk, append it, stop after the `IEND`
  chunk.

This project models that core and proves what it computes:

- `outcomes.dfy` holds the error kinds, with `Result` and `Outcome` in place
  of Go's `(T, error)` and `error` returns.
- `bytes.dfy` holds big-endian decoding and `uInt32ToInt`.
- `chunks.dfy` holds the chunk record, its byte layout, the pure reader
  `ChunkAt`, and the `Chunk` class whose `Populate` method fills the fields
  in place, as the Go method does.
- `ihdr.dfy` holds `IHDRStep`, the header validation as a function from the
  old fields and the chunk to the new fields and the error. It also holds
  its properties: exact acceptance, partial writes on failure, and round
  trips.
- `png.dfy` holds the walk `ChunksFrom`, the whole-file function `Parse`,
  the `PNG` class with `ParseIHDR` and `Add`, and the imperative walk
  `ParseChunks` with its loop.

The imperative parts are proved against the functions:

- `Populate` writes exactly `ChunkAt`'s record.
- `ParseIHDR` leaves exactly `IHDRStep`'s fields.
- `ParseChunks` builds a record whose header fields, chunk values and
  outcome are those of `Parse`.

A Go runtime panic (a slice past the end of the buffer) is modelled as the
error `OutOfRange`. Every model operation checks for it before writing
anything.

Where the code and its comments disagree, the model follows the code:

- `parseIHDR` is not atomic. It writes the width, height, bit depth and
  colour type before the later checks, so a failed check leaves them set.
- The comment and error text at lines 109-111 say interlace methods 0 and 1
  are supported, but the check rejects 1.
- `ParseMain` ignores every error of `Populate` and `parseIHDR`.
- The first chunk is never tested for `IEND`.

## Model

| member | source | states |
|---|---|---|
| Bytes.UInt32ToInt | src/parse/parsePNG.go:38-43 | An empty buffer or one over 4 bytes gives the invalid-buffer error. 1 to 3 bytes is an out-of-range read. Exactly the 4-byte buffers decode, to a value below 2^32 whose big-endian bytes are the buffer. |
| Bytes.EncodeThenDecode | src/parse/parsePNG.go:42 | Decoding the big-endian bytes of any value below 2^32 gives the value back. |
| Bytes.DecodeThenEncode | src/parse/parsePNG.go:42 | Encoding the decoded value of any 4 bytes gives the same 4 bytes. |
| Bytes.Uint32OfInjective | src/parse/parsePNG.go:42 | Two 4-byte buffers decode to the same value exactly when they are equal. |
| Chunks.Serialize | src/parse/parsePNG.go:16-23 | A well-formed record takes 12 + Length bytes: length, type, data and CRC. |
| Chunks.ChunkAt | src/parse/parsePNG.go:46-63 | A record is read at the cursor exactly when the 4 length bytes and then 12 + decoded length bytes fit in the buffer. Any failure is out of range. The record read is well formed, its length is the decoded length, and it ends inside the buffer. |
| Chunks.ChunkAtLayout | src/parse/parsePNG.go:54-60 | The bytes from the cursor to the cursor plus the record's size are exactly that record's serialization: no gap and no overlap. |
| Chunks.ChunkAtFromLayout | src/parse/parsePNG.go:49-60 | Wherever a well-formed record's serialization lies in a buffer, the reader reads that record there. |
| Chunks.ChunkAtSerialize | src/parse/parsePNG.go:46-63 | Reading a serialized well-formed record back at its offset gives the record: the reader inverts the layout. |
| Chunks.Chunk.constructor | src/parse/parsePNG.go:145 | A zero-valued chunk, as `var ihdr Chunk` declares. |
| Chunks.Chunk.Populate | src/parse/parsePNG.go:46-63 | Succeeds exactly when `ChunkAt` reads a record. The chunk's fields are then that record and the returned cursor is ptr + 12 + Length, within the buffer. Otherwise out of range, with the cursor and the chunk unchanged. |
| Ihdr.LengthRejected | src/parse/parsePNG.go:68-73 | A header chunk whose length is not 13 is rejected and no field is written. |
| Ihdr.AcceptedExactly | src/parse/parsePNG.go:67-118 | parseIHDR succeeds exactly when the length is 13, the width and height bytes are not all zero, and bytes 10, 11 and 12 are 0. Then width and height are positive, the three methods are 0, and the fields encode back to the chunk data. |
| Ihdr.PartialWrites | src/parse/parsePNG.go:78-115 | For a 13-byte header, each error kind happens exactly when its check is the first to fail. The fields assigned before that check hold their new values; the others keep their old ones. |
| Ihdr.ValidHeaderRoundTrip | src/parse/parsePNG.go:67-118 | A header chunk built from fields that pass every check is accepted, and parseIHDR reads back exactly those fields. |
| Ihdr.InterlaceOneRejected | src/parse/parsePNG.go:109-115 | A header that is valid except for interlace method 1 is rejected with the interlace error. |
| Ihdr.SampleHeader | src/parse/parsePNG.go:67-118 | The 800 x 600, 8-bit, colour type 6 header is accepted and read back field for field. |
| Png.ChunksFrom | src/parse/parsePNG.go:150-157 | The walk from a cursor can only fail by reading past the buffer. |
| Png.WalkEndsWithIEND | src/parse/parsePNG.go:154-156 | A walk that succeeds is not empty and its last chunk is IEND. |
| Png.WalkIENDOnlyLast | src/parse/parsePNG.go:150-157 | No chunk before the last one of a walk is IEND, and a failed walk read no IEND chunk. |
| Png.WalkWellFormed | src/parse/parsePNG.go:150-157 | Every chunk a walk reads is well formed. |
| Png.WalkShape | src/parse/parsePNG.go:150-157 | The three facts above together. |
| Png.WalkCovers | src/parse/parsePNG.go:150-157 | A walk that reaches IEND read the bytes from its start exactly once. Its chunks, laid out one after the other, are exactly those bytes, which lie in the buffer. |
| Png.BackToBackWalk | src/parse/parsePNG.go:150-157 | Chunks that are read back to back from a cursor, of which only the last is IEND, are exactly what the walk from that cursor reads, and it succeeds. |
| Png.WalkRoundTrip | src/parse/parsePNG.go:150-157 | A list of well-formed chunks whose only IEND chunk is the last, serialized anywhere in a buffer, is walked back chunk for chunk with success. |
| Png.WalkOn | src/parse/parsePNG.go:150-156 | At a readable chunk the walk stops there on IEND. Otherwise it keeps the chunk and continues from the cursor just past it. |
| Png.WalkAdvance | src/parse/parsePNG.go:150-156 | One loop pass moves the split between the chunks appended so far and the rest of the walk one chunk further, or ends the walk on IEND. |
| Png.WalkStops | src/parse/parsePNG.go:152 | A chunk that cannot be read ends the walk with the chunks appended so far, out of range. |
| Png.Parse | src/parse/parsePNG.go:142-157 | A file parses only by reaching IEND; any failure is out of range. On success there are at least two chunks, the last is IEND and none between the header and it is. The chunk list is non-empty exactly when the chunk at offset 8 can be read; then it is the first chunk and the header fields are parseIHDR's on zero fields, whatever its error. |
| Png.ParseStops | src/parse/parsePNG.go:146 | A file whose first chunk cannot be read parses to zero fields, no chunks, out of range. |
| Png.ParseGoesOn | src/parse/parsePNG.go:142-157 | A file whose first chunk can be read parses to parseIHDR's fields for it, that chunk, then the walk from just past it. |
| Png.SampleFile | src/parse/parsePNG.go:142-157 | A signature, a valid 800 x 600 header, one data chunk of any length and an empty IEND chunk parse to exactly those three chunks, with the header's fields. |
| Png.ValuesAppend | src/parse/parsePNG.go:120-122 | Appending a chunk pointer appends its record to the list of records. |
| Png.PNG.constructor | src/parse/parsePNG.go:144 | A zero-valued record, as `var png PNG` declares: zero fields, no chunks, count 0. |
| Png.PNG.ParseIHDR | src/parse/parsePNG.go:67-118 | The new fields and the returned error are exactly `IHDRStep` of the old fields and the chunk. The chunk list and the count are unchanged. |
| Png.PNG.Add | src/parse/parsePNG.go:120-122 | The chunk list grows by exactly the given chunk at its end. Nothing else changes. |
| Png.AddChunkAt | src/parse/parsePNG.go:151-153 | One loop body: a fresh chunk is populated at the cursor and appended. It succeeds exactly when `ChunkAt` reads a record, which is then appended with the cursor moved past it. A failed read appends nothing. |
| Png.WalkChunks | src/parse/parsePNG.go:150-157 | The loop appends exactly the walk's chunks from the cursor and ends with the walk's outcome. The header fields and the count are unchanged. |
| Png.ParseChunks | src/parse/parsePNG.go:142-157 | ParseMain's parse: the record's header fields, its chunk values and the outcome are exactly those of `Parse`. The record is fresh and its chunk count stays 0. |

## Left out

- ZlibDecom (lines 124-131) and the IDAT selection at line 163 are not
  modelled: decompression is a call into `compress/zlib`. `Parse` only
  proves that a successful parse has at least two chunks, so the index
  `len(png.chunks)-2` at line 163 is in range.
- Opening and reading the file (lines 135-138) is left out; the buffer is a
  parameter of `Parse` and `ParseChunks`.
- Timing and printing (lines 140, 159-160, 165-166) are left out.
- Error strings built with `Sprintf` and `errors.New` are left out. The
  model keeps only the error kind.
- The 8-byte signature is skipped, not checked, as in the code.
- The CRC bytes are read, not checked, as in the code.
- Chunks.Chunk.Populate: a Go panic is modelled as an `OutOfRange` result
  that leaves the chunk unchanged. In Go the length field is written before
  a later slice panics, but the panic ends the program, so that partial
  state is not observable.
- Chunks.Chunk.Populate: the error return of lines 50-52 cannot happen,
  because the slice always has four bytes; it is not modelled.
- Png.ParseChunks: a panic ends the parse with `OutOfRange` and the chunks
  appended so far. Go's program stops there instead.
- Go slices may extend up to the capacity of the underlying array, not just
  its length. The model treats any read past the buffer's length as out of
  range.
- Bytes.UInt32ToInt: the result is an unbounded natural below 2^32. This
  matches Go's `int` on 64-bit platforms; the negative values of a 32-bit
  `int` are not modelled.
- The chunk data is modelled as a copy of the buffer's bytes, not as a view
  that shares memory with it. Nothing writes to the buffer, so this does not
  change any result.
- `NumberOfChunks` is never updated by the code. The model keeps it at 0 and
  says so.
