# PNG chunk codec

This project models the chunk codec in `src/util/index.ts`, the part of the
PNG metadata stripper that reads and rewrites PNG files. It has two
operations:

- `listPngChunks` skips the 8-byte PNG signature and walks the buffer chunk
  by chunk. Each chunk is a 4-byte big-endian length L, a 4-byte type, L
  data bytes and a 4-byte CRC. The walk moves the offset on by L + 12 and
  returns the `{type, length, data, crc}` records in on-wire order.
- `removePngChunk` walks the same buffer with a position counter and drops
  the chunks whose 0-based position is listed in `chunkIndexes`. It then
  allocates a zero-filled buffer of 8 + Σ(L + 12) bytes and fills it in
  place. The input's first eight bytes come first, then each kept chunk:
  its big-endian length, type bytes, data and original CRC. The CRC is
  never recomputed.

The framing is the one in sections 5.2 (signature) and 5.3 (chunk layout)
of the W3C PNG Specification, Second Edition (ISO/IEC 15948).

The project has three modules:

- `Bytes` (`bytes.dfy`) covers the byte type and 4-byte big-endian fields.
  Fields are read by multiplying out the bytes and written with
  JavaScript's `>> k & 0xff`, which works on the signed 32-bit form of the
  value.
- `PngChunks` (`png_chunks.dfy`) holds the `Chunk` record and a pure
  specification of the walk (`Parse`) and of the framing (`Serialize`).
  `ListPngChunks` is the source's loop, proved equal to `Parse`.
- `PngRemove` (`png_remove.dfy`) holds the specification of the filter
  (`Kept`) and of the output (`Removed`). The remover's own loop is
  `KeptChunks`. The in-place reassembly into an `array` is `Reassemble`
  with `PlaceChunk`, `WriteChunk` and `SetBytes`. `RemovePngChunk` combines
  the walk and the reassembly.

The source reads past the end of a truncated buffer and computes NaN. The
model treats such a buffer as an error instead. A walk meets a chunk whose
12 framing bytes, or whose declared data and CRC, do not fit before the end
of the buffer. Both operations then return `MalformedChunk(offset)` with
that chunk's offset.

A buffer of 8 bytes or fewer lists no chunks. An input shorter than the
8-byte signature is not rejected: the remover copies what bytes there are
into its zero-filled 8-byte output (`RemoveFromShortBuffer`).

## Model

| member | source | states |
|---|---|---|
| Bytes.BeU32 | src/util/index.ts:17-20 | a length or CRC read from four bytes lies in 0 .. 2^32 - 1 |
| Bytes.ReadU32 | src/util/index.ts:61-64 | the in-place read of a field from the input array equals the big-endian value of those four bytes |
| Bytes.ToInt32 | src/util/index.ts:107-110 | the operand `>>` and `&` work on is a signed 32-bit value congruent to the number modulo 2^32 |
| Bytes.BeBytes | src/util/index.ts:107-110 | the `>> k & 0xff` encoding yields four bytes that read back as the value, for every value below 2^32 (including those at or above 2^31) |
| Bytes.SignedBytes | src/util/index.ts:118-121 | for values below 2^32, shifting and masking the signed 32-bit form gives the same four bytes as the unsigned value |
| Bytes.ShiftNegative | src/util/index.ts:118-121 | for the shift amounts 0, 8, 16 and 24, subtracting 2^32 before the shift lowers the quotient by 2^(32-k), which leaves the masked low byte unchanged |
| Bytes.EncodeDecode | src/util/index.ts:104-123 | the four bytes of a value below 2^32, recombined with the decoder's multipliers, give the value back |
| Bytes.DecodeEncode | src/util/index.ts:75-78 | encoding the value decoded from four bytes reproduces exactly those four bytes |
| PngChunks.TypeString | src/util/index.ts:21-25 | the chunk type is one character per type byte, four characters long |
| PngChunks.TypeBytes | src/util/index.ts:111-114 | the four `charCodeAt` values stored into the output are four bytes |
| PngChunks.CodeByte | src/util/index.ts:111-114 | `charCodeAt` stored into a `Uint8Array` keeps a byte-sized character's own code |
| PngChunks.TypeBytesRoundTrip | src/util/index.ts:65-69 | `fromCharCode` then `charCodeAt` gives the four type bytes back |
| PngChunks.TypeStringRoundTrip | src/util/index.ts:111-114 | `charCodeAt` then `fromCharCode` gives back a type of four byte-sized characters |
| PngChunks.FitsAt | src/util/index.ts:15-34 | a chunk is read only when its 12 framing bytes and its declared data lie inside the buffer; such a chunk starts before the end of the buffer, as the loop guard demands |
| PngChunks.FitsAtIff | src/util/index.ts:17-34 | a chunk fits at an offset exactly when the bytes there begin with the framing of some valid chunk |
| PngChunks.ChunkAt | src/util/index.ts:17-34 | a chunk read at an offset has a 4-character type, a length and CRC below 2^32, data of exactly `length` bytes, and its framing ends inside the buffer |
| PngChunks.ChunkAtEncodes | src/util/index.ts:104-123 | writing a decoded chunk back gives exactly the bytes it was read from |
| PngChunks.EncodeChunk | src/util/index.ts:105-123 | a valid chunk's framing takes length + 12 bytes |
| PngChunks.Serialize | src/util/index.ts:102-124 | framing valid chunks one after another takes Σ(length + 12) bytes |
| PngChunks.WireSize | src/util/index.ts:102 | the `reduce` total Σ(length + 12) is at least 12 bytes per chunk |
| PngChunks.Parse | src/util/index.ts:15-45 | the walk either lists chunks or stops at a malformed chunk whose offset lies inside the buffer, at or after where the walk started |
| PngChunks.ParseValid | src/util/index.ts:15-45 | every chunk a successful walk lists has a length and CRC below 2^32, `length` data bytes and a 4-byte type |
| PngChunks.ParseErrorOffset | src/util/index.ts:15-40 | a failing walk names an offset where a chunk's framing does not fit |
| PngChunks.SerializeAppend | src/util/index.ts:105-124 | framing one more chunk appends its encoding to the framing of the earlier ones |
| PngChunks.EncodeChunkFields | src/util/index.ts:106-122 | the length, type, data and CRC sit at offsets 0, 4, 8 and 8 + length of a chunk's encoding |
| PngChunks.EncodedFields | src/util/index.ts:106-122 | where a chunk's encoding sits in a buffer, its four fields sit at offsets 0, 4, 8 and 8 + length from that position |
| PngChunks.DecodeEncodedChunk | src/util/index.ts:17-34 | reading a chunk from the encoding of a valid chunk gives that chunk back |
| PngChunks.ParseFramed | src/util/index.ts:8-49 | walking bytes that are the framing of valid chunks lists exactly those chunks |
| PngChunks.FramedFront | src/util/index.ts:105-123 | where bytes frame valid chunks, the first chunk's encoding comes first and the framing of the rest follows it |
| PngChunks.SerializeParse | src/util/index.ts:8-49 | the chunks a successful walk lists frame exactly the rest of the buffer |
| PngChunks.SerializeFront | src/util/index.ts:105-124 | a chunk framed at the front followed by framed chunks frames the whole remainder |
| PngChunks.WellFormedIff | src/util/index.ts:8-49 | a buffer lists without error exactly when it has a signature followed by the framing of some valid chunks |
| PngChunks.WalkEndsAtEnd | src/util/index.ts:40-45 | a successful walk ends exactly at the end of the buffer |
| PngChunks.WalkChunkAt | src/util/index.ts:15-40 | chunk i of a walk fits at, and is the chunk read at, the start offset plus Σ_{j<i}(length_j + 12) |
| PngChunks.ChunksTileBuffer | src/util/index.ts:12-45 | the chunks of a well-formed buffer tile it: chunk i starts at 8 + Σ_{j<i}(length_j + 12), and 8 + Σ(length + 12) is the buffer length |
| PngChunks.PrependOk | src/util/index.ts:37 | chunks pushed before a successful remaining walk come first in the result |
| PngChunks.PrependAppend | src/util/index.ts:37 | pushing the chunks one at a time gives the same listing as pushing them together |
| PngChunks.ParseStep | src/util/index.ts:17-40 | one step of the walk: the chunk read at the offset, followed by the walk from offset + length + 12 |
| PngChunks.ReadChunk | src/util/index.ts:21-37 | the record built from the type bytes, the `slice` of the data and the CRC is the chunk at that offset |
| PngChunks.ListPngChunks | src/util/index.ts:8-49 | the loop returns the walk's listing, in on-wire order, or the first malformed offset; a buffer of 8 bytes or fewer lists nothing |
| PngRemove.Kept | src/util/index.ts:81-93 | the remover keeps at most as many chunks as it walks |
| PngRemove.Positions | src/util/index.ts:53 | there are at most n unselected positions below n |
| PngRemove.PositionsAreUnselected | src/util/index.ts:81-93 | a position is kept exactly when it is below the chunk count and not in `chunkIndexes`; kept positions increase strictly |
| PngRemove.KeptSelects | src/util/index.ts:81-93 | kept chunk j is the listed chunk at the j-th unselected position: the listing filtered by position, in the original order |
| PngRemove.KeptNoneSelected | src/util/index.ts:53 | indexes at or beyond the chunk count (or negative) select nothing, so every chunk is kept |
| PngRemove.KeptAppend | src/util/index.ts:81-93 | walking one more chunk keeps it exactly when its position is not selected |
| PngRemove.KeptValid | src/util/index.ts:89 | kept chunks are chunks of the listing, so they remain valid |
| PngRemove.Signature | src/util/index.ts:102-103 | the output's first eight bytes are the input's, with zeros where the input is shorter |
| PngRemove.SignatureCopied | src/util/index.ts:103 | copying `subarray(0, 8)` of the input over a zero-filled buffer puts that signature at its start |
| PngRemove.Removed | src/util/index.ts:51-127 | the remover succeeds exactly when the listing succeeds, fails at the same offset when it does not, and always yields at least the eight signature bytes |
| PngRemove.RemovedLayout | src/util/index.ts:102-124 | the output is 8 + Σ(length + 12) bytes over the kept chunks, starts with the input's first eight bytes, and lists again as exactly the kept chunks |
| PngRemove.RemoveNothing | src/util/index.ts:51-126 | with no index naming a chunk (in particular an empty `chunkIndexes`), a well-formed buffer comes back byte for byte |
| PngRemove.RemoveFromShortBuffer | src/util/index.ts:102-103 | an input shorter than 8 bytes comes back padded with zeros to 8 bytes |
| PngRemove.RemoveMiddleOfThree | src/util/index.ts:51-126 | removing position 1 of three chunks leaves the first and third behind the signature, in 8 + (L1 + 12) + (L3 + 12) bytes, and they list again as those two chunks with their CRCs |
| PngRemove.FramedAfterSignature | src/util/index.ts:8-49 | a signature followed by framed valid chunks lists as those chunks |
| PngRemove.WireSizeTwo | src/util/index.ts:102 | two chunks take L1 + L2 + 24 bytes |
| PngRemove.RemoveTextChunk | src/util/index.ts:51-126 | removing the 5-byte tEXt between a 13-byte IHDR and an empty IEND leaves 45 bytes: the signature, IHDR and IEND |
| PngRemove.KeptSecondRemoved | src/util/index.ts:81-93 | selecting position 1 of three chunks keeps the first and third |
| PngRemove.KeptChunks | src/util/index.ts:51-99 | the remover's walk returns the listing filtered by position, or the listing's error at the same offset |
| PngRemove.SetBytes | src/util/index.ts:103 | `set` replaces exactly the bytes from the given offset with the source and leaves the rest unchanged |
| PngRemove.WritePrefix | src/util/index.ts:103 | after a `set`, everything up to the end of the written bytes is the old prefix followed by the source |
| PngRemove.WriteSuffix | src/util/index.ts:103 | a `set` that ends at or before an index leaves everything from that index on unchanged |
| PngRemove.WriteChunk | src/util/index.ts:105-122 | writing a chunk at `newOffset` puts exactly the chunk's encoding there and leaves the bytes before and after it unchanged |
| PngRemove.WriteFramed | src/util/index.ts:106-122 | the three `set` calls leave header, data and CRC one after the other at `newOffset`, and the bytes before and after them unchanged |
| PngRemove.ThreeWrites | src/util/index.ts:106-122 | three adjacent writes at offsets o, o + 8 and o + 8 + L compose into one write, leaving what follows unchanged |
| PngRemove.FramedStep | src/util/index.ts:105-123 | framing chunk j after chunks 0 .. j - 1 extends their framing by its encoding |
| PngRemove.PrefixSnoc | src/util/index.ts:105 | the first j + 1 chunks are the first j followed by chunk j |
| PngRemove.PlaceChunk | src/util/index.ts:105-124 | one `forEach` step frames chunk j right after the earlier chunks, advances `newOffset` by length + 12 and leaves the bytes after it unchanged |
| PngRemove.SizeFromWire | src/util/index.ts:102 | the bytes left for chunks j onward are their Σ(length + 12) |
| PngRemove.Reassemble | src/util/index.ts:101-124 | the fresh buffer holds the input's first eight bytes followed by the framing of the kept chunks, and nothing else |
| PngRemove.RemovePngChunk | src/util/index.ts:51-127 | the result is a fresh buffer equal to the specified output, or the listing's error at the same offset; it modifies nothing that existed before the call, so the input is never written |

## Left out

- `arrayBufferToBase64` (src/util/index.ts:129-136) is a wrapper around the browser's `btoa`, a foreign call; it is not part of this model.
- `src/App.tsx` is not part of this model. That covers the UI signals, drag-and-drop, `FileReader` and Blob/URL I/O, and the floating-point `convertUnits`.
- The ancillary-chunk allowlist in `src/App.tsx` is a UI policy. The remover removes whatever positions it is given, so the model has no allowlist.
- CRC validation and recomputation: the source does neither, and the model carries each CRC through unchanged.
- What any chunk's payload means.
- ListPngChunks: a truncated buffer gives `MalformedChunk(offset)`, where the source pushes one last record and stops. In that record the CRC is NaN, since its read always passes the end. The length is NaN only when the length field itself is cut short. The data is the `slice`, clamped to the end of the buffer. Type characters whose bytes lie past the end are U+0000.
- RemovePngChunk: a truncated buffer gives `MalformedChunk(offset)`. The source behaves in three ways there. When a kept chunk's own length field is cut short, its length is NaN, so the `reduce` total is NaN and `new Uint8Array` allocates 0 bytes; copying the signature into it then throws a RangeError. When a kept chunk's length field is whole but its type bytes, data or CRC are cut short, the source keeps the declared length and writes zero bytes for the missing type bytes, the clamped data (none when the type is cut short) and a CRC of zero bytes, leaving the rest of the output zero-filled. A truncated chunk whose position is selected is skipped silently.
- Numbers are unbounded integers rather than doubles. Every field value is below 2^32, and offsets stay far below 2^53, so in the source's range the two agree.
- `chunkIndexes` is a sequence of integers. A non-integer number in the source's `number[]` never matches a position, and such numbers are not modelled.
- No idempotence property of removal is stated. Positions shift once chunks are removed, so running the remover twice with the same indexes removes different chunks, and the source has no operation that renumbers them.
