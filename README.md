# DiagCacheStream, modelled in Dafny

`DiagCacheStream` (general/filestream.go) is a write-once, read-many binary
cache of encrypted matrix diagonals: one file per matrix block row, named
`<prefix>_<blockRowIndex>.bin`. A writer's first `WriteDiag` fixes six header
parameters from its first slot and writes a 48-byte header of little-endian
u64 fields, followed by the baby-step and giant-step index tables at one byte
per entry. After that, every `WriteDiag` appends one frame: an 8-byte length,
then a payload made of a u32 rotation shift and, per slot, a flag byte (1 for
nil) followed by the coefficient bytes of a present plaintext. A reader decodes
the header and the tables (`d` entries each) when it opens the file. Each
`ReadDiag` then returns one row, or `(nil, 0)` once a frame cannot be read in
full. `ResetRead` rewinds to the first frame at offset `48 + 2d`.

The model has these modules:

- `Bytes`: Go's `binary.LittleEndian` u32/u64 encodings and their round trips.
- `HeaderCodec`: the header block and the index-table block, both directions.
  It also holds the table loops of `WriteDiag` and of the reading side of
  `NewDiagCacheStream` as methods over arrays.
- `CoeffCodec`: a stand-in for the external coefficient codec. A polynomial of
  degree `n` over `m` moduli takes exactly `SlotBytes(n, m)` bytes and decodes
  back to itself.
- `RowCodec`: the row payload, its frame, the slot decoder over the reused row
  buffer, and one `ReadDiag` step (`ReadStep`) as a function.
- `CacheFile`: the whole file as the writer leaves it (`FileImage`), and
  reading it back frame by frame and in one full pass.
- `FileNames`: the `%s_%d.bin` file name.
- `CacheStream`: the stream itself. It is a class whose fields are the
  source's fields, with the file's bytes as a `seq<byte>` and the row buffer as
  an `array<byte>`. Its methods follow `NewDiagCacheStream`, `SetIndexTables`,
  `GetIndexTables`, `WriteDiag`, `ReadDiag`, `ResetRead` and `Close`. The
  in-place loops (the row encoder, the slot decoder, the table loops) are
  `for`/`while` loops proved against the specification functions of
  `RowCodec` and `HeaderCodec`.

The file system is a map from names to contents. A stream works on its own
copy of its file. A fatal error (`panic`, `log.Fatal`) is an outcome value:
`WriteFailed` leaves the writer `Aborted`, and opening returns `OpenFailed`.

The first `WriteDiag` takes the header from `pv[0]`
(general/filestream.go:150-154), not from the first present slot. A nil
`pv[0]` on that first call therefore crashes, and `WriteDiag` requires it
present.

## Model

| member | source | states |
|---|---|---|
| `FileNames.FileName` | general/filestream.go:42 | the cache file of a block row is the prefix, `_`, the index in Go's `%d` form, then `.bin` |
| `FileNames.FileNameInjective` | general/filestream.go:42 | two block rows under one prefix with the same file name have the same index, so their streams never share a file |
| `FileNames.IntDecimalRoundTrip` | general/filestream.go:42 | the `%d` rendering of any Go int, minus sign included, parses back to that int |
| `FileNames.NatDecimalRoundTrip` | general/filestream.go:42 | the decimal digits of a natural number have that number as their value |
| `Bytes.DecodeEncodeLE` | general/filestream.go:158-163 | the k little-endian bytes of any x below 256^k decode back to x |
| `Bytes.EncodeDecodeLE` | general/filestream.go:86-91 | every byte string is the little-endian encoding of the value it decodes to |
| `Bytes.Uint64RoundTrip` | general/filestream.go:158-163 | `Uint64(PutUint64(x)) == x` for every u64 x |
| `Bytes.PutUint64RoundTrip` | general/filestream.go:86-91 | every 8 bytes are `PutUint64` of the value `Uint64` reads from them |
| `Bytes.Uint32RoundTrip` | general/filestream.go:261 | the shift written with `PutUint32` reads back unchanged, so the returned shift is always in [0, 2^32) |
| `Bytes.PutUint32RoundTrip` | general/filestream.go:205 | every 4 bytes are `PutUint32` of the value `Uint32` reads from them |
| `HeaderCodec.EncodeHeader` | general/filestream.go:156-163 | the header block is exactly 48 bytes |
| `HeaderCodec.EncodeHeaderFields` | general/filestream.go:158-163 | header field k (vectorLen, level, scale bits, n, numModuli, rowSize) sits at bytes 8k..8k+8, little-endian |
| `HeaderCodec.DecodeHeader` | general/filestream.go:86-91 | the six header fields are the little-endian u64 values at offsets 0, 8, 16, 24, 32 and 40 of the header block |
| `HeaderCodec.HeaderRoundTrip` | general/filestream.go:156-163 | decoding the 48 header bytes a writer emits gives back all six fields |
| `HeaderCodec.HeaderDecodeEncode` | general/filestream.go:86-91 | every 48-byte block is the encoding of the header it decodes to |
| `HeaderCodec.TableBytesIndex` | general/filestream.go:176-185 | byte i of a table block is 1 when entry i is true and 0 otherwise |
| `HeaderCodec.TableBitsIndex` | general/filestream.go:102-105 | entry i read from a table block is true exactly when byte i is non-zero |
| `HeaderCodec.TableBitsOfBytes` | general/filestream.go:102-105 | reading back the bytes of one table gives the table |
| `HeaderCodec.EncodeTables` | general/filestream.go:174-189 | the table block is one byte per baby-step entry, then one per giant-step entry, `len(baby) + len(giant)` bytes in all |
| `HeaderCodec.DecodeTables` | general/filestream.go:102-105 | the two tables of length d read back from a table block: baby entry i from byte i, giant entry i from byte `d + i`, each true when the byte is non-zero |
| `HeaderCodec.TablesRoundTrip` | general/filestream.go:174-189 | tables of equal length d written as baby then giant read back as the same two tables |
| `HeaderCodec.TablesCanonical` | general/filestream.go:102-105 | a 2d-byte table block re-encodes to itself after decoding exactly when every byte is 0 or 1 (both directions) |
| `HeaderCodec.EncodeIndexTables` | general/filestream.go:174-189 | the two writing loops put `baby[i]` at byte i and `giant[i]` at byte `len(baby)+i`, which is `EncodeTables` |
| `HeaderCodec.DecodeIndexTables` | general/filestream.go:93-105 | the reading loop gives the two tables `DecodeTables` specifies: entry i from byte i and from byte d+i |
| `CoeffCodec.WordsRoundTrip` | general/filestream.go:219 | the stand-in's coefficient words decode back to themselves |
| `CoeffCodec.CoeffsRoundTrip` | general/filestream.go:274 | a polynomial of n coefficients over m moduli encodes to `SlotBytes(n, m)` bytes, and decoding those bytes gives the coefficients back |
| `CoeffCodec.DecodeCoeffsShaped` | general/filestream.go:271-276 | whatever the bytes, a decoded plaintext has m moduli of n coefficients |
| `CoeffCodec.WriteCoeffsTo` | general/filestream.go:219-220 | the coefficients go into the buffer at pointer, the returned offset is `pointer + SlotBytes(n, m)`, and the bytes outside that range are unchanged |
| `RowCodec.EncodeSlot` | general/filestream.go:210-222 | a slot's encoding: flag 1 for nil; else flag 0, then the `SlotBytes` coefficient bytes of its polynomial |
| `RowCodec.EncodeRow` | general/filestream.go:205-225 | the row payload: the shift as a little-endian u32, then the encodings of the slots in slot order |
| `RowCodec.EncodeSlotsSnoc` | general/filestream.go:209-225 | the row encoding grows by one slot's encoding per slot, in slot order |
| `RowCodec.EncodedRowLength` | general/filestream.go:205-225 | the payload of a row with k present slots is `4 + vectorLen + k * SlotBytes` bytes long |
| `RowCodec.EncodedSlotsLength` | general/filestream.go:209-225 | each nil slot costs 1 byte and each present slot costs `1 + SlotBytes` |
| `RowCodec.RowSizeBound` | general/filestream.go:154 | the payload never exceeds `rowSize = 4 + (1 + SlotBytes) * vectorLen`, so every write into the row buffer is in bounds; it is strictly shorter when a slot is nil and polynomials take room |
| `RowCodec.Frame` | general/filestream.go:227-230 | a frame is the payload's length as a little-endian u64, then the payload |
| `RowCodec.Frames` | general/filestream.go:227-230 | the row stream is the frames of the rows' payloads, in write order |
| `RowCodec.FramesAppend` | general/filestream.go:227-230 | the frames of two row sequences written one after the other are the frames of the first followed by those of the second |
| `RowCodec.DecodeSlots` | general/filestream.go:263-279 | the slot loop decodes exactly `count` slots from offset p: a flag byte equal to 1 is nil; any other flag is a plaintext at the header's level and scale whose coefficients are the `SlotBytes` bytes after the flag |
| `RowCodec.DecodeSlotsFit` | general/filestream.go:263-279 | every present slot the loop decodes has the header's shape (numModuli moduli of n coefficients), whatever the bytes |
| `RowCodec.DecodeEncodedSlot` | general/filestream.go:267-277 | one encoded slot matching the header is found at its offset: flag 1 for nil, else a flag other than 1 and coefficients that decode back to the slot's |
| `RowCodec.DecodeSlotsCons` | general/filestream.go:266-278 | an encoded slot at p followed by the decoded rest gives slots[i..], and decoding from p stays in bounds |
| `RowCodec.DecodePiecesFrom` | general/filestream.go:263-279 | encoded slots laid one after another from offset p decode back to the same slots, nil exactly where they were nil |
| `RowCodec.DecodeEncodedSlots` | general/filestream.go:263-279 | the encoding of slots matching the header, wherever it sits in a buffer and whatever surrounds it, decodes in bounds back to those slots |
| `RowCodec.ReadStep` | general/filestream.go:247-282 | one `ReadDiag` keeps the buffer length and leaves the reader in the file; `(nil, 0)` leaves it at the end; a row has `vectorLen` slots, a shift below 2^32, and the reader is past its 8-byte prefix |
| `RowCodec.ReadStepFits` | general/filestream.go:247-282 | every present slot of a row `ReadDiag` returns has the header's shape |
| `RowCodec.FrameAt` | general/filestream.go:227-230 | a frame's 8-byte prefix reads back as its payload length, and the payload follows it |
| `RowCodec.ReadStepOverFrame` | general/filestream.go:249-261 | `ReadDiag` over a whole frame that fits the buffer returns the slots decoded from the payload over the buffer's stale tail, the payload's first 4 bytes as shift, and moves past the frame |
| `RowCodec.RowRoundTrip` | general/filestream.go:247-282 | reading a frame written for a row that matches the header returns the row's shift and slots, nil exactly where they were nil, whatever the buffer held, and moves past the frame |
| `CacheFile.FileImage` | general/filestream.go:156-230 | the file a writer leaves: the 48-byte header, the table block, then one frame per written row in write order |
| `CacheFile.PrologueOfImage` | general/filestream.go:80-112 | opening a written file finds the header and the two tables the writer put there, and the rows start at `48 + 2d` |
| `CacheFile.FileImageAppend` | general/filestream.go:227-230 | writing one more row appends exactly its frame to the file |
| `CacheFile.ReadStepOnImage` | general/filestream.go:247-282 | at the start of frame k of a written file, `ReadDiag` returns row k and moves to frame k+1; after the last frame it returns `(nil, 0)` and stays at the end |
| `CacheFile.ReadRows` | general/filestream.go:247-282 | k successive `ReadDiag` calls from a cursor: the rows they return in order, or none when one of them would fail or reports the end of the stream |
| `CacheFile.ReadPassFrom` | general/filestream.go:247-282 | successive `ReadDiag` calls over frames that each read back as their row return those rows in order, whatever the buffer holds |
| `CacheFile.ReadPassOnImage` | general/filestream.go:242-282 | a full pass from `48 + 2d` (after opening or after `ResetRead`) returns every written row in write order, so a second pass gives the same rows |
| `CacheStream.HeaderAdmitsRows` | general/filestream.go:149-154 | the header the first write takes from `pv[0]` (vectorLen `len(pv)`, level, scale, n and numModuli of `pv[0]`, rowSize `4 + (1 + SlotBytes) * vectorLen`) lets every row of at most vectorLen slots shaped like `pv[0]`, `pv` included, be encoded into the rowSize-byte buffer |
| `CacheStream.ReadRowWritable` | general/filestream.go:149-154 | a row read under a header whose rowSize is `4 + (1 + SlotBytes) * vectorLen`, as the first write derives it, fits that header's row buffer and has its shape, so it can be written again |
| `CacheStream.HeaderOutcome` | general/filestream.go:170-172 | the first write fails fatally when a table was never set, then when a table has fewer than ten entries (the `[:10]` of lines 198-199), and succeeds otherwise |
| `CacheStream.DiagCacheStream.constructor` | general/filestream.go:117-134 | a new stream starts at its head with the given fields and no rows written |
| `CacheStream.DiagCacheStream.SetIndexTables` | general/filestream.go:137-140 | replaces both tables and keeps the stream valid |
| `CacheStream.DiagCacheStream.GetIndexTables` | general/filestream.go:142-144 | returns the two tables last set |
| `CacheStream.DiagCacheStream.WriteDiag` | general/filestream.go:146-231 | fixes the header from pv only at the head and keeps it afterwards; at the head it appends header and tables before the frame and fails fatally when a table is nil (header already written) or shorter than ten entries, without looking at the row; otherwise it appends exactly the row's frame, leaves the head for good, and the file stays the image of all rows written with the tables written at the head; the first call allocates a fresh row buffer and later calls keep it, so the stream can be written again |
| `CacheStream.DiagCacheStream.WriteHeader` | general/filestream.go:148-203 | writes the header from `pv[0]` before the nil-table check, then the tables; on success the file is the prologue of an image with no rows over the tables just written, with a fresh `rowSize` buffer; on failure the buffer is untouched |
| `CacheStream.DiagCacheStream.EmitHeader` | general/filestream.go:149-165 | sets the six header fields and appends their 48-byte block |
| `CacheStream.DiagCacheStream.WriteTables` | general/filestream.go:174-202 | appends the table block, fails when a table has fewer than ten entries, else allocates the row buffer and leaves the head |
| `CacheStream.DiagCacheStream.StartRows` | general/filestream.go:201-202 | the file is now the image of no rows, with a fresh row buffer of `rowSize` bytes |
| `CacheStream.DiagCacheStream.WriteFrame` | general/filestream.go:205-230 | the row's frame is appended and the row recorded; the stream stays valid |
| `CacheStream.DiagCacheStream.WriteRow` | general/filestream.go:205-225 | the shift and slot loop leave the row's encoding in the first `pointer` bytes of the buffer, and `pointer` is the payload length |
| `CacheStream.DiagCacheStream.WriteSlot` | general/filestream.go:210-224 | one slot's flag and coefficients are written after the bytes already in the buffer, and the pointer moves past them |
| `CacheStream.DiagCacheStream.AppendFrame` | general/filestream.go:227-230 | the 8-byte length and the first `pointer` bytes of the buffer are appended, which is the row's frame |
| `CacheStream.DiagCacheStream.ReadDiag` | general/filestream.go:247-282 | the result, the new position and the new buffer are those of `ReadStep`, and the stream stays valid |
| `CacheStream.DiagCacheStream.FillBuffer` | general/filestream.go:256 | the bytes read replace the front of the row buffer and the rest keeps its old bytes |
| `CacheStream.DiagCacheStream.ResetRead` | general/filestream.go:242-245 | the reader is back at the reset position, the first frame |
| `CacheStream.DiagCacheStream.Close` | general/filestream.go:233-240 | the stream is closed; a writer's bytes reach the file system, where a written file now holds the image of its header, tables and rows; a reader leaves the file system as it was |
| `CacheStream.DecodeRowSlots` | general/filestream.go:263-279 | the slot loop returns exactly the slots `DecodeSlots` specifies |
| `CacheStream.DecodeSlotAt` | general/filestream.go:267-278 | one turn of the slot loop yields the first decoded slot and the offset of the next one |
| `CacheStream.PresentSlotBytes` | general/filestream.go:214-224 | a present slot is written as flag 0 followed by its `SlotBytes` coefficient bytes |
| `CacheStream.NewDiagCacheStream` | general/filestream.go:41-135 | for writing: returns `AlreadyPresent` and changes nothing when the file exists, else creates it empty with a valid stream at its head, no tables and no rows. For reading: fails on a missing file, on one shorter than `48 + 2d`, and on `d < 10`; else the stream has the decoded header and tables and stands at `48 + 2d` |

## Left out

- Operating-system files and `bufio` buffering are replaced by a map from names to byte sequences and a cursor. `os.Stat`/`Create`/`Open` errors and I/O errors from `Write` are not modelled. On a fatal error the process exits without flushing its `bufio.Writer`; the model's file holds what was handed to the writer, not what reached the disk.
- `d` is a parameter of `NewDiagCacheStream`. It is not computed as `ceil(sqrt(slots))`, because that is floating point and comes from `cryptoParams`.
- `scale` is carried as its 64-bit pattern. `math.Float64bits`/`Float64frombits` are floating point, and the cache only copies the bits.
- The coefficient codec (`ring.WriteCoeffsTo`, `ring.DecodeCoeffs`, `GetDataLen(false)`) and `ckks.NewPlaintext` are external. A stand-in writes 8 bytes per coefficient, and the stream relies only on its fixed width and its round trip.
- `crypto.CryptoParams` is external and is not part of this model.
- The debug printing is left out. Only its effect is kept: `[:10]` on a table with fewer than ten entries crashes, which is `TablePrintOutOfRange`.
- `CacheStream.DiagCacheStream.ReadDiag`: `dcs.buf[:bytesToRead]` past `rowSize` and a flag byte past the row buffer crash in the source, and a coefficient decode running past the frame returns an error the source discards. All three are preconditions (`ReadSafe`), not error results.
- `CacheStream.DiagCacheStream.WriteDiag` requires what makes the source's first call not crash: a present `pv[0]` with at least one modulus, and header fields that fit in a u64. Unless the call fails on its tables first, it also requires that every present slot has the header's shape and that the row fits `rowSize` (`HeaderAdmitsRows` shows that rows shaped like `pv[0]` do). The Go code would write out of bounds or pass a mismatched shape to the codec instead.
- A Go slice's capacity is treated as its length: `dcs.buf[:bytesToRead]` beyond `len(buf)` but within `cap(buf)` is not modelled.
- `CacheStream.DiagCacheStream.Close`: closing the OS file is I/O. The model's flush stores the writer's bytes under its file name in the file-system map that `Close` is given and returns.
