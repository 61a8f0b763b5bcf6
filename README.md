# gpwgen core, modelled in Dafny

`gpwgen` turns a gridded population raster into H3 hexagon cells. Its output
is a flat binary stream of 12-byte records. Each record is a little-endian
`u64` H3 cell index followed by a little-endian `f32` value. The tool has two
steps:

* **tessellate** (`gen_to_disk`, `tessalate_grid`):
  - every grid sample that holds data is covered by the H3 cells of its
    rectangle;
  - the cell indices are sorted and deduplicated;
  - each cell gets the same share of the sample's value;
  - the records are written in the order the worker messages arrive.
* **combine** (`combine`, `SummationCompactor`):
  - the records of several such streams are read back;
  - they go into an H3 tree map (`HexTreeMap`) that sums seven complete
    siblings into their parent once the parent is fine enough;
  - the map's entries are written out again in the same format.

Modules:

| module | what it models |
|---|---|
| `Wrappers` | `Option` and `Result` |
| `ByteOrder` | unsigned widths and little-endian encoding of `u32`/`u64` (the `byteorder` calls and `to_le_bytes`) |
| `Records` | the 12-byte record format and streams of records |
| `Combine` | the combine read loop, its error classification, the insertion into the map and the write-out loop |
| `CombineFacts` | what the read loop accepts, rejects and reads back from a written stream |
| `Compaction` | `SummationCompactor::compact` |
| `CellList` | the sort and dedup of a cell list, in place on an array |
| `Generate` | the row flip, `tessalate_grid`, the messages the workers send, and the consumer loop that writes them |
| `GenerateFacts` | which messages are sent, their layout on disk, and independence from arrival order |

The model is parameterised over everything that is geometry, floating point
or library internals:

* `cover(offset, col)` stands for building the rectangle of the sample at
  column `col` and flipped row `offset = nrows - row - 1`, and polyfilling it. `None` stands for the panic in `Polygon::from_degrees(...).unwrap()`.
* `scale(bits, n)` stands for the `f32` division `val / n`. Values are kept
  as their 32-bit patterns.
* `add` stands for `f32` addition in the compactor.
* `valid(raw)` stands for `Cell::try_from`.
* `insert`, `empty` and `entries` stand for `HexTreeMap` insertion, its empty
  map and its iteration order.

How a source ends: the combine loop evaluates both reads before the match
(main.rs:119), and breaks out whenever the first read (`read_u64`) reports
end-of-file (main.rs:124). So a tail of 1 to 7 bytes ends a source silently.
Only a tail of 8 to 11 bytes, where the `u64` read succeeds and the `f32` read
fails, is an error (main.rs:128-130). See `Combine.DecodeSource`,
`CombineFacts.DecodeSourceOk` and `CombineFacts.DecodeSourceTruncated`.

## Model

| member | source | states |
|---|---|---|
| ByteOrder.ReadU64 | gpwgen/src/main.rs:119 | the `u64` read from 8 little-endian bytes is the unique value whose encoding is those bytes |
| ByteOrder.ReadU32 | gpwgen/src/main.rs:119 | the `f32` bit pattern read from 4 little-endian bytes is the unique value whose encoding is those bytes |
| ByteOrder.U64Bytes | gpwgen/src/generate.rs:74 | a `u64` is written as exactly 8 bytes. ReadU64OfU64Bytes is its inverse |
| ByteOrder.U32Bytes | gpwgen/src/generate.rs:72 | an `f32`'s bits are written as exactly 4 bytes. ReadU32OfU32Bytes is its inverse |
| ByteOrder.ReadU64OfU64Bytes | gpwgen/src/main.rs:137 | reading back a written `u64` gives the same value |
| ByteOrder.ReadU32OfU32Bytes | gpwgen/src/main.rs:138 | reading back a written `f32` bit pattern gives the same bits |
| ByteOrder.FromLeBytesOfLeBytes | gpwgen/src/generate.rs:72-74 | little-endian decoding inverts encoding for every value that fits the width |
| ByteOrder.LeBytesOfFromLeBytes | gpwgen/src/main.rs:119 | encoding inverts decoding for every byte string |
| ByteOrder.LeBytesInjective | gpwgen/src/generate.rs:74 | distinct in-range values have distinct encodings |
| Records.EncodeRecord | gpwgen/src/generate.rs:74-75 | a record is 12 bytes: the id in the first 8, the value bits in the last 4 |
| Records.DecodeRecord | gpwgen/src/main.rs:119 | decoding 12 bytes gives the record that encodes to exactly those bytes |
| Records.DecodeEncodeRecord | gpwgen/src/main.rs:119-120 | decoding an encoded record gives the record back |
| Records.EncodeRecords | gpwgen/src/main.rs:136-139 | a stream of n records is 12n bytes long. EncodeRecordsAt and DecodeEncodedRecords locate and read back each record |
| Records.EncodeRecordsAppend | gpwgen/src/main.rs:136-139 | writing two record lists one after the other gives the concatenated stream |
| Records.EncodeRecordsSnoc | gpwgen/src/main.rs:137-138 | each loop step appends the id bytes and then the value bytes |
| Records.EncodeRecordsAt | gpwgen/src/main.rs:136-139 | bytes 12i to 12i+12 of a stream are the encoding of record i |
| Combine.DecodeSource | gpwgen/src/main.rs:118-131 | a source that reads cleanly yields one record per complete 12 bytes and has a tail under 8 bytes. DecodeSourceOk, DecodeSourceTruncated and DecodeSourceInvalid give every outcome exactly |
| Combine.CombineLog | gpwgen/src/main.rs:116-133 | combining succeeds if and only if every source reads cleanly. CombineLogFails and CombineLogAppend give the error and the record order |
| Combine.ReadSources | gpwgen/src/main.rs:116-133 | the loop over all sources succeeds exactly when every source decodes. On success the map is the empty map with every record inserted in file order. On failure the error is the one from the first failing source |
| Combine.ReadSource | gpwgen/src/main.rs:117-132 | reading one source fails exactly when that source does not decode, with its error. On success the map is the starting map with the source's records inserted in stream order |
| Combine.CombineLogFails | gpwgen/src/main.rs:121 | the first source that fails to decode, after sources that all decoded, makes the whole combine fail with that source's error |
| Combine.CombineLogErrPersists | gpwgen/src/main.rs:116-133 | once the sources read so far have failed, later sources do not change the result |
| Combine.WriteEntries | gpwgen/src/main.rs:135-139 | the output is the encoding of the map's entries in iteration order |
| Combine.Combine | gpwgen/src/main.rs:112-141 | combine outputs the entries of the map built from all sources, or the first error |
| CombineFacts.CompleteRecords | gpwgen/src/main.rs:119-123 | a stream holds floor(length / 12) complete records |
| CombineFacts.CompleteRecordAt | gpwgen/src/main.rs:119 | complete record i has the id read from bytes 12i..12i+8 and the value read from bytes 12i+8..12i+12 |
| CombineFacts.DecodeSourceOk | gpwgen/src/main.rs:118-131 | a source reads cleanly if and only if its tail is under 8 bytes and every complete record's id is a valid cell. The result is then exactly the complete records |
| CombineFacts.DecodeSourceTruncated | gpwgen/src/main.rs:128-130 | a truncation error happens if and only if every complete record is valid and the tail is 8 to 11 bytes |
| CombineFacts.DecodeSourceInvalid | gpwgen/src/main.rs:121 | the first record with an invalid id aborts reading with that raw id |
| CombineFacts.DecodeEncodedRecords | gpwgen/src/main.rs:118-131 | a written stream, with any tail shorter than a record, reads back as its records, or as a truncation error for an 8-11 byte tail, or as the first invalid id |
| CombineFacts.WrittenEntriesReadBack | gpwgen/src/main.rs:135-139 | a combine output reads back without error if and only if all its ids are valid cells, and then gives the entries |
| CombineFacts.CombineLogAppend | gpwgen/src/main.rs:116-118 | records are collected source by source, in the order the sources are given |
| CombineFacts.CombineLogSingle | gpwgen/src/main.rs:116-133 | a single source gives exactly what that source decodes to |
| CombineFacts.CombineOutputReadsBack | gpwgen/src/main.rs:112-141 | an output whose ids are all valid cells, given as the only source of another combine, yields exactly the written entries |
| Compaction.SummationCompactor.Compact | gpwgen/src/main.rs:149-157 | merges if and only if the cell's resolution is at least the target resolution and all seven children are present. The merged value is the left-to-right sum v0+...+v6 |
| Compaction.BelowTargetNeverMerges | gpwgen/src/main.rs:150-152 | a cell coarser than the target resolution never gets a merged value |
| Compaction.MissingChildNeverMerges | gpwgen/src/main.rs:153-156 | any missing child prevents the merge |
| Compaction.SevenEqualSiblingsSum | gpwgen/src/main.rs:153-154 | seven equal integer children at an eligible cell merge to seven times the value |
| Compaction.SixOfSevenSiblingsStay | gpwgen/src/main.rs:153-156 | six present children and one absent child are not merged |
| CellList.InsertSorted | gpwgen/src/generate.rs:42 | inserting into a sorted list keeps it sorted and adds exactly that element |
| CellList.SortSeq | gpwgen/src/generate.rs:42 | the reference sort: its result is sorted and a permutation of its input |
| CellList.SortedUnique | gpwgen/src/generate.rs:42 | two sorted permutations of the same multiset are equal, so the sort result is unique |
| CellList.Dedup | gpwgen/src/generate.rs:43 | dedup is empty exactly when its input is, and keeps the input's last element last. DedupMembers and DedupSortedStrict give its contents |
| CellList.DedupMembers | gpwgen/src/generate.rs:43 | removing consecutive duplicates keeps exactly the same set of values |
| CellList.DedupNoAdjacentRepeats | gpwgen/src/generate.rs:43 | on any input, sorted or not, no two neighbours of the dedup result are equal |
| CellList.DedupSortedStrict | gpwgen/src/generate.rs:42-43 | dedup of a sorted list is strictly ascending |
| CellList.CanonicalProperties | gpwgen/src/generate.rs:37-45 | sort then dedup gives a strictly ascending list with exactly the input's cells |
| CellList.SortInPlace | gpwgen/src/generate.rs:42 | the array ends up holding the sort of its old contents |
| CellList.DedupInPlace | gpwgen/src/generate.rs:43 | the kept prefix of the array is the dedup of its old contents |
| CellList.CollectCells | gpwgen/src/generate.rs:37-45 | the collected cell list is sorted, deduplicated and holds exactly the covering's cells |
| Generate.RowOffset | gpwgen/src/generate.rs:16 | the flipped row `nrows - row - 1` exists if and only if `row < nrows`, and is then below `nrows` |
| Generate.RowOffsetInvolution | gpwgen/src/generate.rs:16 | flipping a row twice gives the row back |
| Generate.RowOffsetEnds | gpwgen/src/generate.rs:16 | for any non-empty grid, row 0 maps to `nrows - 1` and the last row maps to 0 |
| Generate.RowOffsetOrder | gpwgen/src/generate.rs:16 | each next row maps one lower, so the flip reverses row order |
| Generate.TessellateGrid | gpwgen/src/generate.rs:10-48 | fails if and only if the row is out of range or the rectangle cannot be built. Otherwise the cells are strictly ascending and are exactly the covering's cells |
| Generate.TessellateGridInPlace | gpwgen/src/generate.rs:10-48 | the imperative version with the mutable vector computes the same result |
| Generate.SampleMessages | gpwgen/src/generate.rs:62-65 | a no-data sample sends nothing. A sample with data panics exactly when its tessellation does, and otherwise sends one message with its cells and its value |
| Generate.RowMessages | gpwgen/src/generate.rs:59-66 | a row sends at most one message per sample. RowMessagesExact gives exactly which, in column order |
| Generate.GridMessages | gpwgen/src/generate.rs:56-67 | the grid sends at most one message per sample. GridMessagesExact gives exactly which, in row-major order |
| Generate.MessageRecords | gpwgen/src/generate.rs:71-76 | a message yields one record per cell. MessageLayout gives each record's bytes |
| Generate.ConsumedRecords | gpwgen/src/generate.rs:70-77 | the consumer emits one record per cell summed over all messages, and so 12 bytes per cell |
| Generate.WriteMessages | gpwgen/src/generate.rs:70-77 | the consumer writes exactly the encoding of the records of all messages, in arrival order |
| Generate.WriteMessage | gpwgen/src/generate.rs:71-76 | one message appends one record per cell, each with that message's scaled value |
| GenerateFacts.RowMessagesFail | gpwgen/src/generate.rs:59-66 | a row's work panics if and only if some sample with data has a rectangle that cannot be built |
| GenerateFacts.RowMessagesCount | gpwgen/src/generate.rs:59-66 | a row sends one message per sample that holds data |
| GenerateFacts.RowMessagesSent | gpwgen/src/generate.rs:61-64 | every message a row sends comes from a sample with data and carries that sample's value and cells |
| GenerateFacts.RowMessagesCover | gpwgen/src/generate.rs:61-64 | every sample with data in a row is sent |
| GenerateFacts.PresentCols | gpwgen/src/generate.rs:59-62 | the columns of a row's present samples, ascending: every listed column holds data and every column with data is listed |
| GenerateFacts.RowMessagesExact | gpwgen/src/generate.rs:59-66 | a successful row sends one message per present column and nothing else. Message k carries the value and cells of the k-th present column, so each sample's message appears exactly once |
| GenerateFacts.GridMessagesFail | gpwgen/src/generate.rs:56-67 | the grid's work panics if and only if some row's work panics |
| GenerateFacts.GridMessagesCount | gpwgen/src/generate.rs:56-67 | the grid sends one message per sample that holds data |
| GenerateFacts.GridMessagesSent | gpwgen/src/generate.rs:56-67 | every message comes from some sample with data at some row and column |
| GenerateFacts.GridMessagesCover | gpwgen/src/generate.rs:56-67 | every sample with data in the grid is sent |
| GenerateFacts.PresentCells | gpwgen/src/generate.rs:56-62 | the (row, column) of the grid's present samples: every listed cell holds data, every cell with data is listed, and the list is in strict row-major order, so no cell is listed twice |
| GenerateFacts.GridMessagesExact | gpwgen/src/generate.rs:56-67 | a successful grid sends one message per present cell and nothing else. Message k carries the value and cells of the k-th present cell, so each sample's message appears exactly once |
| GenerateFacts.MessageLayout | gpwgen/src/generate.rs:71-76 | a message takes 12 bytes per cell. Record k holds cell k's id, and every record holds the same value bytes |
| GenerateFacts.EmptyMessageWritesNothing | gpwgen/src/generate.rs:71-76 | a message with no cells writes nothing, whatever its scaled value is |
| GenerateFacts.ConsumedAppend | gpwgen/src/generate.rs:70-77 | consuming two batches of messages produces their records one after the other |
| GenerateFacts.ArrivalOrderIrrelevant | gpwgen/src/generate.rs:51-77 | any two arrival orders of the same messages write the same multiset of records |
| GenerateFacts.ConsumedIdsValid | gpwgen/src/generate.rs:70-77 | if every sent cell is valid, every written record's id is valid |
| GenerateFacts.TessellationOutputReadsBack | gpwgen/src/generate.rs:70-77 | a tessellate output with valid cells is read by combine as exactly the written records |

## Left out

- Geometry: the rectangle's corners in degrees, `Polygon::from_degrees` and the H3 polyfill (generate.rs:16-41) are the `cover` parameter. They are floating-point library code that the model does not see.
- Floating point: the division `val / len` (generate.rs:71) is the `scale` parameter and the compactor's `f32` addition is the `add` parameter. NaN and infinity behaviour, e.g. for a message with no cells, is not modelled.
- Generate.RowOffset: the row flip is modelled with checked subtraction. `row >= nrows` is a panic (`None`), not the wrap-around a release build would give. The `usize` width is not modelled.
- Output written before a tessellation panic: the consumer (generate.rs:70-77) keeps writing every message that arrives until all senders are gone, and only `handle.join().unwrap()` (generate.rs:78) panics. When `GridMessages` gives `None`, the model does not say which records were already written to the output.
- Concurrency: the rayon workers, the `mpsc` channel and `handle.join()` (generate.rs:51-68, 78). The consumer runs over any message sequence. GenerateFacts.ArrivalOrderIrrelevant covers the reordering.
- HexTreeMap itself: insertion, last-write-wins on duplicate cells, when compaction runs, and iteration order (main.rs:112-114, 122, 136) are the `insert`, `empty` and `entries` parameters. `Compaction.SummationCompactor.Compact` is modelled on its own and not connected to the map.
- Cell validation: `Cell::try_from` (main.rs:121) is the `valid` parameter.
- I/O errors other than end-of-file on reading (main.rs:125-127), write errors (main.rs:137-138, generate.rs:74-75, the `unwrap`s), and file opening and creation (main.rs:105-110) are not modelled. `BufReader`/`BufWriter` buffering is invisible in the byte streams.
- CellList.DedupInPlace: the `Vec` truncation after `dedup` is represented by the returned length of the kept prefix.
- Reading the ASCII raster (`GpwAscii`), command lines and options (args.rs, options.rs), output path naming, progress bars and the allocator are not part of this model.
