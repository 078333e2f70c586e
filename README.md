# streamstore: segment files and the in-memory write buffer

streamstore buffers appended entries per stream in a `MemTable`. It then
flushes the buffer into an immutable segment file and reads streams back
from that file through a memory map. This project models both halves.

- **The write buffer** (`src/mem_table.rs`): a map from stream id to
  stream table, three counters (`first_entry`, `last_entry`, `size`) and an
  optional handler that resolves the start offset of a stream not seen yet.
- **The segment file** (`src/segments.rs`): a 40-byte header, an index of
  48-byte records sorted by stream id, then the stream payloads.
  - `generate_segment` writes the file.
  - `Segment` reads the header, the index, the byte range of a stream and
    the stream's bytes.

Modules, one per concern:

- `Bytes`: bytes, u64 and little-endian encoding.
- `Tables`: the entry, the error kinds and the stream table the buffer holds.
- `MemTables`: the buffer, as step functions and as the `MemTable` class.
- `SegmentFormat`: the two `#[repr(C)]` records as bytes.
- `SegmentReader`: the read side.
- `SegmentLayout`: the image the writer produces, as functions.
- `SegmentWriter`: `generate_segment` as an imperative method, which
  sorts an index array in place.
- `SegmentReadBack`: what the reader recovers from any file laid out as
  header, index, payloads.
- `SegmentRoundTrip`: the round trip for the image the writer evidently
  intends.
- `SegmentFindings`: what the reader makes of the image actually written.

The hash map's iteration order is not fixed by the program. The model takes
it as a parameter `order`: any enumeration of the map's keys. The writer
iterates the same unchanged map twice, so both loops use the same `order`.

The reader dereferences raw pointers into the mapped file without any bounds
check. Each reader function requires what keeps its own reads inside the file
and its arithmetic below 2^64:
- `HasHeader`: the file holds the 40-byte header (`ReadHeader`, `EntryIndex`).
- `IndexInBounds`: the index slots the header names lie inside the file
  (`StreamHeaders`, `FindStreamHeader`).
- `RangeFits`: the index is in bounds and every record for the stream has
  `file_offset + size` below 2^64 (`GetStreamRange`). `get_stream_range`
  reads no payload bytes, so its range may run past the end of the file;
  `GetStreamRange` promises a range inside the file only under
  `RegionInBounds`.
- `RegionInBounds`: every record for the stream has `file_offset + size`
  inside the file (`StreamData`, which reads those bytes).

## Model

| member | source | states |
|---|---|---|
| Bytes.DecodeU64 | src/segments.rs:10-34 | the u64 read at a position is the one whose 8 little-endian bytes are stored there |
| Bytes.EncodeU64Injective | src/segments.rs:10-34 | two u64 fields with the same stored bytes are equal |
| Bytes.FromToLittleEndian | src/segments.rs:10-34 | decoding the little-endian encoding of a value below 256^n gives the value back |
| Bytes.ToFromLittleEndian | src/segments.rs:10-34 | encoding the value of any byte string gives that byte string back |
| SegmentFormat.EncodeHeader | src/segments.rs:26-34 | a segment header occupies exactly 40 bytes |
| SegmentFormat.EncodeHeaderField | src/segments.rs:26-34 | header field f (version, last_entry, first_entry, stream_headers_offset, stream_headers_count) is stored at bytes 8f..8f+8 |
| SegmentFormat.EncodeHeaderInjective | src/segments.rs:26-34 | two headers with the same bytes are the same header |
| SegmentFormat.DecodeHeader | src/segments.rs:71-73 | the header read from 40 bytes is the header whose encoding they are |
| SegmentFormat.EncodeStreamHeader | src/segments.rs:10-24 | an index record occupies exactly 48 bytes |
| SegmentFormat.EncodeStreamHeaderField | src/segments.rs:10-24 | record field f (version, stream_id, offset, file_offset, size, crc_check_sum) is stored at bytes 8f..8f+8 |
| SegmentFormat.EncodeStreamHeaderInjective | src/segments.rs:10-24 | two records with the same bytes are the same record |
| SegmentFormat.DecodeStreamHeader | src/segments.rs:75-86 | the record read from 48 bytes is the record whose encoding they are |
| SegmentFormat.EncodeStreamHeaders | src/segments.rs:181-194 | k records written back to back take 48k bytes |
| SegmentFormat.EncodeStreamHeadersAt | src/segments.rs:181-194 | record i of the written index sits at bytes 48i..48i+48 of it |
| SegmentReader.ReadHeader | src/segments.rs:71-73 | `read_header` returns the header whose encoding is the file's first 40 bytes |
| SegmentReader.EntryIndex | src/segments.rs:62-65 | `entry_index` is (first_entry, last_entry), stored at bytes 16..24 and 8..16 |
| SegmentReader.SlotStart | src/segments.rs:78-83 | record slot i starts at stream_headers_offset + 48i and lies inside the file |
| SegmentReader.StreamHeaders | src/segments.rs:75-86 | `stream_headers` has stream_headers_count records, record i being the one encoded in slot i |
| SegmentReader.Search | src/segments.rs:95-106 | the binary search returns only an index holding the id; on a sorted index it returns none only if no record in the range holds the id |
| SegmentReader.FindStreamHeader | src/segments.rs:95-108 | a record found has the requested id and is in the index; on a sorted index, nothing is found exactly when no record has the id |
| SegmentReader.GetStreamRange | src/segments.rs:88-93 | the range is (file_offset, file_offset + size) of a record for the stream, and absent exactly when the record is; it lies inside the file when every record for the stream does |
| SegmentReader.StreamData | src/segments.rs:110-122 | the bytes are exactly the file's bytes over the stream's range, and absent exactly when the range is |
| SegmentLayout.SortedKeys | src/segments.rs:167 | lists every key of the map once, in strictly increasing order |
| SegmentLayout.EnumerationLength | src/segments.rs:165 | an enumeration of the keys is as long as the map, so the count field equals the number of tables |
| SegmentLayout.RecordOf | src/segments.rs:149-156 | the record pushed for a table holds, in layout order, version 1, the table's stream id, offset and size, file_offset 0 and crc 0 |
| SegmentLayout.Records | src/segments.rs:145-158 | one record per key, in the given order, each built from its table with version 1, file_offset 0 and crc 0 |
| SegmentLayout.Placed | src/segments.rs:179-185 | record i gets file offset start + the sizes of records 0..i, with all other fields unchanged |
| SegmentLayout.PlacedStep | src/segments.rs:182-185 | the cursor moves past record j by exactly its size |
| SegmentLayout.EnumerationsSameRecords | src/segments.rs:145-158 | any two iteration orders produce the same records up to permutation |
| SegmentLayout.SortedPermutationUnique | src/segments.rs:167 | a sorted permutation of an index with distinct stream ids is that index |
| SegmentLayout.SortedIsSortedRecords | src/segments.rs:145-167 | sorting the records pushed in any iteration order gives the records in ascending key order |
| SegmentLayout.HeaderFor | src/segments.rs:160-166 | the header holds, in layout order, version 1, last_entry, first_entry, the given index offset and the number of tables |
| SegmentLayout.Payload | src/segments.rs:196-207 | the payload bytes written for tables whose sizes match their bytes are as many as the records' sizes add up to |
| SegmentLayout.SegmentIndexShape | src/segments.rs:145-194 | the written index has one record per table, record i for the i-th smallest key, strictly ascending by stream_id |
| SegmentWriter.SwapDown | src/segments.rs:167 | exchanges two neighbouring records, a permutation |
| SegmentWriter.InsertIntoSorted | src/segments.rs:167 | extends the sorted prefix by one record, a permutation |
| SegmentWriter.SortByStreamId | src/segments.rs:167 | `sort_by` on stream_id: the array ends sorted and a permutation of what it held |
| SegmentWriter.BuildRecords | src/segments.rs:145-158 | the records pushed are those of the tables in iteration order |
| SegmentWriter.PlaceAndEncode | src/segments.rs:179-194 | assigns the running file offsets in place and writes each record's bytes |
| SegmentWriter.WritePayloads | src/segments.rs:196-207 | writes every table's chunks, tables in iteration order, chunks in append order |
| SegmentWriter.BuildSortedIndex | src/segments.rs:145-167 | the sorted index array is the records in ascending key order, whatever the iteration order |
| SegmentWriter.GenerateSegment | src/segments.rs:125-232 | the file written is the header with stream_headers_offset 48, the sorted placed index, then the payloads in iteration order |
| SegmentWriter.GenerateSegmentCorrected | src/segments.rs:125-232 | with the offset field 40 and payloads written in index order, the file is the intended image |
| SegmentReadBack.Assemble | src/segments.rs:169-207 | a file is header, index, payloads; its length is 40 + 48k + the payload bytes |
| SegmentReadBack.AssembledHeader | src/segments.rs:62-73 | the reader gets back the header written and its (first_entry, last_entry) |
| SegmentReadBack.StreamHeadersRead | src/segments.rs:75-86 | an index whose records sit in the slots the header names is read back record for record |
| SegmentReadBack.AssembledIndex | src/segments.rs:75-86 | with the offset field 40, the index read is the index written |
| SegmentReadBack.AssembledRegions | src/segments.rs:88-93 | when payloads follow the index order, every record's range lies inside the file |
| SegmentReadBack.SearchFindsRecord | src/segments.rs:95-108 | on an index strictly sorted by id, the search finds the record holding the id |
| SegmentReadBack.StreamDataFromIndex | src/segments.rs:110-122 | a stream whose record is at position i reads back the bytes of that record's range |
| SegmentReadBack.AssembledStreamData | src/segments.rs:110-122 | each stream of a well-ordered file reads back its own chunk |
| SegmentReadBack.AssembledStreamDataAbsent | src/segments.rs:88-122 | a stream with no record reads back as none |
| SegmentReadBack.ShiftedRecord | src/segments.rs:75-86 | a record read 8 bytes past a written record holds that record's fields shifted down by one |
| SegmentReadBack.MisreadIndex | src/segments.rs:160-166 | with the offset field 48, an index is found only if the payloads total 8 bytes or more, and each record is then misread shifted |
| SegmentReadBack.MisreadReadsNothing | src/segments.rs:110-122 | in such a misread index every region is empty and inside the file, so a lookup yields no bytes |
| SegmentReadBack.EmptyRegionsReadEmpty | src/segments.rs:110-122 | if every record has size 0, any lookup yields nothing or the empty slice |
| SegmentRoundTrip.SumSizesPermutation | src/segments.rs:197-207 | the payload length does not depend on the order the records come in |
| SegmentRoundTrip.ImageLength | src/segments.rs:169-207 | the file is 40 + 48k + the sum of the tables' sizes bytes long, for any iteration order |
| SegmentRoundTrip.PayloadIsFlatten | src/segments.rs:196-207 | the payload bytes are the tables' chunks laid end to end in the order written |
| SegmentRoundTrip.ImageAssembled | src/segments.rs:169-207 | the image written is the assembly of its header, index and per-table chunks, and fits 64-bit offsets |
| SegmentRoundTrip.IntendedRegionsInOrder | src/segments.rs:182-185 | with payloads in index order, each record's file_offset is where its own table's bytes begin |
| SegmentRoundTrip.IntendedIndex | src/segments.rs:160-194 | the intended file's index lies inside it and is read back exactly, with (first_entry, last_entry) intact |
| SegmentRoundTrip.IntendedStreamData | src/segments.rs:110-122 | reading a stream from the intended file yields exactly its buffered bytes, or none when the buffer had no table for it |
| SegmentRoundTrip.IntendedStreamDataPresent | src/segments.rs:110-122 | a buffered stream reads back as exactly its buffered bytes |
| SegmentRoundTrip.IntendedStreamDataAbsent | src/segments.rs:110-122 | a stream the buffer did not hold reads back as none |
| SegmentRoundTrip.AbsentFromIndex | src/segments.rs:145-167 | a stream the buffer does not hold has no record in the index |
| SegmentRoundTrip.IndexRecordAt | src/segments.rs:145-194 | record i has version 1 and crc 0, copies stream_id, offset and size from the i-th smallest key's table, and starts where record i-1 ends |
| SegmentRoundTrip.LastRecordEnd | src/segments.rs:179-185 | the last record ends at 40 + 48k + the sum of sizes, that is at the end of the file |
| SegmentFindings.AsWrittenAssembled | src/segments.rs:160-166 | the file written has a header that names byte 48 and holds the record count |
| SegmentFindings.AsWrittenIndexMisread | src/segments.rs:160-166 | reading the file written: header and entry range intact, but every index record misread with its fields shifted |
| SegmentFindings.AsWrittenReadsNothing | src/segments.rs:160-166 | from the file written, no stream can be read back: every lookup yields nothing or no bytes |
| SegmentFindings.TwoStreamsIndex | src/segments.rs:179-185 | the counterexample's index gives stream 1 byte 136 and stream 2 byte 137 |
| SegmentFindings.TwoStreamsPayload | src/segments.rs:196-207 | with the map yielding stream 2 first, stream 2's byte is written first |
| SegmentFindings.ReadsFirstPayloadByte | src/segments.rs:110-122 | a record pointing at the first payload byte reads back that byte, whichever stream it belongs to |
| SegmentFindings.PayloadOrderCounterexample | src/segments.rs:196-207 | with the offset field corrected and the map yielding stream 2 first, stream 1 reads back stream 2's byte |
| MemTables.Account | src/mem_table.rs:86-95 | a successful append adds the payload length to size mod 2^64, sets last_entry to the entry's id, sets first_entry only while it is 0, and leaves the tables alone |
| MemTables.ResolveOffset | src/mem_table.rs:73-76 | an unseen stream starts at the handler's answer, or 0 with no handler installed |
| MemTables.AppendStep | src/mem_table.rs:66-97 | `append` as written: an existing stream takes the payload and moves the counters or fails unchanged; an unseen stream fails unchanged or gets an empty table and panics; first_entry is set only while 0 |
| MemTables.IntendedAppend | src/mem_table.rs:66-97 | the intended `append`: never panics, succeeds exactly when the handler and the table's append succeed, and otherwise leaves everything unchanged |
| MemTables.AppendToExistingStreamAsIntended | src/mem_table.rs:80-83 | on a stream already buffered, the code as written and the intended append agree |
| MemTables.IntendedAppendKeepsInvariant | src/mem_table.rs:77-83 | every table stays under its own id and its size stays equal to its buffered bytes |
| MemTables.RunIntendedCounters | src/mem_table.rs:86-95 | after successful appends, size is the total payload length mod 2^64, last_entry the last id, first_entry the first non-zero id |
| MemTables.RunAsWrittenNeedsKnownStreams | src/mem_table.rs:71-79 | as written, a run of appends succeeds only if every entry's stream was already buffered, and it adds no stream |
| MemTables.RunIntendedAcceptsAll | src/mem_table.rs:71-83 | intended appends accept every entry when the handler and the tables never fail, and every stream of the run is then buffered |
| MemTables.MemTable.constructor | src/mem_table.rs:19-27 | `new`: no streams, all counters 0, no offset handler, lock not poisoned |
| MemTables.MemTable.GetStreamRange | src/mem_table.rs:45-51 | none for an unknown stream, otherwise the stream table's own range |
| MemTables.MemTable.ReadStreamData | src/mem_table.rs:53-64 | `StreamNotFound` for an unknown stream, otherwise the stream table's own read |
| MemTables.MemTable.Append | src/mem_table.rs:66-97 | performs exactly `AppendStep` on the buffer's fields and keeps the invariant; its panic poisons the lock, and once poisoned every call panics at line 69 and changes nothing |
| MemTables.MemTable.AppendCorrected | src/mem_table.rs:66-97 | performs exactly `IntendedAppend` on the buffer's fields and keeps the invariant; on a poisoned lock it panics and changes nothing |

## Left out

- File handling: creating, flushing, syncing, renaming and mapping the file, the temporary-file cleanup, and `Segment::new`/`open`/`file_name` (src/segments.rs:43-60, 67-69, 128-143, 209-227). The writer returns the bytes it would write, and a `Segment` is a file name and its bytes. I/O errors are not modelled.
- `assert!(align_of::<SegmentHeader>() <= 8)` (src/segments.rs:126): a compile-time layout fact.
- Byte order: `#[repr(C)]` records are copied as raw memory, which is native-endian; the model fixes little-endian.
- The `Mutex` and the atomics in src/mem_table.rs: the model is single-threaded. The panic at src/mem_table.rs:79 happens with the stream-table lock held and poisons it. `RunAsWritten` therefore stops at the first panic, and `MemTable` records the poisoning in its `poisoned` field.
- MemTables.MemTable.GetStreamRange, MemTables.MemTable.ReadStreamData and SegmentWriter.GenerateSegment: they do not model the panic that `lock().unwrap()` raises on a poisoned lock (src/mem_table.rs:46, 59 and, through `get_stream_tables`, 42). They read the buffer as it stood when the lock was poisoned.
- `get_stream_tables` (src/mem_table.rs:41-43) returns a lock guard; the writer reads the map directly.
- `get_first_entry`, `get_last_entry` and `get_size` are plain reads of the class fields, with no contract of their own; what those fields hold is stated by `AppendStep`, `MemTable.Append` and `RunIntendedCounters`.
- There is no setter for `get_stream_offset` in src/mem_table.rs. The model's handler is a field a caller may set.
- StreamTable (src/table.rs), Entry and Error are not part of this model. A stream table's `append`, `get_stream_range` and `read_stream_data` are supplied as opaque fallible functions. The invariant lemmas assume that a successful append keeps the table's stream id and keeps its size equal to its buffered bytes (`Lawful`). Two further assumptions follow.
- Tables.NewStreamTable: `StreamTable::new` is taken to return an empty table (size 0, no chunks), with the given stream id and offset.
- MemTables.AppendStep: a failed stream-table append leaves that table unchanged, because `append` in the model returns no table on an error. The real `StreamTable::append` could change the table before it returns `Err`.
- crates/cherrycore/src/client/cherry.rs and the rest of the crates/ directory, logging and the tests are not part of this model.
- Bytes.DecodeU64, SegmentFormat.DecodeHeader and SegmentFormat.DecodeStreamHeader: each picks the value whose encoding the bytes are (`:|`), proved unique. The verifier accepts this, but a compiler cannot search all u64 values or records for it, so these decoders, and the reader built on them, are specifications rather than runnable code.
- SegmentReader.Search: Rust's `binary_search_by` probes differently. Both find the unique record on an index sorted with distinct ids, but with duplicate ids they may return different records.
- SegmentWriter.SortByStreamId: insertion sort stands in for the standard library's stable sort. Both give the same result on distinct ids.
- SegmentWriter.GenerateSegment: requires the final file cursor to fit in a u64 (`ImageFits`). The source's `offset += size` would otherwise overflow.
- SegmentReader.ReadHeader, SegmentReader.StreamHeaders and SegmentReader.StreamData: they require the bytes they read to lie inside the file (`HasHeader`, `IndexInBounds`, `RegionInBounds`). Reading past the end of the mapping is undefined behaviour in the source, and the model says nothing about it.
- SegmentReader.GetStreamRange: requires `file_offset + size` to stay below 2^64 for the stream's records (`RangeFits`). The source's `offset + size` would overflow there: a panic in a debug build, a wrapped end in a release build.

## Findings

The source contradicts itself in three places:
- src/segments.rs:164 stores 48 in `stream_headers_offset`. But the writer's cursor starts at `SEGMENT_HEADER_SIZE` (src/segments.rs:169), and the index records are written right after the 40-byte header (src/segments.rs:171-194).
- src/segments.rs:182-185 gives the records file offsets in ascending stream-id order, after the sort at line 167. But src/segments.rs:197-207 writes the payloads in the map's iteration order.
- src/mem_table.rs:72-79 runs only when `get_mut` found no table for the stream. `insert` on that fresh key returns `None`, and `.unwrap()` panics. The entry is never appended, and the counters at lines 86-95 are never reached.

The model follows the code. Each row below has an as-written member that exhibits the discrepancy. It also has a corrected member, whose intended property is proved.

| source | as written | input that shows it | evidently intended | confidence | as-written member | corrected member |
|---|---|---|---|---|---|---|
| src/segments.rs:164 | `stream_headers_offset` is set to `SEGMENT_STREAM_HEADER_SIZE` (48), but the index is written right after the 40-byte header | any buffer whose payloads total 8 bytes or more: every record is read 8 bytes late, its stream_id is the table's logical offset and its size the zero checksum, so every lookup yields nothing or an empty slice (with fewer payload bytes, the index falls outside the file) | `SEGMENT_HEADER_SIZE` (40) | not executed | SegmentFindings.AsWrittenReadsNothing | SegmentRoundTrip.IntendedStreamData |
| src/segments.rs:197-207 | payloads are written in the hash map's iteration order, while file offsets are assigned in ascending stream-id order (src/segments.rs:167, 182-185) | tables {1: [1], 2: [2]} with the map yielding 2 then 1 (header offset corrected): stream 1's record points at byte 136, which holds stream 2's byte | write payloads in the sorted index's order | not executed | SegmentFindings.PayloadOrderCounterexample | SegmentWriter.GenerateSegmentCorrected |
| src/mem_table.rs:77-79 | for an unseen stream, `insert(...).unwrap()` unwraps the `None` that `insert` returns for a new key, so the call panics and the entry's data is never appended | the first entry for any stream, for example the first `append` after `MemTable::new` | insert the new table, append the payload to it, and update the counters | not executed | MemTables.RunAsWrittenNeedsKnownStreams | MemTables.MemTable.AppendCorrected |
