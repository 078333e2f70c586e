/**
 * What the reader of src/segments.rs makes of the bytes `generate_segment`
 * actually writes. Two slips separate them from the intended image of
 * SegmentRoundTrip: the header names byte 48 for the index, which starts at
 * byte 40, and the payloads follow the hash map's iteration order while the
 * index's file offsets follow ascending stream ids.
 */
module SegmentFindings {
  import opened Wrappers
  import opened Bytes
  import opened Tables
  import opened MemTables
  import opened SegmentFormat
  import opened SegmentReader
  import opened SegmentLayout
  import opened SegmentReadBack
  import opened SegmentRoundTrip

  /** The as-written image is an assembly whose header names byte 48 and holds the record count. */
  lemma {:induction false} AsWrittenAssembled(tables: map<u64, StreamTable>, firstEntry: u64, lastEntry: u64, order: seq<u64>)
    requires KeysMatch(tables) && AllConsistent(tables) && ImageFits(tables) && IsEnumeration(order, tables.Keys)
    ensures var h, idx, cs := HeaderFor(tables, firstEntry, lastEntry, SEGMENT_STREAM_HEADER_SIZE), SegmentIndex(tables), Chunks(tables, order);
      && SegmentImage(tables, firstEntry, lastEntry, SEGMENT_STREAM_HEADER_SIZE, order) == Assemble(h, idx, cs)
      && |Assemble(h, idx, cs)| < U64_LIMIT
      && h.streamHeadersOffset == SEGMENT_STREAM_HEADER_SIZE && h.streamHeadersCount == |idx|
      && |Flatten(cs)| == SumSizes(SortedRecords(tables))
  {
    ImageAssembled(tables, firstEntry, lastEntry, SEGMENT_STREAM_HEADER_SIZE, order);
    ImageLength(tables, firstEntry, lastEntry, SEGMENT_STREAM_HEADER_SIZE, order);
    PayloadIsFlatten(tables, order);
    SegmentIndexShape(tables);
  }

  /**
   * Reading the image `generate_segment` writes: the header and the entry
   * range come back intact, the index is found only when the payloads total
   * at least 8 bytes, and then each record read is the written record's
   * fields shifted down by one (its stream id is the table's logical offset,
   * its file offset the table's size, its size the zero checksum).
   */
  lemma {:induction false} AsWrittenIndexMisread(tables: map<u64, StreamTable>, firstEntry: u64, lastEntry: u64,
                                                 order: seq<u64>, fileName: string)
    requires KeysMatch(tables) && AllConsistent(tables) && ImageFits(tables) && IsEnumeration(order, tables.Keys)
    ensures var seg, idx := Segment(fileName, SegmentImage(tables, firstEntry, lastEntry, SEGMENT_STREAM_HEADER_SIZE, order)), SegmentIndex(tables);
      && HasHeader(seg)
      && ReadHeader(seg).streamHeadersOffset == SEGMENT_STREAM_HEADER_SIZE
      && ReadHeader(seg).streamHeadersCount == |idx| == |tables|
      && EntryIndex(seg) == (firstEntry, lastEntry)
      && (IndexInBounds(seg) <==> 8 <= SumSizes(SortedRecords(tables)))
      && (IndexInBounds(seg) ==> forall j :: 0 <= j < |idx| ==> Shifted(StreamHeaders(seg)[j], idx[j]))
  {
    var h, idx := HeaderFor(tables, firstEntry, lastEntry, SEGMENT_STREAM_HEADER_SIZE), SegmentIndex(tables);
    var cs := Chunks(tables, order);
    AsWrittenAssembled(tables, firstEntry, lastEntry, order);
    SegmentIndexShape(tables);
    var seg := Segment(fileName, SegmentImage(tables, firstEntry, lastEntry, SEGMENT_STREAM_HEADER_SIZE, order));
    assert seg == Segment(fileName, Assemble(h, idx, cs));
    AssembledHeader(h, idx, cs, fileName);
    MisreadIndex(h, idx, cs, fileName);
    assert |idx| == |tables|;
  }

  /**
   * Consequently no stream can be read back from the image `generate_segment`
   * writes: every lookup in the misread index yields nothing or no bytes.
   */
  lemma {:induction false} AsWrittenReadsNothing(tables: map<u64, StreamTable>, firstEntry: u64, lastEntry: u64,
                                                 order: seq<u64>, fileName: string, streamId: u64)
    requires KeysMatch(tables) && AllConsistent(tables) && ImageFits(tables) && IsEnumeration(order, tables.Keys)
    requires 8 <= SumSizes(SortedRecords(tables))
    ensures var seg := Segment(fileName, SegmentImage(tables, firstEntry, lastEntry, SEGMENT_STREAM_HEADER_SIZE, order));
      && RegionInBounds(seg, streamId)
      && (StreamData(seg, streamId).Some? ==> StreamData(seg, streamId).value == [])
  {
    var h := HeaderFor(tables, firstEntry, lastEntry, SEGMENT_STREAM_HEADER_SIZE);
    var idx, cs := SegmentIndex(tables), Chunks(tables, order);
    AsWrittenAssembled(tables, firstEntry, lastEntry, order);
    forall j | 0 <= j < |idx| ensures idx[j].crcCheckSum == 0 && idx[j].size <= |Flatten(cs)| {
      IndexRecordAt(tables, j);
    }
    MisreadReadsNothing(h, idx, cs, fileName, streamId);
  }

  /** Two one-byte streams: stream 1 holds byte 1, stream 2 holds byte 2. */
  function TwoStreams(): map<u64, StreamTable>
  {
    map[1 := StreamTable(1, 0, 1, [[1]]), 2 := StreamTable(2, 0, 1, [[2]])]
  }

  /** The two-stream buffer's keys, in ascending order and in the order the map yields them. */
  lemma {:induction false} TwoStreamsKeys()
    ensures var tables := TwoStreams();
      && KeysMatch(tables) && |tables| == 2
      && SortedKeys(tables.Keys) == [1, 2] && IsEnumeration([2, 1], tables.Keys)
  {
    var keys := TwoStreams().Keys;
    assert keys == {1, 2};
    var sk := SortedKeys(keys);
    EnumerationLength(sk, keys);
    assert sk[0] in keys && sk[1] in keys && sk[0] < sk[1];
  }

  /** Each table's size is its byte count. */
  lemma {:induction false} TwoStreamsConsistent()
    ensures var tables := TwoStreams();
      && AllConsistent(tables) && tables[1].size == 1 && tables[2].size == 1
  {
    var tables := TwoStreams();
    var one: seq<seq<u8>> := [[1]];
    var two: seq<seq<u8>> := [[2]];
    assert one[..0] == [] && two[..0] == [];
    assert Consistent(tables[1]) && Consistent(tables[2]);
  }

  /** The index records come in key order and their sizes add up to the two payload bytes. */
  lemma {:induction false} TwoStreamsFit()
    ensures var tables := TwoStreams();
      && KeysMatch(tables) && AllConsistent(tables) && |tables| == 2
      && SortedKeys(tables.Keys) == [1, 2] && IsEnumeration([2, 1], tables.Keys)
      && SortedRecords(tables) == [RecordOf(tables[1]), RecordOf(tables[2])]
      && SumSizes(SortedRecords(tables)) == 2
      && ImageFits(tables)
  {
    var tables := TwoStreams();
    TwoStreamsKeys();
    TwoStreamsConsistent();
    var rs := SortedRecords(tables);
    assert rs == [RecordOf(tables[1]), RecordOf(tables[2])];
    assert rs[..1] == [rs[0]] && rs[..0] == [];
  }

  /** The index of the two-stream buffer: stream 1's region is byte 136, stream 2's byte 137. */
  lemma {:induction false} TwoStreamsIndex()
    ensures var tables := TwoStreams();
      && ImageFits(tables)
      && SegmentIndex(tables) == [RecordOf(tables[1]).(fileOffset := 136), RecordOf(tables[2]).(fileOffset := 137)]
  {
    var tables := TwoStreams();
    TwoStreamsFit();
    var rs := SortedRecords(tables);
    PlacedStep(rs, DataStart(2), 0);
    PlacedStep(rs, DataStart(2), 1);
    assert rs[..0] == [] && rs[..1] == [rs[0]];
  }

  /** When the map yields stream 2 first, its byte is written first. */
  lemma {:induction false} TwoStreamsPayload()
    ensures Chunks(TwoStreams(), [2, 1]) == [[2], [1]]
    ensures Payload(TwoStreams(), [2, 1]) == [2, 1]
  {
    var tables := TwoStreams();
    var one: seq<seq<u8>> := [[1]];
    var two: seq<seq<u8>> := [[2]];
    assert one[..0] == [] && two[..0] == [];
    var cs := Chunks(tables, [2, 1]);
    assert cs[0] == [2] && cs[1] == [1];
    assert cs == [[2], [1]];
    PayloadIsFlatten(tables, [2, 1]);
    var first: seq<seq<u8>> := cs[..1];
    assert first == [[2]] && first[..0] == [];
  }

  /** The as-written image of the two-stream buffer, with the header offset corrected, as an assembly. */
  lemma {:induction false} TwoStreamsImage()
    ensures var tables := TwoStreams();
      && ImageFits(tables) && IsEnumeration([2, 1], tables.Keys)
      && var h, idx := HeaderFor(tables, 0, 0, SEGMENT_HEADER_SIZE), SegmentIndex(tables);
         && SegmentImage(tables, 0, 0, SEGMENT_HEADER_SIZE, [2, 1]) == Assemble(h, idx, [[2], [1]])
         && |Assemble(h, idx, [[2], [1]])| == 138
         && h.streamHeadersOffset == SEGMENT_HEADER_SIZE && h.streamHeadersCount == |idx| == 2
  {
    var tables := TwoStreams();
    TwoStreamsFit();
    TwoStreamsIndex();
    TwoStreamsPayload();
    var cs: seq<seq<u8>> := [[2], [1]];
    PayloadIsFlatten(tables, [2, 1]);
  }

  /**
   * The payload-order slip on its own, with the header offset corrected: when
   * the map yields stream 2 before stream 1, the reader returns stream 2's
   * byte for stream 1, because record 1's file offset points at the first
   * payload byte, which belongs to stream 2.
   */
  lemma {:induction false} PayloadOrderCounterexample(fileName: string)
    ensures var tables := TwoStreams();
      && KeysMatch(tables) && AllConsistent(tables) && ImageFits(tables) && IsEnumeration([2, 1], tables.Keys)
      && var seg := Segment(fileName, SegmentImage(tables, 0, 0, SEGMENT_HEADER_SIZE, [2, 1]));
         && RegionInBounds(seg, 1)
         && StreamData(seg, 1) == Some([2])
         && StreamData(seg, 1) != Some(Flatten(tables[1].streamDatas))
  {
    var tables := TwoStreams();
    TwoStreamsFit();
    TwoStreamsIndex();
    TwoStreamsImage();
    var h, idx := HeaderFor(tables, 0, 0, SEGMENT_HEADER_SIZE), SegmentIndex(tables);
    var cs: seq<seq<u8>> := [[2], [1]];
    ReadsFirstPayloadByte(h, idx, cs, fileName);
    var one: seq<seq<u8>> := [[1]];
    assert one[..0] == [];
  }

  /** The payloads [2] then [1], laid end to end. */
  lemma {:induction false} FlattenTwo()
    ensures Flatten([[2], [1]]) == [2, 1]
  {
    var cs: seq<seq<u8>> := [[2], [1]];
    var first: seq<seq<u8>> := cs[..1];
    assert first == [[2]] && first[..0] == [];
  }

  /**
   * A two-record index whose record for stream 1 names the first payload byte,
   * over payloads [2] then [1]: the reader returns [2] for stream 1.
   */
  lemma {:induction false} ReadsFirstPayloadByte(h: SegmentHeader, idx: seq<SegmentStreamHeader>, cs: seq<seq<u8>>, fileName: string)
    requires cs == [[2], [1]] && |idx| == 2
    requires h.streamHeadersOffset == SEGMENT_HEADER_SIZE && h.streamHeadersCount == 2
    requires idx[0].streamId == 1 && idx[0].fileOffset == 136 && idx[0].size == 1
    requires idx[1].streamId == 2 && idx[1].fileOffset == 137 && idx[1].size == 1
    ensures var seg := Segment(fileName, Assemble(h, idx, cs));
      RegionInBounds(seg, 1) && StreamData(seg, 1) == Some([2])
  {
    FlattenTwo();
    var image := Assemble(h, idx, cs);
    var seg := Segment(fileName, image);
    AssembledIndex(h, idx, cs, fileName);
    var prefix := EncodeHeader(h) + EncodeStreamHeaders(idx);
    RegionOfLast(image, prefix, [2, 1], idx[0], 0, [2]);
    RegionOfLast(image, prefix, [2, 1], idx[1], 1, [1]);
    assert RegionInBounds(seg, 1);
    StreamDataFromIndex(seg, 1, 0, [2]);
  }
}
