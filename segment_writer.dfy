/**
 * `generate_segment` (src/segments.rs:125-232) without its file plumbing: the
 * bytes it writes to the temporary file are returned as the image. Records are
 * pushed in the map's iteration order, sorted in place by stream id, given
 * file offsets by a running cursor, and written after the header; then every
 * table's chunks are written in the map's iteration order again.
 */
module SegmentWriter {
  import opened Bytes
  import opened Tables
  import opened MemTables
  import opened SegmentFormat
  import opened SegmentLayout

  ghost predicate SortedPrefix(s: seq<SegmentStreamHeader>, n: nat)
  {
    forall p, q :: 0 <= p < q < n && q < |s| ==> s[p].streamId <= s[q].streamId
  }

  /** Exchanges two neighbouring records. */
  method SwapDown(a: array<SegmentStreamHeader>, j: nat)
    requires 0 < j < a.Length
    modifies a
    ensures a[..] == old(a[..])[j - 1 := old(a[j])][j := old(a[j - 1])]
    ensures multiset(a[..]) == multiset(old(a[..]))
  {
    a[j - 1], a[j] := a[j], a[j - 1];
  }

  /** One pass of insertion sort: moves `a[i]` left past every larger stream id. */
  method InsertIntoSorted(a: array<SegmentStreamHeader>, i: nat)
    requires i < a.Length && SortedPrefix(a[..], i)
    modifies a
    ensures SortedPrefix(a[..], i + 1)
    ensures multiset(a[..]) == multiset(old(a[..]))
  {
    var j := i;
    while 0 < j && a[j].streamId < a[j - 1].streamId
      invariant 0 <= j <= i
      invariant forall p, q :: 0 <= p < q <= i && p != j && q != j ==> a[p].streamId <= a[q].streamId
      invariant forall q :: j < q <= i ==> a[j].streamId <= a[q].streamId
      invariant multiset(a[..]) == multiset(old(a[..]))
    {
      SwapDown(a, j);
      j := j - 1;
    }
  }

  /** `sort_by(|a, b| a.stream_id.cmp(&b.stream_id))`: sorts the index records in place by stream id. */
  method SortByStreamId(a: array<SegmentStreamHeader>)
    modifies a
    ensures SortedPrefix(a[..], a.Length)
    ensures multiset(a[..]) == multiset(old(a[..]))
  {
    var i := 0;
    while i < a.Length
      invariant 0 <= i <= a.Length
      invariant SortedPrefix(a[..], i)
      invariant multiset(a[..]) == multiset(old(a[..]))
    {
      InsertIntoSorted(a, i);
      i := i + 1;
    }
  }

  /** The records pushed for each table, in the map's iteration order (src/segments.rs:145-158). */
  method BuildRecords(tables: map<u64, StreamTable>, order: seq<u64>) returns (headers: seq<SegmentStreamHeader>)
    requires forall k :: k in order ==> k in tables
    ensures headers == Records(tables, order)
  {
    headers := [];
    var i := 0;
    while i < |order|
      invariant 0 <= i <= |order|
      invariant headers == Records(tables, order[..i])
    {
      headers := headers + [RecordOf(tables[order[i]])];
      i := i + 1;
    }
    assert order[..|order|] == order;
  }

  /**
   * The `iter_mut` loop of src/segments.rs:182-194: each record gets the
   * running cursor as its file offset, the cursor advances by its size, and
   * the record's bytes are written.
   */
  method PlaceAndEncode(a: array<SegmentStreamHeader>, start: nat) returns (bytes: seq<u8>)
    requires start + SumSizes(a[..]) < U64_LIMIT
    modifies a
    ensures a[..] == Placed(old(a[..]), start)
    ensures bytes == EncodeStreamHeaders(Placed(old(a[..]), start))
  {
    ghost var input := a[..];
    ghost var placed := Placed(input, start);
    var offset: nat := start;
    bytes := [];
    var j := 0;
    while j < a.Length
      invariant 0 <= j <= a.Length
      invariant forall k :: 0 <= k < j ==> a[k] == placed[k]
      invariant forall k :: j <= k < a.Length ==> a[k] == old(a[k])
      invariant offset == start + SumSizes(input[..j])
      invariant bytes == EncodeStreamHeaders(placed[..j])
    {
      PlacedStep(input, start, j);
      EncodeStreamHeadersSnoc(placed, j);
      var placedRecord := a[j].(fileOffset := offset);
      a[j] := placedRecord;
      offset := offset + placedRecord.size;
      bytes := bytes + EncodeStreamHeader(placedRecord);
      j := j + 1;
    }
    assert a[..] == placed;
    assert placed[..j] == placed;
  }

  /** The loop of src/segments.rs:197-207: every table's chunks, in the map's iteration order. */
  method WritePayloads(tables: map<u64, StreamTable>, order: seq<u64>) returns (bytes: seq<u8>)
    requires forall k :: k in order ==> k in tables
    ensures bytes == Payload(tables, order)
  {
    bytes := [];
    var p := 0;
    while p < |order|
      invariant 0 <= p <= |order|
      invariant bytes == Payload(tables, order[..p])
    {
      var chunks := tables[order[p]].streamDatas;
      var c := 0;
      while c < |chunks|
        invariant 0 <= c <= |chunks|
        invariant bytes == Payload(tables, order[..p]) + Flatten(chunks[..c])
      {
        assert chunks[..c + 1][..c] == chunks[..c];
        bytes := bytes + chunks[c];
        c := c + 1;
      }
      assert chunks[..c] == chunks;
      assert order[..p + 1][..p] == order[..p];
      p := p + 1;
    }
    assert order[..p] == order;
  }

  /**
   * The index array before file offsets are assigned: the records pushed in
   * the map's iteration order (src/segments.rs:145-158), then sorted by stream
   * id (src/segments.rs:167), which leaves them in ascending key order.
   */
  method BuildSortedIndex(tables: map<u64, StreamTable>, order: seq<u64>) returns (a: array<SegmentStreamHeader>)
    requires KeysMatch(tables) && IsEnumeration(order, tables.Keys)
    ensures fresh(a)
    ensures a[..] == SortedRecords(tables)
  {
    var headers := BuildRecords(tables, order);
    a := new SegmentStreamHeader[|headers|](k requires 0 <= k < |headers| => headers[k]);
    assert a[..] == headers;
    SortByStreamId(a);
    SortedIsSortedRecords(a[..], tables, order);
  }

  /** The stream ids of the index records, in index order. */
  method StreamIds(a: array<SegmentStreamHeader>) returns (ids: seq<u64>)
    ensures |ids| == a.Length
    ensures forall k :: 0 <= k < a.Length ==> ids[k] == a[k].streamId
  {
    ids := [];
    var k := 0;
    while k < a.Length
      invariant 0 <= k <= a.Length
      invariant |ids| == k
      invariant forall p :: 0 <= p < k ==> ids[p] == a[p].streamId
    {
      ids := ids + [a[k].streamId];
      k := k + 1;
    }
  }

  /**
   * The bytes `generate_segment` writes for `table` when its hash map yields
   * the keys in `order`: the header (whose `stream_headers_offset` field is
   * `SEGMENT_STREAM_HEADER_SIZE`), the index sorted by stream id with running
   * file offsets, then the payloads in `order`.
   */
  method GenerateSegment(table: MemTable, order: seq<u64>) returns (image: seq<u8>)
    requires KeysMatch(table.streamTables)
    requires IsEnumeration(order, table.streamTables.Keys)
    requires ImageFits(table.streamTables)
    ensures image == SegmentImage(table.streamTables, table.firstEntry, table.lastEntry,
                                  SEGMENT_STREAM_HEADER_SIZE, order)
  {
    var tables := table.streamTables;
    EnumerationLength(order, tables.Keys);
    var header := SegmentHeader(SEGMENT_HEADER_VERSION_V1, table.lastEntry, table.firstEntry,
                                SEGMENT_STREAM_HEADER_SIZE, |order|);
    assert header == HeaderFor(tables, table.firstEntry, table.lastEntry, SEGMENT_STREAM_HEADER_SIZE);
    var a := BuildSortedIndex(tables, order);
    SegmentIndexShape(tables);
    assert a.Length == |tables|;
    var offset := SEGMENT_HEADER_SIZE + SEGMENT_STREAM_HEADER_SIZE * a.Length;
    assert offset == DataStart(|tables|);
    var index := PlaceAndEncode(a, offset);
    var payload := WritePayloads(tables, order);
    image := EncodeHeader(header) + index + payload;
    assert image == EncodeHeader(HeaderFor(tables, table.firstEntry, table.lastEntry, SEGMENT_STREAM_HEADER_SIZE)) +
                    EncodeStreamHeaders(SegmentIndex(tables)) + Payload(tables, order);
  }

  /**
   * `generate_segment` as evidently intended: the header points at the index
   * right after it, and each table's payload is written in index order, so
   * every record's file offset is where that stream's bytes begin.
   */
  method GenerateSegmentCorrected(table: MemTable, order: seq<u64>) returns (image: seq<u8>)
    requires KeysMatch(table.streamTables)
    requires IsEnumeration(order, table.streamTables.Keys)
    requires ImageFits(table.streamTables)
    ensures image == IntendedImage(table.streamTables, table.firstEntry, table.lastEntry)
  {
    var tables := table.streamTables;
    EnumerationLength(order, tables.Keys);
    var header := SegmentHeader(SEGMENT_HEADER_VERSION_V1, table.lastEntry, table.firstEntry,
                                SEGMENT_HEADER_SIZE, |order|);
    var a := BuildSortedIndex(tables, order);
    SegmentIndexShape(tables);
    assert a.Length == |tables|;
    var offset := SEGMENT_HEADER_SIZE + SEGMENT_STREAM_HEADER_SIZE * a.Length;
    assert offset == DataStart(|tables|);
    var index := PlaceAndEncode(a, offset);
    var ids := StreamIds(a);
    assert ids == SortedKeys(tables.Keys);
    var payload := WritePayloads(tables, ids);
    assert payload == Payload(tables, SortedKeys(tables.Keys));
    image := EncodeHeader(header) + index + payload;
    assert image == EncodeHeader(HeaderFor(tables, table.firstEntry, table.lastEntry, SEGMENT_HEADER_SIZE)) +
                    EncodeStreamHeaders(SegmentIndex(tables)) + Payload(tables, SortedKeys(tables.Keys));
  }
}
