/**
 * What the read side of src/segments.rs recovers from the bytes the write side
 * produces, and the layout facts both images share. For the image the writer
 * evidently intends, every lookup returns exactly what the buffer held; what
 * the reader makes of the image `generate_segment` actually writes is the
 * subject of SegmentFindings.
 */
module SegmentRoundTrip {
  import opened Wrappers
  import opened Bytes
  import opened Tables
  import opened MemTables
  import opened SegmentFormat
  import opened SegmentReader
  import opened SegmentLayout
  import opened SegmentReadBack

  lemma {:induction false} SumSizesConcat(a: seq<SegmentStreamHeader>, b: seq<SegmentStreamHeader>)
    ensures SumSizes(a + b) == SumSizes(a) + SumSizes(b)
    decreases |b|
  {
    if b == [] {
      assert a + b == a;
    } else {
      var n := |b| - 1;
      assert (a + b)[..|a + b| - 1] == a + b[..n];
      SumSizesConcat(a, b[..n]);
    }
  }

  lemma {:induction false} MultisetRemoveMiddle<T>(front: seq<T>, x: T, left: seq<T>, right: seq<T>)
    requires multiset(front + [x]) == multiset(left + [x] + right)
    ensures multiset(front) == multiset(left + right)
  {
    assert multiset(front + [x]) == multiset(front) + multiset{x};
    assert multiset(left + [x] + right) == multiset(left) + multiset{x} + multiset(right);
    assert multiset(left + right) == multiset(left) + multiset(right);
    assert multiset(front) == multiset(front + [x]) - multiset{x};
  }

  lemma {:induction false} SumSizesRemoveMiddle(left: seq<SegmentStreamHeader>, x: SegmentStreamHeader, right: seq<SegmentStreamHeader>)
    ensures SumSizes(left + [x] + right) == SumSizes(left + right) + x.size
  {
    SumSizesConcat(left, [x]);
    SumSizesConcat(left + [x], right);
    SumSizesConcat(left, right);
    assert [x][..0] == [];
  }

  /** The total size of a run of records does not depend on their order. */
  lemma {:induction false} SumSizesPermutation(a: seq<SegmentStreamHeader>, b: seq<SegmentStreamHeader>)
    requires multiset(a) == multiset(b)
    ensures SumSizes(a) == SumSizes(b)
    decreases |a|
  {
    if a == [] {
      assert |b| == |multiset(b)| == 0;
    } else {
      var n := |a| - 1;
      var x := a[n];
      assert x in multiset(b);
      var j :| 0 <= j < |b| && b[j] == x;
      var left, right := b[..j], b[j + 1..];
      assert b == left + [x] + right;
      assert a == a[..n] + [x];
      MultisetRemoveMiddle(a[..n], x, left, right);
      SumSizesPermutation(a[..n], left + right);
      SumSizesRemoveMiddle(left, x, right);
    }
  }

  /**
   * Whatever order the map yields its keys in, the payloads add up to the
   * sizes of the index records, and the image fits a 64-bit file.
   */
  lemma {:induction false} ImageLength(tables: map<u64, StreamTable>, firstEntry: u64, lastEntry: u64,
                    streamHeadersOffset: u64, order: seq<u64>)
    requires AllConsistent(tables) && ImageFits(tables) && IsEnumeration(order, tables.Keys)
    ensures |Payload(tables, order)| == SumSizes(SortedRecords(tables))
    ensures |SegmentImage(tables, firstEntry, lastEntry, streamHeadersOffset, order)|
            == DataStart(|tables|) + SumSizes(SortedRecords(tables))
  {
    var sk := SortedKeys(tables.Keys);
    EnumerationsSameRecords(tables, order, sk);
    SumSizesPermutation(Records(tables, order), SortedRecords(tables));
    EnumerationLength(sk, tables.Keys);
    assert |tables.Keys| == |tables|;
  }

  /** The payload of each table named by `ks`, in the order of `ks`. */
  function Chunks(tables: map<u64, StreamTable>, ks: seq<u64>): (cs: seq<seq<u8>>)
    requires forall k :: k in ks ==> k in tables
    ensures |cs| == |ks|
    ensures forall i {:trigger cs[i]} :: 0 <= i < |ks| ==> cs[i] == Flatten(tables[ks[i]].streamDatas)
  {
    seq(|ks|, i requires 0 <= i < |ks| => Flatten(tables[ks[i]].streamDatas))
  }

  /** The payload bytes of a run of tables are their chunks laid end to end. */
  lemma {:induction false} PayloadIsFlatten(tables: map<u64, StreamTable>, ks: seq<u64>)
    requires forall k :: k in ks ==> k in tables
    ensures Payload(tables, ks) == Flatten(Chunks(tables, ks))
    decreases |ks|
  {
    if ks != [] {
      var n := |ks| - 1;
      var front := ks[..n];
      var cs, cs' := Chunks(tables, ks), Chunks(tables, front);
      PayloadIsFlatten(tables, front);
      forall j | 0 <= j < n ensures cs[..n][j] == cs'[j] {
        assert front[j] == ks[j];
      }
      assert cs[..n] == cs';
      assert Flatten(cs) == Flatten(cs[..n]) + cs[n];
    }
  }

  /** Under consistent tables, the sizes of the first `i` records add up to the length of the first `i` chunks. */
  lemma {:induction false} PrefixSizes(tables: map<u64, StreamTable>, ks: seq<u64>, i: nat)
    requires forall k :: k in ks ==> k in tables
    requires AllConsistent(tables) && i <= |ks|
    ensures SumSizes(Records(tables, ks)[..i]) == |Flatten(Chunks(tables, ks)[..i])|
  {
    assert Records(tables, ks)[..i] == Records(tables, ks[..i]);
    assert Chunks(tables, ks)[..i] == Chunks(tables, ks[..i]);
    PayloadIsFlatten(tables, ks[..i]);
  }

  /** A segment image is the assembly of its header, the sorted index and the tables' chunks in payload order. */
  lemma {:induction false} ImageAssembled(tables: map<u64, StreamTable>, firstEntry: u64, lastEntry: u64,
                       streamHeadersOffset: u64, order: seq<u64>)
    requires AllConsistent(tables) && ImageFits(tables) && IsEnumeration(order, tables.Keys)
    ensures var image := SegmentImage(tables, firstEntry, lastEntry, streamHeadersOffset, order);
      && image == Assemble(HeaderFor(tables, firstEntry, lastEntry, streamHeadersOffset), SegmentIndex(tables), Chunks(tables, order))
      && |image| < U64_LIMIT
  {
    PayloadIsFlatten(tables, order);
    ImageLength(tables, firstEntry, lastEntry, streamHeadersOffset, order);
  }

  /** Record `i` of the segment index is as long as the `i`-th smallest table and starts where the smaller ones end. */
  lemma {:induction false} IntendedPlacementAt(tables: map<u64, StreamTable>, i: nat)
    requires AllConsistent(tables) && ImageFits(tables) && i < |SortedKeys(tables.Keys)|
    ensures var idx, cs := SegmentIndex(tables), Chunks(tables, SortedKeys(tables.Keys));
      && idx[i].size == |cs[i]|
      && idx[i].fileOffset == DataStart(|tables|) + |Flatten(cs[..i])|
  {
    var sk := SortedKeys(tables.Keys);
    PlacedStep(SortedRecords(tables), DataStart(|tables|), i);
    PrefixSizes(tables, sk, i);
    assert Consistent(tables[sk[i]]);
  }

  /** The segment index names, for every table, the region its chunk occupies when the chunks follow the index in key order. */
  lemma {:induction false} IntendedRegionsInOrder(tables: map<u64, StreamTable>)
    requires AllConsistent(tables) && ImageFits(tables)
    ensures RegionsInOrder(SegmentIndex(tables), Chunks(tables, SortedKeys(tables.Keys)))
  {
    var sk := SortedKeys(tables.Keys);
    var idx := SegmentIndex(tables);
    EnumerationLength(sk, tables.Keys);
    assert |tables.Keys| == |tables|;
    forall i | 0 <= i < |idx|
      ensures idx[i].size == |Chunks(tables, sk)[i]|
      ensures idx[i].fileOffset == DataStart(|idx|) + |Flatten(Chunks(tables, sk)[..i])|
    {
      IntendedPlacementAt(tables, i);
    }
  }

  /**
   * The intended image is an assembly the reader can read back: the header
   * names byte 40 and the record count, the index is strictly sorted, and
   * the chunks follow it in index order.
   */
  lemma {:induction false} IntendedAssembled(tables: map<u64, StreamTable>, firstEntry: u64, lastEntry: u64)
    requires KeysMatch(tables) && AllConsistent(tables) && ImageFits(tables)
    ensures var sk := SortedKeys(tables.Keys);
      var h, idx, cs := HeaderFor(tables, firstEntry, lastEntry, SEGMENT_HEADER_SIZE), SegmentIndex(tables), Chunks(tables, sk);
      && IntendedImage(tables, firstEntry, lastEntry) == Assemble(h, idx, cs)
      && |Assemble(h, idx, cs)| < U64_LIMIT
      && h.streamHeadersOffset == SEGMENT_HEADER_SIZE && h.streamHeadersCount == |idx|
      && RegionsInOrder(idx, cs) && StrictlySortedById(idx)
  {
    ImageAssembled(tables, firstEntry, lastEntry, SEGMENT_HEADER_SIZE, SortedKeys(tables.Keys));
    SegmentIndexShape(tables);
    IntendedRegionsInOrder(tables);
  }

  /**
   * In the intended image the reader finds the header the writer built and,
   * at the offset that header names, the writer's sorted and placed index.
   */
  lemma {:induction false} IntendedIndex(tables: map<u64, StreamTable>, firstEntry: u64, lastEntry: u64, fileName: string)
    requires KeysMatch(tables) && AllConsistent(tables) && ImageFits(tables)
    ensures var seg := Segment(fileName, IntendedImage(tables, firstEntry, lastEntry));
      && IndexInBounds(seg)
      && EntryIndex(seg) == (firstEntry, lastEntry)
      && StreamHeaders(seg) == SegmentIndex(tables)
  {
    var h := HeaderFor(tables, firstEntry, lastEntry, SEGMENT_HEADER_SIZE);
    var cs := Chunks(tables, SortedKeys(tables.Keys));
    IntendedAssembled(tables, firstEntry, lastEntry);
    AssembledHeader(h, SegmentIndex(tables), cs, fileName);
    AssembledIndex(h, SegmentIndex(tables), cs, fileName);
  }

  /** Reading back a stream the buffer held yields exactly the bytes it held. */
  lemma {:induction false} IntendedStreamDataPresent(tables: map<u64, StreamTable>, firstEntry: u64, lastEntry: u64, fileName: string, i: nat)
    requires KeysMatch(tables) && AllConsistent(tables) && ImageFits(tables)
    requires i < |SortedKeys(tables.Keys)|
    ensures var seg, k := Segment(fileName, IntendedImage(tables, firstEntry, lastEntry)), SortedKeys(tables.Keys)[i];
      && RegionInBounds(seg, k)
      && StreamData(seg, k) == Some(Flatten(tables[k].streamDatas))
  {
    var sk := SortedKeys(tables.Keys);
    IntendedAssembled(tables, firstEntry, lastEntry);
    SegmentIndexShape(tables);
    AssembledStreamData(HeaderFor(tables, firstEntry, lastEntry, SEGMENT_HEADER_SIZE), SegmentIndex(tables), Chunks(tables, sk), fileName, i);
  }

  /** A stream the buffer does not hold has no record in the index. */
  lemma {:induction false} AbsentFromIndex(tables: map<u64, StreamTable>, streamId: u64)
    requires KeysMatch(tables) && ImageFits(tables) && streamId !in tables
    ensures forall i :: 0 <= i < |SegmentIndex(tables)| ==> SegmentIndex(tables)[i].streamId != streamId
  {
    SegmentIndexShape(tables);
  }

  /** A stream the buffer did not hold reads back as nothing. */
  lemma {:induction false} IntendedStreamDataAbsent(tables: map<u64, StreamTable>, firstEntry: u64, lastEntry: u64, fileName: string, streamId: u64)
    requires KeysMatch(tables) && AllConsistent(tables) && ImageFits(tables)
    requires streamId !in tables
    ensures var seg := Segment(fileName, IntendedImage(tables, firstEntry, lastEntry));
      && RegionInBounds(seg, streamId)
      && StreamData(seg, streamId) == None
  {
    IntendedAssembled(tables, firstEntry, lastEntry);
    AbsentFromIndex(tables, streamId);
    AssembledStreamDataAbsent(HeaderFor(tables, firstEntry, lastEntry, SEGMENT_HEADER_SIZE), SegmentIndex(tables),
                              Chunks(tables, SortedKeys(tables.Keys)), fileName, streamId);
  }

  /**
   * Reading a stream back from the intended image yields exactly the bytes the
   * buffer held for it, and nothing for a stream it did not hold.
   */
  lemma {:induction false} IntendedStreamData(tables: map<u64, StreamTable>, firstEntry: u64, lastEntry: u64, fileName: string, streamId: u64)
    requires KeysMatch(tables) && AllConsistent(tables) && ImageFits(tables)
    ensures var seg := Segment(fileName, IntendedImage(tables, firstEntry, lastEntry));
      && RegionInBounds(seg, streamId)
      && StreamData(seg, streamId) == if streamId in tables then Some(Flatten(tables[streamId].streamDatas)) else None
  {
    if streamId in tables {
      var sk := SortedKeys(tables.Keys);
      assert streamId in sk;
      var i :| 0 <= i < |sk| && sk[i] == streamId;
      IntendedStreamDataPresent(tables, firstEntry, lastEntry, fileName, i);
    } else {
      IntendedStreamDataAbsent(tables, firstEntry, lastEntry, fileName, streamId);
    }
  }

  /**
   * Record `i` of the index is built from the table with the `i`-th smallest
   * key: version 1, checksum 0, the table's id, logical offset and size, and a
   * file offset where the previous record's region ends.
   */
  lemma {:induction false} IndexRecordAt(tables: map<u64, StreamTable>, i: nat)
    requires KeysMatch(tables) && ImageFits(tables) && i < |tables|
    ensures var idx, sk := SegmentIndex(tables), SortedKeys(tables.Keys);
      && |idx| == |sk| == |tables|
      && idx[i].version == SEGMENT_STREAM_HEADER_VERSION_V1 && idx[i].crcCheckSum == 0
      && idx[i].streamId == sk[i] && sk[i] in tables
      && idx[i].offset == tables[sk[i]].offset && idx[i].size == tables[sk[i]].size
      && idx[i].fileOffset == DataStart(|tables|) + SumSizes(SortedRecords(tables)[..i])
      && (i + 1 < |tables| ==> idx[i + 1].fileOffset == idx[i].fileOffset + idx[i].size)
      && idx[i].fileOffset + idx[i].size == DataStart(|tables|) + SumSizes(SortedRecords(tables)[..i + 1])
      && idx[i].fileOffset + idx[i].size <= DataStart(|tables|) + SumSizes(SortedRecords(tables))
  {
    var rs := SortedRecords(tables);
    SegmentIndexShape(tables);
    PlacedStep(rs, DataStart(|tables|), i);
    SumSizesPrefix(rs, i + 1);
    if i + 1 < |tables| {
      PlacedStep(rs, DataStart(|tables|), i + 1);
    }
  }

  /**
   * The last record's region ends where the records' sizes run out, which
   * ImageLength shows is the end of the image, whatever the payload order.
   */
  lemma {:induction false} LastRecordEnd(tables: map<u64, StreamTable>)
    requires KeysMatch(tables) && ImageFits(tables) && |tables| > 0
    ensures var idx := SegmentIndex(tables);
      idx[|idx| - 1].fileOffset + idx[|idx| - 1].size == DataStart(|tables|) + SumSizes(SortedRecords(tables))
  {
    var n := |tables| - 1;
    var rs := SortedRecords(tables);
    IndexRecordAt(tables, n);
    assert |rs| == n + 1;
    SumSizesWhole(rs);
  }

  lemma {:induction false} SumSizesWhole(rs: seq<SegmentStreamHeader>)
    ensures SumSizes(rs[..|rs|]) == SumSizes(rs)
  {
    assert rs[..|rs|] == rs;
  }
}
