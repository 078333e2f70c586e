/**
 * What the read side of src/segments.rs recovers from a file laid out as
 * `generate_segment` lays it out: a header, an index array, and the payload
 * regions one after the other. The lemmas here speak of any such file; the
 * tables a segment is written from come in with SegmentRoundTrip.
 */
module SegmentReadBack {
  import opened Wrappers
  import opened Bytes
  import opened Tables
  import opened SegmentFormat
  import opened SegmentReader
  import opened SegmentLayout

  /** A segment file: the encoded header, the encoded index array, then the payload regions. */
  function Assemble(h: SegmentHeader, idx: seq<SegmentStreamHeader>, chunks: seq<seq<u8>>): (image: seq<u8>)
    ensures |image| == SEGMENT_HEADER_SIZE + SEGMENT_STREAM_HEADER_SIZE * |idx| + |Flatten(chunks)|
  {
    EncodeHeader(h) + EncodeStreamHeaders(idx) + Flatten(chunks)
  }

  /**
   * Record `i` names the region where chunk `i` lies: the regions follow the
   * index in record order, each as long as its chunk.
   */
  ghost predicate RegionsInOrder(idx: seq<SegmentStreamHeader>, chunks: seq<seq<u8>>)
  {
    && |chunks| == |idx|
    && forall i {:trigger idx[i]} :: 0 <= i < |idx| ==>
         && idx[i].size == |chunks[i]|
         && idx[i].fileOffset == DataStart(|idx|) + |Flatten(chunks[..i])|
  }

  lemma {:induction false} FlattenConcat(a: seq<seq<u8>>, b: seq<seq<u8>>)
    ensures Flatten(a + b) == Flatten(a) + Flatten(b)
    decreases |b|
  {
    if b == [] {
      assert a + b == a;
    } else {
      var n := |b| - 1;
      assert (a + b)[..|a + b| - 1] == a + b[..n];
      FlattenConcat(a, b[..n]);
    }
  }

  /** Chunk `i` sits in the flattened run right after the chunks before it. */
  lemma {:induction false} FlattenAt(chunks: seq<seq<u8>>, i: nat)
    requires i < |chunks|
    ensures |Flatten(chunks[..i])| + |chunks[i]| <= |Flatten(chunks)|
    ensures Flatten(chunks)[|Flatten(chunks[..i])|..|Flatten(chunks[..i])| + |chunks[i]|] == chunks[i]
  {
    var front, back := chunks[..i], chunks[i + 1..];
    assert chunks == front + [chunks[i]] + back;
    FlattenConcat(front + [chunks[i]], back);
    FlattenConcat(front, [chunks[i]]);
    var one: seq<seq<u8>> := [chunks[i]];
    assert one[..0] == [];
    assert Flatten(one) == chunks[i];
  }

  /** Bytes `i .. i + n` of the middle part of a concatenation, found in the whole. */
  lemma {:induction false} SliceOfMiddle(x: seq<u8>, y: seq<u8>, z: seq<u8>, i: nat, n: nat, v: seq<u8>)
    requires i + n <= |y| && y[i..i + n] == v
    ensures (x + y + z)[|x| + i..|x| + i + n] == v
  {
    assert (x + y + z)[|x|..|x| + |y|] == y;
  }

  /** Record `i` of an index encoded right after `hb` sits at byte `|hb| + 48i` of the image. */
  lemma {:induction false} IndexSlot(hb: seq<u8>, idx: seq<SegmentStreamHeader>, pb: seq<u8>, i: nat)
    requires i < |idx|
    ensures (hb + EncodeStreamHeaders(idx) + pb)[|hb| + SEGMENT_STREAM_HEADER_SIZE * i..|hb| + SEGMENT_STREAM_HEADER_SIZE * i + SEGMENT_STREAM_HEADER_SIZE]
            == EncodeStreamHeader(idx[i])
  {
    EncodeStreamHeadersAt(idx, i);
    SliceOfMiddle(hb, EncodeStreamHeaders(idx), pb, SEGMENT_STREAM_HEADER_SIZE * i, SEGMENT_STREAM_HEADER_SIZE, EncodeStreamHeader(idx[i]));
  }

  /** The reader decodes the header that was encoded, whatever follows it. */
  lemma {:induction false} AssembledHeader(h: SegmentHeader, idx: seq<SegmentStreamHeader>, chunks: seq<seq<u8>>, fileName: string)
    requires |Assemble(h, idx, chunks)| < U64_LIMIT
    ensures var seg := Segment(fileName, Assemble(h, idx, chunks));
      HasHeader(seg) && ReadHeader(seg) == h && EntryIndex(seg) == (h.firstEntry, h.lastEntry)
  {
    var seg := Segment(fileName, Assemble(h, idx, chunks));
    assert seg.data[..SEGMENT_HEADER_SIZE] == EncodeHeader(h);
    EncodeHeaderInjective(ReadHeader(seg), h);
  }

  /** An index whose records' encodings sit in the slots the header names is read back record for record. */
  lemma {:induction false} StreamHeadersRead(seg: Segment, idx: seq<SegmentStreamHeader>)
    requires IndexInBounds(seg) && ReadHeader(seg).streamHeadersCount == |idx|
    requires forall i :: 0 <= i < |idx| ==>
      seg.data[SlotStart(seg, i)..SlotStart(seg, i) + SEGMENT_STREAM_HEADER_SIZE] == EncodeStreamHeader(idx[i])
    ensures StreamHeaders(seg) == idx
  {
    var rs := StreamHeaders(seg);
    forall i | 0 <= i < |rs| ensures rs[i] == idx[i] {
      EncodeStreamHeaderInjective(rs[i], idx[i]);
    }
    assert |rs| == |idx|;
  }

  /** With the header naming byte 40 and the record count, the reader finds the index array that was encoded. */
  lemma {:induction false} AssembledIndex(h: SegmentHeader, idx: seq<SegmentStreamHeader>, chunks: seq<seq<u8>>, fileName: string)
    requires |Assemble(h, idx, chunks)| < U64_LIMIT
    requires h.streamHeadersOffset == SEGMENT_HEADER_SIZE && h.streamHeadersCount == |idx|
    ensures var seg := Segment(fileName, Assemble(h, idx, chunks));
      IndexInBounds(seg) && StreamHeaders(seg) == idx
  {
    var seg := Segment(fileName, Assemble(h, idx, chunks));
    AssembledHeader(h, idx, chunks, fileName);
    forall i | 0 <= i < |idx|
      ensures seg.data[SEGMENT_HEADER_SIZE + SEGMENT_STREAM_HEADER_SIZE * i..SEGMENT_HEADER_SIZE + SEGMENT_STREAM_HEADER_SIZE * i + SEGMENT_STREAM_HEADER_SIZE]
              == EncodeStreamHeader(idx[i])
    {
      IndexSlot(EncodeHeader(h), idx, Flatten(chunks), i);
    }
    StreamHeadersRead(seg, idx);
  }

  /** A region `at` bytes into the last part of an image holds the bytes found there. */
  lemma {:induction false} RegionOfLast(image: seq<u8>, prefix: seq<u8>, pb: seq<u8>, r: SegmentStreamHeader, at: nat, flat: seq<u8>)
    requires image == prefix + pb && r.fileOffset == |prefix| + at && r.size == |flat|
    requires at + |flat| <= |pb| && pb[at..at + |flat|] == flat
    ensures r.fileOffset + r.size <= |image| && image[r.fileOffset..r.fileOffset + r.size] == flat
  {
    assert image[|prefix|..] == pb;
  }

  /** The region record `i` names holds chunk `i`. */
  lemma {:induction false} AssembledRegion(h: SegmentHeader, idx: seq<SegmentStreamHeader>, chunks: seq<seq<u8>>, i: nat)
    requires RegionsInOrder(idx, chunks) && i < |idx|
    ensures var image, r := Assemble(h, idx, chunks), idx[i];
      r.fileOffset + r.size <= |image| && image[r.fileOffset..r.fileOffset + r.size] == chunks[i]
  {
    FlattenAt(chunks, i);
    RegionOfLast(Assemble(h, idx, chunks), EncodeHeader(h) + EncodeStreamHeaders(idx), Flatten(chunks), idx[i],
                 |Flatten(chunks[..i])|, chunks[i]);
  }

  /** Every region the index names lies inside the file, so every lookup is defined. */
  lemma {:induction false} AssembledRegions(h: SegmentHeader, idx: seq<SegmentStreamHeader>, chunks: seq<seq<u8>>, fileName: string, streamId: u64)
    requires |Assemble(h, idx, chunks)| < U64_LIMIT
    requires h.streamHeadersOffset == SEGMENT_HEADER_SIZE && h.streamHeadersCount == |idx|
    requires RegionsInOrder(idx, chunks)
    ensures var seg := Segment(fileName, Assemble(h, idx, chunks));
      IndexInBounds(seg) && StreamHeaders(seg) == idx && RegionInBounds(seg, streamId)
  {
    AssembledIndex(h, idx, chunks, fileName);
    forall i | 0 <= i < |idx| ensures idx[i].fileOffset + idx[i].size <= |Assemble(h, idx, chunks)| {
      AssembledRegion(h, idx, chunks, i);
    }
  }

  /** In an index strictly sorted by stream id, the binary search lands on the one record a stream has. */
  lemma {:induction false} SearchFindsRecord(rs: seq<SegmentStreamHeader>, streamId: u64, i: nat)
    requires StrictlySortedById(rs) && i < |rs| && rs[i].streamId == streamId
    ensures Search(rs, streamId, 0, |rs|) == Some(i)
  {
    assert SortedById(rs);
    var found := Search(rs, streamId, 0, |rs|);
    assert found.Some?;
  }

  /**
   * In an index strictly sorted by stream id, a stream's one record is the one
   * the lookup finds, so the stream reads back as the bytes of its region.
   */
  lemma {:induction false} StreamDataFromIndex(seg: Segment, streamId: u64, i: nat, chunk: seq<u8>)
    requires RegionInBounds(seg, streamId) && StrictlySortedById(StreamHeaders(seg))
    requires i < |StreamHeaders(seg)| && StreamHeaders(seg)[i].streamId == streamId
    requires var r := StreamHeaders(seg)[i]; seg.data[r.fileOffset..r.fileOffset + r.size] == chunk
    ensures StreamData(seg, streamId) == Some(chunk)
  {
    var rs := StreamHeaders(seg);
    SearchFindsRecord(rs, streamId, i);
    assert FindStreamHeader(seg, streamId) == Some(rs[i]);
  }

  /**
   * Reading back a stream that has record `i` in a strictly sorted index
   * yields chunk `i`, exactly the bytes written for it.
   */
  lemma {:induction false} AssembledStreamData(h: SegmentHeader, idx: seq<SegmentStreamHeader>, chunks: seq<seq<u8>>, fileName: string, i: nat)
    requires |Assemble(h, idx, chunks)| < U64_LIMIT
    requires h.streamHeadersOffset == SEGMENT_HEADER_SIZE && h.streamHeadersCount == |idx|
    requires RegionsInOrder(idx, chunks) && StrictlySortedById(idx) && i < |idx|
    ensures var seg := Segment(fileName, Assemble(h, idx, chunks));
      RegionInBounds(seg, idx[i].streamId) && StreamData(seg, idx[i].streamId) == Some(chunks[i])
  {
    var seg := Segment(fileName, Assemble(h, idx, chunks));
    AssembledRegions(h, idx, chunks, fileName, idx[i].streamId);
    AssembledRegion(h, idx, chunks, i);
    StreamDataFromIndex(seg, idx[i].streamId, i, chunks[i]);
  }

  /** A stream with no record in a sorted index reads back as nothing. */
  lemma {:induction false} AssembledStreamDataAbsent(h: SegmentHeader, idx: seq<SegmentStreamHeader>, chunks: seq<seq<u8>>, fileName: string, streamId: u64)
    requires |Assemble(h, idx, chunks)| < U64_LIMIT
    requires h.streamHeadersOffset == SEGMENT_HEADER_SIZE && h.streamHeadersCount == |idx|
    requires RegionsInOrder(idx, chunks) && StrictlySortedById(idx)
    requires forall i :: 0 <= i < |idx| ==> idx[i].streamId != streamId
    ensures var seg := Segment(fileName, Assemble(h, idx, chunks));
      RegionInBounds(seg, streamId) && StreamData(seg, streamId) == None
  {
    var seg := Segment(fileName, Assemble(h, idx, chunks));
    AssembledRegions(h, idx, chunks, fileName, streamId);
    assert SortedById(StreamHeaders(seg));
    assert FindStreamHeader(seg, streamId).None?;
  }

  /** The record `rr` read 8 bytes past where `r` was written holds `r`'s fields shifted down by one. */
  predicate Shifted(rr: SegmentStreamHeader, r: SegmentStreamHeader)
  {
    && rr.version == r.streamId
    && rr.streamId == r.offset
    && rr.offset == r.fileOffset
    && rr.fileOffset == r.size
    && rr.size == r.crcCheckSum
  }

  /** Field `f` of a record encoded at byte `at` sits at byte `at + 8f`. */
  lemma {:induction false} FieldAt(data: seq<u8>, at: nat, r: SegmentStreamHeader, f: nat, p: nat)
    requires at + SEGMENT_STREAM_HEADER_SIZE <= |data| && data[at..at + SEGMENT_STREAM_HEADER_SIZE] == EncodeStreamHeader(r)
    requires f < 6 && p == at + 8 * f
    ensures data[p..p + 8] == EncodeU64(StreamHeaderFields(r)[f])
  {
    EncodeStreamHeaderField(r, f);
    var slot := data[at..at + SEGMENT_STREAM_HEADER_SIZE];
    var field, bytes := slot[8 * f..8 * f + 8], data[p..p + 8];
    forall k | 0 <= k < 8 ensures field[k] == bytes[k] {
      assert slot[8 * f + k] == data[at + 8 * f + k];
    }
    assert field == bytes;
  }

  /** Decoding a record 8 bytes after one was encoded yields its fields shifted by one. */
  lemma {:induction false} ShiftedRecord(data: seq<u8>, rr: SegmentStreamHeader, r: SegmentStreamHeader, at: nat)
    requires at + 8 + SEGMENT_STREAM_HEADER_SIZE <= |data|
    requires data[at..at + SEGMENT_STREAM_HEADER_SIZE] == EncodeStreamHeader(r)
    requires data[at + 8..at + 8 + SEGMENT_STREAM_HEADER_SIZE] == EncodeStreamHeader(rr)
    ensures Shifted(rr, r)
  {
    var fr, fw := StreamHeaderFields(rr), StreamHeaderFields(r);
    forall f | 0 <= f < 5 ensures fr[f] == fw[f + 1] {
      FieldAt(data, at + 8, rr, f, at + 8 + 8 * f);
      FieldAt(data, at, r, f + 1, at + 8 + 8 * f);
      EncodeU64Injective(fr[f], fw[f + 1]);
    }
    assert fr[0] == fw[1] && fr[1] == fw[2] && fr[2] == fw[3] && fr[3] == fw[4] && fr[4] == fw[5];
  }

  /**
   * With the header naming byte 48 instead of 40, the reader finds an index
   * only if the payloads are at least 8 bytes long, and every record it
   * decodes is the written record's fields shifted down by one.
   */
  lemma {:induction false} MisreadIndex(h: SegmentHeader, idx: seq<SegmentStreamHeader>, chunks: seq<seq<u8>>, fileName: string)
    requires |Assemble(h, idx, chunks)| < U64_LIMIT
    requires h.streamHeadersOffset == SEGMENT_STREAM_HEADER_SIZE && h.streamHeadersCount == |idx|
    ensures var seg := Segment(fileName, Assemble(h, idx, chunks));
      && HasHeader(seg) && ReadHeader(seg) == h
      && (IndexInBounds(seg) <==> 8 <= |Flatten(chunks)|)
      && (IndexInBounds(seg) ==> forall j :: 0 <= j < |idx| ==> Shifted(StreamHeaders(seg)[j], idx[j]))
  {
    var seg := Segment(fileName, Assemble(h, idx, chunks));
    AssembledHeader(h, idx, chunks, fileName);
    if IndexInBounds(seg) {
      forall j | 0 <= j < |idx| ensures Shifted(StreamHeaders(seg)[j], idx[j]) {
        var rr := StreamHeaders(seg)[j];
        assert EncodeStreamHeader(rr) == seg.data[SlotStart(seg, j)..SlotStart(seg, j) + SEGMENT_STREAM_HEADER_SIZE];
        IndexSlot(EncodeHeader(h), idx, Flatten(chunks), j);
        ShiftedRecord(seg.data, rr, idx[j], SEGMENT_HEADER_SIZE + SEGMENT_STREAM_HEADER_SIZE * j);
      }
    }
  }

  /**
   * Reading a misplaced index whose records carry a zero checksum: every
   * region the reader finds is empty and inside the file, so a lookup yields
   * no bytes at all, whatever the stream.
   */
  lemma {:induction false} MisreadReadsNothing(h: SegmentHeader, idx: seq<SegmentStreamHeader>, chunks: seq<seq<u8>>, fileName: string, streamId: u64)
    requires |Assemble(h, idx, chunks)| < U64_LIMIT
    requires h.streamHeadersOffset == SEGMENT_STREAM_HEADER_SIZE && h.streamHeadersCount == |idx|
    requires 8 <= |Flatten(chunks)|
    requires forall j :: 0 <= j < |idx| ==> idx[j].crcCheckSum == 0 && idx[j].size <= |Flatten(chunks)|
    ensures var seg := Segment(fileName, Assemble(h, idx, chunks));
      && RegionInBounds(seg, streamId)
      && (StreamData(seg, streamId).Some? ==> StreamData(seg, streamId).value == [])
  {
    var seg := Segment(fileName, Assemble(h, idx, chunks));
    MisreadIndex(h, idx, chunks, fileName);
    var rs := StreamHeaders(seg);
    forall j | 0 <= j < |rs| ensures rs[j].fileOffset <= |seg.data| && rs[j].size == 0 {
      assert Shifted(rs[j], idx[j]);
    }
    EmptyRegionsReadEmpty(seg, streamId);
  }

  /** When every record names an empty region inside the file, a lookup yields nothing or no bytes. */
  lemma {:induction false} EmptyRegionsReadEmpty(seg: Segment, streamId: u64)
    requires IndexInBounds(seg)
    requires forall j :: 0 <= j < |StreamHeaders(seg)| ==>
      StreamHeaders(seg)[j].fileOffset <= |seg.data| && StreamHeaders(seg)[j].size == 0
    ensures RegionInBounds(seg, streamId)
    ensures StreamData(seg, streamId).Some? ==> StreamData(seg, streamId).value == []
  {
    var found := FindStreamHeader(seg, streamId);
    if found.Some? {
      var rs := StreamHeaders(seg);
      var j :| 0 <= j < |rs| && rs[j] == found.value;
      assert found.value.size == 0;
    }
  }
}
