/**
 * The read side of src/segments.rs: a `Segment` is a read-only view of one
 * file's bytes (the memory map). Every lookup decodes fields at fixed byte
 * positions; the source reads through raw pointers without any bounds check,
 * so each lookup here requires the bytes it reads to lie inside the file, and
 * the range computation requires its end to fit in a u64.
 */
module SegmentReader {
  import opened Wrappers
  import opened Bytes
  import opened SegmentFormat

  /** A segment file: its name and its contents. */
  datatype Segment = Segment(fileName: string, data: seq<u8>)

  /** The file holds a whole header and, being mapped, is addressable with 64-bit offsets. */
  predicate HasHeader(seg: Segment)
  {
    SEGMENT_HEADER_SIZE <= |seg.data| < U64_LIMIT
  }

  /** `Segment::read_header`: the header stored in the first 40 bytes. */
  function ReadHeader(seg: Segment): (h: SegmentHeader)
    requires HasHeader(seg)
    ensures EncodeHeader(h) == seg.data[..SEGMENT_HEADER_SIZE]
  {
    DecodeHeader(seg.data, 0)
  }

  /** `Segment::entry_index`: `(first_entry, last_entry)`, stored in bytes 16..24 and 8..16. */
  function EntryIndex(seg: Segment): (r: (u64, u64))
    requires HasHeader(seg)
    ensures EncodeU64(r.0) == seg.data[16..24]
    ensures EncodeU64(r.1) == seg.data[8..16]
  {
    var h := ReadHeader(seg);
    EncodeHeaderField(h, 2);
    EncodeHeaderField(h, 1);
    assert seg.data[..SEGMENT_HEADER_SIZE][16..24] == seg.data[16..24];
    assert seg.data[..SEGMENT_HEADER_SIZE][8..16] == seg.data[8..16];
    (h.firstEntry, h.lastEntry)
  }

  /** The index array the header points at lies inside the file. */
  predicate IndexInBounds(seg: Segment)
  {
    && HasHeader(seg)
    && ReadHeader(seg).streamHeadersOffset + SEGMENT_STREAM_HEADER_SIZE * ReadHeader(seg).streamHeadersCount <= |seg.data|
  }

  /** Where record `i` of the index array starts. */
  function SlotStart(seg: Segment, i: nat): (p: nat)
    requires IndexInBounds(seg) && i < ReadHeader(seg).streamHeadersCount
    ensures ReadHeader(seg).streamHeadersOffset <= p && p + SEGMENT_STREAM_HEADER_SIZE <= |seg.data|
  {
    ReadHeader(seg).streamHeadersOffset + SEGMENT_STREAM_HEADER_SIZE * i
  }

  /**
   * `Segment::stream_headers`: `stream_headers_count` records read from
   * `stream_headers_offset` on, each the record whose bytes sit at its slot.
   */
  function StreamHeaders(seg: Segment): (rs: seq<SegmentStreamHeader>)
    requires IndexInBounds(seg)
    ensures |rs| == ReadHeader(seg).streamHeadersCount
    ensures forall i {:trigger EncodeStreamHeader(rs[i])} :: 0 <= i < |rs| ==>
      EncodeStreamHeader(rs[i]) == seg.data[SlotStart(seg, i)..SlotStart(seg, i) + SEGMENT_STREAM_HEADER_SIZE]
  {
    seq(ReadHeader(seg).streamHeadersCount, i requires 0 <= i < ReadHeader(seg).streamHeadersCount =>
      DecodeStreamHeader(seg.data, SlotStart(seg, i)))
  }

  predicate SortedById(rs: seq<SegmentStreamHeader>)
  {
    forall i, j :: 0 <= i < j < |rs| ==> rs[i].streamId <= rs[j].streamId
  }

  /**
   * Binary search of `rs[lo..hi]` for `streamId`, probing the middle and
   * going right when the probe's id is smaller, left when it is larger.
   */
  function Search(rs: seq<SegmentStreamHeader>, streamId: u64, lo: nat, hi: nat): (r: Option<nat>)
    requires lo <= hi <= |rs|
    ensures r.Some? ==> lo <= r.value < hi && rs[r.value].streamId == streamId
    ensures r.None? && SortedById(rs) ==> forall i :: lo <= i < hi ==> rs[i].streamId != streamId
    decreases hi - lo
  {
    if lo == hi then None
    else
      var mid := lo + (hi - lo) / 2;
      if rs[mid].streamId < streamId then Search(rs, streamId, mid + 1, hi)
      else if rs[mid].streamId > streamId then Search(rs, streamId, lo, mid)
      else Some(mid)
  }

  /**
   * `Segment::find_stream_header`: a record found is always one for the
   * requested stream; on an index sorted by stream id, none is found exactly
   * when the index has no record for it.
   */
  function FindStreamHeader(seg: Segment, streamId: u64): (r: Option<SegmentStreamHeader>)
    requires IndexInBounds(seg)
    ensures r.Some? ==> r.value.streamId == streamId && r.value in StreamHeaders(seg)
    ensures SortedById(StreamHeaders(seg)) ==>
      (r.None? <==> forall i :: 0 <= i < |StreamHeaders(seg)| ==> StreamHeaders(seg)[i].streamId != streamId)
  {
    var rs := StreamHeaders(seg);
    match Search(rs, streamId, 0, |rs|)
    case None => None
    case Some(i) => Some(rs[i])
  }

  /** Every record for `streamId` describes a region inside the file. */
  predicate RegionInBounds(seg: Segment, streamId: u64)
  {
    && IndexInBounds(seg)
    && forall i :: 0 <= i < |StreamHeaders(seg)| && StreamHeaders(seg)[i].streamId == streamId ==>
         StreamHeaders(seg)[i].fileOffset + StreamHeaders(seg)[i].size <= |seg.data|
  }

  /** Every record for `streamId` ends below 2^64, so `offset + size` does not overflow. */
  predicate RangeFits(seg: Segment, streamId: u64)
  {
    && IndexInBounds(seg)
    && forall i :: 0 <= i < |StreamHeaders(seg)| && StreamHeaders(seg)[i].streamId == streamId ==>
         StreamHeaders(seg)[i].fileOffset + StreamHeaders(seg)[i].size < U64_LIMIT
  }

  /**
   * `Segment::get_stream_range`: the stream's byte range within the file
   * (its file position, not its logical offset), taken from a record for it.
   * It reads only the index, so the range may run past the end of the file;
   * it lies inside the file when every record for the stream does.
   */
  function GetStreamRange(seg: Segment, streamId: u64): (r: Option<(u64, u64)>)
    requires RangeFits(seg, streamId)
    ensures r.Some? <==> FindStreamHeader(seg, streamId).Some?
    ensures r.Some? ==>
      exists i :: 0 <= i < |StreamHeaders(seg)| && StreamHeaders(seg)[i].streamId == streamId &&
                  r.value == (StreamHeaders(seg)[i].fileOffset, StreamHeaders(seg)[i].fileOffset + StreamHeaders(seg)[i].size)
    ensures r.Some? ==> r.value.0 <= r.value.1
    ensures r.Some? && RegionInBounds(seg, streamId) ==> r.value.1 <= |seg.data|
  {
    match FindStreamHeader(seg, streamId)
    case None => None
    case Some(h) => Some((h.fileOffset, h.fileOffset + h.size))
  }

  /** `Segment::stream_data`: exactly the bytes of the stream's range. */
  function StreamData(seg: Segment, streamId: u64): (r: Option<seq<u8>>)
    requires RegionInBounds(seg, streamId)
    ensures r.Some? <==> GetStreamRange(seg, streamId).Some?
    ensures r.Some? ==> r.value == seg.data[GetStreamRange(seg, streamId).value.0..GetStreamRange(seg, streamId).value.1]
  {
    match FindStreamHeader(seg, streamId)
    case None => None
    case Some(h) => Some(seg.data[h.fileOffset..h.fileOffset + h.size])
  }
}
