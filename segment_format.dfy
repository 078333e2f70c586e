/**
 * The on-disk layout of a segment (src/segments.rs): a 40-byte header of five
 * u64 fields, then 48-byte index records of six u64 fields each, then the
 * stream payloads. Both structs are `#[repr(C)]` runs of u64 with no padding,
 * copied to and from the file as raw memory, so each is its fields' little-endian
 * encodings laid end to end in declaration order.
 */
module SegmentFormat {
  import opened Bytes

  /** `size_of::<SegmentHeader>()`: five u64 fields. */
  const SEGMENT_HEADER_SIZE: nat := 40
  /** `size_of::<SegmentStreamHeader>()`: six u64 fields. */
  const SEGMENT_STREAM_HEADER_SIZE: nat := 48
  const SEGMENT_STREAM_HEADER_VERSION_V1: u64 := 1
  const SEGMENT_HEADER_VERSION_V1: u64 := 1

  datatype SegmentHeader = SegmentHeader(
    version: u64,
    lastEntry: u64,
    firstEntry: u64,
    streamHeadersOffset: u64,
    streamHeadersCount: u64)

  /** One index record: where a stream's payload sits in the file and how long it is. */
  datatype SegmentStreamHeader = SegmentStreamHeader(
    version: u64,
    streamId: u64,
    offset: u64,
    fileOffset: u64,
    size: u64,
    crcCheckSum: u64)

  /** A run of u64 fields laid end to end, each as its eight little-endian bytes. */
  function EncodeFields(fs: seq<u64>): (r: seq<u8>)
    ensures |r| == 8 * |fs|
  {
    if fs == [] then [] else EncodeU64(fs[0]) + EncodeFields(fs[1..])
  }

  /** Field `f` of a run is stored in bytes `8f .. 8f + 8` of its encoding. */
  lemma {:induction false} EncodeFieldsAt(fs: seq<u64>, f: nat)
    requires f < |fs|
    ensures EncodeFields(fs)[8 * f..8 * f + 8] == EncodeU64(fs[f])
    decreases f
  {
    var head, tail := EncodeU64(fs[0]), EncodeFields(fs[1..]);
    assert EncodeFields(fs) == head + tail;
    if f == 0 {
      assert (head + tail)[..8] == head;
    } else {
      EncodeFieldsAt(fs[1..], f - 1);
      assert (head + tail)[8 * f..8 * f + 8] == tail[8 * (f - 1)..8 * (f - 1) + 8];
    }
  }

  /** Runs of the same length with the same bytes hold the same fields. */
  lemma {:induction false} EncodeFieldsInjective(fs: seq<u64>, gs: seq<u64>)
    requires |fs| == |gs| && EncodeFields(fs) == EncodeFields(gs)
    ensures fs == gs
  {
    forall f | 0 <= f < |fs| ensures fs[f] == gs[f] {
      EncodeFieldsAt(fs, f);
      EncodeFieldsAt(gs, f);
      EncodeU64Injective(fs[f], gs[f]);
    }
  }

  /** The `n` fields stored from byte `at` on. */
  function DecodeFields(s: seq<u8>, at: nat, n: nat): (fs: seq<u64>)
    requires at + 8 * n <= |s|
    ensures |fs| == n && EncodeFields(fs) == s[at..at + 8 * n]
    decreases n
  {
    if n == 0 then []
    else
      var rest := DecodeFields(s, at + 8, n - 1);
      var fs := [DecodeU64(s, at)] + rest;
      assert fs[1..] == rest;
      assert s[at..at + 8 * n] == s[at..at + 8] + s[at + 8..at + 8 + 8 * (n - 1)];
      fs
  }

  function HeaderFields(h: SegmentHeader): (fs: seq<u64>)
    ensures |fs| == 5
  {
    [h.version, h.lastEntry, h.firstEntry, h.streamHeadersOffset, h.streamHeadersCount]
  }

  /** The in-memory image of a header: its five fields in declaration order. */
  function EncodeHeader(h: SegmentHeader): (r: seq<u8>)
    ensures |r| == SEGMENT_HEADER_SIZE
  {
    EncodeFields(HeaderFields(h))
  }

  /** Field `f` of a header is stored in bytes `8f .. 8f + 8` of its encoding. */
  lemma {:induction false} EncodeHeaderField(h: SegmentHeader, f: nat)
    requires f < 5
    ensures EncodeHeader(h)[8 * f..8 * f + 8] == EncodeU64(HeaderFields(h)[f])
  {
    EncodeFieldsAt(HeaderFields(h), f);
  }

  /** A header is determined by its bytes. */
  lemma {:induction false} EncodeHeaderInjective(h: SegmentHeader, h': SegmentHeader)
    requires EncodeHeader(h) == EncodeHeader(h')
    ensures h == h'
  {
    EncodeFieldsInjective(HeaderFields(h), HeaderFields(h'));
    assert HeaderFields(h)[0] == HeaderFields(h')[0];
    assert HeaderFields(h)[4] == HeaderFields(h')[4];
  }

  /** The header whose encoding is found at byte `at`. */
  function DecodeHeader(s: seq<u8>, at: nat): (h: SegmentHeader)
    requires at + SEGMENT_HEADER_SIZE <= |s|
    ensures EncodeHeader(h) == s[at..at + SEGMENT_HEADER_SIZE]
  {
    var fs := DecodeFields(s, at, 5);
    var h0 := SegmentHeader(fs[0], fs[1], fs[2], fs[3], fs[4]);
    assert HeaderFields(h0) == fs;
    EncodeHeaderIsInjective();
    var h :| EncodeHeader(h) == s[at..at + SEGMENT_HEADER_SIZE];
    h
  }

  /** No two headers share an encoding. */
  lemma {:induction false} EncodeHeaderIsInjective()
    ensures forall h: SegmentHeader, h': SegmentHeader :: EncodeHeader(h) == EncodeHeader(h') ==> h == h'
  {
    forall h: SegmentHeader, h': SegmentHeader | EncodeHeader(h) == EncodeHeader(h') ensures h == h' {
      EncodeHeaderInjective(h, h');
    }
  }

  /** The six fields of an index record, in declaration order. */
  function StreamHeaderFields(r: SegmentStreamHeader): (fs: seq<u64>)
    ensures |fs| == 6
  {
    [r.version, r.streamId, r.offset, r.fileOffset, r.size, r.crcCheckSum]
  }

  /** The in-memory image of an index record: its six fields in declaration order. */
  function EncodeStreamHeader(r: SegmentStreamHeader): (e: seq<u8>)
    ensures |e| == SEGMENT_STREAM_HEADER_SIZE
  {
    EncodeFields(StreamHeaderFields(r))
  }

  /** Field `f` of an index record is stored in bytes `8f .. 8f + 8` of its encoding. */
  lemma {:induction false} EncodeStreamHeaderField(r: SegmentStreamHeader, f: nat)
    requires f < 6
    ensures EncodeStreamHeader(r)[8 * f..8 * f + 8] == EncodeU64(StreamHeaderFields(r)[f])
  {
    EncodeFieldsAt(StreamHeaderFields(r), f);
  }

  /** An index record is determined by its bytes. */
  lemma {:induction false} EncodeStreamHeaderInjective(r: SegmentStreamHeader, r': SegmentStreamHeader)
    requires EncodeStreamHeader(r) == EncodeStreamHeader(r')
    ensures r == r'
  {
    EncodeFieldsInjective(StreamHeaderFields(r), StreamHeaderFields(r'));
    assert StreamHeaderFields(r)[0] == StreamHeaderFields(r')[0];
    assert StreamHeaderFields(r)[5] == StreamHeaderFields(r')[5];
  }

  /** The index record whose encoding is found at byte `at`. */
  function DecodeStreamHeader(s: seq<u8>, at: nat): (r: SegmentStreamHeader)
    requires at + SEGMENT_STREAM_HEADER_SIZE <= |s|
    ensures EncodeStreamHeader(r) == s[at..at + SEGMENT_STREAM_HEADER_SIZE]
  {
    var fs := DecodeFields(s, at, 6);
    var r0 := SegmentStreamHeader(fs[0], fs[1], fs[2], fs[3], fs[4], fs[5]);
    assert StreamHeaderFields(r0) == fs;
    EncodeStreamHeaderIsInjective();
    var r :| EncodeStreamHeader(r) == s[at..at + SEGMENT_STREAM_HEADER_SIZE];
    r
  }

  /** No two index records share an encoding. */
  lemma {:induction false} EncodeStreamHeaderIsInjective()
    ensures forall r: SegmentStreamHeader, r': SegmentStreamHeader :: EncodeStreamHeader(r) == EncodeStreamHeader(r') ==> r == r'
  {
    forall r: SegmentStreamHeader, r': SegmentStreamHeader | EncodeStreamHeader(r) == EncodeStreamHeader(r') ensures r == r' {
      EncodeStreamHeaderInjective(r, r');
    }
  }

  /** An index array as the writer emits it: each record's 48 bytes, in array order. */
  function EncodeStreamHeaders(rs: seq<SegmentStreamHeader>): (e: seq<u8>)
    ensures |e| == SEGMENT_STREAM_HEADER_SIZE * |rs|
  {
    if rs == [] then [] else EncodeStreamHeaders(rs[..|rs| - 1]) + EncodeStreamHeader(rs[|rs| - 1])
  }

  /** Encoding one more record of a prefix appends that record's bytes. */
  lemma {:induction false} EncodeStreamHeadersSnoc(rs: seq<SegmentStreamHeader>, j: nat)
    requires j < |rs|
    ensures EncodeStreamHeaders(rs[..j + 1]) == EncodeStreamHeaders(rs[..j]) + EncodeStreamHeader(rs[j])
  {
    assert rs[..j + 1][..j] == rs[..j];
  }

  /** Record `i` of an encoded index array occupies bytes `48i .. 48i + 48`. */
  lemma {:induction false} EncodeStreamHeadersAt(rs: seq<SegmentStreamHeader>, i: nat)
    requires i < |rs|
    ensures EncodeStreamHeaders(rs)[SEGMENT_STREAM_HEADER_SIZE * i..SEGMENT_STREAM_HEADER_SIZE * i + SEGMENT_STREAM_HEADER_SIZE]
         == EncodeStreamHeader(rs[i])
  {
    var n := |rs| - 1;
    var front := rs[..n];
    assert EncodeStreamHeaders(rs) == EncodeStreamHeaders(front) + EncodeStreamHeader(rs[n]);
    if i < n {
      EncodeStreamHeadersAt(front, i);
      assert front[i] == rs[i];
    }
  }
}
