/**
 * What `generate_segment` (src/segments.rs:125-232) writes, as functions of the
 * write buffer's stream tables: the index records built from the tables, sorted
 * by stream id, with file offsets assigned by a running cursor that starts
 * after the header and the index; and the payloads of the tables in a given
 * order. The hash map's iteration order is not determined by the source, so it
 * is a parameter: an enumeration of the map's keys.
 */
module SegmentLayout {
  import opened Bytes
  import opened Tables
  import opened MemTables
  import opened SegmentFormat

  /** The index record `generate_segment` builds for a stream table, before its file offset is known. */
  function RecordOf(t: StreamTable): (r: SegmentStreamHeader)
    // the six fields written for the table, in layout order: version 1, its id, offset and size, no file offset yet, checksum 0
    ensures StreamHeaderFields(r) == [SEGMENT_STREAM_HEADER_VERSION_V1, t.streamId, t.offset, 0, t.size, 0]
  {
    SegmentStreamHeader(SEGMENT_STREAM_HEADER_VERSION_V1, t.streamId, t.offset, 0, t.size, 0)
  }

  predicate Distinct(ks: seq<u64>)
  {
    forall i, j :: 0 <= i < j < |ks| ==> ks[i] != ks[j]
  }

  /** `order` lists every key of the map exactly once. */
  ghost predicate IsEnumeration(order: seq<u64>, keys: set<u64>)
  {
    Distinct(order) && forall k :: k in order <==> k in keys
  }

  predicate StrictlyIncreasing(ks: seq<u64>)
  {
    forall i, j :: 0 <= i < j < |ks| ==> ks[i] < ks[j]
  }

  predicate StrictlySortedById(rs: seq<SegmentStreamHeader>)
  {
    forall i, j :: 0 <= i < j < |rs| ==> rs[i].streamId < rs[j].streamId
  }

  /** An enumeration of a set is as long as the set is large. */
  lemma {:induction false} EnumerationLength(order: seq<u64>, keys: set<u64>)
    requires IsEnumeration(order, keys)
    ensures |order| == |keys|
    decreases |order|
  {
    if order != [] {
      var n := |order| - 1;
      var x := order[n];
      var front := order[..n];
      assert order == front + [x];
      forall k ensures k in front <==> k in keys - {x} {
        if k in front {
          var i :| 0 <= i < n && front[i] == k;
          assert order[i] == k;
        }
        if k in keys - {x} {
          assert k in order;
          var i :| 0 <= i < |order| && order[i] == k;
          assert i != n;
          assert front[i] == k;
        }
      }
      EnumerationLength(front, keys - {x});
    } else {
      assert forall k :: k !in keys;
      assert keys == {};
    }
  }

  ghost predicate IsLeast(m: u64, keys: set<u64>)
  {
    m in keys && forall k :: k in keys ==> m <= k
  }

  lemma {:induction false} MinExists(keys: set<u64>)
    requires keys != {}
    ensures exists m :: IsLeast(m, keys)
    decreases |keys|
  {
    var x :| x in keys;
    if keys == {x} {
      assert IsLeast(x, keys);
    } else {
      var rest := keys - {x};
      MinExists(rest);
      var m :| IsLeast(m, rest);
      var least := if x < m then x else m;
      forall k | k in keys ensures least <= k {
        if k != x { assert k in rest; }
      }
      assert IsLeast(least, keys);
    }
  }

  /** The keys of a set in ascending order. */
  ghost function SortedKeys(keys: set<u64>): (r: seq<u64>)
    ensures StrictlyIncreasing(r) && IsEnumeration(r, keys)
    decreases keys
  {
    if keys == {} then []
    else
      MinExists(keys);
      var m :| IsLeast(m, keys);
      var rest := SortedKeys(keys - {m});
      PrependLeast(m, rest, keys);
      [m] + rest
  }

  lemma {:induction false} PrependLeast(m: u64, rest: seq<u64>, keys: set<u64>)
    requires IsLeast(m, keys)
    requires StrictlyIncreasing(rest) && IsEnumeration(rest, keys - {m})
    ensures StrictlyIncreasing([m] + rest) && IsEnumeration([m] + rest, keys)
  {
    var r := [m] + rest;
    assert forall i :: 0 < i < |r| ==> r[i] == rest[i - 1];
    forall i | 0 <= i < |rest| ensures m < rest[i] {
      assert rest[i] in keys - {m};
    }
    forall k ensures k in r <==> k in keys {
      if k in keys && k != m { assert k in rest; }
    }
  }

  /** The records built for the tables named by `ks`, in that order. */
  function Records(tables: map<u64, StreamTable>, ks: seq<u64>): (rs: seq<SegmentStreamHeader>)
    requires forall k :: k in ks ==> k in tables
    ensures |rs| == |ks|
    ensures forall i :: 0 <= i < |ks| ==> rs[i] == RecordOf(tables[ks[i]])
  {
    seq(|ks|, i requires 0 <= i < |ks| => RecordOf(tables[ks[i]]))
  }

  /** Sum of the `size` fields of a run of records. */
  function SumSizes(rs: seq<SegmentStreamHeader>): nat
  {
    if rs == [] then 0 else SumSizes(rs[..|rs| - 1]) + rs[|rs| - 1].size
  }

  lemma {:induction false} SumSizesPrefix(rs: seq<SegmentStreamHeader>, i: nat)
    requires i <= |rs|
    ensures SumSizes(rs[..i]) <= SumSizes(rs)
    decreases |rs|
  {
    if i < |rs| {
      var front := rs[..|rs| - 1];
      assert rs[..i] == front[..i];
      SumSizesPrefix(front, i);
    } else {
      assert rs[..i] == rs;
    }
  }

  /** Offset of the first payload byte: after the header and `k` index records. */
  function DataStart(k: nat): nat
  {
    SEGMENT_HEADER_SIZE + SEGMENT_STREAM_HEADER_SIZE * k
  }

  /** The records with their file offsets assigned: each starts where the previous one's payload ends. */
  function Placed(rs: seq<SegmentStreamHeader>, start: nat): (ps: seq<SegmentStreamHeader>)
    requires start + SumSizes(rs) < U64_LIMIT
    ensures |ps| == |rs|
    ensures forall i {:trigger ps[i]} :: 0 <= i < |rs| ==>
      ps[i].fileOffset == start + SumSizes(rs[..i]) && ps[i] == rs[i].(fileOffset := ps[i].fileOffset)
  {
    seq(|rs|, i requires 0 <= i < |rs| =>
      SumSizesPrefix(rs, i);
      rs[i].(fileOffset := start + SumSizes(rs[..i])))
  }

  /** Record `j` of the placed index, and how the cursor moves past it. */
  lemma {:induction false} PlacedStep(rs: seq<SegmentStreamHeader>, start: nat, j: nat)
    requires start + SumSizes(rs) < U64_LIMIT && j < |rs|
    ensures Placed(rs, start)[j].fileOffset == start + SumSizes(rs[..j])
    ensures Placed(rs, start)[j] == rs[j].(fileOffset := Placed(rs, start)[j].fileOffset)
    ensures SumSizes(rs[..j + 1]) == SumSizes(rs[..j]) + rs[j].size
  {
    assert rs[..j + 1][..j] == rs[..j];
  }

  /** The records of all tables, sorted by stream id. */
  ghost function SortedRecords(tables: map<u64, StreamTable>): seq<SegmentStreamHeader>
  {
    Records(tables, SortedKeys(tables.Keys))
  }

  /** Every file offset the writer computes, including the final cursor, fits in a u64. */
  ghost predicate ImageFits(tables: map<u64, StreamTable>)
  {
    DataStart(|tables|) + SumSizes(SortedRecords(tables)) < U64_LIMIT
  }

  /** The index array of the segment: sorted by stream id, file offsets running from the end of the index. */
  ghost function SegmentIndex(tables: map<u64, StreamTable>): seq<SegmentStreamHeader>
    requires ImageFits(tables)
  {
    Placed(SortedRecords(tables), DataStart(|tables|))
  }

  /**
   * The payloads of the tables named by `ks`, each table's chunks in append
   * order. When every table's size counts its buffered bytes, the payload is
   * exactly as long as the records' sizes add up to.
   */
  function Payload(tables: map<u64, StreamTable>, ks: seq<u64>): (p: seq<u8>)
    requires forall k :: k in ks ==> k in tables
    ensures AllConsistent(tables) ==> |p| == SumSizes(Records(tables, ks))
    decreases |ks|
  {
    if ks == [] then []
    else
      var n := |ks| - 1;
      assert Records(tables, ks)[..n] == Records(tables, ks[..n]);
      assert AllConsistent(tables) ==> Consistent(tables[ks[n]]);
      Payload(tables, ks[..n]) + Flatten(tables[ks[n]].streamDatas)
  }

  /** The header `generate_segment` builds, with the index-offset field given. */
  function HeaderFor(tables: map<u64, StreamTable>, firstEntry: u64, lastEntry: u64, streamHeadersOffset: u64): (h: SegmentHeader)
    requires |tables| < U64_LIMIT
    // the five fields written first, in layout order: version 1, last and first entry, the index offset, one record per table
    ensures HeaderFields(h) == [SEGMENT_HEADER_VERSION_V1, lastEntry, firstEntry, streamHeadersOffset, |tables| as u64]
  {
    SegmentHeader(SEGMENT_HEADER_VERSION_V1, lastEntry, firstEntry, streamHeadersOffset, |tables|)
  }

  /**
   * A segment image: the header (with the given index-offset field), the
   * sorted index, and the payloads in `payloadOrder`.
   */
  ghost function SegmentImage(tables: map<u64, StreamTable>, firstEntry: u64, lastEntry: u64,
                              streamHeadersOffset: u64, payloadOrder: seq<u64>): seq<u8>
    requires ImageFits(tables)
    requires forall k :: k in payloadOrder ==> k in tables
  {
    EncodeHeader(HeaderFor(tables, firstEntry, lastEntry, streamHeadersOffset)) +
    EncodeStreamHeaders(SegmentIndex(tables)) +
    Payload(tables, payloadOrder)
  }

  /** The image the writer evidently intends: the index right after the header, the payloads in index order. */
  ghost function IntendedImage(tables: map<u64, StreamTable>, firstEntry: u64, lastEntry: u64): seq<u8>
    requires ImageFits(tables)
  {
    SegmentImage(tables, firstEntry, lastEntry, SEGMENT_HEADER_SIZE, SortedKeys(tables.Keys))
  }

  /**
   * The segment index has one record per table, record `i` being the table
   * with the `i`-th smallest key, so the index is strictly sorted by stream id.
   */
  lemma {:induction false} SegmentIndexShape(tables: map<u64, StreamTable>)
    requires KeysMatch(tables) && ImageFits(tables)
    ensures |SegmentIndex(tables)| == |SortedKeys(tables.Keys)| == |tables|
    ensures forall i :: 0 <= i < |SegmentIndex(tables)| ==>
      SegmentIndex(tables)[i].streamId == SortedKeys(tables.Keys)[i] && SortedKeys(tables.Keys)[i] in tables
    ensures StrictlySortedById(SegmentIndex(tables))
  {
    var sk := SortedKeys(tables.Keys);
    EnumerationLength(sk, tables.Keys);
    assert |tables.Keys| == |tables|;
    forall i | 0 <= i < |sk| ensures SegmentIndex(tables)[i].streamId == sk[i] && sk[i] in tables {
      assert sk[i] in tables.Keys;
    }
  }

  /** Removing `x` from the front of one enumeration and from anywhere in another keeps them enumerations of the same keys. */
  lemma {:induction false} RemoveFromBoth(o1: seq<u64>, o2: seq<u64>, j: nat)
    requires o1 != [] && j < |o2| && o2[j] == o1[0]
    requires Distinct(o1) && Distinct(o2) && forall k :: k in o1 <==> k in o2
    ensures Distinct(o1[1..]) && Distinct(o2[..j] + o2[j + 1..])
    ensures forall k :: k in o1[1..] <==> k in o2[..j] + o2[j + 1..]
  {
    var x := o1[0];
    var rest1 := o1[1..];
    var rest2 := o2[..j] + o2[j + 1..];
    assert forall i :: 0 <= i < |rest2| ==> rest2[i] == if i < j then o2[i] else o2[i + 1];
    forall k ensures k in rest1 <==> k in rest2 {
      if k in rest1 {
        var i :| 0 <= i < |rest1| && rest1[i] == k;
        assert o1[i + 1] == k;
        assert k in o2;
        var i2 :| 0 <= i2 < |o2| && o2[i2] == k;
        if i2 < j { assert rest2[i2] == k; } else { assert rest2[i2 - 1] == k; }
      }
      if k in rest2 {
        var i :| 0 <= i < |rest2| && rest2[i] == k;
        assert k in o2 && k != x;
        var i1 :| 0 <= i1 < |o1| && o1[i1] == k;
        assert rest1[i1 - 1] == k;
      }
    }
  }

  lemma {:induction false} RecordsConcat(tables: map<u64, StreamTable>, a: seq<u64>, b: seq<u64>)
    requires forall k :: k in a + b ==> k in tables
    ensures Records(tables, a + b) == Records(tables, a) + Records(tables, b)
  {
  }

  /** Two enumerations of the same keys give the same records, up to order. */
  lemma {:induction false} EnumerationsSameRecords(tables: map<u64, StreamTable>, o1: seq<u64>, o2: seq<u64>)
    requires forall k :: k in o1 ==> k in tables
    requires Distinct(o1) && Distinct(o2) && forall k :: k in o1 <==> k in o2
    ensures multiset(Records(tables, o1)) == multiset(Records(tables, o2))
    decreases |o1|
  {
    if o1 == [] {
      assert forall k :: k !in o2;
    } else {
      var x := o1[0];
      assert x in o2;
      var j :| 0 <= j < |o2| && o2[j] == x;
      var rest1 := o1[1..];
      var left, right := o2[..j], o2[j + 1..];
      RemoveFromBoth(o1, o2, j);
      EnumerationsSameRecords(tables, rest1, left + right);
      assert o1 == [x] + rest1;
      assert o2 == left + ([x] + right);
      RecordsConcat(tables, [x], rest1);
      RecordsConcat(tables, left, [x] + right);
      RecordsConcat(tables, [x], right);
      RecordsConcat(tables, left, right);
      var ra, rb, rc := Records(tables, left), Records(tables, [x]), Records(tables, right);
      assert Records(tables, o2) == ra + (rb + rc);
      assert Records(tables, o1) == rb + Records(tables, rest1);
      MultisetMoveFront(ra, rb, rc, Records(tables, rest1));
    }
  }

  lemma {:induction false} MultisetMoveFront<T>(a: seq<T>, b: seq<T>, c: seq<T>, d: seq<T>)
    requires multiset(d) == multiset(a + c)
    ensures multiset(b + d) == multiset(a + (b + c))
  {
    calc {
      multiset(b + d);
      multiset(b) + multiset(a + c);
      multiset(b) + multiset(a) + multiset(c);
      multiset(a) + multiset(b + c);
      multiset(a + (b + c));
    }
  }

  /** A sorted permutation of a strictly sorted sequence is that sequence. */
  lemma {:induction false} SortedPermutationUnique(s: seq<SegmentStreamHeader>, t: seq<SegmentStreamHeader>)
    requires forall i, j :: 0 <= i < j < |s| ==> s[i].streamId <= s[j].streamId
    requires StrictlySortedById(t)
    requires multiset(s) == multiset(t)
    ensures s == t
    decreases |s|
  {
    assert |s| == |multiset(s)| == |multiset(t)| == |t|;
    if s != [] {
      assert s[0] in multiset(t);
      var m :| 0 <= m < |t| && t[m] == s[0];
      assert t[0] in multiset(s);
      var k :| 0 <= k < |s| && s[k] == t[0];
      assert s[0].streamId <= s[k].streamId == t[0].streamId <= t[m].streamId == s[0].streamId;
      assert m == 0;
      MultisetTail(s, t);
      SortedPermutationUnique(s[1..], t[1..]);
    }
  }

  lemma {:induction false} MultisetTail<T>(s: seq<T>, t: seq<T>)
    requires s != [] && t != [] && s[0] == t[0] && multiset(s) == multiset(t)
    ensures multiset(s[1..]) == multiset(t[1..])
  {
    assert s == [s[0]] + s[1..] && t == [t[0]] + t[1..];
    assert multiset(s) == multiset([s[0]]) + multiset(s[1..]);
    assert multiset(t) == multiset([t[0]]) + multiset(t[1..]);
    assert multiset(s[1..]) == multiset(s) - multiset([s[0]]);
    assert multiset(t[1..]) == multiset(t) - multiset([t[0]]);
  }

  /**
   * Sorting the records of any enumeration of a buffer's tables by stream id
   * yields the records in ascending key order.
   */
  lemma {:induction false} SortedIsSortedRecords(s: seq<SegmentStreamHeader>, tables: map<u64, StreamTable>, order: seq<u64>)
    requires KeysMatch(tables) && IsEnumeration(order, tables.Keys)
    requires forall i, j :: 0 <= i < j < |s| ==> s[i].streamId <= s[j].streamId
    requires multiset(s) == multiset(Records(tables, order))
    ensures s == SortedRecords(tables)
  {
    var sk := SortedKeys(tables.Keys);
    EnumerationsSameRecords(tables, order, sk);
    var t := SortedRecords(tables);
    assert forall i :: 0 <= i < |t| ==> t[i].streamId == sk[i];
    SortedPermutationUnique(s, t);
  }
}
