/**
 * The in-memory write buffer of src/mem_table.rs: a map from stream id to
 * stream table plus three counters (`first_entry`, `last_entry`, `size`) and
 * an optional handler that resolves the start offset of a stream the buffer has
 * not seen yet. The mutex and the atomics only serialise concurrent callers;
 * the model is single-threaded.
 *
 * `AppendStep` is what `MemTable::append` does, written as a function of the
 * state before the call; the class method `MemTable.Append` is proved to
 * perform exactly that step. `IntendedAppend` is the behaviour the code
 * evidently aims at for a stream seen for the first time, and
 * `MemTable.AppendCorrected` performs it. `RunAsWritten` and `RunIntended`
 * chain appends, so that what each version lets through can be compared.
 */
module MemTables {
  import opened Wrappers
  import opened Bytes
  import opened Tables

  /** The offset-resolution callback: stream id to start offset, or an error. */
  type OffsetHandler = u64 -> Result<u64, Error>

  /** How a call to `append` ends: `Ok(())`, an `Err`, or a panic. */
  datatype AppendOutcome = Appended | Failed(error: Error) | Aborted

  /** The fields of a `MemTable` that `append` updates. */
  datatype MemState = MemState(streamTables: map<u64, StreamTable>, firstEntry: u64, lastEntry: u64, size: u64)

  /** Every stream table sits under its own stream id. */
  ghost predicate KeysMatch(tables: map<u64, StreamTable>)
  {
    forall id :: id in tables ==> tables[id].streamId == id
  }

  ghost predicate AllConsistent(tables: map<u64, StreamTable>)
  {
    forall id {:trigger Consistent(tables[id])} :: id in tables ==> Consistent(tables[id])
  }

  /** A fresh buffer: no streams, every counter zero. */
  function EmptyState(): MemState
  {
    MemState(map[], 0, 0, 0)
  }

  /** The start offset of an unseen stream: the handler's answer, or 0 when no handler is installed. */
  function ResolveOffset(handler: Option<OffsetHandler>, streamId: u64): (r: Result<u64, Error>)
    ensures handler.None? ==> r == Ok(0)
    ensures handler.Some? ==> r == handler.value(streamId)
  {
    match handler
    case None => Ok(0)
    case Some(h) => h(streamId)
  }

  /**
   * The counter updates made once a stream table has taken the entry:
   * `size` grows by the payload length with the wrap-around of
   * `AtomicU64::fetch_add`, `last_entry` becomes the entry's id, and
   * `first_entry` is set only while it is still 0.
   */
  function Account(s: MemState, entry: Entry): (r: MemState)
    ensures r.streamTables == s.streamTables
    ensures r.size == (s.size + |entry.data|) % U64_LIMIT && r.lastEntry == entry.id
    ensures s.firstEntry == 0 ==> r.firstEntry == entry.id
    ensures s.firstEntry != 0 ==> r.firstEntry == s.firstEntry
  {
    s.(size := (s.size + |entry.data|) % U64_LIMIT,
       lastEntry := entry.id,
       firstEntry := if s.firstEntry == 0 then entry.id else s.firstEntry)
  }

  /** `MemTable::append` as written, as a function of the state before the call. */
  function AppendStep(s: MemState, handler: Option<OffsetHandler>, ops: StreamTableOps, entry: Entry): (r: (MemState, AppendOutcome))
    // an existing stream: the table's own append decides, and on success every counter moves
    ensures entry.streamId in s.streamTables ==>
      match ops.append(s.streamTables[entry.streamId], entry.data)
      case Err(e) => r == (s, Failed(e))
      case Ok(t) =>
        && r.1 == Appended
        && r.0.streamTables == s.streamTables[entry.streamId := t]
        && r.0.size == (s.size + |entry.data|) % U64_LIMIT
        && r.0.lastEntry == entry.id
        && r.0.firstEntry == (if s.firstEntry == 0 then entry.id else s.firstEntry)
    // an unseen stream: a failing handler leaves everything as it was
    ensures entry.streamId !in s.streamTables && ResolveOffset(handler, entry.streamId).Err? ==>
      r == (s, Failed(ResolveOffset(handler, entry.streamId).error))
    // an unseen stream: the empty table is inserted, then `.unwrap()` on `None` panics
    ensures entry.streamId !in s.streamTables && ResolveOffset(handler, entry.streamId).Ok? ==>
      && r.1 == Aborted
      && r.0 == s.(streamTables := s.streamTables[entry.streamId :=
                     NewStreamTable(entry.streamId, ResolveOffset(handler, entry.streamId).value)])
    // first_entry, once non-zero, never changes
    ensures s.firstEntry != 0 ==> r.0.firstEntry == s.firstEntry
    // no outcome but success touches a counter
    ensures r.1 != Appended ==> r.0.size == s.size && r.0.lastEntry == s.lastEntry && r.0.firstEntry == s.firstEntry
  {
    var id := entry.streamId;
    if id !in s.streamTables then
      match ResolveOffset(handler, id)
      case Err(e) => (s, Failed(e))
      case Ok(offset) => (s.(streamTables := s.streamTables[id := NewStreamTable(id, offset)]), Aborted)
    else
      match ops.append(s.streamTables[id], entry.data)
      case Err(e) => (s, Failed(e))
      case Ok(t) => (Account(s.(streamTables := s.streamTables[id := t]), entry), Appended)
  }

  /** The table an intended append hands the payload to: the existing one, or a new one at the resolved offset. */
  function TargetTable(s: MemState, handler: Option<OffsetHandler>, entry: Entry): StreamTable
    requires entry.streamId in s.streamTables || ResolveOffset(handler, entry.streamId).Ok?
  {
    if entry.streamId in s.streamTables then s.streamTables[entry.streamId]
    else NewStreamTable(entry.streamId, ResolveOffset(handler, entry.streamId).value)
  }

  /**
   * The append the code evidently intends: an unseen stream gets a fresh table
   * at the resolved offset and that table receives the payload, exactly as an
   * existing table would.
   */
  function IntendedAppend(s: MemState, handler: Option<OffsetHandler>, ops: StreamTableOps, entry: Entry): (r: (MemState, AppendOutcome))
    ensures r.1 != Aborted
    ensures r.1 == Appended <==>
      (entry.streamId in s.streamTables || ResolveOffset(handler, entry.streamId).Ok?) &&
      ops.append(TargetTable(s, handler, entry), entry.data).Ok?
    ensures r.1 == Appended ==>
      && r.0.streamTables == s.streamTables[entry.streamId := ops.append(TargetTable(s, handler, entry), entry.data).value]
      && r.0.size == (s.size + |entry.data|) % U64_LIMIT
      && r.0.lastEntry == entry.id
      && r.0.firstEntry == (if s.firstEntry == 0 then entry.id else s.firstEntry)
    ensures r.1 != Appended ==> r.0 == s
  {
    var id := entry.streamId;
    if id !in s.streamTables && ResolveOffset(handler, id).Err? then
      (s, Failed(ResolveOffset(handler, id).error))
    else
      match ops.append(TargetTable(s, handler, entry), entry.data)
      case Err(e) => (s, Failed(e))
      case Ok(t) => (Account(s.(streamTables := s.streamTables[id := t]), entry), Appended)
  }

  /** On a stream the buffer already holds, the code as written and the intended append agree. */
  lemma {:induction false} AppendToExistingStreamAsIntended(s: MemState, handler: Option<OffsetHandler>, ops: StreamTableOps, entry: Entry)
    requires entry.streamId in s.streamTables
    ensures AppendStep(s, handler, ops, entry) == IntendedAppend(s, handler, ops, entry)
  {
  }

  /** A successful append keeps every table under its own id and consistent with its chunks. */
  lemma {:induction false} IntendedAppendKeepsInvariant(s: MemState, handler: Option<OffsetHandler>, ops: StreamTableOps, entry: Entry)
    requires Lawful(ops) && KeysMatch(s.streamTables) && AllConsistent(s.streamTables)
    ensures KeysMatch(IntendedAppend(s, handler, ops, entry).0.streamTables)
    ensures AllConsistent(IntendedAppend(s, handler, ops, entry).0.streamTables)
  {
    var r := IntendedAppend(s, handler, ops, entry);
    if r.1 == Appended {
      var t := TargetTable(s, handler, entry);
      assert t.streamId == entry.streamId && Consistent(t);
      var t' := ops.append(t, entry.data).value;
      assert t'.streamId == t.streamId && Consistent(t');
    }
  }

  /** Total payload length of a run of entries. */
  function TotalLength(entries: seq<Entry>): nat
  {
    if entries == [] then 0 else |entries[0].data| + TotalLength(entries[1..])
  }

  /** The id of the first entry whose id is not the sentinel 0, or 0 if there is none. */
  function FirstNonZeroId(entries: seq<Entry>): u64
  {
    if entries == [] then 0 else if entries[0].id != 0 then entries[0].id else FirstNonZeroId(entries[1..])
  }

  /** Intended appends of `entries` in order, stopping at the first that does not succeed. */
  function RunIntended(s: MemState, handler: Option<OffsetHandler>, ops: StreamTableOps, entries: seq<Entry>): (MemState, AppendOutcome)
    decreases |entries|
  {
    if entries == [] then (s, Appended)
    else
      var step := IntendedAppend(s, handler, ops, entries[0]);
      if step.1 != Appended then step else RunIntended(step.0, handler, ops, entries[1..])
  }

  lemma {:induction false} ModAddAssoc(a: nat, b: nat, c: nat)
    ensures ((a + b) % U64_LIMIT + c) % U64_LIMIT == (a + b + c) % U64_LIMIT
  {
    var q := (a + b) / U64_LIMIT;
    assert a + b + c == q * U64_LIMIT + ((a + b) % U64_LIMIT + c);
    ModMultiple(q, (a + b) % U64_LIMIT + c);
  }

  lemma {:induction false} ModMultiple(q: nat, x: nat)
    ensures (q * U64_LIMIT + x) % U64_LIMIT == x % U64_LIMIT
  {
    if q > 0 {
      ModMultiple(q - 1, x);
      assert q * U64_LIMIT + x == ((q - 1) * U64_LIMIT + x) + U64_LIMIT;
    }
  }

  /**
   * After a run of appends that all succeed, `size` is the total payload
   * length (modulo 2^64), `last_entry` the id of the last entry and
   * `first_entry` the first non-zero id ever seen.
   */
  lemma {:induction false} RunIntendedCounters(s: MemState, handler: Option<OffsetHandler>, ops: StreamTableOps, entries: seq<Entry>)
    requires RunIntended(s, handler, ops, entries).1 == Appended
    decreases |entries|
    ensures var r := RunIntended(s, handler, ops, entries).0;
      && r.size == (s.size + TotalLength(entries)) % U64_LIMIT
      && r.lastEntry == (if entries == [] then s.lastEntry else entries[|entries| - 1].id)
      && r.firstEntry == (if s.firstEntry != 0 then s.firstEntry else FirstNonZeroId(entries))
  {
    if entries != [] {
      var step := IntendedAppend(s, handler, ops, entries[0]);
      RunIntendedCounters(step.0, handler, ops, entries[1..]);
      ModAddAssoc(s.size, |entries[0].data|, TotalLength(entries[1..]));
      if |entries| > 1 {
        assert entries[1..][|entries[1..]| - 1] == entries[|entries| - 1];
      }
    }
  }

  /**
   * Appends of `entries` in order as written, stopping at the first that does
   * not succeed: after an error the caller has its `Err`, and after the panic
   * the poisoned mutex makes every later call panic as well.
   */
  function RunAsWritten(s: MemState, handler: Option<OffsetHandler>, ops: StreamTableOps, entries: seq<Entry>): (MemState, AppendOutcome)
    decreases |entries|
  {
    if entries == [] then (s, Appended)
    else
      var step := AppendStep(s, handler, ops, entries[0]);
      if step.1 != Appended then step else RunAsWritten(step.0, handler, ops, entries[1..])
  }

  /**
   * As written, a run of appends succeeds only if every entry belongs to a
   * stream the buffer already held, and it never adds a stream: a buffer
   * created empty by `MemTable::new` never accepts an entry.
   */
  lemma {:induction false} RunAsWrittenNeedsKnownStreams(s: MemState, handler: Option<OffsetHandler>, ops: StreamTableOps, entries: seq<Entry>)
    requires RunAsWritten(s, handler, ops, entries).1 == Appended
    decreases |entries|
    ensures RunAsWritten(s, handler, ops, entries).0.streamTables.Keys == s.streamTables.Keys
    ensures forall e :: e in entries ==> e.streamId in s.streamTables
  {
    if entries != [] {
      var step := AppendStep(s, handler, ops, entries[0]);
      assert entries[0].streamId in s.streamTables;
      assert step.0.streamTables.Keys == s.streamTables.Keys;
      RunAsWrittenNeedsKnownStreams(step.0, handler, ops, entries[1..]);
      forall e | e in entries ensures e.streamId in s.streamTables {
        if e != entries[0] {
          assert e in entries[1..];
        }
      }
    }
  }

  /**
   * The intended append, by contrast, accepts every entry when the offset
   * handler and the stream tables never fail, and the buffer then holds a
   * table for every stream of the run.
   */
  lemma {:induction false} RunIntendedAcceptsAll(s: MemState, handler: Option<OffsetHandler>, ops: StreamTableOps, entries: seq<Entry>)
    requires forall id: u64 :: ResolveOffset(handler, id).Ok?
    requires forall t: StreamTable, data: seq<u8> :: ops.append(t, data).Ok?
    decreases |entries|
    ensures RunIntended(s, handler, ops, entries).1 == Appended
    ensures s.streamTables.Keys <= RunIntended(s, handler, ops, entries).0.streamTables.Keys
    ensures forall e :: e in entries ==> e.streamId in RunIntended(s, handler, ops, entries).0.streamTables
  {
    if entries != [] {
      var step := IntendedAppend(s, handler, ops, entries[0]);
      assert ResolveOffset(handler, entries[0].streamId).Ok?;
      assert ops.append(TargetTable(s, handler, entries[0]), entries[0].data).Ok?;
      RunIntendedAcceptsAll(step.0, handler, ops, entries[1..]);
      var r := RunIntended(s, handler, ops, entries).0;
      forall e | e in entries ensures e.streamId in r.streamTables {
        if e != entries[0] {
          assert e in entries[1..];
        }
      }
    }
  }

  /** The write buffer of one generation. */
  class MemTable {
    var streamTables: map<u64, StreamTable>
    var firstEntry: u64
    var lastEntry: u64
    var size: u64
    var getStreamOffset: Option<OffsetHandler>
    /**
     * Set once a call has panicked while holding the lock on the stream
     * tables: the mutex is poisoned, and every later `lock().unwrap()` panics.
     */
    var poisoned: bool
    /** What the buffered stream tables do (src/table.rs). */
    const ops: StreamTableOps

    ghost predicate Valid()
      reads this
    {
      Lawful(ops) && KeysMatch(streamTables) && AllConsistent(streamTables)
    }

    function State(): MemState
      reads this
    {
      MemState(streamTables, firstEntry, lastEntry, size)
    }

    /** `MemTable::new`: no streams, every counter 0, no offset handler. */
    constructor (ops: StreamTableOps)
      requires Lawful(ops)
      ensures Valid() && this.ops == ops
      ensures State() == EmptyState() && getStreamOffset.None? && !poisoned
    {
      this.ops := ops;
      streamTables := map[];
      firstEntry, lastEntry, size := 0, 0, 0;
      getStreamOffset := None;
      poisoned := false;
    }

    function GetFirstEntry(): u64
      reads this
    {
      firstEntry
    }

    function GetLastEntry(): u64
      reads this
    {
      lastEntry
    }

    function GetSize(): u64
      reads this
    {
      size
    }

    /** The buffered range of a stream, as its stream table reports it; `None` for an unknown stream. */
    function GetStreamRange(streamId: u64): (r: Option<(u64, u64)>)
      reads this
      ensures streamId !in streamTables ==> r == None
      ensures streamId in streamTables ==> r == ops.getStreamRange(streamTables[streamId])
    {
      if streamId in streamTables then ops.getStreamRange(streamTables[streamId]) else None
    }

    /** Buffered bytes of a stream, as its stream table reads them; `StreamNotFound` for an unknown stream. */
    function ReadStreamData(streamId: u64, offset: u64, size: u64): (r: Result<seq<u8>, Error>)
      reads this
      ensures streamId !in streamTables ==> r == Err(StreamNotFound)
      ensures streamId in streamTables ==> r == ops.readStreamData(streamTables[streamId], offset, size)
    {
      if streamId in streamTables then ops.readStreamData(streamTables[streamId], offset, size)
      else Err(StreamNotFound)
    }

    /**
     * `MemTable::append`, including its panic on the first entry of an unseen
     * stream. The panic poisons the lock, so once one call has aborted every
     * later call aborts at `lock().unwrap()` without touching anything.
     */
    method Append(entry: Entry) returns (outcome: AppendOutcome)
      requires Valid()
      modifies this
      ensures Valid() && getStreamOffset == old(getStreamOffset)
      ensures old(poisoned) ==> outcome == Aborted && State() == old(State()) && poisoned
      ensures !old(poisoned) ==> (State(), outcome) == AppendStep(old(State()), getStreamOffset, ops, entry)
      ensures !old(poisoned) ==> poisoned == (outcome == Aborted)
    {
      if poisoned {
        return Aborted;
      }
      var dataLen := |entry.data|;
      if entry.streamId !in streamTables {
        var offset: u64;
        match getStreamOffset {
          case Some(handler) =>
            var resolved := handler(entry.streamId);
            if resolved.Err? {
              return Failed(resolved.error);
            }
            offset := resolved.value;
          case None =>
            offset := 0;
        }
        streamTables := streamTables[entry.streamId := NewStreamTable(entry.streamId, offset)];
        // `insert` returned `None` for the fresh key, and `.unwrap()` on it panics with the lock held.
        poisoned := true;
        return Aborted;
      } else {
        var appended := ops.append(streamTables[entry.streamId], entry.data);
        if appended.Err? {
          return Failed(appended.error);
        }
        streamTables := streamTables[entry.streamId := appended.value];
      }
      size := (size + dataLen) % U64_LIMIT;
      lastEntry := entry.id;
      if firstEntry == 0 {
        firstEntry := entry.id;
      }
      return Appended;
    }

    /**
     * `MemTable::append` as evidently intended: an unseen stream gets a new
     * table at the resolved offset, which then takes the payload like any other.
     */
    method AppendCorrected(entry: Entry) returns (outcome: AppendOutcome)
      requires Valid()
      modifies this
      ensures Valid() && getStreamOffset == old(getStreamOffset) && poisoned == old(poisoned)
      ensures old(poisoned) ==> outcome == Aborted && State() == old(State())
      ensures !old(poisoned) ==> (State(), outcome) == IntendedAppend(old(State()), getStreamOffset, ops, entry)
    {
      if poisoned {
        return Aborted;
      }
      var dataLen := |entry.data|;
      var table: StreamTable;
      if entry.streamId in streamTables {
        table := streamTables[entry.streamId];
      } else {
        var offset: u64;
        match getStreamOffset {
          case Some(handler) =>
            var resolved := handler(entry.streamId);
            if resolved.Err? {
              return Failed(resolved.error);
            }
            offset := resolved.value;
          case None =>
            offset := 0;
        }
        table := NewStreamTable(entry.streamId, offset);
      }
      var appended := ops.append(table, entry.data);
      if appended.Err? {
        return Failed(appended.error);
      }
      IntendedAppendKeepsInvariant(State(), getStreamOffset, ops, entry);
      streamTables := streamTables[entry.streamId := appended.value];
      size := (size + dataLen) % U64_LIMIT;
      lastEntry := entry.id;
      if firstEntry == 0 {
        firstEntry := entry.id;
      }
      return Appended;
    }
  }
}
