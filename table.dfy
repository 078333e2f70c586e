/**
 * The collaborators mem_table.rs uses but does not define: `Entry`, `Error` and
 * `StreamTable` (src/entry.rs, src/error.rs and src/table.rs are not part of this
 * model). A stream table is kept as a record of the fields the segment writer
 * reads; what its own `append`, `get_stream_range` and `read_stream_data` do is
 * left open, as a `StreamTableOps` value supplied from outside.
 */
module Tables {
  import opened Wrappers
  import opened Bytes

  /**
   * The error kinds the core names: `StreamNotFound`, raised by the modelled
   * code itself, and the I/O error the file handling wraps. Errors from the
   * collaborators (the offset handler, a stream table) pass through unexamined.
   */
  datatype Error = StreamNotFound | IoError

  /** One caller-supplied unit of appended data. */
  datatype Entry = Entry(id: u64, streamId: u64, data: seq<u8>)

  /** The buffered data of one stream: its id, its logical start offset, its size and its chunks in append order. */
  datatype StreamTable = StreamTable(streamId: u64, offset: u64, size: u64, streamDatas: seq<seq<u8>>)

  /** `StreamTable::new(stream_id, offset)`: a table with nothing buffered yet. */
  function NewStreamTable(streamId: u64, offset: u64): (t: StreamTable)
    ensures t.streamId == streamId && t.offset == offset
    ensures t.size == 0 && t.streamDatas == []
  {
    StreamTable(streamId, offset, 0, [])
  }

  /** The chunks of a stream laid end to end, in append order. */
  function Flatten(chunks: seq<seq<u8>>): seq<u8>
  {
    if chunks == [] then [] else Flatten(chunks[..|chunks| - 1]) + chunks[|chunks| - 1]
  }

  /** The size field accounts for exactly the buffered bytes. */
  ghost predicate Consistent(t: StreamTable)
  {
    t.size == |Flatten(t.streamDatas)|
  }

  /** The stream-table operations mem_table.rs delegates to, as opaque and fallible functions. */
  datatype StreamTableOps = StreamTableOps(
    append: (StreamTable, seq<u8>) -> Result<StreamTable, Error>,
    getStreamRange: StreamTable -> Option<(u64, u64)>,
    readStreamData: (StreamTable, u64, u64) -> Result<seq<u8>, Error>)

  /**
   * What the model relies on from table.rs: a successful append keeps the
   * table's stream id and keeps its size equal to its buffered bytes.
   */
  ghost predicate Lawful(ops: StreamTableOps)
  {
    forall t: StreamTable, data: seq<u8> :: ops.append(t, data).Ok? ==>
      ops.append(t, data).value.streamId == t.streamId &&
      (Consistent(t) ==> Consistent(ops.append(t, data).value))
  }
}
