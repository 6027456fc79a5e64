/** The change event that flows from the decoder through the pipeline into storage and out to consumers. */
module Events {
  import opened Bytes

  /** A Rust `String`: its UTF-8 bytes. */
  type Text = seq<byte>

  datatype OpType = Insert | Update | Delete | Truncate

  datatype TableId = TableId(schema: Text, table: Text) {
    function Qualified(): Text { schema + ['.' as int] + table }
  }

  datatype ColumnValue = ColumnValue(name: Text, typeOid: u32, value: Option<Text>)

  datatype RowData = RowData(columns: seq<ColumnValue>)

  datatype ChangeEvent = ChangeEvent(
    lsn: u64, xid: u32, op: OpType, table: TableId, schemaFingerprint: u64,
    after: Option<RowData>, before: Option<RowData>, commitTimestampUs: i64)

  /** Stands in for `size_of::<ChangeEvent>()`; no result depends on its value. */
  const STRUCT_SIZE: nat := 128

  function ColumnsSize(columns: seq<ColumnValue>): nat {
    if columns == [] then 0
    else ColumnsSize(columns[..|columns| - 1]) + ColumnSize(columns[|columns| - 1])
  }

  function ColumnSize(c: ColumnValue): nat {
    |c.name| + match c.value { case Some(v) => |v| case None => 0 }
  }

  function RowSize(row: Option<RowData>): nat {
    match row
    case Some(r) => ColumnsSize(r.columns)
    case None => 0
  }

  /** The footprint that batches and the flush policy add up. */
  function EstimatedSize(e: ChangeEvent): (n: nat)
    ensures n > 0
  {
    STRUCT_SIZE + |e.table.schema| + |e.table.table| + RowSize(e.after) + RowSize(e.before)
  }

  method EstimateRow(row: RowData) returns (size: nat)
    ensures size == ColumnsSize(row.columns)
  {
    size := 0;
    for i := 0 to |row.columns|
      invariant size == ColumnsSize(row.columns[..i])
    {
      var c := row.columns[i];
      assert row.columns[..i + 1][..i] == row.columns[..i];
      size := size + |c.name|;
      match c.value {
        case Some(v) => size := size + |v|;
        case None =>
      }
    }
    assert row.columns[..|row.columns|] == row.columns;
  }

  method EstimateSize(e: ChangeEvent) returns (size: nat)
    ensures size == EstimatedSize(e)
  {
    size := STRUCT_SIZE + |e.table.schema| + |e.table.table|;
    if e.after.Some? {
      var row := EstimateRow(e.after.value);
      size := size + row;
    }
    if e.before.Some? {
      var row := EstimateRow(e.before.value);
      size := size + row;
    }
  }
}
