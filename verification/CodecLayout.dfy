/** The event format by its offsets, with every constant spelled out, and how the decoder treats other flag bytes. */
module CodecLayout {
  import opened Bytes
  import opened Events
  import opened Reading
  import opened Codec

  predicate OpByte(op: OpType, b: byte) {
    match op
    case Insert => b == 0x49
    case Update => b == 0x55
    case Delete => b == 0x44
    case Truncate => b == 0x54
  }

  /** `part` stands at offset i of s. */
  predicate Stands(s: seq<byte>, i: nat, part: seq<byte>) { i + |part| <= |s| && s[i..i + |part|] == part }

  lemma StandsFirst(part: seq<byte>, rest: seq<byte>)
    ensures Stands(part + rest, 0, part)
  {
  }

  lemma StandsBehind(a: seq<byte>, b: seq<byte>, i: nat, part: seq<byte>)
    requires Stands(b, i, part)
    ensures Stands(a + b, |a| + i, part)
  {
    assert (a + b)[|a| + i..|a| + i + |part|] == b[i..i + |part|];
  }

  lemma StandsBefore(a: seq<byte>, b: seq<byte>, i: nat, part: seq<byte>)
    requires Stands(a, i, part)
    ensures Stands(a + b, i, part)
  {
    assert (a + b)[i..i + |part|] == a[i..i + |part|];
  }

  lemma HeaderLayout(lsn: u64, xid: u32, op: OpType)
    ensures var h := HeaderBytes(lsn, xid, op);
            |h| == 13 && Stands(h, 0, ToBE(8, lsn)) && Stands(h, 8, ToBE(4, xid)) && OpByte(op, h[12])
  {
    hide ToBE;
  }

  lemma TableLayout(id: TableId)
    ensures var b, s, t := TableBytes(id), |id.schema|, |id.table|;
            && |b| == 4 + s + t && Stands(b, 0, ToBE(2, s % 0x1_0000)) && Stands(b, 2, id.schema)
            && Stands(b, 2 + s, ToBE(2, t % 0x1_0000)) && Stands(b, 4 + s, id.table)
  {
    hide ToBE;
  }

  lemma StampLayout(fingerprint: u64, ts: i64)
    ensures var b := StampBytes(fingerprint, ts);
            |b| == 16 && Stands(b, 0, ToBE(8, fingerprint)) && Stands(b, 8, ToBE(8, ts % 0x1_0000_0000_0000_0000))
  {
    hide ToBE;
    assert AsU64(ts) == ts % 0x1_0000_0000_0000_0000;
  }

  lemma TableAt(a: seq<byte>, id: TableId, rest: seq<byte>)
    ensures var b, n, s, t := a + (TableBytes(id) + rest), |a|, |id.schema|, |id.table|;
            && Stands(b, n, ToBE(2, s % 0x1_0000)) && Stands(b, n + 2, id.schema)
            && Stands(b, n + 2 + s, ToBE(2, t % 0x1_0000)) && Stands(b, n + 4 + s, id.table)
  {
    hide ToBE, TableBytes, Stands;
    TableLayout(id);
    var b, s, t := TableBytes(id), |id.schema|, |id.table|;
    StandsBefore(b, rest, 0, ToBE(2, s % 0x1_0000));
    StandsBefore(b, rest, 2, id.schema);
    StandsBefore(b, rest, 2 + s, ToBE(2, t % 0x1_0000));
    StandsBefore(b, rest, 4 + s, id.table);
    StandsBehind(a, b + rest, 0, ToBE(2, s % 0x1_0000));
    StandsBehind(a, b + rest, 2, id.schema);
    StandsBehind(a, b + rest, 2 + s, ToBE(2, t % 0x1_0000));
    StandsBehind(a, b + rest, 4 + s, id.table);
  }

  /** Where each field of an event stands: LSN, transaction, operation, lengths and names, fingerprint, commit time in
      two's complement, and behind them the new and the old row. */
  lemma EventLayout(e: ChangeEvent)
    ensures var b, s, t := EventBytes(e), |e.table.schema|, |e.table.table|;
            && Stands(b, 0, ToBE(8, e.lsn)) && Stands(b, 8, ToBE(4, e.xid)) && |b| > 12 && OpByte(e.op, b[12])
            && Stands(b, 13, ToBE(2, s % 0x1_0000)) && Stands(b, 15, e.table.schema)
            && Stands(b, 15 + s, ToBE(2, t % 0x1_0000)) && Stands(b, 17 + s, e.table.table)
            && Stands(b, 17 + s + t, ToBE(8, e.schemaFingerprint))
            && Stands(b, 25 + s + t, ToBE(8, e.commitTimestampUs % 0x1_0000_0000_0000_0000))
            && Stands(b, 33 + s + t, RowBytes(e.after))
            && Stands(b, 33 + s + t + |RowBytes(e.after)|, RowBytes(e.before))
            && |b| == 33 + s + t + |RowBytes(e.after)| + |RowBytes(e.before)|
  {
    hide ToBE, HeaderBytes, TableBytes, StampBytes, RowBytes, Stands;
    var h, m := HeaderBytes(e.lsn, e.xid, e.op), TableBytes(e.table);
    var st := StampBytes(e.schemaFingerprint, e.commitTimestampUs);
    var ra, rb := RowBytes(e.after), RowBytes(e.before);
    var r := ra + rb;
    var r1, r2 := m + (st + r), st + r;
    HeaderLayout(e.lsn, e.xid, e.op);
    StandsBefore(h, r1, 0, ToBE(8, e.lsn));
    StandsBefore(h, r1, 8, ToBE(4, e.xid));
    TableAt(h, e.table, r2);
    TableLayout(e.table);
    StampLayout(e.schemaFingerprint, e.commitTimestampUs);
    StandsBefore(st, r, 0, ToBE(8, e.schemaFingerprint));
    StandsBefore(st, r, 8, ToBE(8, e.commitTimestampUs % 0x1_0000_0000_0000_0000));
    StandsFirst(ra, rb);
    StandsWhole(rb);
    StandsBehind(ra, rb, 0, rb);
    FarBehind(h, m, r2, 0, ToBE(8, e.schemaFingerprint));
    FarBehind(h, m, r2, 8, ToBE(8, e.commitTimestampUs % 0x1_0000_0000_0000_0000));
    StandsBehind(st, r, 0, ra);
    StandsBehind(st, r, |ra|, rb);
    FarBehind(h, m, r2, 16, ra);
    FarBehind(h, m, r2, 16 + |ra|, rb);
  }

  lemma StandsWhole(b: seq<byte>)
    ensures Stands(b, 0, b)
  {
  }

  lemma FarBehind(a: seq<byte>, b: seq<byte>, c: seq<byte>, i: nat, part: seq<byte>)
    requires Stands(c, i, part)
    ensures Stands(a + (b + c), |a| + |b| + i, part)
  {
    hide Stands;
    StandsBehind(b, c, i, part);
    StandsBehind(a, b + c, |b| + i, part);
  }

  /** A row: 0 when absent; otherwise 1, the number of columns, and the columns one behind the other. */
  lemma RowLayout(r: RowData)
    ensures RowBytes(None) == [0]
    ensures var b := RowBytes(Some(r));
            |b| >= 3 && b[0] == 1 && Stands(b, 1, ToBE(2, |r.columns| % 0x1_0000)) && b[3..] == ColumnsBytes(r.columns)
  {
    hide ToBE, ColumnsBytes;
  }

  /** The columns of a row stand one behind the other. */
  lemma {:induction false} ColumnsLayout(cs: seq<ColumnValue>, i: nat)
    requires i < |cs|
    ensures Stands(ColumnsBytes(cs), |ColumnsBytes(cs[..i])|, ColumnBytes(cs[i]))
  {
    hide ColumnBytes, Stands;
    if i == 0 {
      assert cs[..0] == [];
      StandsFirst(ColumnBytes(cs[0]), ColumnsBytes(cs[1..]));
    } else {
      ColumnsLayout(cs[1..], i - 1);
      assert cs[1..][..i - 1] == cs[..i][1..] && cs[..i][0] == cs[0];
      StandsBehind(ColumnBytes(cs[0]), ColumnsBytes(cs[1..]), |ColumnsBytes(cs[1..][..i - 1])|, ColumnBytes(cs[i]));
    }
  }

  /** A column: name length and name, type, then 0 for null or 1, the length and the value. */
  lemma ColumnLayout(c: ColumnValue)
    ensures var b, n := ColumnBytes(c), |c.name|;
            && Stands(b, 0, ToBE(2, n % 0x1_0000)) && Stands(b, 2, c.name) && Stands(b, 2 + n, ToBE(4, c.typeOid))
            && |b| > 6 + n
            && match c.value
               case None => |b| == 7 + n && b[6 + n] == 0
               case Some(v) =>
                 && |b| == 11 + n + |v| && b[6 + n] == 1 && Stands(b, 7 + n, ToBE(4, |v| % 0x1_0000_0000))
                 && Stands(b, 11 + n, v)
  {
    hide ToBE;
  }

  // ---- other bytes where a flag is expected ----

  /** Any flag but 0 announces a row or a value. */
  lemma AnyFlag(f: byte, s: seq<byte>)
    requires f != 0
    ensures ParseRow([f] + s) == ParseRow([1] + s) && ParseValue([f] + s) == ParseValue([1] + s)
  {
    hide ParseColumns, ParseText;
    assert ([f] + s)[1..] == s && ([1] + s)[1..] == s;
    ParseFlag(f, s);
    ParseFlag(1, s);
  }

  /** A byte that stands for no operation is an error. */
  lemma UnknownOperation(s: seq<byte>)
    requires |s| >= 15 && forall op :: !OpByte(op, s[12])
    ensures Decode(s) == DecodeError
  {
    hide FromBE, ParseTable;
    Widths();
    assert !OpByte(Insert, s[12]) && !OpByte(Update, s[12]) && !OpByte(Delete, s[12]) && !OpByte(Truncate, s[12]);
    assert s[8..][4..] == s[12..] && s[12..] == [s[12]] + s[13..];
    ParseFlag(s[12], s[13..]);
  }
}
