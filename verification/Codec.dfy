/** The length-prefixed binary event format of shared/src/serialize/proto.rs. */
module Codec {
  import opened Bytes
  import opened Events
  import opened Reading

  // ---- printing ----

  function OpToByte(op: OpType): byte {
    match op
    case Insert => 'I' as int
    case Update => 'U' as int
    case Delete => 'D' as int
    case Truncate => 'T' as int
  }

  function ByteToOp(b: byte): Option<OpType> {
    if b == 'I' as int then Some(Insert)
    else if b == 'U' as int then Some(Update)
    else if b == 'D' as int then Some(Delete)
    else if b == 'T' as int then Some(Truncate)
    else None
  }

  /** Two's complement: `i64::to_be_bytes` reinterprets the value modulo 2^64. */
  function AsU64(v: i64): u64 { if v < 0 then v + U64_MODULUS else v }

  function AsI64(v: u64): i64 { if v >= 0x8000_0000_0000_0000 then v - U64_MODULUS else v }

  /** A 16-bit length (the cast `as u16` drops high bits) followed by the bytes. */
  function ShortBytes(s: Text): seq<byte> { ToBE(2, |s| % U16_MODULUS) + s }

  function ValueBytes(v: Option<Text>): seq<byte> {
    match v
    case None => [0]
    case Some(s) => [1] + (ToBE(4, |s| % U32_MODULUS) + s)
  }

  function ColumnBytes(c: ColumnValue): seq<byte> {
    ShortBytes(c.name) + (ToBE(4, c.typeOid) + ValueBytes(c.value))
  }

  function ColumnsBytes(cs: seq<ColumnValue>): seq<byte> {
    if cs == [] then [] else ColumnBytes(cs[0]) + ColumnsBytes(cs[1..])
  }

  function RowBytes(row: Option<RowData>): seq<byte> {
    match row
    case None => [0]
    case Some(r) => [1] + (ToBE(2, |r.columns| % U16_MODULUS) + ColumnsBytes(r.columns))
  }

  function HeaderBytes(lsn: u64, xid: u32, op: OpType): seq<byte> {
    ToBE(8, lsn) + (ToBE(4, xid) + [OpToByte(op)])
  }

  function TableBytes(t: TableId): seq<byte> { ShortBytes(t.schema) + ShortBytes(t.table) }

  function StampBytes(fingerprint: u64, ts: i64): seq<byte> { ToBE(8, fingerprint) + ToBE(8, AsU64(ts)) }

  /** What `encode_event` produces. */
  function EventBytes(e: ChangeEvent): seq<byte> {
    HeaderBytes(e.lsn, e.xid, e.op) + (TableBytes(e.table)
    + (StampBytes(e.schemaFingerprint, e.commitTimestampUs) + (RowBytes(e.after) + RowBytes(e.before))))
  }

  // ---- parsing ----

  /** `Rejected` is an `Err` returned to the caller; `Panics` is a slice index out of range. */
  datatype Failure = Rejected | Panics

  type Parsed<+T> = Parsing<T, Failure>

  datatype Decoded = Event(event: ChangeEvent) | DecodeError | DecodePanic

  /** The slice `data[pos..pos + n]` and what follows it. */
  function Take(s: seq<byte>, n: nat): Parsed<seq<byte>> {
    if n <= |s| then Got(s[..n], s[n..]) else Fail(Panics)
  }

  function ParseUint(s: seq<byte>, n: nat): (r: Parsed<nat>)
    ensures r.Got? ==> r.value < Pow256(n)
  {
    var (b, rest) :- Take(s, n);
    Got(FromBE(b), rest)
  }

  function ParseText(s: seq<byte>, n: nat): Parsed<Text> {
    var (b, rest) :- Take(s, n);
    if ValidUtf8(b) then Got(b, rest) else Fail(Rejected)
  }

  function ParseShort(s: seq<byte>): Parsed<Text> {
    var (n, rest) :- ParseUint(s, 2);
    ParseText(rest, n)
  }

  function ParseValue(s: seq<byte>): Parsed<Option<Text>> {
    var (flag, rest) :- ParseUint(s, 1);
    if flag == 0 then Got(None, rest)
    else
      var (n, rest) :- ParseUint(rest, 4);
      var (v, rest) :- ParseText(rest, n);
      Got(Some(v), rest)
  }

  function ParseColumn(s: seq<byte>): Parsed<ColumnValue> {
    var (name, rest) :- ParseShort(s);
    var (oid, rest) :- ParseUint(rest, 4);
    var (value, rest) :- ParseValue(rest);
    Widths();
    Got(ColumnValue(name, oid, value), rest)
  }

  function ParseColumns(s: seq<byte>, n: nat): Parsed<seq<ColumnValue>>
    decreases n
  {
    if n == 0 then Got([], s)
    else
      var (c, rest) :- ParseColumn(s);
      var (cs, rest) :- ParseColumns(rest, n - 1);
      Got([c] + cs, rest)
  }

  /** `decode_row_data`; a row missing altogether at the end of the buffer reads as absent. */
  function ParseRow(s: seq<byte>): Parsed<Option<RowData>> {
    if s == [] then Got(None, s)
    else if s[0] == 0 then Got(None, s[1..])
    else
      var (n, rest) :- ParseUint(s[1..], 2);
      var (cs, rest) :- ParseColumns(rest, n);
      Got(Some(RowData(cs)), rest)
  }

  function ParseHeader(s: seq<byte>): Parsed<(u64, u32, OpType)> {
    var (lsn, rest) :- ParseUint(s, 8);
    var (xid, rest) :- ParseUint(rest, 4);
    var (b, rest) :- ParseUint(rest, 1);
    Widths();
    if ByteToOp(b).None? then Fail(Rejected) else Got((lsn, xid, ByteToOp(b).value), rest)
  }

  function ParseTable(s: seq<byte>): Parsed<TableId> {
    var (schema, rest) :- ParseShort(s);
    var (table, rest) :- ParseShort(rest);
    Got(TableId(schema, table), rest)
  }

  function ParseStamp(s: seq<byte>): Parsed<(u64, i64)> {
    var (fingerprint, rest) :- ParseUint(s, 8);
    var (ts, rest) :- ParseUint(rest, 8);
    Widths();
    Got((fingerprint, AsI64(ts)), rest)
  }

  function ParseEvent(s: seq<byte>): Parsed<ChangeEvent> {
    if |s| < 15 then Fail(Rejected)
    else
      var (h, rest) :- ParseHeader(s);
      var (table, rest) :- ParseTable(rest);
      var (stamp, rest) :- ParseStamp(rest);
      var (after, rest) :- ParseRow(rest);
      var (before, rest) :- ParseRow(rest);
      Got(ChangeEvent(h.0, h.1, h.2, table, stamp.0, after, before, stamp.1), rest)
  }

  function Refused(f: Failure): Decoded {
    match f
    case Rejected => DecodeError
    case Panics => DecodePanic
  }

  /** What `decode_event` returns. */
  function Decode(s: seq<byte>): Decoded {
    match ParseEvent(s)
    case Got(e, _) => Event(e)
    case Fail(f) => Refused(f)
  }

  // ---- the events whose lengths fit their fields ----

  predicate WellFormedText(s: Text, limit: nat) { |s| < limit && ValidUtf8(s) }

  predicate WellFormedColumn(c: ColumnValue) {
    WellFormedText(c.name, U16_MODULUS) && (c.value.Some? ==> WellFormedText(c.value.value, U32_MODULUS))
  }

  predicate WellFormedRow(row: Option<RowData>) {
    row.Some? ==> |row.value.columns| < U16_MODULUS && forall c <- row.value.columns :: WellFormedColumn(c)
  }

  predicate WellFormed(e: ChangeEvent) {
    && WellFormedText(e.table.schema, U16_MODULUS) && WellFormedText(e.table.table, U16_MODULUS)
    && WellFormedRow(e.after) && WellFormedRow(e.before)
  }

  // ---- parsing undoes printing ----

  lemma Reassociate(a: seq<byte>, b: seq<byte>, c: seq<byte>, d: seq<byte>, e: seq<byte>, t: seq<byte>)
    ensures (a + (b + (c + (d + e)))) + t == a + (b + (c + (d + (e + t))))
  {
    Associate(d, e, t);
    Associate(c, d + e, t);
    Associate(b, c + (d + e), t);
    Associate(a, b + (c + (d + e)), t);
  }

  lemma TakeConcat(a: seq<byte>, t: seq<byte>)
    ensures Take(a + t, |a|) == Got(a, t)
  {
  }

  lemma ParseUintPrinted(n: nat, v: nat, t: seq<byte>)
    requires v < Pow256(n)
    ensures ParseUint(ToBE(n, v) + t, n) == Got(v, t)
  {
    TakeConcat(ToBE(n, v), t);
    FromToBE(n, v);
  }

  lemma ParseFlag(b: byte, t: seq<byte>)
    ensures ParseUint([b] + t, 1) == Got(b, t)
  {
    Widths();
    assert ToBE(0, b / 256) == [];
    assert ToBE(1, b) == [b];
    ParseUintPrinted(1, b, t);
  }

  lemma ParseShortPrinted(s: Text, t: seq<byte>)
    requires WellFormedText(s, U16_MODULUS)
    ensures ParseShort(ShortBytes(s) + t) == Got(s, t)
  {
    hide ToBE, FromBE, ValidUtf8, ParseUint, Take;
    Widths();
    Associate(ToBE(2, |s|), s, t);
    ParseUintPrinted(2, |s|, s + t);
    TakeConcat(s, t);
  }

  lemma ParseValuePrinted(v: Option<Text>, t: seq<byte>)
    requires v.Some? ==> WellFormedText(v.value, U32_MODULUS)
    ensures ParseValue(ValueBytes(v) + t) == Got(v, t)
  {
    hide ToBE, FromBE, ValidUtf8, ParseUint, Take;
    match v
    case None => ParseFlag(0, t);
    case Some(s) =>
      Widths();
      Associate(ToBE(4, |s|), s, t);
      Associate([1], ToBE(4, |s|) + s, t);
      ParseFlag(1, ToBE(4, |s|) + (s + t));
      ParseUintPrinted(4, |s|, s + t);
      TakeConcat(s, t);
  }

  lemma ParseColumnPrinted(c: ColumnValue, t: seq<byte>)
    requires WellFormedColumn(c)
    ensures ParseColumn(ColumnBytes(c) + t) == Got(c, t)
  {
    Widths();
    var r1 := ValueBytes(c.value) + t;
    var r2 := ToBE(4, c.typeOid) + r1;
    assert ColumnBytes(c) + t == ShortBytes(c.name) + r2;
    ParseShortPrinted(c.name, r2);
    ParseUintPrinted(4, c.typeOid, r1);
    ParseValuePrinted(c.value, t);
  }

  lemma {:induction false} ParseColumnsPrinted(cs: seq<ColumnValue>, t: seq<byte>)
    requires forall c <- cs :: WellFormedColumn(c)
    ensures ParseColumns(ColumnsBytes(cs) + t, |cs|) == Got(cs, t)
  {
    hide ParseColumn, ColumnBytes, WellFormedColumn;
    if cs == [] {
      assert ColumnsBytes(cs) + t == t;
    } else {
      var r := ColumnsBytes(cs[1..]) + t;
      Associate(ColumnBytes(cs[0]), ColumnsBytes(cs[1..]), t);
      ParseColumnPrinted(cs[0], r);
      ParseColumnsPrinted(cs[1..], t);
      assert [cs[0]] + cs[1..] == cs;
    }
  }

  lemma ParseRowPrinted(row: Option<RowData>, t: seq<byte>)
    requires WellFormedRow(row)
    ensures ParseRow(RowBytes(row) + t) == Got(row, t)
  {
    match row
    case None =>
    case Some(r) =>
      Widths();
      var r1 := ColumnsBytes(r.columns) + t;
      var r2 := ToBE(2, |r.columns|) + r1;
      assert RowBytes(row) + t == [1] + r2;
      assert (RowBytes(row) + t)[1..] == r2;
      ParseUintPrinted(2, |r.columns|, r1);
      ParseColumnsPrinted(r.columns, t);
  }

  lemma ParseHeaderPrinted(lsn: u64, xid: u32, op: OpType, t: seq<byte>)
    ensures ParseHeader(HeaderBytes(lsn, xid, op) + t) == Got((lsn, xid, op), t)
  {
    Widths();
    var r2 := [OpToByte(op)] + t;
    var r1 := ToBE(4, xid) + r2;
    assert HeaderBytes(lsn, xid, op) + t == ToBE(8, lsn) + r1;
    ParseUintPrinted(8, lsn, r1);
    ParseUintPrinted(4, xid, r2);
    ParseFlag(OpToByte(op), t);
  }

  lemma ParseTablePrinted(id: TableId, t: seq<byte>)
    requires WellFormedText(id.schema, U16_MODULUS) && WellFormedText(id.table, U16_MODULUS)
    ensures ParseTable(TableBytes(id) + t) == Got(id, t)
  {
    var r1 := ShortBytes(id.table) + t;
    assert TableBytes(id) + t == ShortBytes(id.schema) + r1;
    ParseShortPrinted(id.schema, r1);
    ParseShortPrinted(id.table, t);
  }

  lemma ParseStampPrinted(fingerprint: u64, ts: i64, t: seq<byte>)
    ensures ParseStamp(StampBytes(fingerprint, ts) + t) == Got((fingerprint, ts), t)
  {
    Widths();
    var r1 := ToBE(8, AsU64(ts)) + t;
    assert StampBytes(fingerprint, ts) + t == ToBE(8, fingerprint) + r1;
    ParseUintPrinted(8, fingerprint, r1);
    ParseUintPrinted(8, AsU64(ts), t);
  }

  /** Any bytes may follow an encoded event: decoding consumes exactly the encoding. */
  lemma ParseEventPrinted(e: ChangeEvent, t: seq<byte>)
    requires WellFormed(e)
    ensures ParseEvent(EventBytes(e) + t) == Got(e, t)
  {
    var r4 := RowBytes(e.before) + t;
    var r3 := RowBytes(e.after) + r4;
    var r2 := StampBytes(e.schemaFingerprint, e.commitTimestampUs) + r3;
    var r1 := TableBytes(e.table) + r2;
    Reassociate(HeaderBytes(e.lsn, e.xid, e.op), TableBytes(e.table),
                StampBytes(e.schemaFingerprint, e.commitTimestampUs), RowBytes(e.after), RowBytes(e.before), t);
    ParseHeaderPrinted(e.lsn, e.xid, e.op, r1);
    ParseTablePrinted(e.table, r2);
    ParseStampPrinted(e.schemaFingerprint, e.commitTimestampUs, r3);
    ParseRowPrinted(e.after, r4);
    ParseRowPrinted(e.before, t);
  }

  // ---- decoded events always fit ----

  lemma ParsedColumnFits(s: seq<byte>)
    ensures ParseColumn(s).Got? ==> WellFormedColumn(ParseColumn(s).value)
  {
    Widths();
  }

  lemma {:induction false} ParsedColumnsFit(s: seq<byte>, n: nat)
    ensures var r := ParseColumns(s, n); r.Got? ==> |r.value| == n && forall c <- r.value :: WellFormedColumn(c)
    decreases n
  {
    hide ParseColumn, WellFormedColumn;
    if n > 0 {
      match ParseColumn(s) {
        case Got(c, rest) =>
          ParsedColumnFits(s);
          ParsedColumnsFit(rest, n - 1);
          match ParseColumns(rest, n - 1) {
            case Got(cs, _) => assert ParseColumns(s, n).value == [c] + cs;
            case _ =>
          }
        case _ =>
      }
    }
  }

  lemma ParsedRowFits(s: seq<byte>)
    ensures ParseRow(s).Got? ==> WellFormedRow(ParseRow(s).value)
  {
    Widths();
    if s != [] && s[0] != 0 && ParseUint(s[1..], 2).Got? {
      ParsedColumnsFit(ParseUint(s[1..], 2).rest, ParseUint(s[1..], 2).value);
    }
  }

  lemma DecodedIsWellFormed(s: seq<byte>)
    ensures Decode(s).Event? ==> WellFormed(Decode(s).event)
  {
    hide ParseRow, WellFormedRow, ParseHeader, ParseStamp;
    Widths();
    forall x ensures ParseRow(x).Got? ==> WellFormedRow(ParseRow(x).value) { ParsedRowFits(x); }
  }

  /** The codec is a round trip on exactly the events whose lengths fit the length fields, whatever follows. */
  lemma RoundTripIff(e: ChangeEvent, t: seq<byte>)
    ensures Decode(EventBytes(e) + t) == Event(e) <==> WellFormed(e)
  {
    DecodedIsWellFormed(EventBytes(e) + t);
    if WellFormed(e) { ParseEventPrinted(e, t); }
  }

  /** No encoding is a prefix of another event's encoding; in particular the encoding is injective. */
  lemma PrefixFree(a: ChangeEvent, b: ChangeEvent, t: seq<byte>)
    requires WellFormed(a) && WellFormed(b)
    requires EventBytes(a) + t == EventBytes(b)
    ensures a == b && t == []
  {
    ParseEventPrinted(a, t);
    ParseEventPrinted(b, []);
    assert EventBytes(b) + [] == EventBytes(b);
  }

  // ---- the size estimate against the encoding ----

  function NonNull(cs: seq<ColumnValue>): nat {
    if cs == [] then 0 else NonNull(cs[..|cs| - 1]) + if cs[|cs| - 1].value.Some? then 1 else 0
  }

  /** Flags, counts, lengths and type identifiers of an encoded row. */
  function RowOverhead(row: Option<RowData>): nat {
    match row
    case None => 1
    case Some(r) => 3 + 7 * |r.columns| + 4 * NonNull(r.columns)
  }

  lemma {:induction false} ColumnsBytesAppend(cs: seq<ColumnValue>, c: ColumnValue)
    ensures ColumnsBytes(cs + [c]) == ColumnsBytes(cs) + ColumnBytes(c)
  {
    hide ColumnBytes;
    if cs == [] {
      assert [] + [c] == [c] && ColumnBytes(c) + [] == ColumnBytes(c);
    } else {
      assert (cs + [c])[1..] == cs[1..] + [c] && (cs + [c])[0] == cs[0];
      ColumnsBytesAppend(cs[1..], c);
      Associate(ColumnBytes(cs[0]), ColumnsBytes(cs[1..]), ColumnBytes(c));
    }
  }

  lemma {:induction false} ColumnsLength(cs: seq<ColumnValue>)
    ensures |ColumnsBytes(cs)| == ColumnsSize(cs) + 7 * |cs| + 4 * NonNull(cs)
  {
    hide ToBE;
    if cs != [] {
      var front, last := cs[..|cs| - 1], cs[|cs| - 1];
      ColumnsLength(front);
      ColumnsBytesAppend(front, last);
      assert cs == front + [last];
    }
  }

  lemma RowLength(row: Option<RowData>)
    ensures |RowBytes(row)| == RowSize(row) + RowOverhead(row)
  {
    hide ToBE;
    if row.Some? { ColumnsLength(row.value.columns); }
  }

  /** The variable part of the size estimate is exactly the payload of the encoding: what remains is the fixed
      33 bytes and the overhead of the rows. */
  lemma EncodedLength(e: ChangeEvent)
    ensures |EventBytes(e)| + STRUCT_SIZE == EstimatedSize(e) + 33 + RowOverhead(e.after) + RowOverhead(e.before)
  {
    hide ToBE, RowBytes, RowSize, RowOverhead;
    RowLength(e.after);
    RowLength(e.before);
  }

  // ---- the encoder and decoder loops ----

  method EncodeColumn(buf: seq<byte>, c: ColumnValue) returns (out: seq<byte>)
    ensures out == buf + ColumnBytes(c)
  {
    out := buf + ToBE(2, |c.name| % U16_MODULUS);
    out := out + c.name;
    out := out + ToBE(4, c.typeOid);
    match c.value {
      case None => out := out + [0];
      case Some(v) =>
        out := out + [1];
        out := out + ToBE(4, |v| % U32_MODULUS);
        out := out + v;
    }
  }

  method EncodeRowData(buf: seq<byte>, row: Option<RowData>) returns (out: seq<byte>)
    ensures out == buf + RowBytes(row)
  {
    match row {
      case None => out := buf + [0];
      case Some(r) =>
        out := buf + [1];
        out := out + ToBE(2, |r.columns| % U16_MODULUS);
        for i := 0 to |r.columns|
          invariant out + ColumnsBytes(r.columns[i..]) == buf + RowBytes(row)
        {
          var c := r.columns[i];
          ghost var before, tail := out, ColumnsBytes(r.columns[i + 1..]);
          assert r.columns[i..][1..] == r.columns[i + 1..];
          out := EncodeColumn(out, c);
          Associate(before, ColumnBytes(c), tail);
        }
        assert out + [] == out;
    }
  }

  method EncodeShort(buf: seq<byte>, s: Text) returns (out: seq<byte>)
    ensures out == buf + ShortBytes(s)
  {
    out := buf + ToBE(2, |s| % U16_MODULUS);
    out := out + s;
    Associate(buf, ToBE(2, |s| % U16_MODULUS), s);
  }

  method EncodeEvent(e: ChangeEvent) returns (buf: seq<byte>)
    ensures buf == EventBytes(e)
  {
    buf := ToBE(8, e.lsn);
    buf := buf + ToBE(4, e.xid);
    buf := buf + [OpToByte(e.op)];
    ghost var header, table := HeaderBytes(e.lsn, e.xid, e.op), TableBytes(e.table);
    Associate(ToBE(8, e.lsn), ToBE(4, e.xid), [OpToByte(e.op)]);
    buf := EncodeShort(buf, e.table.schema);
    buf := EncodeShort(buf, e.table.table);
    Associate(header, ShortBytes(e.table.schema), ShortBytes(e.table.table));
    buf := buf + ToBE(8, e.schemaFingerprint);
    buf := buf + ToBE(8, AsU64(e.commitTimestampUs));
    ghost var stamp := StampBytes(e.schemaFingerprint, e.commitTimestampUs);
    Associate(header + table, ToBE(8, e.schemaFingerprint), ToBE(8, AsU64(e.commitTimestampUs)));
    buf := EncodeRowData(buf, e.after);
    buf := EncodeRowData(buf, e.before);
    Associate((header + table) + stamp, RowBytes(e.after), RowBytes(e.before));
    Associate(header + table, stamp, RowBytes(e.after) + RowBytes(e.before));
    Associate(header, table, stamp + (RowBytes(e.after) + RowBytes(e.before)));
  }

  type Cursor<+T> = Position<T, Failure>

  method ReadUint(data: seq<byte>, pos: nat, n: nat) returns (c: Cursor<nat>)
    requires pos <= |data|
    ensures Agrees(data, c, ParseUint(data[pos..], n))
  {
    if pos + n <= |data| {
      assert data[pos..][..n] == data[pos..pos + n];
      c := At(FromBE(data[pos..pos + n]), pos + n);
    } else {
      c := Stopped(Panics);
    }
  }

  method ReadText(data: seq<byte>, pos: nat, n: nat) returns (c: Cursor<Text>)
    requires pos <= |data|
    ensures Agrees(data, c, ParseText(data[pos..], n))
  {
    if pos + n <= |data| {
      assert data[pos..][..n] == data[pos..pos + n];
      c := if ValidUtf8(data[pos..pos + n]) then At(data[pos..pos + n], pos + n) else Stopped(Rejected);
    } else {
      c := Stopped(Panics);
    }
  }

  method ReadShort(data: seq<byte>, pos: nat) returns (c: Cursor<Text>)
    requires pos <= |data|
    ensures Agrees(data, c, ParseShort(data[pos..]))
  {
    var n := ReadUint(data, pos, 2);
    if n.Stopped? { return Stopped(n.error); }
    c := ReadText(data, n.pos, n.value);
  }

  method DecodeColumn(data: seq<byte>, pos: nat) returns (c: Cursor<ColumnValue>)
    requires pos <= |data|
    ensures Agrees(data, c, ParseColumn(data[pos..]))
  {
    var name := ReadShort(data, pos);
    if name.Stopped? { return Stopped(name.error); }
    var oid := ReadUint(data, name.pos, 4);
    if oid.Stopped? { return Stopped(oid.error); }
    Widths();
    var flag := ReadUint(data, oid.pos, 1);
    if flag.Stopped? { return Stopped(flag.error); }
    if flag.value == 0 { return At(ColumnValue(name.value, oid.value, None), flag.pos); }
    var n := ReadUint(data, flag.pos, 4);
    if n.Stopped? { return Stopped(n.error); }
    var v := ReadText(data, n.pos, n.value);
    match v {
      case At(text, p) => return At(ColumnValue(name.value, oid.value, Some(text)), p);
      case Stopped(e) => return Stopped(e);
    }
  }

  method DecodeColumns(data: seq<byte>, start: nat, n: nat) returns (c: Cursor<seq<ColumnValue>>)
    requires start <= |data|
    ensures Agrees(data, c, ParseColumns(data[start..], n))
  {
    hide ParseColumn;
    var pos := start;
    var columns: seq<ColumnValue> := [];
    ghost var goal := ParseColumns(data[start..], n);
    PrependFacts([], ColumnValue([], 0, None), goal);
    for i := 0 to n
      invariant 0 <= pos <= |data|
      invariant goal == Prepend(columns, ParseColumns(data[pos..], n - i))
    {
      var col := DecodeColumn(data, pos);
      match col {
        case Stopped(e) => return Stopped(e);
        case At(v, p) =>
          PrependFacts(columns, v, ParseColumns(data[p..], n - i - 1));
          columns := columns + [v];
          pos := p;
      }
    }
    assert columns + [] == columns;
    return At(columns, pos);
  }

  method DecodeRowData(data: seq<byte>, start: nat) returns (c: Cursor<Option<RowData>>)
    requires start <= |data|
    ensures Agrees(data, c, ParseRow(data[start..]))
  {
    if start >= |data| { return At(None, start); }
    var pos := start + 1;
    assert data[start..][1..] == data[pos..];
    if data[start] == 0 { return At(None, pos); }
    var count := ReadUint(data, pos, 2);
    if count.Stopped? { return Stopped(count.error); }
    var columns := DecodeColumns(data, count.pos, count.value);
    match columns {
      case At(cs, p) => return At(Some(RowData(cs)), p);
      case Stopped(e) => return Stopped(e);
    }
  }

  method DecodeEvent(data: seq<byte>) returns (r: Decoded)
    ensures r == Decode(data)
  {
    if |data| < 15 { return DecodeError; }
    assert data[0..] == data;
    assert data[0..][..8] == data[..8] && data[8..][..4] == data[8..12] && data[12..][..1] == data[12..13];
    assert data[8..][4..] == data[12..] && data[12..][1..] == data[13..];
    var lsn, xid := FromBE(data[..8]), FromBE(data[8..12]);
    Widths();
    var op := ByteToOp(data[12]);
    assert FromBE(data[12..13]) == data[12];
    if op.None? { return DecodeError; }
    assert ParseHeader(data) == Got((lsn, xid, op.value), data[13..]);
    r := DecodeBody(data, lsn, xid, op.value);
  }

  method DecodeBody(data: seq<byte>, lsn: u64, xid: u32, op: OpType) returns (r: Decoded)
    requires |data| >= 15 && ParseHeader(data) == Got((lsn, xid, op), data[13..])
    ensures r == Decode(data)
  {
    var schema := ReadShort(data, 13);
    if schema.Stopped? { return Refused(schema.error); }
    var table := ReadShort(data, schema.pos);
    if table.Stopped? { return Refused(table.error); }
    var fingerprint := ReadUint(data, table.pos, 8);
    if fingerprint.Stopped? { return Refused(fingerprint.error); }
    var ts := ReadUint(data, fingerprint.pos, 8);
    if ts.Stopped? { return Refused(ts.error); }
    Widths();
    var after := DecodeRowData(data, ts.pos);
    if after.Stopped? { return Refused(after.error); }
    var before := DecodeRowData(data, after.pos);
    if before.Stopped? { return Refused(before.error); }
    r := Event(ChangeEvent(lsn, xid, op, TableId(schema.value, table.value), fingerprint.value,
                           after.value, before.value, AsI64(ts.value)));
  }
}
