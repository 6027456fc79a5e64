/** Messages laid out as in section 55.9 of the PostgreSQL 16 documentation (Logical Replication Message Formats), also
    with tag bytes the documentation does not list, and what decoding a run of them gives. */
module PgWire {
  import opened Bytes
  import opened Events
  import opened PgOutput
  import opened Reading

  datatype Cell = NullCell | Unchanged | UnknownCell(tag: byte) | TextCell(text: Text) | BinaryCell(bytes: seq<byte>)

  /** The tag of the new tuple, which should be `N`, comes behind the old one. */
  datatype OldTuple =
    | NoOld(newTag: byte)
    | KeyTuple(cells: seq<Cell>, newTag: byte)
    | FullTuple(cells: seq<Cell>, newTag: byte)

  /** The flag bits above the key bit. */
  type HighBits = x: int | 0 <= x < 0x80

  /** A column of a Relation message; its other flags and type modifier are sent but not kept. */
  datatype WireColumn = WireColumn(meta: ColumnMeta, flags: HighBits, modifier: u32)

  function FlagByte(c: WireColumn): byte { c.flags * 2 + if c.meta.isKey then 1 else 0 }

  datatype Message =
    | Begin(finalLsn: u64, timestamp: u64, xid: u32)
    | Commit(flags: byte, commitLsn: u64, endLsn: u64, timestamp: u64)
    | Relation(oid: u32, schema: Text, table: Text, identity: byte, columns: seq<WireColumn>)
    | InsertRow(oid: u32, newTag: byte, cells: seq<Cell>)
    | UpdateRow(oid: u32, previous: OldTuple, cells: seq<Cell>)
    | DeleteRow(oid: u32, oldTag: byte, cells: seq<Cell>)
    | TruncateTables(oids: seq<u32>, options: byte)
    | Ignored(tag: byte, payload: seq<byte>)

  // ---- layout ----

  function CString(s: Text): seq<byte> { s + [0] }

  function SizedBytes(b: seq<byte>): seq<byte> { ToBE(4, |b| % U32_MODULUS) + b }

  function CellBytes(c: Cell): seq<byte> {
    match c
    case NullCell => ['n' as int]
    case Unchanged => ['u' as int]
    case UnknownCell(tag) => [tag]
    case TextCell(t) => ['t' as int] + SizedBytes(t)
    case BinaryCell(b) => ['b' as int] + SizedBytes(b)
  }

  function CellsBytes(cs: seq<Cell>): seq<byte> {
    if cs == [] then [] else CellBytes(cs[0]) + CellsBytes(cs[1..])
  }

  function TupleBytes(cs: seq<Cell>): seq<byte> { ToBE(2, |cs| % U16_MODULUS) + CellsBytes(cs) }

  function MetaBytes(c: WireColumn): seq<byte> {
    [FlagByte(c)] + (CString(c.meta.name) + (ToBE(4, c.meta.typeOid) + ToBE(4, c.modifier)))
  }

  function MetasBytes(cs: seq<WireColumn>): seq<byte> {
    if cs == [] then [] else MetaBytes(cs[0]) + MetasBytes(cs[1..])
  }

  function Metas(cs: seq<WireColumn>): seq<ColumnMeta> {
    seq(|cs|, i requires 0 <= i < |cs| => cs[i].meta)
  }

  function OldBytes(o: OldTuple): seq<byte> {
    match o
    case NoOld(n) => [n]
    case KeyTuple(cs, n) => ['K' as int] + (TupleBytes(cs) + [n])
    case FullTuple(cs, n) => ['O' as int] + (TupleBytes(cs) + [n])
  }

  function OidsBytes(oids: seq<u32>): seq<byte> {
    if oids == [] then [] else ToBE(4, oids[0]) + OidsBytes(oids[1..])
  }

  function RelationBytes(m: Message): seq<byte>
    requires m.Relation?
  {
    ToBE(4, m.oid) + (CString(m.schema) + (CString(m.table) + ([m.identity]
    + (ToBE(2, |m.columns| % U16_MODULUS) + MetasBytes(m.columns)))))
  }

  function Wire(m: Message): seq<byte> {
    match m
    case Begin(lsn, ts, xid) => ['B' as int] + (ToBE(8, lsn) + (ToBE(8, ts) + ToBE(4, xid)))
    case Commit(flags, lsn, end, ts) => ['C' as int] + ([flags] + (ToBE(8, lsn) + (ToBE(8, end) + ToBE(8, ts))))
    case Relation(_, _, _, _, _) => ['R' as int] + RelationBytes(m)
    case InsertRow(oid, tag, cs) => ['I' as int] + (ToBE(4, oid) + ([tag] + TupleBytes(cs)))
    case UpdateRow(oid, o, cs) => ['U' as int] + (ToBE(4, oid) + (OldBytes(o) + TupleBytes(cs)))
    case DeleteRow(oid, tag, cs) => ['D' as int] + (ToBE(4, oid) + ([tag] + TupleBytes(cs)))
    case TruncateTables(oids, options) => ['T' as int] + (ToBE(4, |oids| % U32_MODULUS) + ([options] + OidsBytes(oids)))
    case Ignored(tag, payload) => [tag] + payload
  }

  // ---- what the layout can carry ----

  predicate NameOk(s: Text) { 0 !in s && ValidUtf8(s) }

  predicate CellOk(c: Cell) {
    match c
    case TextCell(t) => |t| < U32_MODULUS && ValidUtf8(t)
    case BinaryCell(b) => |b| < U32_MODULUS
    case UnknownCell(tag) => tag != 't' as int && tag != 'b' as int
    case _ => true
  }

  predicate OldOk(o: OldTuple) {
    if o.NoOld? then o.newTag != 'K' as int && o.newTag != 'O' as int else CellsOk(o.cells)
  }

  predicate CellsOk(cs: seq<Cell>) { |cs| < U16_MODULUS && forall c <- cs :: CellOk(c) }

  predicate RelationOk(m: Message)
    requires m.Relation?
  {
    && |m.columns| < U16_MODULUS
    && NameOk(m.schema) && NameOk(m.table) && forall c <- m.columns :: NameOk(c.meta.name)
  }

  predicate MessageOk(m: Message) {
    match m
    case Relation(_, _, _, _, _) => RelationOk(m)
    case InsertRow(_, _, cs) => CellsOk(cs)
    case UpdateRow(_, o, cs) => CellsOk(cs) && OldOk(o)
    case DeleteRow(_, _, cs) => CellsOk(cs)
    case TruncateTables(oids, _) => |oids| < U32_MODULUS
    case Ignored(tag, _) => tag !in {'B' as int, 'C' as int, 'R' as int, 'I' as int, 'U' as int, 'D' as int, 'T' as int}
    case _ => true
  }

  // ---- meaning ----

  const HEX_DIGITS: string := "0123456789abcdef"

  /** Two digits for each byte, the high half first. */
  function HexOf(b: seq<byte>): Text {
    seq(2 * |b|, i requires 0 <= i < 2 * |b| =>
      HEX_DIGITS[if i % 2 == 0 then b[i / 2] / 16 else b[i / 2] % 16] as int)
  }

  /** Text as is, binary as `\x` hex, null, unchanged and unknown kinds as no value. */
  function CellValue(c: Cell): Option<Text> {
    match c
    case TextCell(t) => Some(t)
    case BinaryCell(b) => Some(['\\' as int, 'x' as int] + HexOf(b))
    case _ => None
  }

  /** The i-th column takes its name and type from the relation and its value from the wire; beyond the relation it is
      named by its number and has no type. */
  function ColumnAt(columns: seq<ColumnMeta>, cs: seq<Cell>, i: nat): ColumnValue
    requires i < |cs|
  {
    ColumnValue(if i < |columns| then columns[i].name else Ascii("col_") + Decimal(i),
                if i < |columns| then columns[i].typeOid else 0,
                CellValue(cs[i]))
  }

  function Row(cs: seq<Cell>, columns: seq<ColumnMeta>): RowData {
    RowData(seq(|cs|, i requires 0 <= i < |cs| => ColumnAt(columns, cs, i)))
  }

  function OldRow(o: OldTuple, columns: seq<ColumnMeta>): Option<RowData> {
    if o.NoOld? then None else Some(Row(o.cells, columns))
  }

  /** Four bytes have a meaning; any other counts as the default. */
  function IdentityMeaning(b: byte): ReplicaIdentity {
    match b as char
    case 'f' => Full
    case 'i' => Index
    case 'n' => Nothing
    case _ => Default
  }

  function InfoOf(m: Message): RelationInfo
    requires m.Relation?
  {
    RelationInfo(m.schema, m.table, Metas(m.columns), IdentityMeaning(m.identity))
  }

  /** The change a message reports: transaction and commit time are not known to the decoder and stay 0. */
  function Change(hash: Fingerprint, lsn: u64, op: OpType, rel: RelationInfo, after: Option<RowData>,
                  before: Option<RowData>): Option<ChangeEvent> {
    Some(ChangeEvent(lsn, 0, op, TableId(rel.schema, rel.table), hash(rel), after, before, 0))
  }

  function Meaning(rels: Relations, hash: Fingerprint, lsn: u64, m: Message): Outcome {
    match m
    case Relation(oid, _, _, _, _) => Decoded(rels[oid := InfoOf(m)], None)
    case InsertRow(oid, tag, cs) =>
      if tag != 'N' as int then Failed(ExpectedNewTuple(tag))
      else if oid !in rels then Failed(RelationNotFound(oid))
      else Decoded(rels, Change(hash, lsn, Insert, rels[oid], Some(Row(cs, rels[oid].columns)), None))
    case UpdateRow(oid, o, cs) =>
      if oid !in rels then Failed(RelationNotFound(oid))
      else Decoded(rels, Change(hash, lsn, Update, rels[oid], Some(Row(cs, rels[oid].columns)),
                                OldRow(o, rels[oid].columns)))
    case DeleteRow(oid, _, cs) =>
      if oid !in rels then Failed(RelationNotFound(oid))
      else Decoded(rels, Change(hash, lsn, Delete, rels[oid], None, Some(Row(cs, rels[oid].columns))))
    case TruncateTables(oids, _) =>
      if oids == [] || oids[0] !in rels then Decoded(rels, None)
      else Decoded(rels, Change(hash, lsn, Truncate, rels[oids[0]], None, None))
    case _ => Decoded(rels, None)
  }

  // ---- reading undoes the layout ----

  lemma ReadByteOf(b: byte, t: seq<byte>)
    ensures ReadU8([b] + t) == Got(b, t)
  {
  }

  lemma ReadUintOf(n: nat, v: nat, t: seq<byte>)
    requires v < Pow256(n)
    ensures ReadUint(ToBE(n, v) + t, n) == Got(v, t)
  {
    FromToBE(n, v);
    assert (ToBE(n, v) + t)[..n] == ToBE(n, v) && (ToBE(n, v) + t)[n..] == t;
  }

  lemma ReadU16Of(v: u16, t: seq<byte>)
    ensures ReadU16(ToBE(2, v) + t) == Got(v, t)
  {
    hide ToBE, FromBE;
    Widths();
    ReadUintOf(2, v, t);
  }

  lemma ReadU32Of(v: u32, t: seq<byte>)
    ensures ReadU32(ToBE(4, v) + t) == Got(v, t)
  {
    hide ToBE, FromBE;
    Widths();
    ReadUintOf(4, v, t);
  }

  lemma {:induction false} NulAtOf(s: Text, t: seq<byte>)
    requires 0 !in s
    ensures NulAt(s + [0] + t) == |s|
  {
    var all := s + [0] + t;
    if s != [] {
      assert all[1..] == s[1..] + [0] + t && all[0] == s[0];
      NulAtOf(s[1..], t);
    }
  }

  lemma ReadCStringOf(s: Text, t: seq<byte>)
    requires NameOk(s)
    ensures ReadCString(CString(s) + t) == Got(s, t)
  {
    hide ValidUtf8, NulAt;
    NulAtOf(s, t);
    assert (CString(s) + t)[..|s|] == s && (CString(s) + t)[|s| + 1..] == t;
  }

  lemma ReadBytesOf(b: seq<byte>, t: seq<byte>)
    requires |b| < U32_MODULUS
    ensures ReadBytes(SizedBytes(b) + t) == Got(b, t)
  {
    hide ReadU32, ToBE;
    Associate(ToBE(4, |b|), b, t);
    ReadU32Of(|b|, b + t);
    assert (b + t)[..|b|] == b && (b + t)[|b|..] == t;
  }

  lemma {:induction false} HexEncodeIs(b: seq<byte>)
    ensures HexEncode(b) == HexOf(b)
  {
    hide HexDigit, HexOf;
    if b != [] {
      HexEncodeIs(b[1..]);
      DigitIs(b[0] / 16);
      DigitIs(b[0] % 16);
      HexOfFirst(b);
    } else {
      NoHex();
    }
  }

  lemma NoHex()
    ensures HexOf([]) == []
  {
  }

  lemma HexOfFirst(b: seq<byte>)
    requires b != []
    ensures HexOf(b) == [HEX_DIGITS[b[0] / 16] as int, HEX_DIGITS[b[0] % 16] as int] + HexOf(b[1..])
  {
    var x, y := HexOf(b), HexOf(b[1..]);
    forall i | 2 <= i < |x| ensures x[i] == y[i - 2] { assert i / 2 - 1 == (i - 2) / 2 && i % 2 == (i - 2) % 2; }
    assert x[..2] == [x[0], x[1]] && x[2..] == y;
    assert x == x[..2] + x[2..];
  }

  lemma DigitIs(d: nat)
    requires d < 16
    ensures HexDigit(d) == HEX_DIGITS[d] as int
  {
  }

  lemma ReadCellOf(c: Cell, t: seq<byte>)
    requires CellOk(c)
    ensures ReadCell(CellBytes(c) + t) == Got(CellValue(c), t)
  {
    hide ReadBytes, SizedBytes, HexEncode, HexOf, ValidUtf8;
    match c
    case NullCell => ReadByteOf('n' as int, t);
    case Unchanged => ReadByteOf('u' as int, t);
    case UnknownCell(tag) => ReadByteOf(tag, t);
    case TextCell(s) =>
      Associate(['t' as int], SizedBytes(s), t);
      ReadByteOf('t' as int, SizedBytes(s) + t);
      ReadBytesOf(s, t);
    case BinaryCell(b) =>
      Associate(['b' as int], SizedBytes(b), t);
      ReadByteOf('b' as int, SizedBytes(b) + t);
      ReadBytesOf(b, t);
      HexEncodeIs(b);
  }

  lemma {:induction false} ReadCellsOf(cs: seq<Cell>, columns: seq<ColumnMeta>, i: nat, t: seq<byte>)
    requires i <= |cs| && forall c <- cs :: CellOk(c)
    ensures ReadCells(CellsBytes(cs[i..]) + t, columns, i, |cs|) == Got(Row(cs, columns).columns[i..], t)
    decreases |cs| - i
  {
    hide ReadCell, CellBytes, Labelled, CellOk, CellValue, ColumnAt;
    var row := Row(cs, columns).columns;
    if i == |cs| {
      assert CellsBytes(cs[i..]) + t == t;
    } else {
      assert cs[i..][1..] == cs[i + 1..] && cs[i..][0] == cs[i] && cs[i] in cs;
      var r := CellsBytes(cs[i + 1..]) + t;
      Associate(CellBytes(cs[i]), CellsBytes(cs[i + 1..]), t);
      ReadCellOf(cs[i], r);
      ReadCellsOf(cs, columns, i + 1, t);
      LabelOf(cs, columns, i);
      assert row[i..] == [row[i]] + row[i + 1..];
    }
  }

  lemma LabelOf(cs: seq<Cell>, columns: seq<ColumnMeta>, i: nat)
    requires i < |cs|
    ensures Labelled(columns, i, CellValue(cs[i])) == ColumnAt(columns, cs, i)
  {
    hide CellValue;
  }

  lemma ReadTupleOf(cs: seq<Cell>, columns: seq<ColumnMeta>, t: seq<byte>)
    requires CellsOk(cs)
    ensures ReadTuple(TupleBytes(cs) + t, columns) == Got(Row(cs, columns), t)
  {
    hide ReadU16, ReadCells, CellOk, Row, ToBE, CellsBytes;
    Associate(ToBE(2, |cs|), CellsBytes(cs), t);
    ReadU16Of(|cs|, CellsBytes(cs) + t);
    assert cs[0..] == cs;
    assert Row(cs, columns).columns[0..] == Row(cs, columns).columns;
    ReadCellsOf(cs, columns, 0, t);
  }

  /** How a cell is shown: text as is, binary as `\x` and two lower-case digits for each byte, anything else not at
      all. */
  ghost predicate Shows(c: Cell, value: Option<Text>) {
    match c
    case TextCell(text) => value == Some(text)
    case BinaryCell(b) =>
      && value.Some? && |value.value| == 2 + 2 * |b| && value.value[0] == '\\' as int && value.value[1] == 'x' as int
      && forall k :: 0 <= k < |b| ==> ShowsByte(b[k], value.value[2 + 2 * k], value.value[3 + 2 * k])
    case _ => value == None
  }

  predicate ShowsByte(b: byte, high: byte, low: byte) {
    high == HEX_DIGITS[b / 16] as int && low == HEX_DIGITS[b % 16] as int
  }

  lemma CellShown(c: Cell)
    ensures Shows(c, CellValue(c))
  {
    hide ShowsByte;
    if c.BinaryCell? {
      var b, v := c.bytes, CellValue(c).value;
      forall k | 0 <= k < |b| ensures ShowsByte(b[k], v[2 + 2 * k], v[3 + 2 * k]) { ByteShown(b, k); }
    }
  }

  lemma ByteShown(b: seq<byte>, k: nat)
    requires k < |b|
    ensures ShowsByte(b[k], HexOf(b)[2 * k], HexOf(b)[2 * k + 1])
  {
  }

  /** Column by column, what a laid-out tuple reads as. */
  lemma TupleColumn(cs: seq<Cell>, columns: seq<ColumnMeta>, t: seq<byte>, i: nat)
    requires CellsOk(cs) && i < |cs|
    ensures var r := ReadTuple(TupleBytes(cs) + t, columns);
            && r.Got? && r.rest == t && |r.value.columns| == |cs|
            && (i < |columns| ==>
                 r.value.columns[i].name == columns[i].name && r.value.columns[i].typeOid == columns[i].typeOid)
            && (i >= |columns| ==>
                 r.value.columns[i].name == Ascii("col_") + Decimal(i) && r.value.columns[i].typeOid == 0)
            && Shows(cs[i], r.value.columns[i].value)
  {
    hide ReadTuple, TupleBytes, CellsOk, CellValue, Shows;
    ReadTupleOf(cs, columns, t);
    CellShown(cs[i]);
  }

  lemma ReadMetaOf(c: WireColumn, t: seq<byte>)
    requires NameOk(c.meta.name)
    ensures ReadMeta(MetaBytes(c) + t) == Got(c.meta, t)
  {
    hide ReadCString, ReadU32, ReadU8, CString, NameOk, ToBE;
    var m := c.meta;
    var flag := FlagByte(c);
    var r3 := ToBE(4, c.modifier) + t;
    var r2 := ToBE(4, m.typeOid) + r3;
    var r1 := CString(m.name) + r2;
    Associate(ToBE(4, m.typeOid), ToBE(4, c.modifier), t);
    Associate(CString(m.name), ToBE(4, m.typeOid) + ToBE(4, c.modifier), t);
    Associate([flag], CString(m.name) + (ToBE(4, m.typeOid) + ToBE(4, c.modifier)), t);
    ReadByteOf(flag, r1);
    ReadCStringOf(m.name, r2);
    ReadU32Of(m.typeOid, r3);
    ReadU32Of(c.modifier, t);
  }

  lemma {:induction false} ReadMetasOf(cs: seq<WireColumn>, t: seq<byte>)
    requires forall c <- cs :: NameOk(c.meta.name)
    ensures ReadMetas(MetasBytes(cs) + t, |cs|) == Got(Metas(cs), t)
  {
    hide ReadMeta, MetaBytes, NameOk;
    if cs == [] {
      assert MetasBytes(cs) + t == t;
    } else {
      var r := MetasBytes(cs[1..]) + t;
      Associate(MetaBytes(cs[0]), MetasBytes(cs[1..]), t);
      ReadMetaOf(cs[0], r);
      ReadMetasOf(cs[1..], t);
      assert [cs[0].meta] + Metas(cs[1..]) == Metas(cs);
    }
  }

  lemma IdentityIs(b: byte)
    ensures IdentityOf(b) == IdentityMeaning(b)
  {
    assert b as char as int == b;
  }

  lemma ReadRelationOf(m: Message)
    requires m.Relation? && RelationOk(m)
    ensures ReadRelation(RelationBytes(m)) == Got((m.oid, InfoOf(m)), [])
  {
    hide ReadCString, ReadU32, ReadU16, ReadU8, ReadMetas, CString, NameOk, ToBE, MetasBytes, Metas, IdentityOf,
         IdentityMeaning;
    var metas := MetasBytes(m.columns);
    var r4 := ToBE(2, |m.columns|) + metas;
    var r3 := [m.identity] + r4;
    var r2 := CString(m.table) + r3;
    var r1 := CString(m.schema) + r2;
    ReadU32Of(m.oid, r1);
    ReadCStringOf(m.schema, r2);
    ReadCStringOf(m.table, r3);
    ReadByteOf(m.identity, r4);
    IdentityIs(m.identity);
    ReadU16Of(|m.columns|, metas);
    ReadMetasOf(m.columns, []);
    assert metas + [] == metas;
  }

  lemma ReadOldOf(o: OldTuple, columns: seq<ColumnMeta>, t: seq<byte>)
    requires OldOk(o)
    ensures ReadOld(OldBytes(o) + t, columns) == Got(OldRow(o, columns), t)
  {
    hide ReadTuple, TupleBytes, Row, CellsOk, ReadU8;
    match o
    case NoOld(n) => ReadByteOf(n, t);
    case KeyTuple(cs, n) => ReadOldTuple('K' as int, cs, n, columns, t);
    case FullTuple(cs, n) => ReadOldTuple('O' as int, cs, n, columns, t);
  }

  lemma ReadOldTuple(tag: byte, cs: seq<Cell>, newTag: byte, columns: seq<ColumnMeta>, t: seq<byte>)
    requires CellsOk(cs) && (tag == 'K' as int || tag == 'O' as int)
    ensures ReadOld(([tag] + (TupleBytes(cs) + [newTag])) + t, columns) == Got(Some(Row(cs, columns)), t)
  {
    hide ReadTuple, TupleBytes, Row, CellsOk, ReadU8;
    var r := [newTag] + t;
    Associate(TupleBytes(cs), [newTag], t);
    Associate([tag], TupleBytes(cs) + [newTag], t);
    ReadByteOf(tag, TupleBytes(cs) + r);
    ReadTupleOf(cs, columns, r);
    ReadByteOf(newTag, t);
  }

  // ---- each message decodes to its meaning ----

  /** Reading a message that means an event gives it and uses up every byte. */
  function Emitted(outcome: Outcome): Read<ChangeEvent> {
    match outcome
    case Decoded(_, Some(e)) => Got(e, [])
    case Failed(e) => Fail(e)
    case Decoded(_, None) => Fail(UnexpectedEnd)
  }

  lemma InsertOf(rels: Relations, hash: Fingerprint, lsn: u64, oid: u32, tag: byte, cs: seq<Cell>)
    requires CellsOk(cs)
    ensures ReadInsert(rels, hash, lsn, Wire(InsertRow(oid, tag, cs))[1..])
         == Emitted(Meaning(rels, hash, lsn, InsertRow(oid, tag, cs)))
  {
    hide ReadTuple, TupleBytes, Row, CellsOk, ReadU8, ReadU32, ToBE;
    var r := [tag] + TupleBytes(cs);
    assert Wire(InsertRow(oid, tag, cs))[1..] == ToBE(4, oid) + r;
    ReadU32Of(oid, r);
    ReadByteOf(tag, TupleBytes(cs));
    if oid in rels {
      ReadTupleOf(cs, rels[oid].columns, []);
      assert TupleBytes(cs) + [] == TupleBytes(cs);
    }
  }

  lemma UpdateOf(rels: Relations, hash: Fingerprint, lsn: u64, oid: u32, o: OldTuple, cs: seq<Cell>)
    requires CellsOk(cs) && OldOk(o)
    ensures ReadUpdate(rels, hash, lsn, Wire(UpdateRow(oid, o, cs))[1..])
         == Emitted(Meaning(rels, hash, lsn, UpdateRow(oid, o, cs)))
  {
    hide ReadTuple, TupleBytes, Row, CellsOk, OldOk, ReadU8, ReadU32, ToBE, ReadOld, OldBytes, OldRow;
    var r := OldBytes(o) + TupleBytes(cs);
    assert Wire(UpdateRow(oid, o, cs))[1..] == ToBE(4, oid) + r;
    ReadU32Of(oid, r);
    if oid in rels {
      ReadOldOf(o, rels[oid].columns, TupleBytes(cs));
      ReadTupleOf(cs, rels[oid].columns, []);
      assert TupleBytes(cs) + [] == TupleBytes(cs);
    }
  }

  lemma DeleteOf(rels: Relations, hash: Fingerprint, lsn: u64, oid: u32, tag: byte, cs: seq<Cell>)
    requires CellsOk(cs)
    ensures ReadDelete(rels, hash, lsn, Wire(DeleteRow(oid, tag, cs))[1..])
         == Emitted(Meaning(rels, hash, lsn, DeleteRow(oid, tag, cs)))
  {
    hide ReadTuple, TupleBytes, Row, CellsOk, ReadU8, ReadU32, ToBE;
    var r := [tag] + TupleBytes(cs);
    assert Wire(DeleteRow(oid, tag, cs))[1..] == ToBE(4, oid) + r;
    ReadU32Of(oid, r);
    ReadByteOf(tag, TupleBytes(cs));
    if oid in rels {
      ReadTupleOf(cs, rels[oid].columns, []);
      assert TupleBytes(cs) + [] == TupleBytes(cs);
    }
  }

  lemma TruncateOf(rels: Relations, hash: Fingerprint, lsn: u64, oids: seq<u32>, options: byte)
    requires |oids| < U32_MODULUS
    ensures DecodeMessage(rels, hash, lsn, Wire(TruncateTables(oids, options)))
         == Meaning(rels, hash, lsn, TruncateTables(oids, options))
  {
    hide ReadU8, ReadU32, ToBE, ReadRelation, ReadInsert, ReadUpdate, ReadDelete;
    var r := [options] + OidsBytes(oids);
    assert Wire(TruncateTables(oids, options))[1..] == ToBE(4, |oids|) + r;
    ReadU32Of(|oids|, r);
    ReadByteOf(options, OidsBytes(oids));
    if oids != [] { ReadU32Of(oids[0], OidsBytes(oids[1..])); }
  }

  lemma RelationOf(rels: Relations, hash: Fingerprint, lsn: u64, m: Message)
    requires m.Relation? && MessageOk(m)
    ensures DecodeMessage(rels, hash, lsn, Wire(m)) == Meaning(rels, hash, lsn, m)
  {
    hide ReadRelation, RelationBytes, RelationOk, ReadInsert, ReadUpdate, ReadDelete, ReadTruncate;
    assert Wire(m)[1..] == RelationBytes(m);
    ReadRelationOf(m);
  }

  /** Every message the documentation lays out, and every one with other tags in its places, decodes to its meaning
      under the current relation table. */
  lemma DecodeWire(rels: Relations, hash: Fingerprint, lsn: u64, m: Message)
    requires MessageOk(m)
    ensures DecodeMessage(rels, hash, lsn, Wire(m)) == Meaning(rels, hash, lsn, m)
  {
    hide ReadRelation, ReadInsert, ReadUpdate, ReadDelete, ReadTruncate, Row, OldRow, CellsOk, RelationBytes, ToBE;
    match m
    case Relation(_, _, _, _, _) => RelationOf(rels, hash, lsn, m);
    case InsertRow(oid, tag, cs) => InsertOf(rels, hash, lsn, oid, tag, cs);
    case UpdateRow(oid, o, cs) => UpdateOf(rels, hash, lsn, oid, o, cs);
    case DeleteRow(oid, tag, cs) => DeleteOf(rels, hash, lsn, oid, tag, cs);
    case TruncateTables(oids, options) => TruncateOf(rels, hash, lsn, oids, options);
    case _ =>
  }

  // ---- runs ----

  /** The relation table after decoding the messages in order; a failed message changes nothing. */
  function Table(hash: Fingerprint, ms: seq<Message>): Relations {
    if ms == [] then map[]
    else
      var before := Table(hash, ms[..|ms| - 1]);
      match DecodeMessage(before, hash, 0, Wire(ms[|ms| - 1]))
      case Decoded(rels, _) => rels
      case Failed(_) => before
  }

  /** The i-th message is the latest Relation for oid. */
  ghost predicate LatestRelation(ms: seq<Message>, oid: u32, i: int) {
    && 0 <= i < |ms| && ms[i].Relation? && ms[i].oid == oid
    && forall j :: i < j < |ms| && ms[j].Relation? ==> ms[j].oid != oid
  }

  /** The table holds, for each OID, the latest Relation message ... */
  lemma {:induction false} TableIsLatest(hash: Fingerprint, ms: seq<Message>, oid: u32, i: int)
    requires (forall m <- ms :: MessageOk(m)) && LatestRelation(ms, oid, i)
    ensures oid in Table(hash, ms) && Table(hash, ms)[oid] == InfoOf(ms[i])
  {
    hide MessageOk, InfoOf, Table;
    TableStep(hash, ms);
    if i < |ms| - 1 {
      assert LatestRelation(ms[..|ms| - 1], oid, i) && ms[..|ms| - 1][i] == ms[i];
      TableIsLatest(hash, ms[..|ms| - 1], oid, i);
    }
  }

  /** ... and nothing else. */
  lemma {:induction false} TableOnlyLatest(hash: Fingerprint, ms: seq<Message>, oid: u32) returns (i: int)
    requires (forall m <- ms :: MessageOk(m)) && oid in Table(hash, ms)
    ensures LatestRelation(ms, oid, i)
  {
    hide MessageOk, InfoOf, DecodeMessage, Wire;
    TableStep(hash, ms);
    var m := ms[|ms| - 1];
    if m.Relation? && m.oid == oid {
      i := |ms| - 1;
    } else {
      i := TableOnlyLatest(hash, ms[..|ms| - 1], oid);
    }
  }

  lemma TableStep(hash: Fingerprint, ms: seq<Message>)
    requires ms != [] && forall m <- ms :: MessageOk(m)
    ensures var front, m := Table(hash, ms[..|ms| - 1]), ms[|ms| - 1];
            Table(hash, ms) == if m.Relation? then front[m.oid := InfoOf(m)] else front
  {
    hide DecodeMessage, MessageOk, Wire, InfoOf, Row, OldRow;
    DecodeWire(Table(hash, ms[..|ms| - 1]), hash, 0, ms[|ms| - 1]);
  }

  /** Over every run of well-laid messages, each message decodes to its meaning under the latest relations. */
  lemma RunDecodes(hash: Fingerprint, ms: seq<Message>, i: nat, lsn: u64)
    requires i < |ms| && forall m <- ms :: MessageOk(m)
    ensures DecodeMessage(Table(hash, ms[..i]), hash, lsn, Wire(ms[i]))
         == Meaning(Table(hash, ms[..i]), hash, lsn, ms[i])
    ensures Table(hash, ms[..i + 1]) == match Meaning(Table(hash, ms[..i]), hash, lsn, ms[i]) {
              case Decoded(rels, _) => rels
              case Failed(_) => Table(hash, ms[..i])
            }
  {
    hide DecodeMessage, MessageOk, Wire, InfoOf, Row, OldRow;
    DecodeWire(Table(hash, ms[..i]), hash, lsn, ms[i]);
    DecodeWire(Table(hash, ms[..i]), hash, 0, ms[i]);
    assert ms[..i + 1][..i] == ms[..i] && ms[..i + 1][i] == ms[i];
  }

  // ---- hexadecimal values lose nothing ----

  function DigitOf(c: byte): nat {
    if c >= 'a' as int then c - 'a' as int + 10 else if c >= '0' as int then c - '0' as int else 0
  }

  function HexDecode(t: Text): seq<nat> {
    if |t| < 2 then [] else [DigitOf(t[0]) * 16 + DigitOf(t[1])] + HexDecode(t[2..])
  }

  /** The text shown for a binary value determines the value. */
  lemma {:induction false} HexLossless(b: seq<byte>)
    ensures HexDecode(HexEncode(b)) == b
  {
    if b != [] {
      HexLossless(b[1..]);
      assert HexEncode(b)[2..] == HexEncode(b[1..]);
      assert b == [b[0]] + b[1..];
    }
  }
}
