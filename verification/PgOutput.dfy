/** Decoder for PostgreSQL's `pgoutput` logical replication messages. */
module PgOutput {
  import opened Bytes
  import opened Events
  import opened Reading

  datatype ColumnMeta = ColumnMeta(name: Text, typeOid: u32, isKey: bool)

  datatype ReplicaIdentity = Default | Nothing | Full | Index

  datatype RelationInfo = RelationInfo(schema: Text, table: Text, columns: seq<ColumnMeta>, replica: ReplicaIdentity)

  type Relations = map<u32, RelationInfo>

  datatype Error =
    | UnexpectedEnd | Unterminated | InvalidUtf8 | BeyondMessage | ShortBegin | ShortCommit
    | RelationNotFound(oid: u32) | ExpectedNewTuple(tag: byte)

  // ---- readers over the remaining bytes ----

  type Read<+T> = Parsing<T, Error>

  function ReadUint(s: seq<byte>, n: nat): (r: Read<nat>)
    ensures r.Got? ==> r.value < Pow256(n)
  {
    if |s| < n then Fail(UnexpectedEnd) else Got(FromBE(s[..n]), s[n..])
  }

  function ReadU8(s: seq<byte>): Read<byte> { if s == [] then Fail(UnexpectedEnd) else Got(s[0], s[1..]) }

  function ReadU16(s: seq<byte>): Read<u16> {
    Widths();
    var (v, rest) :- ReadUint(s, 2);
    Got(v, rest)
  }

  function ReadU32(s: seq<byte>): Read<u32> {
    Widths();
    var (v, rest) :- ReadUint(s, 4);
    Got(v, rest)
  }

  /** Position of the first zero byte, or the length. */
  function NulAt(s: seq<byte>): (i: nat)
    ensures i <= |s| && 0 !in s[..i] && (i < |s| ==> s[i] == 0)
  {
    if s == [] || s[0] == 0 then 0
    else
      assert s == [s[0]] + s[1..];
      1 + NulAt(s[1..])
  }

  function ReadCString(s: seq<byte>): Read<Text> {
    var i := NulAt(s);
    if i == |s| then Fail(Unterminated)
    else if !ValidUtf8(s[..i]) then Fail(InvalidUtf8)
    else Got(s[..i], s[i + 1..])
  }

  function ReadBytes(s: seq<byte>): Read<seq<byte>> {
    var (n, rest) :- ReadU32(s);
    if n > |rest| then Fail(BeyondMessage) else Got(rest[..n], rest[n..])
  }

  // ---- tuples ----

  function HexEncode(b: seq<byte>): (r: Text)
    ensures |r| == 2 * |b|
  {
    if b == [] then [] else [HexDigit(b[0] / 16), HexDigit(b[0] % 16)] + HexEncode(b[1..])
  }

  /** How a binary value is shown: `\x` and its hexadecimal digits. */
  function HexText(b: seq<byte>): Text { ['\\' as int, 'x' as int] + HexEncode(b) }

  /** One column of a tuple; null, unchanged and unknown kinds have no value. */
  function ReadCell(s: seq<byte>): Read<Option<Text>> {
    var (tag, rest) :- ReadU8(s);
    if tag == 't' as int then
      var (v, rest) :- ReadBytes(rest);
      if ValidUtf8(v) then Got(Some(v), rest) else Fail(InvalidUtf8)
    else if tag == 'b' as int then
      var (v, rest) :- ReadBytes(rest);
      Got(Some(HexText(v)), rest)
    else Got(None, rest)
  }

  /** Name and type come from the relation; columns beyond it are numbered. */
  function Labelled(columns: seq<ColumnMeta>, i: nat, value: Option<Text>): ColumnValue {
    if i < |columns| then ColumnValue(columns[i].name, columns[i].typeOid, value)
    else ColumnValue(Ascii("col_") + Decimal(i), 0, value)
  }

  function ReadCells(s: seq<byte>, columns: seq<ColumnMeta>, i: nat, n: nat): Read<seq<ColumnValue>>
    requires i <= n
    decreases n - i
  {
    if i == n then Got([], s)
    else
      var (v, rest) :- ReadCell(s);
      var (vs, rest) :- ReadCells(rest, columns, i + 1, n);
      Got([Labelled(columns, i, v)] + vs, rest)
  }

  function ReadTuple(s: seq<byte>, columns: seq<ColumnMeta>): Read<RowData> {
    var (n, rest) :- ReadU16(s);
    var (vs, rest) :- ReadCells(rest, columns, 0, n);
    Got(RowData(vs), rest)
  }

  // ---- relations ----

  function IdentityOf(b: byte): ReplicaIdentity {
    if b == 'n' as int then Nothing
    else if b == 'f' as int then Full
    else if b == 'i' as int then Index
    else Default
  }

  function ReadMeta(s: seq<byte>): Read<ColumnMeta> {
    var (flags, rest) :- ReadU8(s);
    var (name, rest) :- ReadCString(rest);
    var (oid, rest) :- ReadU32(rest);
    var (modifier, rest) :- ReadU32(rest);
    Got(ColumnMeta(name, oid, flags % 2 == 1), rest)
  }

  function ReadMetas(s: seq<byte>, n: nat): Read<seq<ColumnMeta>>
    decreases n
  {
    if n == 0 then Got([], s)
    else
      var (m, rest) :- ReadMeta(s);
      var (ms, rest) :- ReadMetas(rest, n - 1);
      Got([m] + ms, rest)
  }

  function ReadRelation(s: seq<byte>): Read<(u32, RelationInfo)> {
    var (oid, rest) :- ReadU32(s);
    var (schema, rest) :- ReadCString(rest);
    var (table, rest) :- ReadCString(rest);
    var (identity, rest) :- ReadU8(rest);
    var (n, rest) :- ReadU16(rest);
    var (columns, rest) :- ReadMetas(rest, n);
    Got((oid, RelationInfo(schema, table, columns, IdentityOf(identity))), rest)
  }

  // ---- messages ----

  datatype Outcome = Decoded(relations: Relations, event: Option<ChangeEvent>) | Failed(error: Error)

  /** The hash of a relation that events carry; the decoder's own choice of hash does not matter here. */
  type Fingerprint = RelationInfo -> u64

  function MakeEvent(hash: Fingerprint, lsn: u64, op: OpType, rel: RelationInfo, after: Option<RowData>,
                     before: Option<RowData>): ChangeEvent {
    ChangeEvent(lsn, 0, op, TableId(rel.schema, rel.table), hash(rel), after, before, 0)
  }

  function ReadInsert(rels: Relations, hash: Fingerprint, lsn: u64, s: seq<byte>): Read<ChangeEvent> {
    var (oid, rest) :- ReadU32(s);
    var (tag, rest) :- ReadU8(rest);
    if tag != 'N' as int then Fail(ExpectedNewTuple(tag))
    else if oid !in rels then Fail(RelationNotFound(oid))
    else
      var (after, rest) :- ReadTuple(rest, rels[oid].columns);
      Got(MakeEvent(hash, lsn, Insert, rels[oid], Some(after), None), rest)
  }

  /** The old tuple of an update, when its tag announces one, and the tag of the new tuple. */
  function ReadOld(s: seq<byte>, columns: seq<ColumnMeta>): Read<Option<RowData>> {
    var (tag, rest) :- ReadU8(s);
    if tag == 'K' as int || tag == 'O' as int then
      var (before, rest) :- ReadTuple(rest, columns);
      var (newTag, rest) :- ReadU8(rest);
      Got(Some(before), rest)
    else Got(None, rest)
  }

  function ReadUpdate(rels: Relations, hash: Fingerprint, lsn: u64, s: seq<byte>): Read<ChangeEvent> {
    var (oid, rest) :- ReadU32(s);
    if oid !in rels then Fail(RelationNotFound(oid))
    else
      var (before, rest) :- ReadOld(rest, rels[oid].columns);
      var (after, rest) :- ReadTuple(rest, rels[oid].columns);
      Got(MakeEvent(hash, lsn, Update, rels[oid], Some(after), before), rest)
  }

  function ReadDelete(rels: Relations, hash: Fingerprint, lsn: u64, s: seq<byte>): Read<ChangeEvent> {
    var (oid, rest) :- ReadU32(s);
    if oid !in rels then Fail(RelationNotFound(oid))
    else
      var (tag, rest) :- ReadU8(rest);
      var (before, rest) :- ReadTuple(rest, rels[oid].columns);
      Got(MakeEvent(hash, lsn, Delete, rels[oid], None, Some(before)), rest)
  }

  /** Only the first relation of a truncation is reported. */
  function ReadTruncate(rels: Relations, hash: Fingerprint, lsn: u64, s: seq<byte>): Read<Option<ChangeEvent>> {
    var (n, rest) :- ReadU32(s);
    var (options, rest) :- ReadU8(rest);
    if n == 0 then Got(None, rest)
    else
      var (oid, rest) :- ReadU32(rest);
      if oid in rels then Got(Some(MakeEvent(hash, lsn, Truncate, rels[oid], None, None)), rest) else Got(None, rest)
  }

  function Emit(rels: Relations, r: Read<ChangeEvent>): Outcome {
    if r.Got? then Decoded(rels, Some(r.value)) else Failed(r.error)
  }

  /** What one call of `decode` returns and does to the relation table. */
  function DecodeMessage(rels: Relations, hash: Fingerprint, lsn: u64, data: seq<byte>): Outcome {
    if data == [] then Decoded(rels, None)
    else
      var tag, s := data[0], data[1..];
      if tag == 'B' as int then (if |s| < 20 then Failed(ShortBegin) else Decoded(rels, None))
      else if tag == 'C' as int then (if |s| < 25 then Failed(ShortCommit) else Decoded(rels, None))
      else if tag == 'R' as int then
        match ReadRelation(s)
        case Got((oid, info), _) => Decoded(rels[oid := info], None)
        case Fail(e) => Failed(e)
      else if tag == 'I' as int then Emit(rels, ReadInsert(rels, hash, lsn, s))
      else if tag == 'U' as int then Emit(rels, ReadUpdate(rels, hash, lsn, s))
      else if tag == 'D' as int then Emit(rels, ReadDelete(rels, hash, lsn, s))
      else if tag == 'T' as int then
        match ReadTruncate(rels, hash, lsn, s)
        case Got(e, _) => Decoded(rels, e)
        case Fail(e) => Failed(e)
      else Decoded(rels, None)
  }

  // ---- the decoder object: cursors over the whole message ----

  type Cursor<+T> = Position<T, Error>

  method U8At(data: seq<byte>, pos: nat) returns (c: Cursor<byte>)
    requires pos <= |data|
    ensures Agrees(data, c, ReadU8(data[pos..]))
  {
    if pos >= |data| { return Stopped(UnexpectedEnd); }
    return At(data[pos], pos + 1);
  }

  method U16At(data: seq<byte>, pos: nat) returns (c: Cursor<u16>)
    requires pos <= |data|
    ensures Agrees(data, c, ReadU16(data[pos..]))
  {
    if pos + 2 > |data| { return Stopped(UnexpectedEnd); }
    Widths();
    assert data[pos..][..2] == data[pos..pos + 2];
    return At(FromBE(data[pos..pos + 2]), pos + 2);
  }

  method U32At(data: seq<byte>, pos: nat) returns (c: Cursor<u32>)
    requires pos <= |data|
    ensures Agrees(data, c, ReadU32(data[pos..]))
  {
    if pos + 4 > |data| { return Stopped(UnexpectedEnd); }
    Widths();
    assert data[pos..][..4] == data[pos..pos + 4];
    return At(FromBE(data[pos..pos + 4]), pos + 4);
  }

  method CStringAt(data: seq<byte>, start: nat) returns (c: Cursor<Text>)
    requires start <= |data|
    ensures Agrees(data, c, ReadCString(data[start..]))
  {
    hide ValidUtf8;
    var pos := start;
    while pos < |data| && data[pos] != 0
      invariant start <= pos <= |data|
      invariant NulAt(data[start..]) == pos - start + NulAt(data[pos..])
    {
      assert data[pos..][1..] == data[pos + 1..];
      pos := pos + 1;
    }
    assert data[start..][..pos - start] == data[start..pos];
    if pos >= |data| { return Stopped(Unterminated); }
    assert NulAt(data[pos..]) == 0;
    if !ValidUtf8(data[start..pos]) { return Stopped(InvalidUtf8); }
    return At(data[start..pos], pos + 1);
  }

  method BytesAt(data: seq<byte>, pos: nat) returns (c: Cursor<seq<byte>>)
    requires pos <= |data|
    ensures Agrees(data, c, ReadBytes(data[pos..]))
  {
    var len := U32At(data, pos);
    match len {
      case Stopped(e) => return Stopped(e);
      case At(n, p) =>
        if p + n > |data| { return Stopped(BeyondMessage); }
        assert data[p..][..n] == data[p..p + n];
        return At(data[p..p + n], p + n);
    }
  }

  method CellAt(data: seq<byte>, pos: nat) returns (c: Cursor<Option<Text>>)
    requires pos <= |data|
    ensures Agrees(data, c, ReadCell(data[pos..]))
  {
    hide ValidUtf8, ReadBytes;
    var tag := U8At(data, pos);
    if tag.Stopped? { return Stopped(tag.error); }
    if tag.value == 't' as int {
      var v := BytesAt(data, tag.pos);
      if v.Stopped? { return Stopped(v.error); }
      if !ValidUtf8(v.value) { return Stopped(InvalidUtf8); }
      return At(Some(v.value), v.pos);
    } else if tag.value == 'b' as int {
      var v := BytesAt(data, tag.pos);
      if v.Stopped? { return Stopped(v.error); }
      return At(Some(HexText(v.value)), v.pos);
    } else {
      return At(None, tag.pos);
    }
  }

  method TupleAt(data: seq<byte>, start: nat, columns: seq<ColumnMeta>) returns (c: Cursor<RowData>)
    requires start <= |data|
    ensures Agrees(data, c, ReadTuple(data[start..], columns))
  {
    hide ReadCell, ReadU16, Labelled;
    var count := U16At(data, start);
    if count.Stopped? { return Stopped(count.error); }
    var n, pos := count.value, count.pos;
    var result: seq<ColumnValue> := [];
    ghost var goal := ReadCells(data[pos..], columns, 0, n);
    PrependFacts([], Labelled(columns, 0, None), goal);
    for i := 0 to n
      invariant 0 <= pos <= |data|
      invariant goal == Prepend(result, ReadCells(data[pos..], columns, i, n))
    {
      var cell := CellAt(data, pos);
      match cell {
        case Stopped(e) => return Stopped(e);
        case At(v, p) =>
          PrependFacts(result, Labelled(columns, i, v), ReadCells(data[p..], columns, i + 1, n));
          result := result + [Labelled(columns, i, v)];
          pos := p;
      }
    }
    assert result + [] == result;
    return At(RowData(result), pos);
  }

  method MetaAt(data: seq<byte>, pos: nat) returns (c: Cursor<ColumnMeta>)
    requires pos <= |data|
    ensures Agrees(data, c, ReadMeta(data[pos..]))
  {
    hide ReadCString, ReadU32, ReadU8;
    var flags := U8At(data, pos);
    if flags.Stopped? { return Stopped(flags.error); }
    var name := CStringAt(data, flags.pos);
    if name.Stopped? { return Stopped(name.error); }
    var oid := U32At(data, name.pos);
    if oid.Stopped? { return Stopped(oid.error); }
    var modifier := U32At(data, oid.pos);
    if modifier.Stopped? { return Stopped(modifier.error); }
    return At(ColumnMeta(name.value, oid.value, flags.value % 2 == 1), modifier.pos);
  }

  method MetasAt(data: seq<byte>, start: nat, n: nat) returns (c: Cursor<seq<ColumnMeta>>)
    requires start <= |data|
    ensures Agrees(data, c, ReadMetas(data[start..], n))
  {
    hide ReadMeta;
    var pos := start;
    var columns: seq<ColumnMeta> := [];
    ghost var goal := ReadMetas(data[start..], n);
    PrependFacts([], ColumnMeta([], 0, false), goal);
    for i := 0 to n
      invariant 0 <= pos <= |data|
      invariant goal == Prepend(columns, ReadMetas(data[pos..], n - i))
    {
      var meta := MetaAt(data, pos);
      match meta {
        case Stopped(e) => return Stopped(e);
        case At(m, p) =>
          PrependFacts(columns, m, ReadMetas(data[p..], n - i - 1));
          columns := columns + [m];
          pos := p;
      }
    }
    assert columns + [] == columns;
    return At(columns, pos);
  }

  method RelationAt(data: seq<byte>, pos: nat) returns (c: Cursor<(u32, RelationInfo)>)
    requires pos <= |data|
    ensures Agrees(data, c, ReadRelation(data[pos..]))
  {
    hide ReadCString, ReadU32, ReadU16, ReadU8, ReadMetas;
    var oid := U32At(data, pos);
    if oid.Stopped? { return Stopped(oid.error); }
    var schema := CStringAt(data, oid.pos);
    if schema.Stopped? { return Stopped(schema.error); }
    var table := CStringAt(data, schema.pos);
    if table.Stopped? { return Stopped(table.error); }
    var identity := U8At(data, table.pos);
    if identity.Stopped? { return Stopped(identity.error); }
    var n := U16At(data, identity.pos);
    if n.Stopped? { return Stopped(n.error); }
    var columns := MetasAt(data, n.pos, n.value);
    if columns.Stopped? { return Stopped(columns.error); }
    var info := RelationInfo(schema.value, table.value, columns.value, IdentityOf(identity.value));
    return At((oid.value, info), columns.pos);
  }

  datatype Result = Ok(event: Option<ChangeEvent>) | Err(error: Error)

  class PgOutputDecoder {
    var relations: Relations
    const hash: Fingerprint

    constructor (hash: Fingerprint)
      ensures relations == map[] && this.hash == hash
    {
      relations := map[];
      this.hash := hash;
    }

    /** Total on every message; an error leaves the relation table as it was. */
    method Decode(lsn: u64, data: seq<byte>) returns (r: Result)
      modifies this
      ensures match DecodeMessage(old(relations), hash, lsn, data)
              case Decoded(rels, e) => r == Ok(e) && relations == rels
              case Failed(err) => r == Err(err) && relations == old(relations)
    {
      hide ReadRelation, ReadInsert, ReadUpdate, ReadDelete, ReadTruncate;
      if data == [] { return Ok(None); }
      var tag := data[0];
      if tag == 'B' as int {
        if |data| - 1 < 20 { return Err(ShortBegin); }
        return Ok(None);
      } else if tag == 'C' as int {
        if |data| - 1 < 25 { return Err(ShortCommit); }
        return Ok(None);
      } else if tag == 'R' as int {
        var rel := RelationAt(data, 1);
        if rel.Stopped? { return Err(rel.error); }
        relations := relations[rel.value.0 := rel.value.1];
        return Ok(None);
      } else if tag == 'I' as int {
        r := DecodeInsert(lsn, data);
      } else if tag == 'U' as int {
        r := DecodeUpdate(lsn, data);
      } else if tag == 'D' as int {
        r := DecodeDelete(lsn, data);
      } else if tag == 'T' as int {
        r := DecodeTruncate(lsn, data);
      } else {
        return Ok(None);
      }
    }

    method DecodeInsert(lsn: u64, data: seq<byte>) returns (r: Result)
      requires data != []
      ensures match ReadInsert(relations, hash, lsn, data[1..])
              case Got(e, _) => r == Ok(Some(e))
              case Fail(err) => r == Err(err)
    {
      hide ReadU32, ReadU8, ReadTuple;
      var oid := U32At(data, 1);
      if oid.Stopped? { return Err(oid.error); }
      var tag := U8At(data, oid.pos);
      if tag.Stopped? { return Err(tag.error); }
      if tag.value != 'N' as int { return Err(ExpectedNewTuple(tag.value)); }
      if oid.value !in relations { return Err(RelationNotFound(oid.value)); }
      var rel := relations[oid.value];
      var after := TupleAt(data, tag.pos, rel.columns);
      if after.Stopped? { return Err(after.error); }
      return Ok(Some(MakeEvent(hash, lsn, Insert, rel, Some(after.value), None)));
    }

    method DecodeUpdate(lsn: u64, data: seq<byte>) returns (r: Result)
      requires data != []
      ensures match ReadUpdate(relations, hash, lsn, data[1..])
              case Got(e, _) => r == Ok(Some(e))
              case Fail(err) => r == Err(err)
    {
      hide ReadU32, ReadU8, ReadTuple;
      var oid := U32At(data, 1);
      if oid.Stopped? { return Err(oid.error); }
      if oid.value !in relations { return Err(RelationNotFound(oid.value)); }
      var rel := relations[oid.value];
      var before: Option<RowData> := None;
      var tag := U8At(data, oid.pos);
      if tag.Stopped? { return Err(tag.error); }
      var pos := tag.pos;
      if tag.value == 'K' as int || tag.value == 'O' as int {
        var previous := TupleAt(data, pos, rel.columns);
        if previous.Stopped? { return Err(previous.error); }
        before := Some(previous.value);
        var newTag := U8At(data, previous.pos);
        if newTag.Stopped? { return Err(newTag.error); }
        pos := newTag.pos;
      }
      assert Agrees(data, At(before, pos), ReadOld(data[oid.pos..], rel.columns));
      var after := TupleAt(data, pos, rel.columns);
      if after.Stopped? { return Err(after.error); }
      return Ok(Some(MakeEvent(hash, lsn, Update, rel, Some(after.value), before)));
    }

    method DecodeDelete(lsn: u64, data: seq<byte>) returns (r: Result)
      requires data != []
      ensures match ReadDelete(relations, hash, lsn, data[1..])
              case Got(e, _) => r == Ok(Some(e))
              case Fail(err) => r == Err(err)
    {
      hide ReadU32, ReadU8, ReadTuple;
      var oid := U32At(data, 1);
      if oid.Stopped? { return Err(oid.error); }
      if oid.value !in relations { return Err(RelationNotFound(oid.value)); }
      var rel := relations[oid.value];
      var tag := U8At(data, oid.pos);
      if tag.Stopped? { return Err(tag.error); }
      var before := TupleAt(data, tag.pos, rel.columns);
      if before.Stopped? { return Err(before.error); }
      return Ok(Some(MakeEvent(hash, lsn, Delete, rel, None, Some(before.value))));
    }

    method DecodeTruncate(lsn: u64, data: seq<byte>) returns (r: Result)
      requires data != []
      ensures match ReadTruncate(relations, hash, lsn, data[1..])
              case Got(e, _) => r == Ok(e)
              case Fail(err) => r == Err(err)
    {
      hide ReadU32, ReadU8;
      var n := U32At(data, 1);
      if n.Stopped? { return Err(n.error); }
      var options := U8At(data, n.pos);
      if options.Stopped? { return Err(options.error); }
      if n.value > 0 {
        var oid := U32At(data, options.pos);
        if oid.Stopped? { return Err(oid.error); }
        if oid.value in relations {
          return Ok(Some(MakeEvent(hash, lsn, Truncate, relations[oid.value], None, None)));
        }
      }
      return Ok(None);
    }
  }

  class ReplicationStream {
    const decoder: PgOutputDecoder
    var lastProcessedLsn: u64

    constructor (startLsn: u64, hash: Fingerprint)
      ensures lastProcessedLsn == startLsn && decoder.relations == map[] && decoder.hash == hash && fresh(decoder)
    {
      decoder := new PgOutputDecoder(hash);
      lastProcessedLsn := startLsn;
    }

    /** A failed message moves neither the position nor the relation table. */
    method ProcessMessage(lsn: u64, data: seq<byte>) returns (r: Result)
      modifies this, decoder
      ensures match DecodeMessage(old(decoder.relations), decoder.hash, lsn, data)
              case Decoded(rels, e) => r == Ok(e) && decoder.relations == rels && lastProcessedLsn == lsn
              case Failed(err) =>
                && r == Err(err) && decoder.relations == old(decoder.relations)
                && lastProcessedLsn == old(lastProcessedLsn)
    {
      hide DecodeMessage;
      r := decoder.Decode(lsn, data);
      if r.Err? { return; }
      lastProcessedLsn := lsn;
    }
  }
}
