/** Messages cut short: what the decoder makes of a proper prefix of a well-laid message. */
module PgCut {
  import opened Bytes
  import opened PgOutput
  import opened Reading
  import opened PgWire

  /** Having read something from the front of a message, a reader gives the same when more bytes follow. */
  ghost predicate Extends<T>(short: Read<T>, long: Read<T>, t: seq<byte>) {
    short.Got? ==> long == Got(short.value, short.rest + t)
  }

  lemma U8Extends(s: seq<byte>, t: seq<byte>)
    ensures Extends(ReadU8(s), ReadU8(s + t), t)
  {
    if s != [] { assert (s + t)[1..] == s[1..] + t; }
  }

  lemma UintExtends(s: seq<byte>, t: seq<byte>, n: nat)
    ensures Extends(ReadUint(s, n), ReadUint(s + t, n), t)
  {
    hide FromBE;
    if n <= |s| { assert (s + t)[..n] == s[..n] && (s + t)[n..] == s[n..] + t; }
  }

  lemma U16Extends(s: seq<byte>, t: seq<byte>)
    ensures Extends(ReadU16(s), ReadU16(s + t), t)
  {
    hide FromBE, ReadUint;
    UintExtends(s, t, 2);
  }

  lemma U32Extends(s: seq<byte>, t: seq<byte>)
    ensures Extends(ReadU32(s), ReadU32(s + t), t)
  {
    hide FromBE, ReadUint;
    UintExtends(s, t, 4);
  }

  lemma {:induction false} NulAtExtends(s: seq<byte>, t: seq<byte>)
    ensures NulAt(s) < |s| ==> NulAt(s + t) == NulAt(s)
  {
    if s != [] {
      assert (s + t)[1..] == s[1..] + t;
      NulAtExtends(s[1..], t);
    }
  }

  lemma CStringExtends(s: seq<byte>, t: seq<byte>)
    ensures Extends(ReadCString(s), ReadCString(s + t), t)
  {
    hide ValidUtf8, NulAt;
    var i := NulAt(s);
    NulAtExtends(s, t);
    if i < |s| { assert (s + t)[..i] == s[..i] && (s + t)[i + 1..] == s[i + 1..] + t; }
  }

  lemma BytesExtends(s: seq<byte>, t: seq<byte>)
    ensures Extends(ReadBytes(s), ReadBytes(s + t), t)
  {
    hide ReadU32;
    U32Extends(s, t);
    match ReadU32(s)
    case Got(n, rest) => if n <= |rest| { assert (rest + t)[..n] == rest[..n] && (rest + t)[n..] == rest[n..] + t; }
    case Fail(_) =>
  }

  lemma CellExtends(s: seq<byte>, t: seq<byte>)
    ensures Extends(ReadCell(s), ReadCell(s + t), t)
  {
    hide ReadU8, ReadBytes, ValidUtf8, HexText;
    U8Extends(s, t);
    match ReadU8(s)
    case Got(_, rest) => BytesExtends(rest, t);
    case Fail(_) =>
  }

  lemma {:induction false} CellsExtend(s: seq<byte>, t: seq<byte>, columns: seq<ColumnMeta>, i: nat, n: nat)
    requires i <= n
    ensures Extends(ReadCells(s, columns, i, n), ReadCells(s + t, columns, i, n), t)
    decreases n - i
  {
    hide ReadCell, Labelled;
    if i < n {
      CellExtends(s, t);
      match ReadCell(s)
      case Got(_, rest) => CellsExtend(rest, t, columns, i + 1, n);
      case Fail(_) =>
    }
  }

  lemma TupleExtends(s: seq<byte>, t: seq<byte>, columns: seq<ColumnMeta>)
    ensures Extends(ReadTuple(s, columns), ReadTuple(s + t, columns), t)
  {
    hide ReadU16, ReadCells;
    U16Extends(s, t);
    match ReadU16(s)
    case Got(n, rest) => CellsExtend(rest, t, columns, 0, n);
    case Fail(_) =>
  }

  lemma MetaExtends(s: seq<byte>, t: seq<byte>)
    ensures Extends(ReadMeta(s), ReadMeta(s + t), t)
  {
    hide ReadU8, ReadCString, ReadU32;
    U8Extends(s, t);
    if ReadMeta(s).Got? {
      var s1 := ReadU8(s).rest;
      var s2 := ReadCString(s1).rest;
      CStringExtends(s1, t);
      U32Extends(s2, t);
      U32Extends(ReadU32(s2).rest, t);
    }
  }

  lemma {:induction false} MetasExtend(s: seq<byte>, t: seq<byte>, n: nat)
    ensures Extends(ReadMetas(s, n), ReadMetas(s + t, n), t)
    decreases n
  {
    hide ReadMeta;
    if n > 0 {
      MetaExtends(s, t);
      match ReadMeta(s)
      case Got(_, rest) => MetasExtend(rest, t, n - 1);
      case Fail(_) =>
    }
  }

  lemma RelationExtends(s: seq<byte>, t: seq<byte>)
    ensures Extends(ReadRelation(s), ReadRelation(s + t), t)
  {
    hide ReadU8, ReadCString, ReadU32, ReadU16, ReadMetas;
    if ReadRelation(s).Got? {
      var s1 := ReadU32(s).rest;
      var s2 := ReadCString(s1).rest;
      var s3 := ReadCString(s2).rest;
      var s4 := ReadU8(s3).rest;
      U32Extends(s, t);
      CStringExtends(s1, t);
      CStringExtends(s2, t);
      U8Extends(s3, t);
      U16Extends(s4, t);
      MetasExtend(ReadU16(s4).rest, t, ReadU16(s4).value);
    }
  }

  lemma InsertExtends(rels: Relations, hash: Fingerprint, lsn: u64, s: seq<byte>, t: seq<byte>)
    ensures Extends(ReadInsert(rels, hash, lsn, s), ReadInsert(rels, hash, lsn, s + t), t)
  {
    hide ReadU8, ReadU32, ReadTuple, MakeEvent;
    if ReadInsert(rels, hash, lsn, s).Got? {
      var s1 := ReadU32(s).rest;
      U32Extends(s, t);
      U8Extends(s1, t);
      TupleExtends(ReadU8(s1).rest, t, rels[ReadU32(s).value].columns);
    }
  }

  lemma OldExtends(s: seq<byte>, t: seq<byte>, columns: seq<ColumnMeta>)
    ensures Extends(ReadOld(s, columns), ReadOld(s + t, columns), t)
  {
    hide ReadU8, ReadTuple;
    U8Extends(s, t);
    if ReadOld(s, columns).Got? {
      var s1 := ReadU8(s).rest;
      TupleExtends(s1, t, columns);
      if ReadTuple(s1, columns).Got? { U8Extends(ReadTuple(s1, columns).rest, t); }
    }
  }

  lemma UpdateExtends(rels: Relations, hash: Fingerprint, lsn: u64, s: seq<byte>, t: seq<byte>)
    ensures Extends(ReadUpdate(rels, hash, lsn, s), ReadUpdate(rels, hash, lsn, s + t), t)
  {
    hide ReadU32, ReadOld, ReadTuple, MakeEvent;
    if ReadUpdate(rels, hash, lsn, s).Got? {
      var s1, columns := ReadU32(s).rest, rels[ReadU32(s).value].columns;
      U32Extends(s, t);
      OldExtends(s1, t, columns);
      TupleExtends(ReadOld(s1, columns).rest, t, columns);
    }
  }

  lemma DeleteExtends(rels: Relations, hash: Fingerprint, lsn: u64, s: seq<byte>, t: seq<byte>)
    ensures Extends(ReadDelete(rels, hash, lsn, s), ReadDelete(rels, hash, lsn, s + t), t)
  {
    hide ReadU8, ReadU32, ReadTuple, MakeEvent;
    if ReadDelete(rels, hash, lsn, s).Got? {
      var s1 := ReadU32(s).rest;
      U32Extends(s, t);
      U8Extends(s1, t);
      TupleExtends(ReadU8(s1).rest, t, rels[ReadU32(s).value].columns);
    }
  }

  lemma TruncateExtends(rels: Relations, hash: Fingerprint, lsn: u64, s: seq<byte>, t: seq<byte>)
    ensures Extends(ReadTruncate(rels, hash, lsn, s), ReadTruncate(rels, hash, lsn, s + t), t)
    ensures ReadTruncate(rels, hash, lsn, s).Got? <==>
              |s| >= 5 && (FromBE(s[..4]) == 0 || |s| >= 9)
  {
    hide FromBE, MakeEvent;
    U32Extends(s, t);
    if |s| >= 4 {
      var s1 := ReadU32(s).rest;
      U8Extends(s1, t);
      if |s1| >= 1 { U32Extends(ReadU8(s1).rest, t); }
    }
  }

  /** A reader that uses up a whole message fails on every proper prefix of it. */
  lemma WholeOrNothing<T>(short: Read<T>, long: Read<T>, t: seq<byte>)
    requires Extends(short, long, t) && t != [] && (long.Got? ==> long.rest == [])
    ensures short.Fail?
  {
  }

  /** What the decoder makes of every proper prefix of every well-laid message. It is refused exactly when it has a
      tag, the tag is one that is decoded, and it is no truncation with its first relation present. An empty prefix
      decodes to nothing, whatever the message; any other prefix that decodes gives what the whole message means. */
  lemma CutIff(rels: Relations, hash: Fingerprint, lsn: u64, m: Message, n: nat)
    requires MessageOk(m) && n < |Wire(m)|
    ensures var r := DecodeMessage(rels, hash, lsn, Wire(m)[..n]);
            && (r.Failed? <==> n > 0 && !m.Ignored? && !(m.TruncateTables? && n >= 10))
            && (n == 0 ==> r == Decoded(rels, None))
            && (n > 0 && r.Decoded? ==> r == Meaning(rels, hash, lsn, m))
  {
    hide DecodeMessage, Meaning, Wire, MessageOk;
    if n == 0 {
      NothingDecodes(rels, hash, lsn);
      assert Wire(m)[..0] == [];
    } else if m.Ignored? {
      CutIgnored(rels, hash, lsn, m, n);
    } else if m.TruncateTables? {
      CutTruncate(rels, hash, lsn, m, n);
    } else {
      CutFails(rels, hash, lsn, m, n);
    }
  }

  lemma NothingDecodes(rels: Relations, hash: Fingerprint, lsn: u64)
    ensures DecodeMessage(rels, hash, lsn, []) == Decoded(rels, None)
  {
  }

  lemma CutIgnored(rels: Relations, hash: Fingerprint, lsn: u64, m: Message, n: nat)
    requires MessageOk(m) && m.Ignored? && 0 < n < |Wire(m)|
    ensures DecodeMessage(rels, hash, lsn, Wire(m)[..n]) == Meaning(rels, hash, lsn, m) == Decoded(rels, None)
  {
    hide ReadRelation, ReadInsert, ReadUpdate, ReadDelete, ReadTruncate;
    assert Wire(m)[..n][0] == m.tag;
  }

  lemma CutParts(w: seq<byte>, n: nat)
    requires 0 < n < |w|
    ensures w[..n] != [] && w[..n][0] == w[0] && w[..n][1..] + w[n..] == w[1..] && w[n..] != []
  {
  }

  lemma CutFails(rels: Relations, hash: Fingerprint, lsn: u64, m: Message, n: nat)
    requires MessageOk(m) && !m.Ignored? && !m.TruncateTables? && 0 < n < |Wire(m)|
    ensures DecodeMessage(rels, hash, lsn, Wire(m)[..n]).Failed?
  {
    hide ReadRelation, ReadInsert, ReadUpdate, ReadDelete, ReadTruncate, RelationBytes, TupleBytes, OldBytes, ToBE,
         Meaning, CellsOk, RelationOk, Extends;
    var s, t := Wire(m)[..n][1..], Wire(m)[n..];
    CutParts(Wire(m), n);
    match m
    case Begin(_, _, _) =>
    case Commit(_, _, _, _) =>
    case Relation(_, _, _, _, _) =>
      ReadRelationOf(m);
      assert Wire(m)[1..] == RelationBytes(m);
      RelationExtends(s, t);
      WholeOrNothing(ReadRelation(s), ReadRelation(s + t), t);
    case InsertRow(oid, tag, cs) =>
      InsertOf(rels, hash, lsn, oid, tag, cs);
      InsertExtends(rels, hash, lsn, s, t);
      WholeOrNothing(ReadInsert(rels, hash, lsn, s), ReadInsert(rels, hash, lsn, s + t), t);
    case UpdateRow(oid, o, cs) =>
      UpdateOf(rels, hash, lsn, oid, o, cs);
      UpdateExtends(rels, hash, lsn, s, t);
      WholeOrNothing(ReadUpdate(rels, hash, lsn, s), ReadUpdate(rels, hash, lsn, s + t), t);
    case DeleteRow(oid, tag, cs) =>
      DeleteOf(rels, hash, lsn, oid, tag, cs);
      DeleteExtends(rels, hash, lsn, s, t);
      WholeOrNothing(ReadDelete(rels, hash, lsn, s), ReadDelete(rels, hash, lsn, s + t), t);
  }

  lemma CountBytes(w: seq<byte>, tag: byte, count: seq<byte>, rest: seq<byte>, n: nat)
    requires w == [tag] + (count + rest) && |count| == 4 && 5 <= n <= |w|
    ensures w[..n][1..][..4] == count
  {
    assert forall i :: 0 <= i < 4 ==> w[i + 1] == count[i];
  }

  lemma CutTruncate(rels: Relations, hash: Fingerprint, lsn: u64, m: Message, n: nat)
    requires MessageOk(m) && m.TruncateTables? && 0 < n < |Wire(m)|
    ensures var r := DecodeMessage(rels, hash, lsn, Wire(m)[..n]);
            && (r.Failed? <==> n < 10)
            && (r.Decoded? ==> r == Meaning(rels, hash, lsn, m))
  {
    hide ReadTruncate, Meaning, ToBE, FromBE;
    var w := Wire(m);
    var s, t := w[..n][1..], w[n..];
    CutParts(w, n);
    TruncateOf(rels, hash, lsn, m.oids, m.options);
    TruncateExtends(rels, hash, lsn, s, t);
    if n >= 6 {
      CountBytes(w, 'T' as int, ToBE(4, |m.oids|), [m.options] + OidsBytes(m.oids), n);
      Widths();
      FromToBE(4, |m.oids|);
    }
  }

  /** A message about an unknown relation is refused as such, whatever follows the OID. */
  lemma UnknownRefused(rels: Relations, hash: Fingerprint, lsn: u64, oid: u32, body: seq<byte>, t: seq<byte>)
    ensures oid !in rels ==>
              && ReadUpdate(rels, hash, lsn, ToBE(4, oid) + body + t) == Fail(RelationNotFound(oid))
              && ReadDelete(rels, hash, lsn, ToBE(4, oid) + body + t) == Fail(RelationNotFound(oid))
  {
    hide ReadU32, ReadU8, ReadOld, ReadTuple, ToBE;
    Associate(ToBE(4, oid), body, t);
    ReadU32Of(oid, body + t);
  }

  lemma InsertRefused(rels: Relations, hash: Fingerprint, lsn: u64, oid: u32, tag: byte, body: seq<byte>, t: seq<byte>)
    ensures tag != 'N' as int ==>
              ReadInsert(rels, hash, lsn, ToBE(4, oid) + ([tag] + body) + t) == Fail(ExpectedNewTuple(tag))
    ensures tag == 'N' as int && oid !in rels ==>
              ReadInsert(rels, hash, lsn, ToBE(4, oid) + ([tag] + body) + t) == Fail(RelationNotFound(oid))
  {
    hide ReadU32, ReadU8, ReadTuple, ToBE;
    Associate(ToBE(4, oid), [tag] + body, t);
    Associate([tag], body, t);
    ReadU32Of(oid, [tag] + body + t);
    ReadByteOf(tag, body + t);
  }

  lemma Behind(w: seq<byte>, t: seq<byte>)
    requires w != []
    ensures w + t != [] && (w + t)[0] == w[0] && (w + t)[1..] == w[1..] + t
  {
  }

  lemma TrailingInsert(rels: Relations, hash: Fingerprint, lsn: u64, oid: u32, tag: byte, cs: seq<Cell>, t: seq<byte>)
    requires CellsOk(cs)
    ensures var m := InsertRow(oid, tag, cs);
            DecodeMessage(rels, hash, lsn, Wire(m) + t) == Meaning(rels, hash, lsn, m)
  {
    hide ReadRelation, ReadInsert, ReadUpdate, ReadDelete, ReadTruncate, TupleBytes, ToBE, CellsOk, Row;
    var w := Wire(InsertRow(oid, tag, cs));
    Behind(w, t);
    InsertOf(rels, hash, lsn, oid, tag, cs);
    InsertExtends(rels, hash, lsn, w[1..], t);
    InsertRefused(rels, hash, lsn, oid, tag, TupleBytes(cs), t);
    assert w[1..] == ToBE(4, oid) + ([tag] + TupleBytes(cs));
  }

  lemma TrailingUpdate(rels: Relations, hash: Fingerprint, lsn: u64, oid: u32, o: OldTuple, cs: seq<Cell>, t: seq<byte>)
    requires CellsOk(cs) && OldOk(o)
    ensures var m := UpdateRow(oid, o, cs);
            DecodeMessage(rels, hash, lsn, Wire(m) + t) == Meaning(rels, hash, lsn, m)
  {
    hide ReadRelation, ReadInsert, ReadUpdate, ReadDelete, ReadTruncate, TupleBytes, OldBytes, ToBE, CellsOk, OldOk,
         Row, OldRow;
    var w := Wire(UpdateRow(oid, o, cs));
    Behind(w, t);
    UpdateOf(rels, hash, lsn, oid, o, cs);
    UpdateExtends(rels, hash, lsn, w[1..], t);
    UnknownRefused(rels, hash, lsn, oid, OldBytes(o) + TupleBytes(cs), t);
    assert w[1..] == ToBE(4, oid) + (OldBytes(o) + TupleBytes(cs));
  }

  lemma TrailingDelete(rels: Relations, hash: Fingerprint, lsn: u64, oid: u32, tag: byte, cs: seq<Cell>, t: seq<byte>)
    requires CellsOk(cs)
    ensures var m := DeleteRow(oid, tag, cs);
            DecodeMessage(rels, hash, lsn, Wire(m) + t) == Meaning(rels, hash, lsn, m)
  {
    hide ReadRelation, ReadInsert, ReadUpdate, ReadDelete, ReadTruncate, TupleBytes, ToBE, CellsOk, Row;
    var w := Wire(DeleteRow(oid, tag, cs));
    Behind(w, t);
    DeleteOf(rels, hash, lsn, oid, tag, cs);
    DeleteExtends(rels, hash, lsn, w[1..], t);
    UnknownRefused(rels, hash, lsn, oid, [tag] + TupleBytes(cs), t);
    assert w[1..] == ToBE(4, oid) + ([tag] + TupleBytes(cs));
  }

  lemma TrailingRelation(rels: Relations, hash: Fingerprint, lsn: u64, m: Message, t: seq<byte>)
    requires m.Relation? && MessageOk(m)
    ensures DecodeMessage(rels, hash, lsn, Wire(m) + t) == Meaning(rels, hash, lsn, m)
  {
    hide ReadRelation, ReadInsert, ReadUpdate, ReadDelete, ReadTruncate, RelationBytes, RelationOk, InfoOf;
    Behind(Wire(m), t);
    assert Wire(m)[1..] == RelationBytes(m);
    ReadRelationOf(m);
    RelationExtends(Wire(m)[1..], t);
  }

  lemma TrailingTruncate(rels: Relations, hash: Fingerprint, lsn: u64, m: Message, t: seq<byte>)
    requires m.TruncateTables? && MessageOk(m)
    ensures DecodeMessage(rels, hash, lsn, Wire(m) + t) == Meaning(rels, hash, lsn, m)
  {
    hide ReadRelation, ReadInsert, ReadUpdate, ReadDelete, ReadTruncate, ToBE, OidsBytes, Meaning;
    Behind(Wire(m), t);
    TruncateOf(rels, hash, lsn, m.oids, m.options);
    TruncateExtends(rels, hash, lsn, Wire(m)[1..], t);
    MeantTruncate(rels, hash, lsn, m);
  }

  lemma MeantTruncate(rels: Relations, hash: Fingerprint, lsn: u64, m: Message)
    requires m.TruncateTables?
    ensures Meaning(rels, hash, lsn, m).Decoded?
  {
  }

  /** Bytes behind a complete message change nothing. */
  lemma TrailingIgnored(rels: Relations, hash: Fingerprint, lsn: u64, m: Message, t: seq<byte>)
    requires MessageOk(m)
    ensures DecodeMessage(rels, hash, lsn, Wire(m) + t) == Meaning(rels, hash, lsn, m)
  {
    hide ReadRelation, ReadInsert, ReadUpdate, ReadDelete, ReadTruncate, RelationBytes, TupleBytes, OldBytes, ToBE,
         CellsOk, OldOk, Row, OldRow, InfoOf;
    match m
    case Relation(_, _, _, _, _) => TrailingRelation(rels, hash, lsn, m, t);
    case InsertRow(oid, tag, cs) => TrailingInsert(rels, hash, lsn, oid, tag, cs, t);
    case UpdateRow(oid, o, cs) => TrailingUpdate(rels, hash, lsn, oid, o, cs, t);
    case DeleteRow(oid, tag, cs) => TrailingDelete(rels, hash, lsn, oid, tag, cs, t);
    case TruncateTables(_, _) => TrailingTruncate(rels, hash, lsn, m, t);
    case _ => Behind(Wire(m), t);
  }
}
