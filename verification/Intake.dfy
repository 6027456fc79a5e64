/** What the decoder emits, the store can hold: decoded events fit the codec. */
module Intake {
  import opened Bytes
  import opened Events
  import opened PgOutput
  import opened Reading
  import Codec
  import Durability
  import Pipeline
  import Store

  /** Names short enough for the codec's 16-bit length fields. */
  predicate RelationFits(r: RelationInfo) {
    && Codec.WellFormedText(r.schema, U16_MODULUS) && Codec.WellFormedText(r.table, U16_MODULUS)
    && forall c <- r.columns :: Codec.WellFormedText(c.name, U16_MODULUS)
  }

  predicate TableFits(rels: Relations) { forall oid <- rels :: RelationFits(rels[oid]) }

  /** Hexadecimal text doubles a binary value, so messages stay below half of what a 32-bit length counts. */
  const MESSAGE_LIMIT: nat := 0x7FFF_FFFF

  // ---- relation messages of at most 64 KiB keep the table fitting ----

  lemma CStringFits(s: seq<byte>)
    requires |s| <= U16_MODULUS
    ensures var r := ReadCString(s); r.Got? ==> Codec.WellFormedText(r.value, U16_MODULUS) && |r.rest| < |s|
  {
    hide ValidUtf8;
  }

  lemma MetaFits(s: seq<byte>)
    requires |s| <= U16_MODULUS
    ensures var r := ReadMeta(s); r.Got? ==> Codec.WellFormedText(r.value.name, U16_MODULUS) && |r.rest| <= |s|
  {
    hide ReadCString, Codec.WellFormedText;
    if ReadU8(s).Got? { CStringFits(s[1..]); }
  }

  lemma {:induction false} MetasFit(s: seq<byte>, n: nat)
    requires |s| <= U16_MODULUS
    ensures var r := ReadMetas(s, n); r.Got? ==> forall c <- r.value :: Codec.WellFormedText(c.name, U16_MODULUS)
    decreases n
  {
    hide ReadMeta, Codec.WellFormedText;
    if n > 0 {
      MetaFits(s);
      match ReadMeta(s) {
        case Got(_, rest) => MetasFit(rest, n - 1);
        case Fail(_) =>
      }
    }
  }

  lemma ReadRelationFits(s: seq<byte>)
    requires |s| <= U16_MODULUS
    ensures ReadRelation(s).Got? ==> RelationFits(ReadRelation(s).value.1)
  {
    hide ReadCString, Codec.WellFormedText, ReadMetas, ReadU32, ReadU16;
    if ReadRelation(s).Got? {
      var r0 := ReadU32(s);
      RestShrinks(s, 4);
      CStringFits(r0.rest);
      var r1 := ReadCString(r0.rest);
      CStringFits(r1.rest);
      var r2 := ReadCString(r1.rest);
      var r3 := ReadU8(r2.rest);
      RestShrinks(r3.rest, 2);
      var r4 := ReadU16(r3.rest);
      MetasFit(r4.rest, r4.value);
    }
  }

  lemma RestShrinks(s: seq<byte>, n: nat)
    ensures n == 4 && ReadU32(s).Got? ==> |ReadU32(s).rest| <= |s|
    ensures n == 2 && ReadU16(s).Got? ==> |ReadU16(s).rest| <= |s|
  {
  }

  // ---- events decoded under a fitting table fit the codec ----

  lemma {:induction false} HexIsAscii(b: seq<byte>)
    ensures forall i :: 0 <= i < |HexEncode(b)| ==> HexEncode(b)[i] < 0x80
  {
    if b != [] { HexIsAscii(b[1..]); }
  }

  lemma HexTextFits(b: seq<byte>)
    requires |b| < MESSAGE_LIMIT
    ensures Codec.WellFormedText(HexText(b), U32_MODULUS)
  {
    HexIsAscii(b);
    AsciiIsUtf8(HexText(b));
  }

  lemma {:induction false} DecimalShort(n: nat, digits: nat, bound: nat)
    requires n < bound && digits > 0 && bound == PowerOfTen(digits)
    ensures |Decimal(n)| <= digits
    decreases digits
  {
    if n >= 10 { DecimalShort(n / 10, digits - 1, bound / 10); }
  }

  function PowerOfTen(n: nat): nat { if n == 0 then 1 else 10 * PowerOfTen(n - 1) }

  lemma LabelFits(columns: seq<ColumnMeta>, i: nat, v: Option<Text>)
    requires i < U16_MODULUS && forall c <- columns :: Codec.WellFormedText(c.name, U16_MODULUS)
    ensures Codec.WellFormedText(Labelled(columns, i, v).name, U16_MODULUS)
  {
    hide Decimal, ValidUtf8;
    if i >= |columns| {
      assert PowerOfTen(5) == 100_000;
      DecimalShort(i, 5, 100_000);
      AsciiIsUtf8(Ascii("col_") + Decimal(i));
    } else {
      assert columns[i] in columns;
    }
  }

  lemma CellFits(s: seq<byte>)
    requires |s| < MESSAGE_LIMIT
    ensures var r := ReadCell(s);
            r.Got? ==> |r.rest| <= |s| && (r.value.Some? ==> Codec.WellFormedText(r.value.value, U32_MODULUS))
  {
    hide HexText, ValidUtf8;
    if s != [] && ReadBytes(s[1..]).Got? { HexTextFits(ReadBytes(s[1..]).value); }
  }

  lemma {:induction false} CellsFit(s: seq<byte>, columns: seq<ColumnMeta>, i: nat, n: nat)
    requires i <= n < U16_MODULUS && |s| < MESSAGE_LIMIT
    requires forall c <- columns :: Codec.WellFormedText(c.name, U16_MODULUS)
    ensures var r := ReadCells(s, columns, i, n);
            r.Got? ==> |r.rest| <= |s| && |r.value| == n - i && forall c <- r.value :: Codec.WellFormedColumn(c)
    decreases n - i
  {
    hide ReadCell, Codec.WellFormedText, Labelled;
    if i < n {
      CellFits(s);
      match ReadCell(s) {
        case Got(v, rest) =>
          LabelFits(columns, i, v);
          assert Codec.WellFormedColumn(Labelled(columns, i, v)) by { LabelKeepsValue(columns, i, v); }
          CellsFit(rest, columns, i + 1, n);
        case Fail(_) =>
      }
    }
  }

  lemma LabelKeepsValue(columns: seq<ColumnMeta>, i: nat, v: Option<Text>)
    ensures Labelled(columns, i, v).value == v
  {
  }

  lemma TupleFits(s: seq<byte>, columns: seq<ColumnMeta>)
    requires |s| < MESSAGE_LIMIT && forall c <- columns :: Codec.WellFormedText(c.name, U16_MODULUS)
    ensures var r := ReadTuple(s, columns); r.Got? ==> |r.rest| <= |s| && Codec.WellFormedRow(Some(r.value))
  {
    hide ReadCells, Codec.WellFormedText, Codec.WellFormedColumn, FromBE;
    if ReadU16(s).Got? { CellsFit(ReadU16(s).rest, columns, 0, ReadU16(s).value); }
  }

  lemma OldFits(s: seq<byte>, columns: seq<ColumnMeta>)
    requires |s| < MESSAGE_LIMIT && forall c <- columns :: Codec.WellFormedText(c.name, U16_MODULUS)
    ensures var r := ReadOld(s, columns); r.Got? ==> |r.rest| <= |s| && Codec.WellFormedRow(r.value)
  {
    hide ReadTuple, Codec.WellFormedText;
    if s != [] { TupleFits(s[1..], columns); }
  }

  /** A relation message, if this is one, gives names that fit; nothing is asked of any other message. */
  predicate NamesFit(data: seq<byte>) {
    data != [] && data[0] == 'R' as int ==>
      var r := ReadRelation(data[1..]); r.Got? ==> RelationFits(r.value.1)
  }

  /** Messages of at most 64 KiB cannot give longer ones. */
  lemma ShortNamesFit(data: seq<byte>)
    requires |data| <= U16_MODULUS
    ensures NamesFit(data)
  {
    hide ReadRelation, RelationFits;
    if data != [] { ReadRelationFits(data[1..]); }
  }

  /** Every event decoded under a table whose names fit is one the codec stores and returns unchanged; only a relation
      message with longer names leaves the table no longer fitting. */
  lemma DecodedEventFits(rels: Relations, hash: Fingerprint, lsn: u64, data: seq<byte>)
    requires TableFits(rels) && |data| < MESSAGE_LIMIT
    ensures match DecodeMessage(rels, hash, lsn, data)
            case Decoded(rels', e) =>
              && (NamesFit(data) ==> TableFits(rels'))
              && (e.Some? ==>
                   && Codec.WellFormed(e.value) && Codec.Decode(Codec.EventBytes(e.value)) == Codec.Event(e.value)
                   && e.value.lsn == lsn && e.value.xid == 0)
            case Failed(_) => true
  {
    hide ReadTuple, ReadRelation, ReadOld, Codec.WellFormedText, Codec.WellFormedColumn, Codec.EventBytes, Codec.Decode,
         ReadU32;
    if data != [] {
      var s := data[1..];
      RestShrinks(s, 4);
      if ReadU32(s).Got? && ReadU32(s).value in rels {
        var rest, rel := ReadU32(s).rest, rels[ReadU32(s).value];
        OldFits(rest, rel.columns);
        if rest != [] { TupleFits(rest[1..], rel.columns); }
        if ReadOld(rest, rel.columns).Got? { TupleFits(ReadOld(rest, rel.columns).rest, rel.columns); }
      }
      TruncateFits(rels, hash, lsn, s);
    }
    match DecodeMessage(rels, hash, lsn, data) {
      case Decoded(_, e) =>
        if e.Some? {
          assert Codec.WellFormed(e.value);
          Codec.RoundTripIff(e.value, []);
          assert Codec.EventBytes(e.value) + [] == Codec.EventBytes(e.value);
        }
      case Failed(_) =>
    }
  }

  lemma TruncateFits(rels: Relations, hash: Fingerprint, lsn: u64, s: seq<byte>)
    requires TableFits(rels)
    ensures var r := ReadTruncate(rels, hash, lsn, s); r.Got? && r.value.Some? ==> Codec.WellFormed(r.value.value)
  {
    hide ReadU32, Codec.WellFormedText;
  }

  // ---- whole streams ----

  /** A message as it arrives, at its position. */
  datatype Raw = Raw(lsn: u64, data: seq<byte>)

  datatype Feed = Feed(relations: Relations, events: seq<ChangeEvent>)

  /** What a stream of any bytes leaves behind: the relation table and the events emitted; a failed message changes
      nothing. */
  function Fed(hash: Fingerprint, ms: seq<Raw>): Feed {
    if ms == [] then Feed(map[], [])
    else
      var front, m := Fed(hash, ms[..|ms| - 1]), ms[|ms| - 1];
      match DecodeMessage(front.relations, hash, m.lsn, m.data)
      case Decoded(rels, Some(e)) => Feed(rels, front.events + [e])
      case Decoded(rels, None) => Feed(rels, front.events)
      case Failed(_) => front
  }

  /** Messages below 2 GiB whose relation names, if any, are shorter than 64 KiB. */
  predicate Sized(ms: seq<Raw>) { forall m <- ms :: |m.data| < MESSAGE_LIMIT && NamesFit(m.data) }

  /** Over every such stream, well-laid or not, every event emitted fits the codec. */
  lemma {:induction false} FedFits(hash: Fingerprint, ms: seq<Raw>)
    requires Sized(ms)
    ensures TableFits(Fed(hash, ms).relations)
    ensures forall e <- Fed(hash, ms).events :: Codec.WellFormed(e) && e.xid == 0
  {
    hide DecodeMessage, TableFits, NamesFit, Codec.WellFormed, Codec.Decode, Codec.EventBytes;
    if ms == [] {
      EmptyTableFits();
    } else {
      var m := ms[|ms| - 1];
      FedFits(hash, ms[..|ms| - 1]);
      DecodedEventFits(Fed(hash, ms[..|ms| - 1]).relations, hash, m.lsn, m.data);
    }
  }

  lemma EmptyTableFits()
    ensures TableFits(map[])
  {
  }

  ghost predicate Rising(ms: seq<Raw>) { forall i, j :: 0 <= i < j < |ms| ==> ms[i].lsn < ms[j].lsn }

  /** Events come out in the order of their messages, each at the position of one of them. */
  lemma {:induction false} FedIncreasing(hash: Fingerprint, ms: seq<Raw>)
    requires Sized(ms) && Rising(ms)
    ensures Durability.Increasing(Fed(hash, ms).events)
    ensures forall e <- Fed(hash, ms).events :: exists m <- ms :: m.lsn == e.lsn
  {
    hide DecodeMessage, TableFits, NamesFit, Codec.WellFormed, Codec.Decode, Codec.EventBytes;
    if ms != [] {
      var front, m := ms[..|ms| - 1], ms[|ms| - 1];
      FedIncreasing(hash, front);
      FedFits(hash, front);
      DecodedEventFits(Fed(hash, front).relations, hash, m.lsn, m.data);
      assert forall x <- front :: x in ms && x.lsn < m.lsn;
      assert m in ms;
      forall e <- Fed(hash, front).events ensures e.lsn < m.lsn && exists x <- ms :: x.lsn == e.lsn {
        var x :| x in front && x.lsn == e.lsn;
        assert x in ms;
      }
    }
  }

  /** Any stream of sized messages, decoded and written in any batches: a read returns exactly the page the emitted
      events determine, and all of them are readable exactly when different ones never share an LSN. */
  lemma FedIsStored(hash: Fingerprint, ms: seq<Raw>, batches: seq<seq<ChangeEvent>>, start: u64, limit: nat)
    requires Sized(ms) && Flatten(batches) == Fed(hash, ms).events
    ensures var db, es := Store.WriteBatches(batches), Fed(hash, ms).events;
            var r := Store.Scan(db, Store.IterateFrom(db.Keys, ToBE(8, start)), [], limit);
            && r.Events? && Store.IsPage(es, start, limit, r.events)
            && ((forall e <- es :: e in Store.Log(Store.PutAll(map[], es))) <==>
                 forall a, b | a in es && b in es && a.lsn == b.lsn :: a == b)
  {
    hide Fed, Codec.WellFormed, Store.Scan, Store.IsPage, Store.WriteBatches, Store.IterateFrom, Store.Log,
         Store.PutAll, ToBE;
    FedFits(hash, ms);
    Store.StoreRefinement(batches, start, limit);
    Store.NothingLostIff(Fed(hash, ms).events);
  }

  /** From the wire to the acknowledgement: over every stream of sized messages at rising positive positions and every
      run that accepts its events in order, each event at or below any reported flush LSN is read back first from
      the stored bytes at its LSN. */
  lemma FedIsDurable(hash: Fingerprint, ms: seq<Raw>, capacity: nat, policy: Pipeline.Policy, now: nat,
                     steps: seq<Durability.Step>, r: Durability.Status, e: ChangeEvent, limit: nat)
    requires Sized(ms) && Rising(ms) && (forall m <- ms :: m.lsn > 0) && Durability.Fresh(policy)
    requires var s := Durability.Run(Durability.Initial(capacity, policy, now), steps);
             s.accepted <= Fed(hash, ms).events && r in s.reports && e in s.accepted && e.lsn <= r.flush
    ensures var db := Durability.Run(Durability.Initial(capacity, policy, now), steps).db;
            var read := Store.Scan(db, Store.IterateFrom(db.Keys, ToBE(8, e.lsn)), [], limit);
            read.Events? && read.events != [] && read.events[0] == e
  {
    hide Fed, Codec.WellFormed, Store.Scan, Store.IterateFrom, ToBE, Durability.Run, Durability.Stored,
         Durability.Increasing;
    var s := Durability.Run(Durability.Initial(capacity, policy, now), steps);
    FedFits(hash, ms);
    FedIncreasing(hash, ms);
    Durability.IncreasingPrefix(Fed(hash, ms).events, s.accepted);
    assert s.accepted[0] in Fed(hash, ms).events;
    assert forall x <- s.accepted :: x in Fed(hash, ms).events;
    Durability.DurableAcknowledgement(capacity, policy, now, steps, r, e, limit);
  }
}
