/** Encodings cut short: what the decoder makes of a proper prefix of an encoded event. */
module CodecCut {
  import opened Bytes
  import opened Events
  import opened Reading
  import opened Codec

  /** Values and rejections stand when more bytes follow; only running off the end may change. */
  ghost predicate Survives<T>(short: Parsed<T>, long: Parsed<T>, t: seq<byte>) {
    && (short.Got? ==> long == Got(short.value, short.rest + t))
    && (short == Fail(Rejected) ==> long == Fail(Rejected))
  }

  lemma TakeSurvives(s: seq<byte>, t: seq<byte>, n: nat)
    ensures Survives(Take(s, n), Take(s + t, n), t)
  {
    if n <= |s| { assert (s + t)[..n] == s[..n] && (s + t)[n..] == s[n..] + t; }
  }

  lemma UintSurvives(s: seq<byte>, t: seq<byte>, n: nat)
    ensures Survives(ParseUint(s, n), ParseUint(s + t, n), t)
  {
    hide Take, FromBE;
    TakeSurvives(s, t, n);
  }

  lemma TextSurvives(s: seq<byte>, t: seq<byte>, n: nat)
    ensures Survives(ParseText(s, n), ParseText(s + t, n), t)
  {
    hide Take, ValidUtf8;
    TakeSurvives(s, t, n);
  }

  lemma ShortSurvives(s: seq<byte>, t: seq<byte>)
    ensures Survives(ParseShort(s), ParseShort(s + t), t)
  {
    hide ParseUint, ParseText;
    UintSurvives(s, t, 2);
    match ParseUint(s, 2)
    case Got(n, rest) => TextSurvives(rest, t, n);
    case Fail(_) =>
  }

  lemma ValueSurvives(s: seq<byte>, t: seq<byte>)
    ensures Survives(ParseValue(s), ParseValue(s + t), t)
  {
    hide ParseUint, ParseText;
    UintSurvives(s, t, 1);
    if ParseUint(s, 1).Got? {
      var s1 := ParseUint(s, 1).rest;
      UintSurvives(s1, t, 4);
      if ParseUint(s1, 4).Got? { TextSurvives(ParseUint(s1, 4).rest, t, ParseUint(s1, 4).value); }
    }
  }

  lemma ColumnSurvives(s: seq<byte>, t: seq<byte>)
    ensures Survives(ParseColumn(s), ParseColumn(s + t), t)
  {
    hide ParseShort, ParseUint, ParseValue;
    ShortSurvives(s, t);
    if ParseShort(s).Got? {
      var s1 := ParseShort(s).rest;
      UintSurvives(s1, t, 4);
      if ParseUint(s1, 4).Got? { ValueSurvives(ParseUint(s1, 4).rest, t); }
    }
  }

  lemma {:induction false} ColumnsSurvive(s: seq<byte>, t: seq<byte>, n: nat)
    ensures Survives(ParseColumns(s, n), ParseColumns(s + t, n), t)
    decreases n
  {
    hide ParseColumn;
    if n > 0 {
      ColumnSurvives(s, t);
      match ParseColumn(s)
      case Got(_, rest) => ColumnsSurvive(rest, t, n - 1);
      case Fail(_) =>
    }
  }

  /** Except at the very end of the buffer, where a row reads as absent. */
  lemma RowSurvives(s: seq<byte>, t: seq<byte>)
    requires s != []
    ensures Survives(ParseRow(s), ParseRow(s + t), t)
  {
    hide ParseUint, ParseColumns;
    assert (s + t)[1..] == s[1..] + t;
    UintSurvives(s[1..], t, 2);
    match ParseUint(s[1..], 2)
    case Got(n, rest) => ColumnsSurvive(rest, t, n);
    case Fail(_) =>
  }

  lemma TableSurvives(s: seq<byte>, t: seq<byte>)
    ensures Survives(ParseTable(s), ParseTable(s + t), t)
  {
    hide ParseShort;
    ShortSurvives(s, t);
    if ParseShort(s).Got? { ShortSurvives(ParseShort(s).rest, t); }
  }

  lemma StampSurvives(s: seq<byte>, t: seq<byte>)
    ensures Survives(ParseStamp(s), ParseStamp(s + t), t)
  {
    hide ParseUint;
    UintSurvives(s, t, 8);
    if ParseUint(s, 8).Got? { UintSurvives(ParseUint(s, 8).rest, t, 8); }
  }

  /** A parser that uses up all of its input runs off the end of every proper prefix. */
  lemma CutPanics<T>(short: Parsed<T>, long: Parsed<T>, t: seq<byte>)
    requires Survives(short, long, t) && t != [] && long.Got? && long.rest == []
    ensures short == Fail(Panics)
  {
    assert short.Fail? ==> short.error.Rejected? || short.error.Panics?;
  }

  lemma CutPieces(a: seq<byte>, n: nat)
    requires n < |a|
    ensures a[..n] + a[n..] == a && a[n..] != [] && a + [] == a
  {
  }

  lemma TableCut(id: TableId, n: nat)
    requires WellFormedText(id.schema, U16_MODULUS) && WellFormedText(id.table, U16_MODULUS) && n < |TableBytes(id)|
    ensures ParseTable(TableBytes(id)[..n]) == Fail(Panics)
  {
    hide ParseTable, WellFormedText, TableBytes;
    var a := TableBytes(id);
    CutPieces(a, n);
    ParseTablePrinted(id, []);
    TableSurvives(a[..n], a[n..]);
    CutPanics(ParseTable(a[..n]), ParseTable(a), a[n..]);
  }

  lemma StampCut(fingerprint: u64, ts: i64, n: nat)
    requires n < |StampBytes(fingerprint, ts)|
    ensures ParseStamp(StampBytes(fingerprint, ts)[..n]) == Fail(Panics)
  {
    hide ParseStamp, StampBytes;
    var a := StampBytes(fingerprint, ts);
    CutPieces(a, n);
    ParseStampPrinted(fingerprint, ts, []);
    StampSurvives(a[..n], a[n..]);
    CutPanics(ParseStamp(a[..n]), ParseStamp(a), a[n..]);
  }

  lemma NoRow()
    ensures ParseRow([]) == Got(None, [])
  {
  }

  lemma RowCut(row: Option<RowData>, n: nat)
    requires WellFormedRow(row) && n < |RowBytes(row)|
    ensures ParseRow(RowBytes(row)[..n]) == if n == 0 then Got(None, []) else Fail(Panics)
  {
    hide ParseRow, WellFormedRow, RowBytes;
    var a := RowBytes(row);
    CutPieces(a, n);
    if n == 0 {
      NoRow();
    } else {
      ParseRowPrinted(row, []);
      RowSurvives(a[..n], a[n..]);
      CutPanics(ParseRow(a[..n]), ParseRow(a), a[n..]);
    }
  }

  /** A cut falls into the first part or behind it. */
  lemma CutOfTwo(a: seq<byte>, b: seq<byte>, n: nat)
    requires n <= |a| + |b|
    ensures n <= |a| ==> (a + b)[..n] == a[..n]
    ensures n >= |a| ==> (a + b)[..n] == a + b[..n - |a|]
  {
  }

  /** What is in front of the rows. */
  function FrontLength(e: ChangeEvent): nat {
    |HeaderBytes(e.lsn, e.xid, e.op)| + |TableBytes(e.table)| + |StampBytes(e.schemaFingerprint, e.commitTimestampUs)|
  }

  /** What decoding an event's first n bytes gives: an error where not even the fixed header is there, the event
      without the rows behind it where the cut is exactly in front of a row, and a panic everywhere else. */
  function CutResult(e: ChangeEvent, n: nat): Decoded {
    if n < 15 then DecodeError
    else if n == FrontLength(e) then Event(e.(after := None, before := None))
    else if n == FrontLength(e) + |RowBytes(e.after)| then Event(e.(before := None))
    else DecodePanic
  }

  function WithRows(e: ChangeEvent, after: Parsed<Option<RowData>>): Decoded {
    match after
    case Fail(f) => Refused(f)
    case Got(a, rest) =>
      match ParseRow(rest)
      case Fail(f) => Refused(f)
      case Got(b, _) => Event(e.(after := a, before := b))
  }

  /** The rows, cut anywhere. */
  lemma RowsCut(e: ChangeEvent, n: nat)
    requires WellFormedRow(e.after) && WellFormedRow(e.before)
    requires n < |RowBytes(e.after)| + |RowBytes(e.before)|
    ensures WithRows(e, ParseRow((RowBytes(e.after) + RowBytes(e.before))[..n]))
         == if n == 0 then Event(e.(after := None, before := None))
            else if n == |RowBytes(e.after)| then Event(e.(before := None))
            else DecodePanic
  {
    hide ParseRow, WellFormedRow, RowBytes;
    var a, b := RowBytes(e.after), RowBytes(e.before);
    CutOfTwo(a, b, n);
    NoRow();
    RowNotEmpty(e.after);
    if n < |a| {
      RowCut(e.after, n);
    } else {
      ParseRowPrinted(e.after, b[..n - |a|]);
      RowCut(e.before, n - |a|);
    }
  }

  lemma RowNotEmpty(row: Option<RowData>)
    ensures RowBytes(row) != []
  {
  }

  lemma FrontParsed(e: ChangeEvent, rows: seq<byte>)
    requires WellFormed(e)
    ensures Decode(HeaderBytes(e.lsn, e.xid, e.op) + (TableBytes(e.table)
                   + (StampBytes(e.schemaFingerprint, e.commitTimestampUs) + rows)))
         == WithRows(e, ParseRow(rows))
  {
    hide ParseHeader, ParseTable, ParseStamp, ParseRow, HeaderBytes, TableBytes, StampBytes, WellFormedRow,
         WellFormedText;
    var r2 := StampBytes(e.schemaFingerprint, e.commitTimestampUs) + rows;
    var r1 := TableBytes(e.table) + r2;
    FrontSizes(e);
    ParseHeaderPrinted(e.lsn, e.xid, e.op, r1);
    ParseTablePrinted(e.table, r2);
    ParseStampPrinted(e.schemaFingerprint, e.commitTimestampUs, rows);
  }

  lemma FrontSizes(e: ChangeEvent)
    ensures |HeaderBytes(e.lsn, e.xid, e.op)| == 13 && |TableBytes(e.table)| >= 4
    ensures |StampBytes(e.schemaFingerprint, e.commitTimestampUs)| == 16
  {
    hide ToBE;
  }

  /** Cut behind the header and in front of the rows. */
  lemma FrontCut(e: ChangeEvent, tail: seq<byte>)
    requires WellFormed(e) && |tail| >= 2
    requires ParseTable(tail) == Fail(Panics) ||
             exists n :: 0 <= n < |StampBytes(e.schemaFingerprint, e.commitTimestampUs)| &&
               tail == TableBytes(e.table) + StampBytes(e.schemaFingerprint, e.commitTimestampUs)[..n]
    ensures Decode(HeaderBytes(e.lsn, e.xid, e.op) + tail) == DecodePanic
  {
    hide ParseHeader, ParseTable, ParseStamp, HeaderBytes, TableBytes, StampBytes, WellFormedRow, WellFormedText;
    FrontSizes(e);
    ParseHeaderPrinted(e.lsn, e.xid, e.op, tail);
    if ParseTable(tail) != Fail(Panics) {
      var n :| 0 <= n < |StampBytes(e.schemaFingerprint, e.commitTimestampUs)| &&
               tail == TableBytes(e.table) + StampBytes(e.schemaFingerprint, e.commitTimestampUs)[..n];
      ParseTablePrinted(e.table, StampBytes(e.schemaFingerprint, e.commitTimestampUs)[..n]);
      StampCut(e.schemaFingerprint, e.commitTimestampUs, n);
    }
  }

  lemma TooShort(s: seq<byte>)
    requires |s| < 15
    ensures Decode(s) == DecodeError
  {
  }

  /** Every proper prefix of every encoding: an error, a panic, or, cut exactly in front of a row, silently the event
      without its last rows. */
  lemma CutDecodes(e: ChangeEvent, n: nat)
    requires WellFormed(e) && n < |EventBytes(e)|
    ensures Decode(EventBytes(e)[..n]) == CutResult(e, n)
  {
    hide Decode, HeaderBytes, TableBytes, StampBytes, RowBytes, WellFormedRow, WellFormedText, ParseTable, WithRows;
    var h, t := HeaderBytes(e.lsn, e.xid, e.op), TableBytes(e.table);
    var s, rows := StampBytes(e.schemaFingerprint, e.commitTimestampUs), RowBytes(e.after) + RowBytes(e.before);
    FrontSizes(e);
    RowNotEmpty(e.after);
    if n < 15 {
      TooShort(EventBytes(e)[..n]);
    } else {
      CutOfTwo(h, t + (s + rows), n);
      CutOfTwo(t, s + rows, n - 13);
      if n - 13 < |t| {
        TableCut(e.table, n - 13);
        FrontCut(e, t[..n - 13]);
      } else {
        CutOfTwo(s, rows, n - 13 - |t|);
        if n < FrontLength(e) {
          FrontCut(e, t + s[..n - 13 - |t|]);
        } else {
          FrontParsed(e, rows[..n - FrontLength(e)]);
          RowsCut(e, n - FrontLength(e));
        }
      }
    }
  }

  /** So a prefix is taken for an event exactly in front of a row, and for the right event exactly when the rows behind
      the cut were absent anyway. */
  lemma CutTakenIff(e: ChangeEvent, n: nat)
    requires WellFormed(e) && n < |EventBytes(e)|
    ensures Decode(EventBytes(e)[..n]).Event? <==>
              n == FrontLength(e) || n == FrontLength(e) + |RowBytes(e.after)|
    ensures Decode(EventBytes(e)[..n]) == Event(e) <==>
              && e.before.None?
              && (n == FrontLength(e) + |RowBytes(e.after)| || (n == FrontLength(e) && e.after.None?))
  {
    hide Decode, HeaderBytes, TableBytes, StampBytes, RowBytes, WellFormed;
    FrontSizes(e);
    RowNotEmpty(e.after);
    CutDecodes(e, n);
  }
}
