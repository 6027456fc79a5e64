/** The write-ahead log: length-framed records in numbered segment files. */
module Wal {
  import opened Bytes

  datatype Record = Record(lsn: u64, payload: seq<byte>)

  // ---- framing ----

  /** [4 bytes record length][8 bytes LSN][payload]; the cast `as u32` drops high bits of the length. */
  function RecordBytes(r: Record): seq<byte> {
    ToBE(4, (8 + |r.payload|) % U32_MODULUS) + (ToBE(8, r.lsn) + r.payload)
  }

  function SegmentBytes(rs: seq<Record>): seq<byte> {
    if rs == [] then [] else SegmentBytes(rs[..|rs| - 1]) + RecordBytes(rs[|rs| - 1])
  }

  /** Reading a segment back: whole records until the end of the file. */
  function ParseSegment(b: seq<byte>): Option<seq<Record>> {
    if b == [] then Some([])
    else if |b| < 12 then None
    else
      var n := FromBE(b[..4]);
      if n < 8 || 4 + n > |b| then None
      else
        Widths();
        var rest := ParseSegment(b[4 + n..]);
        if rest.None? then None else Some([Record(FromBE(b[4..12]), b[12..4 + n])] + rest.value)
  }

  predicate Fits(r: Record) { 8 + |r.payload| < U32_MODULUS }

  /** By offsets: 8 more than the payload's length in 32 bits, the LSN, the payload. */
  lemma RecordLayout(r: Record)
    ensures var b := RecordBytes(r);
            && |b| == 12 + |r.payload| && b[..4] == ToBE(4, (|r.payload| + 8) % 0x1_0000_0000)
            && b[4..12] == ToBE(8, r.lsn) && b[12..] == r.payload
  {
    hide ToBE;
  }

  lemma ParseFirst(r: Record, t: seq<byte>)
    requires Fits(r)
    ensures ParseSegment(RecordBytes(r) + t)
         == var rest := ParseSegment(t); if rest.None? then None else Some([r] + rest.value)
  {
    hide ToBE, FromBE;
    Widths();
    var n := 8 + |r.payload|;
    var b := RecordBytes(r) + t;
    FromToBE(4, n);
    FromToBE(8, r.lsn);
    assert b[..4] == ToBE(4, n) && b[4..12] == ToBE(8, r.lsn) && b[12..4 + n] == r.payload && b[4 + n..] == t;
  }

  lemma {:induction false} ParseConcat(rs: seq<Record>, t: seq<byte>)
    requires forall r <- rs :: Fits(r)
    ensures ParseSegment(SegmentBytes(rs) + t)
         == var rest := ParseSegment(t); if rest.None? then None else Some(rs + rest.value)
  {
    hide RecordBytes, ParseSegment;
    if rs == [] {
      assert SegmentBytes(rs) + t == t;
      if ParseSegment(t).Some? { assert rs + ParseSegment(t).value == ParseSegment(t).value; }
    } else {
      var front, last := rs[..|rs| - 1], rs[|rs| - 1];
      var t' := RecordBytes(last) + t;
      assert SegmentBytes(rs) + t == SegmentBytes(front) + t';
      ParseConcat(front, t');
      ParseFirst(last, t);
      if ParseSegment(t).Some? {
        assert front + ([last] + ParseSegment(t).value) == rs + ParseSegment(t).value;
      }
    }
  }

  /** A segment of fitting records reads back as exactly those records. */
  lemma SegmentReadsBack(rs: seq<Record>)
    requires forall r <- rs :: Fits(r)
    ensures ParseSegment(SegmentBytes(rs)) == Some(rs)
  {
    hide SegmentBytes;
    ParseConcat(rs, []);
    assert SegmentBytes(rs) + [] == SegmentBytes(rs) && rs + [] == rs;
  }

  /** A record too long for its length field is never read as itself, whatever follows. */
  lemma OversizeIsLost(r: Record, t: seq<byte>)
    requires !Fits(r)
    ensures var got := ParseSegment(RecordBytes(r) + t); got.None? || got.value == [] || got.value[0] != r
  {
    hide ToBE, FromBE;
    Widths();
    var n := (8 + |r.payload|) % U32_MODULUS;
    FromToBE(4, n);
    assert (RecordBytes(r) + t)[..4] == ToBE(4, n);
  }

  lemma {:induction false} SegmentSplit(a: seq<Record>, b: seq<Record>)
    ensures SegmentBytes(a + b) == SegmentBytes(a) + SegmentBytes(b)
  {
    hide RecordBytes;
    if b == [] {
      assert a + b == a;
    } else {
      SegmentSplit(a, b[..|b| - 1]);
      assert (a + b)[..|a + b| - 1] == a + b[..|b| - 1];
    }
  }

  /** A segment reads back as its records exactly when each of them fits. */
  lemma SegmentReadsBackIff(rs: seq<Record>)
    ensures ParseSegment(SegmentBytes(rs)) == Some(rs) <==> forall r <- rs :: Fits(r)
  {
    hide SegmentBytes, ParseSegment, Fits;
    if forall r <- rs :: Fits(r) { SegmentReadsBack(rs); } else { FirstOversize(rs, 0); }
  }

  /** The first record that does not fit spoils the segment. */
  lemma {:induction false} FirstOversize(rs: seq<Record>, i: nat)
    requires i <= |rs| && (forall r <- rs[..i] :: Fits(r)) && exists r <- rs :: !Fits(r)
    ensures ParseSegment(SegmentBytes(rs)) != Some(rs)
    decreases |rs| - i
  {
    hide SegmentBytes, ParseSegment, Fits, RecordBytes;
    assert rs[..|rs|] == rs;
    if Fits(rs[i]) {
      assert rs[..i + 1] == rs[..i] + [rs[i]];
      FirstOversize(rs, i + 1);
    } else {
      var front, tail := rs[..i], rs[i..];
      assert rs == front + tail && tail == [rs[i]] + rs[i + 1..];
      SegmentSplit(front, tail);
      SegmentSplit([rs[i]], rs[i + 1..]);
      SegmentOfOne(rs[i]);
      ParseConcat(front, SegmentBytes(tail));
      OversizeIsLost(rs[i], SegmentBytes(rs[i + 1..]));
      var got := ParseSegment(SegmentBytes(tail));
      if got.Some? { assert (front + got.value)[i..] == got.value; }
    }
  }

  lemma SegmentOfOne(r: Record)
    ensures SegmentBytes([r]) == RecordBytes(r)
  {
    hide RecordBytes;
    assert [r][..0] == [] && [] + RecordBytes(r) == RecordBytes(r);
  }

  /** One record reads back exactly when its length fits the length field. */
  lemma RecordReadsBackIff(r: Record)
    ensures ParseSegment(RecordBytes(r)) == Some([r]) <==> Fits(r)
  {
    hide ToBE, FromBE;
    Widths();
    if Fits(r) {
      ParseFirst(r, []);
      assert RecordBytes(r) + [] == RecordBytes(r) && [r] + [] == [r];
      assert ParseSegment([]) == Some([]);
    } else {
      var n := (8 + |r.payload|) % U32_MODULUS;
      FromToBE(4, n);
      assert RecordBytes(r)[..4] == ToBE(4, n);
    }
  }

  // ---- the writer ----

  datatype Log = Log(files: map<nat, seq<byte>>, open: bool, segment: nat, bytes: nat, maxBytes: nat, lastLsn: u64) {
    predicate MustRotate() { !open || bytes >= maxBytes }

    /** The next segment is opened for appending; a file of that name keeps its content. */
    function Rotate(): Log {
      var n := segment + 1;
      this.(files := if n in files then files else files[n := []], open := true, segment := n, bytes := 0)
    }

    function AppendHere(r: Record): Log
      requires segment in files
    {
      this.(files := files[segment := files[segment] + RecordBytes(r)], bytes := bytes + 12 + |r.payload|,
            lastLsn := r.lsn)
    }

    function Append(r: Record): Log
      requires !MustRotate() ==> segment in files
    {
      if MustRotate() then Rotate().AppendHere(r) else AppendHere(r)
    }

    /** Segments older than the current one minus two go, whatever the watermark. */
    function Collect(): Log { this.(files := map n | n in files && n + 2 >= segment :: files[n]) }
  }

  /** Whatever is in the directory, an append only adds: every file keeps what it holds, and at most the current segment
      grows, by the record. */
  lemma AppendOnlyAdds(log: Log, r: Record)
    requires !log.MustRotate() ==> log.segment in log.files
    ensures var t := log.Append(r);
            && t.segment == (if log.MustRotate() then log.segment + 1 else log.segment) && t.lastLsn == r.lsn
            && (forall n <- log.files :: n != t.segment ==> n in t.files && t.files[n] == log.files[n])
            && t.segment in t.files
            && t.files[t.segment]
                 == (if t.segment in log.files then log.files[t.segment] else []) + RecordBytes(r)
            && (forall n <- t.files :: n in log.files || n == t.segment)
  {
    hide RecordBytes;
  }

  lemma AppendPieces(b: seq<byte>, r: Record)
    ensures b + ToBE(4, (8 + |r.payload|) % U32_MODULUS) + ToBE(8, r.lsn) + r.payload == b + RecordBytes(r)
  {
    hide ToBE;
  }

  class WalWriter {
    var files: map<nat, seq<byte>>
    var open: bool
    var segment: nat
    var segmentBytes: nat
    const maxSegmentBytes: nat
    var lastLsn: u64

    function View(): Log
      reads this
    {
      Log(files, open, segment, segmentBytes, maxSegmentBytes, lastLsn)
    }

    constructor (maxSegmentBytes: nat)
      ensures View() == Log(map[], false, 0, 0, maxSegmentBytes, 0)
    {
      files, open, segment, segmentBytes, lastLsn := map[], false, 0, 0, 0;
      this.maxSegmentBytes := maxSegmentBytes;
    }

    method Append(lsn: u64, payload: seq<byte>)
      requires open ==> segment in files
      modifies this
      ensures View() == old(View()).Append(Record(lsn, payload))
    {
      hide ToBE;
      if !open || segmentBytes >= maxSegmentBytes { Rotate(); }
      var recordLen := (8 + |payload|) % U32_MODULUS;
      ghost var before := files[segment];
      files := files[segment := files[segment] + ToBE(4, recordLen)];
      files := files[segment := files[segment] + ToBE(8, lsn)];
      files := files[segment := files[segment] + payload];
      AppendPieces(before, Record(lsn, payload));
      segmentBytes := segmentBytes + 4 + 8 + |payload|;
      lastLsn := lsn;
    }

    method Rotate()
      modifies this
      ensures View() == old(View()).Rotate()
    {
      segment := segment + 1;
      if segment !in files { files := files[segment := []]; }
      open := true;
      segmentBytes := 0;
    }

    method GcSegments(watermark: u64) returns (removed: nat)
      modifies this`files
      ensures View() == old(View()).Collect()
      ensures removed == |old(files)| - |files|
    {
      removed := 0;
      var left := files.Keys;
      ghost var start := files;
      while left != {}
        invariant left <= start.Keys && files.Keys <= start.Keys
        invariant forall n <- start :: n in left ==> n in files
        invariant forall n <- start :: n !in left ==> (n in files <==> n + 2 >= segment)
        invariant forall n <- files :: files[n] == start[n]
        invariant removed == |start| - |files|
        decreases left
      {
        var n :| n in left;
        if n + 2 < segment {
          assert files.Keys == (files - {n}).Keys + {n};
          files := files - {n};
          removed := removed + 1;
        }
        left := left - {n};
      }
    }
  }

  // ---- runs from an empty directory ----

  datatype Step = Append(record: Record) | Collect

  /** The log with the records of each segment ever written, first segment first. */
  datatype Run = Run(log: Log, layout: seq<seq<Record>>)

  function Start(maxBytes: nat): Run { Run(Log(map[], false, 0, 0, maxBytes, 0), []) }

  function Placed(log: Log, layout: seq<seq<Record>>, r: Record): seq<seq<Record>> {
    if log.MustRotate() || layout == [] then layout + [[r]]
    else layout[..|layout| - 1] + [layout[|layout| - 1] + [r]]
  }

  function Next(s: Run, step: Step): Run {
    match step
    case Append(r) =>
      if s.log.MustRotate() || s.log.segment in s.log.files
      then Run(s.log.Append(r), Placed(s.log, s.layout, r)) else s
    case Collect => s.(log := s.log.Collect())
  }

  function After(maxBytes: nat, steps: seq<Step>): Run {
    if steps == [] then Start(maxBytes) else Next(After(maxBytes, steps[..|steps| - 1]), steps[|steps| - 1])
  }

  /** The records appended, in order. */
  function History(steps: seq<Step>): seq<Record> {
    if steps == [] then []
    else
      var last := steps[|steps| - 1];
      History(steps[..|steps| - 1]) + if last.Append? then [last.record] else []
  }

  /** A segment is only continued while it is below the maximum. */
  predicate WellFilled(rs: seq<Record>, maxBytes: nat) {
    rs != [] && (|rs| > 1 ==> |SegmentBytes(rs[..|rs| - 1])| < maxBytes)
  }

  ghost predicate Inv(s: Run) {
    && |s.layout| == s.log.segment
    && (s.log.open <==> s.log.segment > 0)
    && (forall n <- s.log.files :: 0 < n <= s.log.segment && s.log.files[n] == SegmentBytes(s.layout[n - 1]))
    && (forall n :: 0 < n <= s.log.segment && n + 2 >= s.log.segment ==> n in s.log.files)
    && (forall n, m | n in s.log.files && n < m <= s.log.segment :: m in s.log.files)
    && (s.log.segment > 0 ==> s.log.bytes == |SegmentBytes(s.layout[s.log.segment - 1])|)
    && (forall i :: 0 <= i < |s.layout| ==> WellFilled(s.layout[i], s.log.maxBytes))
    && (forall i :: 0 <= i < |s.layout| - 1 ==> |SegmentBytes(s.layout[i])| >= s.log.maxBytes)
  }

  lemma SegmentGrows(rs: seq<Record>, r: Record)
    ensures SegmentBytes(rs + [r]) == SegmentBytes(rs) + RecordBytes(r)
    ensures |SegmentBytes(rs + [r])| == |SegmentBytes(rs)| + 12 + |r.payload|
    ensures SegmentBytes([r]) == RecordBytes(r)
  {
    hide ToBE;
    assert (rs + [r])[..|rs + [r]| - 1] == rs;
    assert [r][..0] == [] && SegmentBytes([]) == [];
    assert [] + RecordBytes(r) == RecordBytes(r);
  }

  lemma RotateKeeps(s: Run, r: Record)
    requires Inv(s) && s.log.MustRotate()
    ensures Inv(Next(s, Append(r)))
  {
    hide RecordBytes, SegmentBytes;
    SegmentGrows([], r);
    assert s.log.segment + 1 !in s.log.files;
    var t := Next(s, Append(r));
    assert [] + RecordBytes(r) == RecordBytes(r);
    assert forall i :: 0 <= i < |s.layout| ==> t.layout[i] == s.layout[i];
    assert t.layout[|s.layout|] == [r];
  }

  lemma ContinueKeeps(s: Run, r: Record)
    requires Inv(s) && !s.log.MustRotate()
    ensures Inv(Next(s, Append(r)))
  {
    hide RecordBytes, SegmentBytes;
    var n := |s.layout|;
    var last := s.layout[n - 1];
    SegmentGrows(last, r);
    var t := Next(s, Append(r));
    assert forall i :: 0 <= i < n - 1 ==> t.layout[i] == s.layout[i];
    assert t.layout[n - 1] == last + [r] && (last + [r])[..|last|] == last;
  }

  lemma StepKeeps(s: Run, step: Step)
    requires Inv(s)
    ensures Inv(Next(s, step))
  {
    if step.Append? {
      if s.log.MustRotate() { RotateKeeps(s, step.record); } else { ContinueKeeps(s, step.record); }
    }
  }

  lemma PlacedFlat(log: Log, layout: seq<seq<Record>>, r: Record)
    ensures Flatten(Placed(log, layout, r)) == Flatten(layout) + [r]
  {
    var p := Placed(log, layout, r);
    if log.MustRotate() || layout == [] {
      assert p[..|p| - 1] == layout;
    } else {
      assert p[..|p| - 1] == layout[..|layout| - 1];
    }
  }

  lemma {:induction false} RunKeeps(maxBytes: nat, steps: seq<Step>)
    ensures Inv(After(maxBytes, steps)) && Flatten(After(maxBytes, steps).layout) == History(steps)
    ensures After(maxBytes, steps).log.maxBytes == maxBytes
  {
    hide RecordBytes, SegmentBytes, Inv;
    if steps == [] {
      EmptyInv(maxBytes);
    } else {
      var s, step := After(maxBytes, steps[..|steps| - 1]), steps[|steps| - 1];
      RunKeeps(maxBytes, steps[..|steps| - 1]);
      StepKeeps(s, step);
      if step.Append? {
        CanAppend(s);
        PlacedFlat(s.log, s.layout, step.record);
      }
    }
  }

  lemma EmptyInv(maxBytes: nat)
    ensures Inv(Start(maxBytes))
  {
  }

  lemma CanAppend(s: Run)
    requires Inv(s)
    ensures s.log.MustRotate() || s.log.segment in s.log.files
  {
  }

  /** Over every run from an empty directory whose records fit: the files left are those of the last segments (all of
      them when nothing was collected), each reads back as the whole records placed in its segment, together they
      are a suffix of the history, and a segment reaches the maximum with its last record only. */
  lemma WalFraming(maxBytes: nat, steps: seq<Step>) returns (first: nat)
    requires forall r <- History(steps) :: Fits(r)
    ensures var s := After(maxBytes, steps);
            && first <= s.log.segment == |s.layout|
            && (forall n :: n in s.log.files <==> first < n <= s.log.segment)
            && (Collect !in steps ==> first == 0)
            && (forall n :: first < n <= |s.layout| ==> ParseSegment(s.log.files[n]) == Some(s.layout[n - 1]))
            && Flatten(s.layout[..first]) + Flatten(s.layout[first..]) == History(steps)
            && (forall i :: 0 <= i < |s.layout| ==> WellFilled(s.layout[i], maxBytes))
            && (forall i :: 0 <= i < |s.layout| - 1 ==> |SegmentBytes(s.layout[i])| >= maxBytes)
  {
    hide SegmentBytes, ParseSegment, RecordBytes, After;
    var s := After(maxBytes, steps);
    RunKeeps(maxBytes, steps);
    first := FilesAreLast(maxBytes, steps);
    forall n | n in s.log.files ensures ParseSegment(s.log.files[n]) == Some(s.layout[n - 1]) {
      forall r <- s.layout[n - 1] ensures Fits(r) { InFlat(s.layout, n - 1, r); }
      SegmentReadsBack(s.layout[n - 1]);
    }
    FlattenSplit(s.layout, first);
  }

  /** The writer remembers the LSN of the last record appended. */
  lemma {:induction false} LastLsnIsLast(maxBytes: nat, steps: seq<Step>)
    ensures var h := History(steps);
            After(maxBytes, steps).log.lastLsn == if h == [] then 0 else h[|h| - 1].lsn
  {
    hide RecordBytes;
    if steps != [] {
      LastLsnIsLast(maxBytes, steps[..|steps| - 1]);
      RunKeeps(maxBytes, steps[..|steps| - 1]);
      CanAppend(After(maxBytes, steps[..|steps| - 1]));
    }
  }

  /** A collection leaves exactly the files of the current segment and the two before it. */
  lemma CollectLeavesThree(maxBytes: nat, steps: seq<Step>, n: nat)
    ensures var s := After(maxBytes, steps + [Collect]);
            n in s.log.files <==> 0 < n <= s.log.segment && n + 2 >= s.log.segment
  {
    hide SegmentBytes;
    RunKeeps(maxBytes, steps);
    assert (steps + [Collect])[..|steps|] == steps;
  }

  lemma FilesAreLast(maxBytes: nat, steps: seq<Step>) returns (first: nat)
    ensures var s := After(maxBytes, steps);
            && first <= s.log.segment && (forall n :: n in s.log.files <==> first < n <= s.log.segment)
            && (Collect !in steps ==> first == 0)
  {
    hide After, SegmentBytes;
    var s := After(maxBytes, steps);
    RunKeeps(maxBytes, steps);
    first := s.log.segment;
    while first > 0 && first in s.log.files
      invariant first <= s.log.segment
      invariant forall n :: first < n <= s.log.segment ==> n in s.log.files
    {
      first := first - 1;
    }
    if Collect !in steps { NothingCollected(maxBytes, steps); }
  }

  ghost predicate AllPresent(log: Log) { forall n :: 0 < n <= log.segment ==> n in log.files }

  lemma {:induction false} NothingCollected(maxBytes: nat, steps: seq<Step>)
    requires Collect !in steps
    ensures AllPresent(After(maxBytes, steps).log)
  {
    hide RecordBytes, Placed;
    if steps != [] {
      NothingCollected(maxBytes, steps[..|steps| - 1]);
      var s, step := After(maxBytes, steps[..|steps| - 1]), steps[|steps| - 1];
      assert step in steps && step.Append?;
      var t := Next(s, step).log;
      assert forall n <- s.log.files :: n in t.files;
      assert t.segment == s.log.segment || (t.segment == s.log.segment + 1 && t.segment in t.files);
    }
  }

  lemma {:induction false} InFlat(layout: seq<seq<Record>>, i: nat, r: Record)
    requires i < |layout| && r in layout[i]
    ensures r in Flatten(layout)
  {
    if i < |layout| - 1 { InFlat(layout[..|layout| - 1], i, r); }
  }

  lemma {:induction false} FlattenSplit(layout: seq<seq<Record>>, k: nat)
    requires k <= |layout|
    ensures Flatten(layout[..k]) + Flatten(layout[k..]) == Flatten(layout)
  {
    if k == |layout| {
      assert layout[..k] == layout && layout[k..] == [];
    } else {
      var front := layout[..|layout| - 1];
      FlattenSplit(front, k);
      assert front[..k] == layout[..k] && front[k..] == layout[k..][..|layout| - k - 1];
    }
  }
}
