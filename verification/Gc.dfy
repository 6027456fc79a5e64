/** Consumer offsets, the garbage-collection watermark and compaction. */
module Gc {
  import opened Bytes
  import opened Events
  import opened Store
  import opened Codec
  import opened Replay

  type Offsets = map<Text, u64>

  // ---- the watermark ----

  /** The least offset; 0 when there is no consumer or all of them are at the maximum (the sentinel of the loop). */
  ghost predicate IsWatermark(m: Offsets, w: u64) {
    if forall c <- m :: m[c] == U64_MAX then w == 0
    else (exists c <- m :: m[c] == w) && w < U64_MAX && forall c <- m :: w <= m[c]
  }

  lemma WatermarkUnique(m: Offsets, v: u64, w: u64)
    requires IsWatermark(m, v) && IsWatermark(m, w)
    ensures v == w
  {
  }

  lemma {:induction false} MinExists(m: Offsets, keys: set<Text>) returns (w: u64)
    requires keys <= m.Keys
    ensures (w == U64_MAX || exists c <- keys :: m[c] == w) && forall c <- keys :: w <= m[c]
  {
    w := U64_MAX;
    if keys != {} {
      var c :| c in keys;
      var v := MinExists(m, keys - {c});
      w := if m[c] < v then m[c] else v;
    }
  }

  ghost function Watermark(m: Offsets): (w: u64)
    ensures IsWatermark(m, w)
  {
    assert exists w: u64 :: IsWatermark(m, w) by {
      var v := MinExists(m, m.Keys);
      assert IsWatermark(m, if v == U64_MAX then 0 else v);
    }
    var w: u64 :| IsWatermark(m, w); w
  }

  /** The loop shared by the registry and the tracker; the map is visited in any order. */
  method MinValue(m: Offsets) returns (w: u64)
    ensures w == Watermark(m)
  {
    var min, left := U64_MAX, m.Keys;
    while left != {}
      invariant left <= m.Keys
      invariant min == U64_MAX || exists c <- m :: m[c] == min
      invariant forall c <- m :: c in left || min <= m[c]
      decreases left
    {
      var c :| c in left;
      if m[c] < min { min := m[c]; }
      left := left - {c};
    }
    w := if min == U64_MAX then 0 else min;
    assert IsWatermark(m, w);
    WatermarkUnique(m, w, Watermark(m));
  }

  // ---- registry, manager, tracker, scheduler ----

  /** A commit is refused exactly when it would go back. */
  predicate Regresses(m: Offsets, c: Text, lsn: u64) { c in m && m[c] > lsn }

  function ResumeFrom(m: Offsets, c: Text): u64 { if c in m then Lsn.SaturatingAdd(m[c], 1) else 0 }

  /** Offset registry and manager. Registering a consumer changes nothing: it is tracked from its first commit. */
  class OffsetManager {
    var offsets: Offsets

    constructor ()
      ensures offsets == map[]
    {
      offsets := map[];
    }

    method Commit(c: Text, lsn: u64) returns (ok: bool)
      modifies this
      ensures ok <==> c !in old(offsets) || old(offsets)[c] <= lsn
      ensures ok == !Regresses(old(offsets), c, lsn)
      ensures offsets == if ok then old(offsets)[c := lsn] else old(offsets)
    {
      if c in offsets {
        var current := offsets[c];
        if current > lsn { return false; }
      }
      offsets := offsets[c := lsn];
      return true;
    }

    method UnregisterConsumer(c: Text)
      modifies this
      ensures offsets == old(offsets) - {c}
    {
      offsets := offsets - {c};
    }

    method ResumeLsn(c: Text) returns (lsn: u64)
      ensures lsn == ResumeFrom(offsets, c)
    {
      if c in offsets { lsn := Lsn.SaturatingAdd(offsets[c], 1); } else { lsn := 0; }
    }

    method MinOffset() returns (w: u64)
      ensures w == Watermark(offsets)
    {
      w := MinValue(offsets);
    }
  }

  class GcScheduler {
    /** The scheduler's watermark tracker. */
    var consumers: Offsets
    var lastGcWatermark: u64
    var gcRuns: nat

    constructor ()
      ensures consumers == map[] && lastGcWatermark == 0 && gcRuns == 0
    {
      consumers, lastGcWatermark, gcRuns := map[], 0, 0;
    }

    method Update(c: Text, lsn: u64)
      modifies this`consumers
      ensures consumers == old(consumers)[c := lsn]
    {
      consumers := consumers[c := lsn];
    }

    method Remove(c: Text)
      modifies this`consumers
      ensures consumers == old(consumers) - {c}
    {
      consumers := consumers - {c};
    }

    method MaybeGc() returns (w: Option<u64>)
      modifies this`lastGcWatermark, this`gcRuns
      ensures w == if Watermark(consumers) > old(lastGcWatermark) then Some(Watermark(consumers)) else None
      ensures lastGcWatermark == if w.Some? then w.value else old(lastGcWatermark)
      ensures gcRuns == old(gcRuns) + if w.Some? then 1 else 0
    {
      var current := MinValue(consumers);
      if current > lastGcWatermark {
        lastGcWatermark := current;
        gcRuns := gcRuns + 1;
        return Some(current);
      }
      return None;
    }
  }

  // ---- commits, collections and compactions as one system ----

  datatype Pending = Pending(consumer: Text, lsn: u64)

  /** The loop of `watermark` over the concurrent map, under way: the least value seen, the consumers seen, those
      there since the start and still to be seen, and those that came during the scan. The iterator sees every
      consumer that stays; it may or may not see one that comes. */
  datatype Scan = Scan(min: u64, visited: set<Text>, owed: set<Text>, joined: set<Text>) {
    function Result(): u64 { if min == U64_MAX then 0 else min }

    function Join(c: Text): Scan { this.(joined := joined + {c}) }

    function Leave(c: Text): Scan { Scan(min, visited - {c}, owed - {c}, joined - {c}) }

    function Visit(c: Text, lsn: u64): Scan {
      Scan(if lsn < min then lsn else min, visited + {c}, owed - {c}, joined)
    }
  }

  /** `full` is what the store would hold had nothing been collected, `kept` what it holds and `bytes` how it is
      stored. A commit is a check and a later insert by the same thread; `inflight` holds the commits in between. */
  datatype State = State(offsets: Offsets, tracker: Offsets, inflight: map<nat, Pending>, lastGc: u64,
                         issued: seq<u64>, full: Contents, kept: Contents, bytes: Db, scan: Option<Scan>)

  datatype Step =
    | Write(events: seq<ChangeEvent>)
    | CommitCheck(thread: nat, consumer: Text, lsn: u64)
    | CommitStore(thread: nat)
    | Unregister(consumer: Text)
    | RunGc
    | ScanStart
    | ScanVisit(consumer: Text)
    | ScanFinish
    | Compact(watermark: u64, keys: set<Key>)

  const INITIAL: State := State(map[], map[], map[], 0, [], map[], map[], map[], None)

  /** Compaction visits some keys and drops those its filter rejects. */
  function Compacted<T>(c: map<Key, T>, watermark: u64, keys: set<Key>): map<Key, T> {
    map k | k in c && !(k in keys && GcFilter(watermark).Removes(k)) :: c[k]
  }

  function Issue(s: State, w: u64): State {
    if w > s.lastGc then s.(lastGc := w, issued := s.issued + [w]) else s
  }

  function OnScan(scan: Option<Scan>, f: Scan -> Scan): Option<Scan> {
    match scan
    case None => None
    case Some(x) => Some(f(x))
  }

  /** `RunGc` is a collection whose scan nothing interrupts; `ScanStart`, `ScanVisit` and `ScanFinish` are the parts of
      one that commits and removals may interrupt. */
  ghost function Next(s: State, step: Step): State {
    match step
    case Write(es) =>
      s.(full := PutAll(s.full, es), kept := PutAll(s.kept, es), bytes := WriteAll(s.bytes, es))
    case CommitCheck(t, c, lsn) =>
      if t in s.inflight || Regresses(s.offsets, c, lsn) then s else s.(inflight := s.inflight[t := Pending(c, lsn)])
    case CommitStore(t) =>
      if t !in s.inflight then s
      else
        var p := s.inflight[t];
        s.(offsets := s.offsets[p.consumer := p.lsn], tracker := s.tracker[p.consumer := p.lsn],
           inflight := s.inflight - {t},
           scan := if p.consumer in s.tracker then s.scan else OnScan(s.scan, (x: Scan) => x.Join(p.consumer)))
    case Unregister(c) =>
      s.(offsets := s.offsets - {c}, tracker := s.tracker - {c}, scan := OnScan(s.scan, (x: Scan) => x.Leave(c)))
    case RunGc => Issue(s, Watermark(s.tracker))
    case ScanStart => if s.scan.Some? then s else s.(scan := Some(Scan(U64_MAX, {}, s.tracker.Keys, {})))
    case ScanVisit(c) =>
      if s.scan.None? || c !in s.tracker || c in s.scan.value.visited then s
      else s.(scan := Some(s.scan.value.Visit(c, s.tracker[c])))
    case ScanFinish =>
      if s.scan.None? || s.scan.value.owed != {} then s else Issue(s.(scan := None), s.scan.value.Result())
    case Compact(w, keys) =>
      if w in s.issued then s.(kept := Compacted(s.kept, w, keys), bytes := Compacted(s.bytes, w, keys)) else s
  }

  /** The consumers that came during the scan and were not seen resume at or above its result. */
  predicate MissedAreAhead(s: State) {
    s.scan.Some? ==>
      forall c <- s.scan.value.joined :: c in s.scan.value.visited || ResumeFrom(s.offsets, c) >= s.scan.value.Result()
  }

  /** Commits of one consumer do not overlap, a commit by a consumer without an offset does not reach back behind what
      was already collected, and no scan advances the watermark past a consumer that came behind it. */
  predicate Allowed(s: State, step: Step) {
    match step
    case CommitCheck(_, c, _) => forall t <- s.inflight :: s.inflight[t].consumer != c
    case CommitStore(t) =>
      t in s.inflight && s.inflight[t].consumer !in s.offsets ==> Lsn.SaturatingAdd(s.inflight[t].lsn, 1) >= s.lastGc
    case ScanFinish => s.scan.Some? && s.scan.value.owed == {} && s.scan.value.Result() > s.lastGc ==> MissedAreAhead(s)
    case _ => true
  }

  ghost function Run(steps: seq<Step>): State {
    if steps == [] then INITIAL else Next(Run(steps[..|steps| - 1]), steps[|steps| - 1])
  }

  ghost predicate AllowedRun(steps: seq<Step>) {
    steps == [] || (AllowedRun(steps[..|steps| - 1]) && Allowed(Run(steps[..|steps| - 1]), steps[|steps| - 1]))
  }

  // ---- invariant ----

  ghost predicate CommitsOk(s: State) {
    && s.tracker == s.offsets
    && (forall t <- s.inflight :: !Regresses(s.offsets, s.inflight[t].consumer, s.inflight[t].lsn))
    && (forall t, u | t in s.inflight && u in s.inflight && t != u :: s.inflight[t].consumer != s.inflight[u].consumer)
    && (forall c <- s.offsets :: ResumeFrom(s.offsets, c) >= s.lastGc)
  }

  ghost predicate IssuedOk(s: State) {
    && (forall i, j :: 0 <= i < j < |s.issued| ==> s.issued[i] < s.issued[j])
    && (if s.issued == [] then s.lastGc == 0 else s.lastGc == s.issued[|s.issued| - 1] > 0)
  }

  /** Only events below the last watermark have been dropped. */
  ghost predicate KeptOk(s: State) {
    && Keyed(s.full)
    && (forall k <- s.kept :: k in s.full && s.kept[k] == s.full[k])
    && (forall k <- s.full :: k in s.kept || s.full[k].lsn < s.lastGc)
  }

  /** Every tracked consumer is still to be seen, was seen at no more than its offset, or came during the scan. */
  ghost predicate ScanOk(s: State) {
    s.scan.Some? ==>
      var x := s.scan.value;
      && x.visited <= s.offsets.Keys && x.owed <= s.offsets.Keys && x.joined <= s.offsets.Keys
      && (forall c <- x.visited :: x.min <= s.offsets[c])
      && (forall c <- s.offsets :: c in x.owed || c in x.visited || c in x.joined)
  }

  ghost predicate Inv(s: State) { CommitsOk(s) && IssuedOk(s) && KeptOk(s) && ScanOk(s) }

  lemma {:induction false} PutAllKeepsKept(s: State, es: seq<ChangeEvent>)
    requires KeptOk(s)
    ensures KeptOk(s.(full := PutAll(s.full, es), kept := PutAll(s.kept, es)))
  {
    hide KeyOf;
    if es != [] { PutAllKeepsKept(s, es[..|es| - 1]); }
  }

  lemma CompactKeeps(s: State, w: u64, keys: set<Key>)
    requires Inv(s) && w in s.issued
    ensures Inv(Next(s, Compact(w, keys)))
  {
    hide KeyOf;
    assert w <= s.lastGc;
    forall k <- s.kept ensures GcFilter(w).Removes(k) ==> s.kept[k].lsn < w {
      GcFilterExact(w, s.kept[k]);
    }
  }

  lemma CheckKeeps(s: State, step: Step)
    requires Inv(s) && Allowed(s, step) && step.CommitCheck?
    ensures Inv(Next(s, step))
  {
    hide KeyOf, KeptOk;
    assert KeptOk(Next(s, step)) by { KeptByStore(s, Next(s, step)); }
  }

  lemma StoreKeeps(s: State, step: Step)
    requires Inv(s) && Allowed(s, step) && step.CommitStore?
    ensures Inv(Next(s, step))
  {
    hide KeyOf, KeptOk;
    if step.thread in s.inflight {
      var p, t := s.inflight[step.thread], Next(s, step);
      assert forall c <- t.offsets :: c == p.consumer || (c in s.offsets && t.offsets[c] == s.offsets[c]);
      assert KeptOk(t) by { KeptByStore(s, t); }
    }
  }

  lemma UnregisterKeeps(s: State, c: Text)
    requires Inv(s)
    ensures Inv(Next(s, Unregister(c)))
  {
    hide KeyOf, KeptOk;
    assert KeptOk(Next(s, Unregister(c))) by { KeptByStore(s, Next(s, Unregister(c))); }
  }

  /** What is kept depends on the store and the last watermark only. */
  lemma KeptByStore(s: State, t: State)
    requires KeptOk(s) && t.full == s.full && t.kept == s.kept && t.lastGc == s.lastGc
    ensures KeptOk(t)
  {
    hide KeyOf;
  }

  /** A watermark that no tracked consumer has still to read below can be issued. */
  lemma IssueKeeps(s: State, w: u64)
    requires Inv(s) && (w > s.lastGc ==> forall c <- s.offsets :: ResumeFrom(s.offsets, c) >= w)
    ensures Inv(Issue(s, w))
  {
    hide KeyOf, ResumeFrom;
    var t := Issue(s, w);
    assert s.lastGc <= t.lastGc;
    assert IssuedOk(t);
  }

  lemma GcKeeps(s: State)
    requires Inv(s)
    ensures Inv(Next(s, RunGc))
  {
    hide KeptOk, IssuedOk, ScanOk;
    var w := Watermark(s.tracker);
    assert forall c <- s.offsets :: w <= s.offsets[c] <= ResumeFrom(s.offsets, c);
    IssueKeeps(s, w);
  }

  lemma ScanStepKeeps(s: State, step: Step)
    requires Inv(s) && (step.ScanStart? || step.ScanVisit?)
    ensures Inv(Next(s, step))
  {
    hide PutAll, KeyOf, IsWatermark;
    var t := Next(s, step);
    assert t == s.(scan := t.scan);
    assert CommitsOk(t) && IssuedOk(t) && KeptOk(t);
  }

  lemma ScanFinishKeeps(s: State)
    requires Inv(s) && Allowed(s, ScanFinish)
    ensures Inv(Next(s, ScanFinish))
  {
    hide KeptOk, IssuedOk;
    if s.scan.Some? && s.scan.value.owed == {} {
      var x := s.scan.value;
      assert x.Result() > s.lastGc ==> forall c <- s.offsets ::
        if c in x.visited then x.Result() <= s.offsets[c] <= ResumeFrom(s.offsets, c)
        else ResumeFrom(s.offsets, c) >= x.Result();
      ScanDropped(s);
      IssueKeeps(s.(scan := None), x.Result());
    }
  }

  lemma ScanDropped(s: State)
    requires Inv(s)
    ensures Inv(s.(scan := None))
  {
    hide KeyOf, ResumeFrom, Regresses;
  }

  lemma StepKeeps(s: State, step: Step)
    requires Inv(s) && Allowed(s, step)
    ensures Inv(Next(s, step))
  {
    hide PutAll, CommitsOk, IssuedOk, KeptOk, ScanOk, Compacted;
    match step
    case Write(es) => WriteKeepsContents(s, es); WriteKeepsRest(s, es);
    case RunGc => GcKeeps(s);
    case ScanStart => ScanStepKeeps(s, step);
    case ScanVisit(_) => ScanStepKeeps(s, step);
    case ScanFinish => ScanFinishKeeps(s);
    case Compact(w, keys) => if w in s.issued { CompactKeeps(s, w, keys); }
    case CommitCheck(_, _, _) => CheckKeeps(s, step);
    case CommitStore(_) => StoreKeeps(s, step);
    case Unregister(c) => UnregisterKeeps(s, c);
  }

  lemma WriteKeepsContents(s: State, es: seq<ChangeEvent>)
    requires KeptOk(s)
    ensures KeptOk(Next(s, Write(es)))
  {
    hide PutAll, KeyOf, WriteAll;
    PutAllKeepsKept(s, es);
  }

  lemma WriteKeepsRest(s: State, es: seq<ChangeEvent>)
    requires CommitsOk(s) && IssuedOk(s) && ScanOk(s)
    ensures CommitsOk(Next(s, Write(es))) && IssuedOk(Next(s, Write(es))) && ScanOk(Next(s, Write(es)))
  {
  }

  lemma {:induction false} RunKeeps(steps: seq<Step>)
    requires AllowedRun(steps)
    ensures Inv(Run(steps))
  {
    hide Next, Allowed, PutAll;
    if steps != [] {
      RunKeeps(steps[..|steps| - 1]);
      StepKeeps(Run(steps[..|steps| - 1]), steps[|steps| - 1]);
    }
  }

  /** Every event written, in order. */
  function Writes(steps: seq<Step>): seq<ChangeEvent> {
    if steps == [] then []
    else
      var last := steps[|steps| - 1];
      Writes(steps[..|steps| - 1]) + if last.Write? then last.events else []
  }

  /** `full` is indeed what the write history alone gives. */
  lemma {:induction false} FullIsHistory(steps: seq<Step>)
    ensures Run(steps).full == PutAll(map[], Writes(steps))
  {
    hide PutAll, Next;
    if steps != [] {
      var front, last := steps[..|steps| - 1], steps[|steps| - 1];
      FullIsHistory(front);
      StepFull(Run(front), last);
      if last.Write? {
        PutAllConcat(map[], Writes(front), last.events);
      } else {
        assert Writes(front) + [] == Writes(front);
      }
    } else {
      NothingPut();
    }
  }

  lemma StepFull(s: State, step: Step)
    ensures Next(s, step).full == if step.Write? then PutAll(s.full, step.events) else s.full
  {
    hide PutAll, WriteAll, Compacted, IsWatermark;
  }

  lemma NothingPut()
    ensures PutAll(map[], []) == map[]
  {
  }

  /** Compacting bytes is compacting what they stand for. */
  lemma CompactHolds(db: Db, c: Contents, watermark: u64, keys: set<Key>)
    requires Holds(db, c)
    ensures Holds(Compacted(db, watermark, keys), Compacted(c, watermark, keys))
  {
    hide KeyOf, WellFormed, EventBytes;
  }

  /** Over every run whose events fit the codec, the bytes are the byte form of what is kept. */
  lemma {:induction false} BytesHold(steps: seq<Step>)
    requires forall e <- Writes(steps) :: WellFormed(e)
    ensures Holds(Run(steps).bytes, Run(steps).kept)
  {
    hide PutAll, WriteAll, Compacted, KeyOf, WellFormed, EventBytes, Holds;
    if steps == [] {
      NothingHeld();
    } else {
      var front, last := steps[..|steps| - 1], steps[|steps| - 1];
      forall e <- Writes(front) ensures WellFormed(e) { assert e in Writes(steps); }
      BytesHold(front);
      var s := Run(front);
      match last
      case Write(es) =>
        forall e <- es ensures WellFormed(e) { assert e in Writes(steps); }
        WriteHolds(s.bytes, s.kept, es);
      case Compact(w, keys) => CompactHolds(s.bytes, s.kept, w, keys);
      case _ =>
    }
  }

  lemma NothingHeld()
    ensures Holds(map[], map[])
  {
  }

  // ---- safety ----

  /** No filter built from an issued watermark removes an event that a tracked consumer has still to read. */
  ghost predicate Safe(s: State) {
    forall c, w, e: ChangeEvent | c in s.offsets && w in s.issued && e.lsn >= ResumeFrom(s.offsets, c) ::
      !GcFilter(w).Removes(KeyOf(e))
  }

  lemma IssuedBelowLast(s: State, w: u64)
    requires IssuedOk(s) && w in s.issued
    ensures w <= s.lastGc
  {
  }

  /** Over every allowed run: no filter ever issued is unsafe, watermarks strictly increase, and each tracked
      consumer reads on exactly as if nothing had ever been collected. */
  lemma GcSafety(steps: seq<Step>, c: Text)
    requires AllowedRun(steps) && c in Run(steps).offsets
    ensures var s := Run(steps);
            && Safe(s)
            && (forall i, j :: 0 <= i < j < |s.issued| ==> s.issued[i] < s.issued[j])
            && From(Log(s.kept), ResumeFrom(s.offsets, c)) == From(Log(s.full), ResumeFrom(s.offsets, c))
  {
    hide Run, AllowedRun, KeyOf, From, Log;
    var s := Run(steps);
    RunKeeps(steps);
    forall d, w, e: ChangeEvent | d in s.offsets && w in s.issued && e.lsn >= ResumeFrom(s.offsets, d)
      ensures !GcFilter(w).Removes(KeyOf(e))
    {
      GcFilterExact(w, e);
      IssuedBelowLast(s, w);
    }
    ReadsOn(s, ResumeFrom(s.offsets, c));
  }

  lemma ReadsOn(s: State, lsn: u64)
    requires KeptOk(s) && lsn >= s.lastGc
    ensures From(Log(s.kept), lsn) == From(Log(s.full), lsn)
  {
    hide From, Log, KeyOf, Ordered;
    LogOrdered(s.kept);
    LogOrdered(s.full);
    FromMembers(Log(s.kept), lsn);
    FromMembers(Log(s.full), lsn);
    forall e ensures e in From(Log(s.kept), lsn) <==> e in From(Log(s.full), lsn) { }
    OrderedUnique(From(Log(s.kept), lsn), From(Log(s.full), lsn));
  }

  lemma CompactExact(c: Contents, watermark: u64, e: ChangeEvent)
    requires Keyed(c)
    ensures e in Log(Compacted(c, watermark, c.Keys)) <==> e in Log(c) && e.lsn >= watermark
  {
    hide KeyOf, Log;
    GcFilterExact(watermark, e);
    LogOrdered(c);
    LogOrdered(Compacted(c, watermark, c.Keys));
  }

  /** A collection followed by a compaction of the whole store. */
  ghost function FullGc(s: State): State {
    var t := Next(s, RunGc);
    Next(t, Compact(t.lastGc, t.kept.Keys))
  }

  lemma FullGcFacts(s: State)
    requires Inv(s)
    ensures var u := FullGc(s);
            && u.offsets == s.offsets && u.full == s.full && u.lastGc == Max(s.lastGc, Watermark(s.offsets))
            && u.kept == (if u.issued == [] then s.kept else Compacted(s.kept, u.lastGc, s.kept.Keys))
            && (u.issued == [] ==> u.lastGc == 0) && Keyed(s.kept) && Keyed(u.kept)
  {
    hide IsWatermark, Compacted, KeptOk, CommitsOk, IssuedOk, Keyed;
    RunGcFacts(s);
    KeptKeyed(s);
    CompactKeyed(s.kept, Next(s, RunGc).lastGc, s.kept.Keys);
  }

  lemma RunGcFacts(s: State)
    requires CommitsOk(s) && IssuedOk(s)
    ensures var t := Next(s, RunGc);
            && t == s.(lastGc := t.lastGc, issued := t.issued) && t.lastGc == Max(s.lastGc, Watermark(s.offsets))
            && (if t.issued == [] then t.lastGc == 0 else t.lastGc in t.issued)
  {
    hide IsWatermark;
  }

  lemma KeptKeyed(s: State)
    requires KeptOk(s)
    ensures Keyed(s.kept)
  {
    hide KeyOf;
  }

  lemma CompactKeyed(c: Contents, watermark: u64, keys: set<Key>)
    requires Keyed(c)
    ensures Keyed(Compacted(c, watermark, keys))
  {
    hide KeyOf;
  }

  /** Collection is not only safe but thorough: it keeps exactly the events at or above the least offset of the tracked
      consumers, or the last watermark if that is higher. */
  lemma GcCollects(s: State, e: ChangeEvent)
    requires Inv(s)
    ensures FullGc(s).lastGc == Max(s.lastGc, Watermark(s.offsets))
    ensures e in Log(FullGc(s).kept) <==> e in Log(s.kept) && e.lsn >= FullGc(s).lastGc
  {
    hide KeyOf, Log, Compacted, IsWatermark, FullGc, Inv;
    FullGcFacts(s);
    CompactExact(s.kept, FullGc(s).lastGc, e);
  }

  /** Paged replay of the compacted store delivers to a tracked consumer every event ever written after its commit up
      to the head, in order and once each, exactly when no page of its size ends inside a run of events with one LSN;
      distinct LSNs rule that out for every page size. When the events written fit the codec, reading the stored bytes
      page by page delivers the same. */
  lemma ReplayAfterGc(steps: seq<Step>, c: Text, head: u64, limit: nat)
    requires AllowedRun(steps) && c in Run(steps).offsets
    ensures var s, written := Run(steps), Log(PutAll(map[], Writes(steps)));
            match RangeFor(s.offsets[c], head)
            case Some(range) =>
              && range.startLsn == ResumeFrom(s.offsets, c)
              && Ordered(Log(s.kept))
              && (Replayed(Log(s.kept), range.startLsn, head, limit) == Between(written, range.startLsn, head) <==>
                    PagesAligned(Between(written, range.startLsn, head), Max(limit, 1)))
              && (DistinctLsns(written, range.startLsn, head) ==>
                    PagesAligned(Between(written, range.startLsn, head), Max(limit, 1)))
              && ((forall e <- Writes(steps) :: WellFormed(e)) ==>
                   && Holds(s.bytes, s.kept)
                   && ReplayedBytes(s.bytes, s.kept, range.startLsn, head, limit)
                        == Replayed(Log(s.kept), range.startLsn, head, limit))
            case None => true
  {
    hide Run, AllowedRun, Log, From, DistinctLsns, Ordered, KeyOf, PutAll, Writes, WellFormed, Replayed, ReplayedBytes,
         Holds, PagesAligned;
    var s := Run(steps);
    var lo := ResumeFrom(s.offsets, c);
    FullIsHistory(steps);
    RunKeeps(steps);
    GcSafety(steps, c);
    LogOrdered(s.kept);
    LogOrdered(s.full);
    ReplayExactAtIff(Log(s.kept), lo, head, limit);
    ReplayExactIff(Log(s.full), lo, head);
    ReplayExactAtIff(Log(s.full), lo, head, limit);
    assert ReplaysExactly(Log(s.kept), lo, head, limit)
      <==> Replayed(Log(s.kept), lo, head, limit) == Between(Log(s.kept), lo, head);
    if forall e <- Writes(steps) :: WellFormed(e) {
      BytesHold(steps);
      BytesReplayLog(s.bytes, s.kept, lo, head, limit);
    }
  }

  /** Storing the first commit of a consumer leaves the system safe exactly when its resume position is not
      behind the last watermark. */
  lemma FirstCommitIff(s: State, t: nat)
    requires Inv(s) && t in s.inflight && s.inflight[t].consumer !in s.offsets
    ensures Safe(Next(s, CommitStore(t))) <==> Lsn.SaturatingAdd(s.inflight[t].lsn, 1) >= s.lastGc
  {
    hide KeyOf, KeptOk;
    var p, s' := s.inflight[t], Next(s, CommitStore(t));
    forall d, w, e: ChangeEvent | d in s'.offsets && w in s'.issued && e.lsn >= ResumeFrom(s'.offsets, d)
      ensures Lsn.SaturatingAdd(p.lsn, 1) >= s.lastGc ==> !GcFilter(w).Removes(KeyOf(e))
    {
      GcFilterExact(w, e);
      IssuedBelowLast(s, w);
    }
    var r := Lsn.SaturatingAdd(p.lsn, 1);
    if r < s.lastGc {
      var e := EventAt(r);
      GcFilterExact(s.lastGc, e);
      assert s.lastGc in s'.issued && p.consumer in s'.offsets && ResumeFrom(s'.offsets, p.consumer) == r;
    }
  }

  function EventAt(lsn: u64): ChangeEvent {
    ChangeEvent(lsn, 0, Insert, TableId([], []), 0, None, None, 0)
  }

  /** For a consumer without a commit, some issued filter removes an event it would read exactly when a watermark was
      issued at all. */
  lemma UncommittedUnprotectedIff(s: State, c: Text)
    requires IssuedOk(s) && c !in s.offsets
    ensures (exists w, e: ChangeEvent :: w in s.issued && e.lsn >= ResumeFrom(s.offsets, c) && Removed(w, e))
       <==> s.issued != []
  {
    hide KeyOf;
    if s.issued != [] {
      GcFilterExact(s.lastGc, EventAt(0));
      assert s.lastGc in s.issued && Removed(s.lastGc, EventAt(0));
    }
  }

  predicate Removed(w: u64, e: ChangeEvent) { GcFilter(w).Removes(KeyOf(e)) }

  /** After a collection, such a consumer still reads everything ever written exactly when nothing written lies below
      the watermark. */
  lemma UncommittedReadsIff(s: State, c: Text)
    requires Inv(s) && c !in s.offsets
    ensures var u := FullGc(s);
            var from := ResumeFrom(u.offsets, c);
            From(Log(u.kept), from) == From(Log(u.full), from) <==> forall e <- Log(s.full) :: e.lsn >= u.lastGc
  {
    hide KeyOf, Log, From, Ordered, Inv, FullGc, Keyed;
    var u := FullGc(s);
    FullGcFacts(s);
    FullKeyed(s);
    LogOrdered(u.kept);
    LogOrdered(s.full);
    FromStart(Log(u.kept));
    FromStart(Log(s.full));
    forall e ensures e in Log(u.kept) <==> e in Log(s.full) && e.lsn >= u.lastGc { CollectedIff(s, e); }
    if forall e <- Log(s.full) :: e.lsn >= u.lastGc { OrderedUnique(Log(u.kept), Log(s.full)); }
  }

  lemma FullKeyed(s: State)
    requires Inv(s)
    ensures Keyed(s.full)
  {
    hide KeyOf;
  }

  lemma FromStart(log: seq<ChangeEvent>)
    ensures From(log, 0) == log
  {
  }

  /** What a collection keeps, of all that was ever written. */
  lemma CollectedIff(s: State, e: ChangeEvent)
    requires Inv(s)
    ensures e in Log(FullGc(s).kept) <==> e in Log(s.full) && e.lsn >= FullGc(s).lastGc
  {
    hide KeyOf, Log, FullGc, Keyed;
    GcCollects(s, e);
    FullGcFacts(s);
    FullKeyed(s);
    LogOrdered(s.full);
    LogOrdered(s.kept);
  }

  lemma RunAppend(steps: seq<Step>, step: Step)
    ensures Run(steps + [step]) == Next(Run(steps), step)
    ensures AllowedRun(steps + [step]) <==> AllowedRun(steps) && Allowed(Run(steps), step)
  {
    hide Next, Allowed;
    assert (steps + [step])[..|steps|] == steps;
  }

  /** One consumer commits, an older event is collected and dropped. */
  function DropSteps(e: ChangeEvent, d: Text, lsn: u64): seq<Step> {
    [Write([e])] + [CommitCheck(0, d, lsn)] + [CommitStore(0)] + [RunGc] + [Compact(lsn, {KeyOf(e)})]
  }

  lemma DropRun(e: ChangeEvent, d: Text, lsn: u64)
    requires e.lsn < lsn < U64_MAX
    ensures var s := Run(DropSteps(e, d, lsn));
            && AllowedRun(DropSteps(e, d, lsn))
            && s.offsets == s.tracker == map[d := lsn] && s.inflight == map[] && s.issued == [lsn] && s.lastGc == lsn
            && s.full == map[KeyOf(e) := e] && s.kept == map[] && s.scan == None
  {
    hide KeyOf, IsWatermark, PutAll, WriteAll, Run, AllowedRun;
    var w, k := [Write([e])], CommitCheck(0, d, lsn);
    assert Run([]) == INITIAL && AllowedRun([]) by { NothingRun(); }
    RunAppend([], Write([e]));
    assert [] + w == w;
    PutOne(e);
    RunAppend(w, k);
    RunAppend(w + [k], CommitStore(0));
    RunAppend(w + [k] + [CommitStore(0)], RunGc);
    RunAppend(w + [k] + [CommitStore(0)] + [RunGc], Compact(lsn, {KeyOf(e)}));
    SoleWatermark(d, lsn);
    GcFilterExact(lsn, e);
  }

  lemma NothingRun()
    ensures Run([]) == INITIAL && AllowedRun([])
  {
  }

  lemma PutOne(e: ChangeEvent)
    ensures PutAll(map[], [e]) == map[KeyOf(e) := e]
  {
    hide KeyOf;
    assert [e][..0] == [];
  }

  lemma SoleWatermark(d: Text, lsn: u64)
    requires lsn < U64_MAX
    ensures Watermark(map[d := lsn]) == lsn
  {
    var m := map[d := lsn];
    assert d in m && m[d] == lsn;
    WatermarkUnique(m, Watermark(m), lsn);
  }

  /** For every event older than another consumer's commit there is an allowed run that loses it: a consumer without a
      commit would read it, and it is gone. When that consumer then commits below it, the run is no longer safe and
      the consumer misses the event. */
  lemma LateConsumerLoses(e: ChangeEvent, d: Text, lsn: u64, c: Text, late: u64)
    requires late < e.lsn < lsn < U64_MAX && c != d
    ensures var s := Run(DropSteps(e, d, lsn));
            && AllowedRun(DropSteps(e, d, lsn)) && c !in s.offsets && e.lsn >= ResumeFrom(s.offsets, c)
            && e in Log(s.full) && e !in Log(s.kept)
    ensures var checked := DropSteps(e, d, lsn) + [CommitCheck(1, c, late)];
            var u := Run(checked + [CommitStore(1)]);
            && Inv(Run(checked)) && 1 in Run(checked).inflight && c !in Run(checked).offsets
            && !Safe(u) && e.lsn >= ResumeFrom(u.offsets, c) && e in Log(u.full) && e !in Log(u.kept)
  {
    hide KeyOf, Run, AllowedRun, Log, Safe, DropSteps, IsWatermark;
    var steps, check := DropSteps(e, d, lsn), CommitCheck(1, c, late);
    DropRun(e, d, lsn);
    RunAppend(steps, check);
    RunAppend(steps + [check], CommitStore(1));
    RunKeeps(steps + [check]);
    FirstCommitIff(Run(steps + [check]), 1);
    LogOrdered(Run(steps).full);
    LogOrdered(Run(steps).kept);
  }

  /** Once a consumer is unregistered, a collection keeps exactly the events at or above the least offset of the others,
      or the last watermark if that is higher; the others stay where they were. */
  lemma UnregisterReleases(s: State, c: Text, e: ChangeEvent)
    requires Inv(s)
    ensures var u := FullGc(Next(s, Unregister(c)));
            && (forall d <- s.offsets :: d != c ==> ResumeFrom(u.offsets, d) == ResumeFrom(s.offsets, d))
            && (e in Log(u.kept) <==> e in Log(s.kept) && e.lsn >= Max(s.lastGc, Watermark(s.offsets - {c})))
  {
    hide PutAll, KeptOk, IssuedOk, CommitsOk, Compacted, Log, FullGc;
    UnregisterKeeps(s, c);
    FullGcFacts(Next(s, Unregister(c)));
    GcCollects(Next(s, Unregister(c)), e);
  }
}
