/** The watermark scan that commits and removals interrupt. */
module GcScan {
  import opened Bytes
  import opened Events
  import opened Store
  import opened Replay
  import opened Gc

  // ---- undisturbed, a scan finds the watermark ----

  /** The state after the start of a scan and the first k visits. */
  ghost function Visited(s: State, order: seq<Text>, k: nat): State
    requires k <= |order|
  {
    if k == 0 then Next(s, ScanStart) else Next(Visited(s, order, k - 1), ScanVisit(order[k - 1]))
  }

  /** Each tracked consumer once, in any order. */
  ghost predicate Lists(order: seq<Text>, m: Offsets) {
    && (forall c :: c in order <==> c in m)
    && (forall i, j :: 0 <= i < j < |order| ==> order[i] != order[j])
  }

  lemma {:induction false} VisitedSoFar(s: State, order: seq<Text>, k: nat)
    requires s.scan.None? && Lists(order, s.tracker) && k <= |order|
    ensures var t := Visited(s, order, k);
            && t == s.(scan := t.scan) && t.scan.Some?
            && var x := t.scan.value;
               && x.joined == {} && (forall c :: c in x.visited <==> c in order[..k])
               && (forall c :: c in x.owed <==> c in s.tracker && c !in order[..k])
               && (x.min == U64_MAX || exists c <- x.visited :: c in s.tracker && s.tracker[c] == x.min)
               && (forall c <- x.visited :: c in s.tracker && x.min <= s.tracker[c])
  {
    hide Next;
    StartFacts(s);
    if k > 0 {
      VisitedSoFar(s, order, k - 1);
      VisitFacts(Visited(s, order, k - 1), order[k - 1]);
      assert order[..k] == order[..k - 1] + [order[k - 1]];
      assert order[k - 1] in order && order[k - 1] !in order[..k - 1];
    }
  }

  lemma StartFacts(s: State)
    requires s.scan.None?
    ensures Next(s, ScanStart) == s.(scan := Some(Scan(U64_MAX, {}, s.tracker.Keys, {})))
  {
  }

  lemma VisitFacts(s: State, c: Text)
    requires s.scan.Some? && c in s.tracker && c !in s.scan.value.visited
    ensures Next(s, ScanVisit(c)) == s.(scan := Some(s.scan.value.Visit(c, s.tracker[c])))
  {
  }

  /** In whatever order the consumers come, a scan that nothing interrupts issues what the watermark says. */
  lemma UndisturbedScan(s: State, order: seq<Text>)
    requires s.scan.None? && Lists(order, s.tracker)
    ensures Next(Visited(s, order, |order|), ScanFinish) == Next(s, RunGc)
  {
    hide Next, Visited, Watermark, IsWatermark;
    var t := Visited(s, order, |order|);
    VisitedSoFar(s, order, |order|);
    assert order[..|order|] == order;
    var x := t.scan.value;
    assert x.visited == s.tracker.Keys && x.owed == {};
    ResultIsWatermark(s.tracker, x);
    FinishFacts(t);
    GcFacts(s);
    assert t.(scan := None) == s;
  }

  lemma ResultIsWatermark(m: Offsets, x: Scan)
    requires x.visited == m.Keys && (forall c <- m :: x.min <= m[c])
    requires x.min == U64_MAX || exists c <- m :: m[c] == x.min
    ensures x.Result() == Watermark(m)
  {
    assert IsWatermark(m, x.Result());
    WatermarkUnique(m, x.Result(), Watermark(m));
  }

  lemma FinishFacts(s: State)
    requires s.scan.Some? && s.scan.value.owed == {}
    ensures Next(s, ScanFinish) == Issue(s.(scan := None), s.scan.value.Result())
  {
  }

  lemma GcFacts(s: State)
    ensures Next(s, RunGc) == Issue(s, Watermark(s.tracker))
  {
  }

  // ---- interrupted ----

  /** Whoever a finished scan did not see came while it ran. */
  lemma UnseenAreNew(s: State, c: Text)
    requires Inv(s) && s.scan.Some? && s.scan.value.owed == {} && c in s.offsets
    ensures c in s.scan.value.visited || c in s.scan.value.joined
  {
    hide KeptOk, CommitsOk, IssuedOk;
  }

  /** Finishing a scan that advances the watermark leaves the system safe exactly when each consumer that came during
      the scan and was not seen resumes at or above its result. */
  lemma ScanFinishIff(s: State)
    requires Inv(s) && s.scan.Some? && s.scan.value.owed == {} && s.scan.value.Result() > s.lastGc
    ensures Safe(Next(s, ScanFinish)) <==> MissedAreAhead(s)
  {
    hide KeyOf, KeptOk, Safe;
    var w, t := s.scan.value.Result(), Next(s, ScanFinish);
    if MissedAreAhead(s) {
      ScanFinishKeeps(s);
      SafeByInv(t);
    } else {
      var c :| c in s.scan.value.joined && c !in s.scan.value.visited && ResumeFrom(s.offsets, c) < w;
      UnsafeFor(t, c, w);
    }
  }

  lemma SafeByInv(s: State)
    requires Inv(s)
    ensures Safe(s)
  {
    hide KeyOf, KeptOk, ScanOk;
    forall d, w, e: ChangeEvent | d in s.offsets && w in s.issued && e.lsn >= ResumeFrom(s.offsets, d)
      ensures !GcFilter(w).Removes(KeyOf(e))
    {
      GcFilterExact(w, e);
      IssuedBelowLast(s, w);
    }
  }

  lemma UnsafeFor(s: State, c: Text, w: u64)
    requires c in s.offsets && w in s.issued && ResumeFrom(s.offsets, c) < w
    ensures !Safe(s)
  {
    hide KeyOf;
    var e := EventAt(ResumeFrom(s.offsets, c));
    GcFilterExact(w, e);
    assert GcFilter(w).Removes(KeyOf(e));
  }

  /** What a new consumer can test at its first commit: resuming at or above the least value seen so far, it stays at or
      above whatever the scan goes on to see. */
  lemma AheadStays(s: State, step: Step, c: Text)
    requires Inv(s) && Allowed(s, step) && s.scan.Some? && c in s.scan.value.joined
    requires ResumeFrom(s.offsets, c) >= s.scan.value.min
    ensures var t := Next(s, step);
            t.scan.Some? && c in t.scan.value.joined ==>
              ResumeFrom(t.offsets, c) >= t.scan.value.min >= t.scan.value.Result()
  {
    hide KeptOk, IssuedOk, PutAll, WriteAll, Compacted, IsWatermark, Keyed;
    assert c in s.offsets;
  }

  /** A first commit behind the scan, at a position the last watermark allows. */
  function JoinSteps(e: ChangeEvent, d: Text, high: u64, c: Text, low: u64): seq<Step> {
    [Write([e])] + [CommitCheck(0, d, high)] + [CommitStore(0)] + [ScanStart] + [ScanVisit(d)]
    + [CommitCheck(1, c, low)] + [CommitStore(1)]
  }

  ghost function JoinState(e: ChangeEvent, d: Text, high: u64, c: Text, low: u64): State {
    State(map[d := high, c := low], map[d := high, c := low], map[], 0, [], map[KeyOf(e) := e], map[KeyOf(e) := e],
          WriteAll(map[], [e]), Some(Scan(high, {d}, {}, {c})))
  }

  lemma SetsOfOne(c: Text, d: Text, high: u64)
    requires high < U64_MAX
    ensures map[d := high].Keys == {d}
    ensures Scan(U64_MAX, {}, {d}, {}).Visit(d, high) == Scan(high, {d}, {}, {})
    ensures Scan(high, {d}, {}, {}).Join(c) == Scan(high, {d}, {}, {c})
  {
  }

  function SeenSteps(e: ChangeEvent, d: Text, high: u64): seq<Step> {
    [Write([e])] + [CommitCheck(0, d, high)] + [CommitStore(0)] + [ScanStart] + [ScanVisit(d)]
  }

  lemma SeenRun(e: ChangeEvent, d: Text, high: u64)
    requires high < U64_MAX
    ensures AllowedRun(SeenSteps(e, d, high))
    ensures Run(SeenSteps(e, d, high))
         == State(map[d := high], map[d := high], map[], 0, [], map[KeyOf(e) := e], map[KeyOf(e) := e],
                  WriteAll(map[], [e]), Some(Scan(high, {d}, {}, {})))
  {
    hide KeyOf, PutAll, WriteAll, Run, AllowedRun;
    var s0, s1 := [Write([e])], [CommitCheck(0, d, high)];
    var s2 := s0 + s1 + [CommitStore(0)];
    NothingRun();
    RunAppend([], Write([e]));
    assert [] + s0 == s0;
    PutOne(e);
    RunAppend(s0, CommitCheck(0, d, high));
    RunAppend(s0 + s1, CommitStore(0));
    RunAppend(s2, ScanStart);
    RunAppend(s2 + [ScanStart], ScanVisit(d));
    SetsOfOne(d, d, high);
  }

  lemma JoinRun(e: ChangeEvent, d: Text, high: u64, c: Text, low: u64)
    requires c != d && high < U64_MAX
    ensures AllowedRun(JoinSteps(e, d, high, c, low))
    ensures Run(JoinSteps(e, d, high, c, low)) == JoinState(e, d, high, c, low)
  {
    hide KeyOf, PutAll, WriteAll, Run, AllowedRun;
    SeenRun(e, d, high);
    RunAppend(SeenSteps(e, d, high), CommitCheck(1, c, low));
    RunAppend(SeenSteps(e, d, high) + [CommitCheck(1, c, low)], CommitStore(1));
    SetsOfOne(c, d, high);
  }

  /** For every event between them there are an allowed run and a scan that it interrupts so that the finish is unsafe:
      the new consumer has still to read the event, the filter just issued drops it. */
  lemma JoinBehindScanLoses(e: ChangeEvent, d: Text, high: u64, c: Text, low: u64)
    requires c != d && low < e.lsn < high < U64_MAX
    ensures var s := Run(JoinSteps(e, d, high, c, low));
            var t := Next(s, ScanFinish);
            var u := Next(t, Compact(high, {KeyOf(e)}));
            && AllowedRun(JoinSteps(e, d, high, c, low)) && !MissedAreAhead(s) && !Safe(t)
            && e.lsn >= ResumeFrom(u.offsets, c) && e in Log(u.full) && e !in Log(u.kept)
  {
    hide KeyOf, Run, AllowedRun, Log, Safe, JoinSteps, WriteAll;
    JoinRun(e, d, high, c, low);
    var t := Next(JoinState(e, d, high, c, low), ScanFinish);
    UnsafeFor(t, c, high);
    GcFilterExact(high, e);
    var u := Next(t, Compact(high, {KeyOf(e)}));
    LogOrdered(u.full);
    LogOrdered(u.kept);
  }
}
