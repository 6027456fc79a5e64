/** From ring to acknowledgement: pushes, drains, flushes, store writes, confirmations and status updates as the
    steps of one system, and what holds over every run of it. */
module Durability {
  import opened Bytes
  import opened Events
  import opened Codec
  import opened Store
  import opened Pipeline

  // ---- acknowledgements ----

  datatype Status = Status(write: u64, flush: u64, apply: u64)

  datatype Ack = Ack(received: u64, confirmed: u64, lastAck: nat, dirty: bool) {
    function AdvanceReceived(lsn: u64): Ack {
      if lsn > received then this.(received := lsn, dirty := true) else this
    }

    function AdvanceConfirmed(lsn: u64): Ack {
      if lsn > confirmed then this.(confirmed := lsn, dirty := true) else this
    }

    function Sent(now: nat): Ack { this.(lastAck := now, dirty := false) }

    predicate ShouldAck(now: nat, minInterval: nat, maxInterval: nat) {
      var elapsed := if now >= lastAck then now - lastAck else 0;
      elapsed >= maxInterval || (dirty && elapsed >= minInterval)
    }
  }

  class AckManager {
    var received: u64
    var confirmed: u64
    var lastAck: nat
    var dirty: bool
    const minInterval: nat
    const maxInterval: nat

    function View(): Ack
      reads this
    {
      Ack(received, confirmed, lastAck, dirty)
    }

    constructor (minInterval: nat, maxInterval: nat, now: nat)
      ensures View() == Ack(0, 0, now, false) && this.minInterval == minInterval && this.maxInterval == maxInterval
    {
      received, confirmed, lastAck, dirty := 0, 0, now, false;
      this.minInterval, this.maxInterval := minInterval, maxInterval;
    }

    method AdvanceReceived(lsn: u64)
      modifies this
      ensures View() == old(View()).AdvanceReceived(lsn)
    {
      if lsn > received {
        received := lsn;
        dirty := true;
      }
    }

    method AdvanceConfirmed(lsn: u64)
      modifies this
      ensures View() == old(View()).AdvanceConfirmed(lsn)
    {
      if lsn > confirmed {
        confirmed := lsn;
        dirty := true;
      }
    }

    method ShouldAck(now: nat) returns (due: bool)
      ensures due == View().ShouldAck(now, minInterval, maxInterval)
    {
      var elapsed := if now >= lastAck then now - lastAck else 0;
      if elapsed >= maxInterval { return true; }
      if dirty && elapsed >= minInterval { return true; }
      return false;
    }

    method BuildStatusUpdate(now: nat) returns (status: Status)
      modifies this
      ensures status == Status(old(received), old(confirmed), old(confirmed))
      ensures View() == old(View()).Sent(now)
    {
      status := Status(received, confirmed, confirmed);
      lastAck := now;
      dirty := false;
    }
  }

  // ---- the system ----

  /** `accepted` lists the events the ring took, `flushed` the batches handed out; the first `written` of them
      are in the store. `drained` counts the events popped by a drain still under way. */
  datatype System = System(pipe: Pipe, drained: nat, accepted: seq<ChangeEvent>, flushed: seq<Batch>, written: nat,
                           db: Db, ack: Ack, reports: seq<Status>)

  datatype Step =
    | Push(event: ChangeEvent)
    | DrainStep
    | MaybeFlush(now: nat)
    | ForceFlush(now: nat)
    | WriteNext
    | Confirm(batch: nat)
    | Receive(lsn: u64)
    | Report(now: nat)

  function Initial(capacity: nat, policy: Policy, now: nat): System {
    System(Pipe(capacity, [], EMPTY_BATCH, policy, 0, 0), 0, [], [], 0, map[], Ack(0, 0, now, false), [])
  }

  function Flush(s: System, now: nat): System {
    s.(pipe := TakeBatch(s.pipe, now), flushed := s.flushed + [s.pipe.batch])
  }

  /** A step that is not possible changes nothing. Producers push at any moment, also between two pops of one
      drain; flushing waits until the drain has found the ring empty. */
  function Next(s: System, step: Step): System {
    match step
    case Push(e) =>
      if |s.pipe.ring| < s.pipe.capacity
      then s.(pipe := s.pipe.(ring := Offered(s.pipe.capacity, s.pipe.ring, e)), accepted := s.accepted + [e]) else s
    case DrainStep =>
      if s.pipe.ring != [] then s.(pipe := PopOne(s.pipe), drained := s.drained + 1)
      else s.(pipe := s.pipe.(processed := s.pipe.processed + s.drained), drained := 0)
    case MaybeFlush(now) =>
      if s.drained == 0 && s.pipe.policy.ShouldFlush(now) && s.pipe.batch.events != [] then Flush(s, now) else s
    case ForceFlush(now) =>
      if s.drained == 0 && s.pipe.batch.events != [] then Flush(s, now) else s
    case WriteNext =>
      if s.written < |s.flushed|
      then s.(db := WriteAll(s.db, s.flushed[s.written].events), written := s.written + 1) else s
    case Confirm(i) =>
      if i < s.written <= |s.flushed| then s.(ack := s.ack.AdvanceConfirmed(s.flushed[i].maxLsn)) else s
    case Receive(lsn) => s.(ack := s.ack.AdvanceReceived(lsn))
    case Report(now) =>
      s.(ack := s.ack.Sent(now), reports := s.reports + [Current(s)])
  }

  function Run(s: System, steps: seq<Step>): System {
    if steps == [] then s else Next(Run(s, steps[..|steps| - 1]), steps[|steps| - 1])
  }

  function FlatEvents(batches: seq<Batch>): seq<ChangeEvent> {
    if batches == [] then [] else FlatEvents(batches[..|batches| - 1]) + batches[|batches| - 1].events
  }

  // ---- invariant ----

  /** Accepted events are, in order, those flushed, those in the batch and those in the ring, which never holds more
      than its capacity. */
  ghost predicate Conserved(s: System) {
    |s.pipe.ring| <= s.pipe.capacity && s.accepted == FlatEvents(s.flushed) + s.pipe.batch.events + s.pipe.ring
  }

  /** Byte totals, event counts, flush counts and LSN bounds agree. */
  ghost predicate Booked(s: System) {
    && Tight(s.pipe.batch)
    && (forall b <- s.flushed :: Tight(b) && b.events != [])
    && s.pipe.policy.currentBytes == s.pipe.batch.totalBytes
    && s.pipe.processed + s.drained == |FlatEvents(s.flushed)| + |s.pipe.batch.events|
    && s.pipe.batchesFlushed == s.pipe.policy.flushCount == |s.flushed|
  }

  ghost predicate StoreInStep(s: System) {
    s.written <= |s.flushed| && s.db == WriteAll(map[], FlatEvents(s.flushed[..s.written]))
  }

  function Current(s: System): Status { Status(s.ack.received, s.ack.confirmed, s.ack.confirmed) }

  /** What PostgreSQL was told last; before the first update, nothing. */
  function LastReport(s: System): Status {
    if s.reports == [] then Status(0, 0, 0) else s.reports[|s.reports| - 1]
  }

  ghost predicate AckInStep(s: System) {
    && (s.ack.dirty <==> Current(s) != LastReport(s))
    && s.written <= |s.flushed|
    && (s.ack.confirmed == 0 || exists i :: 0 <= i < s.written && s.flushed[i].maxLsn == s.ack.confirmed)
    && (forall r <- s.reports :: r.write <= s.ack.received && r.flush <= s.ack.confirmed && r.apply == r.flush)
    && (forall i, j :: 0 <= i < j < |s.reports| ==>
          s.reports[i].write <= s.reports[j].write && s.reports[i].flush <= s.reports[j].flush)
  }

  ghost predicate Inv(s: System) { Conserved(s) && Booked(s) && StoreInStep(s) && AckInStep(s) }

  lemma {:induction false} FlatPrefix(batches: seq<Batch>, n: nat)
    requires n <= |batches|
    ensures FlatEvents(batches[..n]) <= FlatEvents(batches)
  {
    if n < |batches| {
      FlatPrefix(batches[..|batches| - 1], n);
      assert batches[..|batches| - 1][..n] == batches[..n];
    } else {
      assert batches[..n] == batches;
    }
  }

  lemma FlushKeeps(s: System, now: nat)
    requires Inv(s) && s.drained == 0 && s.pipe.batch.events != []
    ensures Inv(Flush(s, now))
  {
    hide WriteAll, EstimatedSize, BatchPush;
    var t := Flush(s, now);
    assert t.flushed[..|t.flushed| - 1] == s.flushed;
    assert t.flushed[..s.written] == s.flushed[..s.written];
    assert forall i :: 0 <= i < s.written ==> t.flushed[i] == s.flushed[i];
  }

  lemma DrainKeeps(s: System)
    requires Inv(s)
    ensures Inv(Next(s, DrainStep))
  {
    hide WriteAll, EstimatedSize, Tight, TotalSize;
    if s.pipe.ring != [] {
      PushTight(s.pipe.batch, s.pipe.ring[0]);
      assert s.pipe.ring == [s.pipe.ring[0]] + s.pipe.ring[1..];
    }
  }

  lemma WriteKeeps(s: System)
    requires Inv(s)
    ensures Inv(Next(s, WriteNext))
  {
    hide WriteAll, Tight, EstimatedSize;
    if s.written < |s.flushed| {
      var n := s.written;
      assert s.flushed[..n + 1][..n] == s.flushed[..n];
      WriteAllConcat(map[], FlatEvents(s.flushed[..n]), s.flushed[n].events);
    }
  }

  lemma PushKeeps(s: System, e: ChangeEvent)
    requires Inv(s)
    ensures Inv(Next(s, Push(e)))
  {
    hide WriteAll, Tight, FlatEvents, EstimatedSize;
    assert Conserved(Next(s, Push(e)));
  }

  lemma AckStepsKeep(s: System, step: Step)
    requires Inv(s) && (step.Confirm? || step.Receive? || step.Report?)
    ensures Inv(Next(s, step))
  {
    hide WriteAll, Tight, FlatEvents, EstimatedSize;
    assert s.reports != [] ==> LastReport(s) in s.reports;
  }

  lemma StepKeeps(s: System, step: Step)
    requires Inv(s)
    ensures Inv(Next(s, step))
  {
    hide Inv, WriteAll, BatchPush;
    match step
    case DrainStep => DrainKeeps(s);
    case WriteNext => WriteKeeps(s);
    case MaybeFlush(now) => if Next(s, step) != s { FlushKeeps(s, now); }
    case ForceFlush(now) => if Next(s, step) != s { FlushKeeps(s, now); }
    case Push(e) => PushKeeps(s, e);
    case _ => AckStepsKeep(s, step);
  }

  /** A fresh policy: nothing accumulated, nothing flushed. */
  predicate Fresh(policy: Policy) { policy.currentBytes == 0 && policy.flushCount == 0 }

  /** Conservation, bookkeeping, store and acknowledgement stay in step over every run. */
  lemma {:induction false} RunKeeps(capacity: nat, policy: Policy, now: nat, steps: seq<Step>)
    requires Fresh(policy)
    ensures Inv(Run(Initial(capacity, policy, now), steps))
  {
    if steps == [] {
      assert Initial(capacity, policy, now).flushed[..0] == [];
    } else {
      RunKeeps(capacity, policy, now, steps[..|steps| - 1]);
      StepKeeps(Run(Initial(capacity, policy, now), steps[..|steps| - 1]), steps[|steps| - 1]);
    }
  }

  // ---- durable acknowledgement ----

  ghost predicate Increasing(es: seq<ChangeEvent>) {
    forall i, j :: 0 <= i < j < |es| ==> es[i].lsn < es[j].lsn
  }

  predicate Stored(db: Db, e: ChangeEvent) { KeyOf(e) in db && db[KeyOf(e)] == EventBytes(e) }

  /** Every accepted event at or below the confirmed LSN is in the store. */
  ghost predicate Durable(s: System) {
    forall e <- s.accepted :: e.lsn <= s.ack.confirmed ==> Stored(s.db, e)
  }

  lemma {:induction false} BatchInFlat(batches: seq<Batch>, i: nat, x: ChangeEvent)
    requires i < |batches| && x in batches[i].events
    ensures x in FlatEvents(batches)
  {
    if i < |batches| - 1 { BatchInFlat(batches[..|batches| - 1], i, x); }
  }

  /** What has been written, as a prefix of what was accepted. */
  ghost function WrittenEvents(s: System): seq<ChangeEvent>
    requires s.written <= |s.flushed|
  {
    FlatEvents(s.flushed[..s.written])
  }

  lemma WrittenIsPrefix(s: System)
    requires Inv(s)
    ensures WrittenEvents(s) <= s.accepted && (s.written > 0 ==> WrittenEvents(s) != [])
  {
    hide WriteAll, Tight;
    FlatPrefix(s.flushed, s.written);
    if s.written > 0 {
      assert s.flushed[0] in s.flushed && s.flushed[..s.written][0].events[0] in s.flushed[0].events;
      BatchInFlat(s.flushed[..s.written], 0, s.flushed[0].events[0]);
    }
  }

  lemma PrefixStored(s: System, p: nat)
    requires Inv(s) && Increasing(s.accepted) && p < |WrittenEvents(s)| <= |s.accepted|
    ensures Stored(s.db, s.accepted[p])
  {
    hide WriteAll, Tight, FlatEvents, KeyOf, EventBytes;
    WrittenIsPrefix(s);
    var es := WrittenEvents(s);
    assert es[p] == s.accepted[p];
    forall j | p < j < |es| ensures KeyOf(es[j]) != KeyOf(es[p]) {
      assert es[j] == s.accepted[j];
      KeyOrder(es[p], es[j]);
    }
    WriteAllKeepsLast(es, p);
  }

  lemma ConfirmedIsWritten(s: System, p: nat)
    requires Inv(s) && Increasing(s.accepted) && p < |s.accepted| && s.accepted[p].lsn <= s.ack.confirmed
    requires s.accepted[0].lsn > 0 || s.written > 0
    ensures p < |WrittenEvents(s)|
  {
    hide WriteAll, FlatEvents, Conserved, StoreInStep;
    WrittenIsPrefix(s);
    var es := WrittenEvents(s);
    if s.ack.confirmed > 0 {
      var i :| 0 <= i < s.written && s.flushed[i].maxLsn == s.ack.confirmed;
      assert s.flushed[i] in s.flushed;
      var x :| x in s.flushed[i].events && x.lsn == s.ack.confirmed;
      BatchInFlat(s.flushed[..s.written], i, x);
      var q :| 0 <= q < |es| && es[q] == x;
      assert s.accepted[q] == x;
    }
  }

  /** Over every run that accepts events with strictly increasing LSNs, what PostgreSQL is told is flushed is in
      the store, except exactly while a first event with LSN 0 waits for the first write: the confirmed LSN
      starts out as 0 and so covers it. */
  lemma DurableIff(capacity: nat, policy: Policy, now: nat, steps: seq<Step>)
    requires Fresh(policy) && Increasing(Run(Initial(capacity, policy, now), steps).accepted)
    ensures var s := Run(Initial(capacity, policy, now), steps);
            Durable(s) <==> (s.accepted != [] && s.accepted[0].lsn == 0 ==> s.written > 0)
  {
    hide Run, WriteAll, FlatEvents, Stored, Conserved, Booked, AckInStep;
    var s := Run(Initial(capacity, policy, now), steps);
    RunKeeps(capacity, policy, now, steps);
    if s.accepted != [] && s.accepted[0].lsn == 0 ==> s.written > 0 {
      forall e <- s.accepted | e.lsn <= s.ack.confirmed ensures Stored(s.db, e) {
        var p :| 0 <= p < |s.accepted| && s.accepted[p] == e;
        WrittenIsPrefix(s);
        ConfirmedIsWritten(s, p);
        PrefixStored(s, p);
      }
    } else {
      NothingWrittenYet(s, s.accepted[0]);
      assert s.accepted[0] in s.accepted;
    }
  }

  lemma NothingWrittenYet(s: System, e: ChangeEvent)
    requires StoreInStep(s) && s.written == 0
    ensures !Stored(s.db, e)
  {
    assert s.flushed[..0] == [];
  }

  /** Every event at or below any reported flush LSN is in the store, and when events fit the codec, reading at
      its LSN returns it first. */
  lemma DurableAcknowledgement(capacity: nat, policy: Policy, now: nat, steps: seq<Step>, r: Status, e: ChangeEvent,
                               limit: nat)
    requires Fresh(policy)
    requires var s := Run(Initial(capacity, policy, now), steps);
             Increasing(s.accepted) && r in s.reports && e in s.accepted && e.lsn <= r.flush && s.accepted[0].lsn > 0
    ensures var s := Run(Initial(capacity, policy, now), steps);
            && Stored(s.db, e)
            && ((forall x <- s.accepted :: WellFormed(x)) ==>
                 var read := Scan(s.db, IterateFrom(s.db.Keys, ToBE(8, e.lsn)), [], limit);
                 read.Events? && read.events != [] && read.events[0] == e)
  {
    hide Run, WriteAll, FlatEvents, Stored, Conserved, Booked, WellFormed, Scan, IterateFrom, ToBE, Increasing;
    var s := Run(Initial(capacity, policy, now), steps);
    RunKeeps(capacity, policy, now, steps);
    DurableIff(capacity, policy, now, steps);
    if forall x <- s.accepted :: WellFormed(x) {
      WrittenIsPrefix(s);
      var es := WrittenEvents(s);
      forall x <- es ensures WellFormed(x) { assert x in s.accepted; }
      WriteHolds(map[], map[], es);
      ReadIsPage(s.db, PutAll(map[], es), e.lsn, limit);
      var p :| 0 <= p < |s.accepted| && s.accepted[p] == e;
      ConfirmedIsWritten(s, p);
      IncreasingPrefix(s.accepted, es);
      FirstRead(es, e, limit);
    }
  }

  lemma IncreasingPrefix(all: seq<ChangeEvent>, es: seq<ChangeEvent>)
    requires Increasing(all) && es <= all
    ensures Increasing(es)
  {
  }

  lemma IncreasingDistinct(es: seq<ChangeEvent>, a: ChangeEvent, b: ChangeEvent)
    requires Increasing(es) && a in es && b in es && a.lsn == b.lsn
    ensures a == b
  {
    var i :| 0 <= i < |es| && es[i] == a;
    var j :| 0 <= j < |es| && es[j] == b;
  }

  lemma FirstOfFrom(log: seq<ChangeEvent>, e: ChangeEvent)
    requires Ordered(log) && e in log && forall x <- log :: x.lsn == e.lsn ==> x == e
    ensures From(log, e.lsn) != [] && From(log, e.lsn)[0] == e
  {
    hide From;
    FromMembers(log, e.lsn);
    var all := From(log, e.lsn);
    var i :| 0 <= i < |all| && all[i] == e;
    assert all[0] in all && (i > 0 ==> Before(all[0], e));
  }

  lemma FirstRead(es: seq<ChangeEvent>, e: ChangeEvent, limit: nat)
    requires Increasing(es) && e in es
    ensures var page := Page(Log(PutAll(map[], es)), e.lsn, limit); page != [] && page[0] == e
  {
    hide Log, PutAll, From, KeyOf, Increasing, Ordered;
    var log := Log(PutAll(map[], es));
    HistoryLog(es);
    NothingLostIff(es);
    forall a, b | a in es && b in es && a.lsn == b.lsn ensures a == b { IncreasingDistinct(es, a, b); }
    forall x <- log | x.lsn == e.lsn ensures x == e {
      assert Written(es, x);
      IncreasingDistinct(es, x, e);
    }
    FirstOfFrom(log, e);
  }

  /** Successive status updates never go back in any component. */
  lemma StatusNeverDecreases(capacity: nat, policy: Policy, now: nat, steps: seq<Step>, i: nat, j: nat)
    requires Fresh(policy) && i <= j < |Run(Initial(capacity, policy, now), steps).reports|
    ensures var rs := Run(Initial(capacity, policy, now), steps).reports;
            rs[i].write <= rs[j].write && rs[i].flush <= rs[j].flush && rs[i].apply <= rs[j].apply
  {
    hide Run;
    RunKeeps(capacity, policy, now, steps);
    var rs := Run(Initial(capacity, policy, now), steps).reports;
    assert rs[i] in rs && rs[j] in rs;
  }

  /** When the last update was sent; the start when there was none. */
  function LastReportTime(start: nat, steps: seq<Step>): nat {
    if steps == [] then start
    else
      var last := steps[|steps| - 1];
      if last.Report? then last.now else LastReportTime(start, steps[..|steps| - 1])
  }

  lemma {:induction false} LastAckIsLastReport(init: System, steps: seq<Step>)
    ensures Run(init, steps).ack.lastAck == LastReportTime(init.ack.lastAck, steps)
  {
    hide WriteAll, PopOne, TakeBatch;
    if steps != [] { LastAckIsLastReport(init, steps[..|steps| - 1]); }
  }

  /** Over every run an update is due exactly for the heartbeat, or after the short interval when there is progress
      that PostgreSQL has not been told of; so updates sent when due are at least the shorter interval apart. */
  lemma AckDueIff(capacity: nat, policy: Policy, start: nat, steps: seq<Step>, now: nat, minInterval: nat,
                  maxInterval: nat)
    requires Fresh(policy)
    ensures var s, last := Run(Initial(capacity, policy, start), steps), LastReportTime(start, steps);
            && (s.ack.ShouldAck(now, minInterval, maxInterval) <==>
                 var elapsed := if now >= last then now - last else 0;
                 elapsed >= maxInterval || (elapsed >= minInterval && Current(s) != LastReport(s)))
            && (s.ack.ShouldAck(now, minInterval, maxInterval) && now >= last ==>
                 now >= last + Min(minInterval, maxInterval))
  {
    hide Run, LastReportTime;
    RunKeeps(capacity, policy, start, steps);
    LastAckIsLastReport(Initial(capacity, policy, start), steps);
  }

  /** The reported write LSN is the highest ever received. */
  lemma {:induction false} ReceivedIsHighest(init: System, steps: seq<Step>)
    requires init.ack.received == 0
    ensures forall lsn: u64 :: Receive(lsn) in steps ==> lsn <= Run(init, steps).ack.received
    ensures Run(init, steps).ack.received == 0 || Receive(Run(init, steps).ack.received) in steps
  {
    hide WriteAll, PopOne, TakeBatch;
    if steps != [] {
      var front, last := steps[..|steps| - 1], steps[|steps| - 1];
      ReceivedIsHighest(init, front);
      assert forall x :: x in steps <==> x in front || x == last;
    }
  }

  /** Confirming a written batch covers every event in it. */
  lemma ConfirmCovers(s: System, i: nat, e: ChangeEvent)
    requires Inv(s) && i < s.written && e in s.flushed[i].events
    ensures e.lsn <= Next(s, Confirm(i)).ack.confirmed
  {
    hide WriteAll, FlatEvents;
    assert s.flushed[i] in s.flushed;
  }

  // ---- flushing ----

  /** A flush check hands the batch out exactly when it is not empty and has reached a threshold; otherwise it
      changes nothing. */
  lemma MaybeFlushIff(s: System, now: nat)
    requires Inv(s) && s.drained == 0
    ensures var p, t := s.pipe, Next(s, MaybeFlush(now));
            if p.batch.events != []
               && (p.policy.currentBytes >= p.policy.maxBytes || p.policy.AgeUs(now) >= p.policy.maxAgeUs)
            then t.flushed == s.flushed + [p.batch] && t.pipe.batch == EMPTY_BATCH && t.pipe.policy.currentBytes == 0
                 && t.pipe.policy.lastFlush == now
            else t == s
  {
    hide WriteAll, FlatEvents;
    NonEmptyHasBytes(s.pipe.batch);
  }

  /** When the last batch was handed out; the start when none was. */
  function LastFlushTime(init: System, start: nat, steps: seq<Step>): nat {
    if steps == [] then start
    else
      var front, last := steps[..|steps| - 1], steps[|steps| - 1];
      if (last.MaybeFlush? || last.ForceFlush?) && |Run(init, steps).flushed| > |Run(init, front).flushed| then last.now
      else LastFlushTime(init, start, front)
  }

  lemma {:induction false} PolicyTracks(capacity: nat, policy: Policy, now: nat, steps: seq<Step>)
    ensures var init := Initial(capacity, policy, now);
            var p := Run(init, steps).pipe.policy;
            && p.lastFlush == LastFlushTime(init, policy.lastFlush, steps)
            && p.maxBytes == policy.maxBytes && p.maxAgeUs == policy.maxAgeUs
  {
    hide Next;
    if steps != [] {
      PolicyTracks(capacity, policy, now, steps[..|steps| - 1]);
      PolicyStep(Run(Initial(capacity, policy, now), steps[..|steps| - 1]), steps[|steps| - 1]);
    }
  }

  lemma PolicyStep(s: System, step: Step)
    ensures var t := Next(s, step);
            && t.pipe.policy.maxBytes == s.pipe.policy.maxBytes && t.pipe.policy.maxAgeUs == s.pipe.policy.maxAgeUs
            && (|t.flushed| > |s.flushed| ==> step.MaybeFlush? || step.ForceFlush?)
            && t.pipe.policy.lastFlush == if |t.flushed| > |s.flushed| then step.now else s.pipe.policy.lastFlush
  {
    hide WriteAll, BatchPush;
  }

  /** Over every run: a flush check hands the batch out exactly when it is not empty and either the sizes of its events
      add up to the configured maximum, or the time since the last batch was handed out, counted in 64 bits, has
      reached the configured age; otherwise it changes nothing. */
  lemma FlushDueIff(capacity: nat, policy: Policy, start: nat, steps: seq<Step>, now: nat)
    requires Fresh(policy) && Run(Initial(capacity, policy, start), steps).drained == 0
    ensures var init := Initial(capacity, policy, start);
            var s, t := Run(init, steps), Run(init, steps + [MaybeFlush(now)]);
            var last := LastFlushTime(init, policy.lastFlush, steps);
            var elapsed := if now >= last then now - last else 0;
            var es := s.pipe.batch.events;
            if es != [] && (TotalSize(es) >= policy.maxBytes || elapsed % U64_MODULUS >= policy.maxAgeUs)
            then t.flushed == s.flushed + [s.pipe.batch] && t.pipe.batch.events == []
            else t == s
  {
    hide Run, LastFlushTime, WriteAll, FlatEvents, TotalSize;
    var s := Run(Initial(capacity, policy, start), steps);
    RunKeeps(capacity, policy, start, steps);
    PolicyTracks(capacity, policy, start, steps);
    RunAppend(Initial(capacity, policy, start), steps, MaybeFlush(now));
    MaybeFlushIff(s, now);
  }

  lemma RunAppend(init: System, steps: seq<Step>, step: Step)
    ensures Run(init, steps + [step]) == Next(Run(init, steps), step)
  {
    hide Next;
    assert (steps + [step])[..|steps|] == steps;
  }

  function Drain(n: nat): seq<Step> { seq(n, _ => DrainStep) }

  lemma {:induction false} DrainRuns(s: System, n: nat)
    requires Inv(s) && n <= |s.pipe.ring|
    ensures var t := Run(s, Drain(n));
            Inv(t) && t.pipe.ring == s.pipe.ring[n..] && t.accepted == s.accepted
  {
    hide Inv, BatchPush, WriteAll;
    if n > 0 {
      DrainRuns(s, n - 1);
      assert Drain(n)[..n - 1] == Drain(n - 1);
      StepKeeps(Run(s, Drain(n - 1)), DrainStep);
    }
  }

  /** A drain to the end followed by a forced flush leaves nothing behind: every accepted event is in a flushed
      batch. */
  lemma DrainForceEmpties(s: System, now: nat)
    requires Inv(s)
    ensures var t := Run(s, Drain(|s.pipe.ring| + 1) + [ForceFlush(now)]);
            t.pipe.ring == [] && t.pipe.batch.events == [] && t.accepted == s.accepted == FlatEvents(t.flushed)
  {
    hide BatchPush, WriteAll, FlatEvents, Booked, StoreInStep, AckInStep;
    var n := |s.pipe.ring|;
    var steps := Drain(n + 1) + [ForceFlush(now)];
    DrainRuns(s, n);
    assert Drain(n + 1)[..n] == Drain(n) && steps[..n + 1] == Drain(n + 1);
    var t := Run(s, Drain(n + 1));
    assert t == Next(Run(s, Drain(n)), DrainStep);
    StepKeeps(Run(s, Drain(n)), DrainStep);
    StepKeeps(t, ForceFlush(now));
    assert Run(s, steps) == Next(t, ForceFlush(now));
    assert FlatEvents(Run(s, steps).flushed) + [] + [] == FlatEvents(Run(s, steps).flushed);
  }
}
