/** Which interleavings of commits move a consumer back. */
module Commits {
  import opened Bytes
  import opened Events
  import opened Gc

  ghost function At(steps: seq<Step>, k: nat): State
    requires k <= |steps|
  {
    Run(steps[..k])
  }

  lemma AtNext(steps: seq<Step>, k: nat)
    requires k < |steps|
    ensures At(steps, k + 1) == Next(At(steps, k), steps[k])
  {
    hide Next;
    assert steps[..k + 1][..k] == steps[..k];
  }

  /** Step j is a check that passes. */
  ghost predicate Passes(steps: seq<Step>, j: int, c: Text, lsn: u64) {
    && 0 <= j < |steps| && steps[j].CommitCheck? && steps[j].consumer == c && steps[j].lsn == lsn
    && steps[j].thread !in At(steps, j).inflight && !Regresses(At(steps, j).offsets, c, lsn)
  }

  /** Step k stores an offset for the consumer. */
  ghost predicate Stores(steps: seq<Step>, k: int, c: Text, lsn: u64) {
    && 0 <= k < |steps| && steps[k].CommitStore? && steps[k].thread in At(steps, k).inflight
    && At(steps, k).inflight[steps[k].thread] == Pending(c, lsn)
  }

  /** One commit: the check at step j and the store at step i that belongs to it. */
  ghost predicate Commit(steps: seq<Step>, j: int, i: int, c: Text, lsn: u64) {
    && j < i && Passes(steps, j, c, lsn) && Stores(steps, i, c, lsn) && steps[j].thread == steps[i].thread
    && forall k :: j < k < i ==> steps[k] != CommitStore(steps[i].thread)
  }

  /** The consumer is unregistered after step k and before step i. */
  ghost predicate Forgotten(steps: seq<Step>, k: int, i: int, c: Text) {
    exists m :: 0 <= m < |steps| && k < m < i && steps[m] == Unregister(c)
  }

  /** What is stored for the consumer between the check and the store of a commit, and not forgotten again, is no
      higher than the commit. */
  ghost predicate InOrder(steps: seq<Step>) {
    forall j, i, k, c, lsn, other :: Commit(steps, j, i, c, lsn) && j < k < i && Stores(steps, k, c, other) ==>
      other <= lsn || Forgotten(steps, k, i, c)
  }

  ghost predicate MovesBack(steps: seq<Step>, k: nat, c: Text)
    requires k < |steps|
  {
    var s, t := At(steps, k), At(steps, k + 1);
    c in s.offsets && c in t.offsets && t.offsets[c] < s.offsets[c]
  }

  ghost predicate NeverBack(steps: seq<Step>) { forall k, c | 0 <= k < |steps| :: !MovesBack(steps, k, c) }

  // ---- where offsets and commits in flight come from ----

  lemma StepOffset(s: State, step: Step, c: Text)
    ensures var t := Next(s, step);
            var stored := step.CommitStore? && step.thread in s.inflight && s.inflight[step.thread].consumer == c;
            && (stored ==> c in t.offsets && t.offsets[c] == s.inflight[step.thread].lsn)
            && (!stored && step != Unregister(c) ==>
                 (c in t.offsets <==> c in s.offsets) && (c in s.offsets ==> t.offsets[c] == s.offsets[c]))
            && (step == Unregister(c) ==> c !in t.offsets)
  {
  }

  /** The offset in force was stored by some step, and has been in force since. */
  lemma {:induction false} OffsetFrom(steps: seq<Step>, i: nat, c: Text) returns (k: nat)
    requires i <= |steps| && c in At(steps, i).offsets
    ensures k < i && Stores(steps, k, c, At(steps, i).offsets[c]) && !Forgotten(steps, k, i, c)
    ensures forall m :: k < m <= i ==> c in At(steps, m).offsets && At(steps, m).offsets[c] == At(steps, i).offsets[c]
    decreases i
  {
    hide Run, Next;
    NothingAtStart(steps);
    AtNext(steps, i - 1);
    StepOffset(At(steps, i - 1), steps[i - 1], c);
    if Stores(steps, i - 1, c, At(steps, i).offsets[c]) {
      k := i - 1;
    } else {
      k := OffsetFrom(steps, i - 1, c);
    }
  }

  lemma NothingAtStart(steps: seq<Step>)
    ensures At(steps, 0) == INITIAL
  {
  }

  lemma StepInflight(s: State, step: Step, t: nat)
    requires t in Next(s, step).inflight
    ensures step != CommitStore(t) || t !in s.inflight
    ensures var p := Next(s, step).inflight[t];
            if t in s.inflight then s.inflight[t] == p
            else step == CommitCheck(t, p.consumer, p.lsn) && !Regresses(s.offsets, p.consumer, p.lsn)
  {
  }

  /** A commit in flight passed its check at some step. */
  lemma {:induction false} CheckOf(steps: seq<Step>, i: nat, t: nat) returns (j: nat)
    requires i <= |steps| && t in At(steps, i).inflight
    ensures var p := At(steps, i).inflight[t];
            j < i && Passes(steps, j, p.consumer, p.lsn) && steps[j].thread == t
    ensures forall k :: j < k < i ==> steps[k] != CommitStore(t)
    decreases i
  {
    hide Run, Next;
    NothingAtStart(steps);
    AtNext(steps, i - 1);
    StepInflight(At(steps, i - 1), steps[i - 1], t);
    if t in At(steps, i - 1).inflight {
      j := CheckOf(steps, i - 1, t);
    } else {
      j := i - 1;
    }
  }

  // ---- the condition ----

  /** Without steps back and without being forgotten, an offset only grows. */
  lemma {:induction false} Grows(steps: seq<Step>, k: nat, i: nat, c: Text)
    requires NeverBack(steps) && k <= i <= |steps| && c in At(steps, k).offsets
    requires forall m :: k <= m < i ==> steps[m] != Unregister(c)
    ensures c in At(steps, i).offsets && At(steps, i).offsets[c] >= At(steps, k).offsets[c]
    decreases i
  {
    hide At, Next;
    if k < i {
      Grows(steps, k, i - 1, c);
      AtNext(steps, i - 1);
      StepOffset(At(steps, i - 1), steps[i - 1], c);
      assert !MovesBack(steps, i - 1, c);
    }
  }

  lemma InOrderSuffices(steps: seq<Step>, i: nat, c: Text)
    requires InOrder(steps) && i < |steps|
    ensures !MovesBack(steps, i, c)
  {
    hide At, Next, Regresses;
    AtNext(steps, i);
    StepOffset(At(steps, i), steps[i], c);
    if MovesBack(steps, i, c) {
      var t := steps[i].thread;
      var lsn := At(steps, i).inflight[t].lsn;
      var j := CheckOf(steps, i, t);
      assert Commit(steps, j, i, c, lsn);
      var k := OffsetFrom(steps, i, c);
      CheckedAgainst(steps, j, i, c, lsn);
    }
  }

  /** What was in force at the check was no higher than the commit. */
  lemma CheckedAgainst(steps: seq<Step>, j: nat, i: nat, c: Text, lsn: u64)
    requires Commit(steps, j, i, c, lsn)
    ensures c in At(steps, j).offsets ==> At(steps, j).offsets[c] <= lsn
  {
    hide At;
  }

  lemma InOrderNeeded(steps: seq<Step>, j: int, i: int, k: int, c: Text, lsn: u64, other: u64)
    requires NeverBack(steps) && Commit(steps, j, i, c, lsn) && j < k < i && Stores(steps, k, c, other)
    ensures other <= lsn || Forgotten(steps, k, i, c)
  {
    hide At, Next;
    AtNext(steps, k);
    StepOffset(At(steps, k), steps[k], c);
    AtNext(steps, i);
    StepOffset(At(steps, i), steps[i], c);
    if !Forgotten(steps, k, i, c) {
      Grows(steps, k + 1, i, c);
      assert !MovesBack(steps, i, c);
    }
  }

  /** In every interleaving of checks, stores, removals and collections: no consumer ever moves back exactly when, for
      each commit, whatever was stored for its consumer between its check and its store, and not forgotten again
      before the store, is no higher than the commit. */
  lemma NeverBackIff(steps: seq<Step>)
    ensures NeverBack(steps) <==> InOrder(steps)
  {
    hide At, Commit, Stores, Forgotten, MovesBack;
    if InOrder(steps) {
      forall i, c | 0 <= i < |steps| ensures !MovesBack(steps, i, c) { InOrderSuffices(steps, i, c); }
    }
    if NeverBack(steps) {
      forall j, i, k, c, lsn, other | Commit(steps, j, i, c, lsn) && j < k < i && Stores(steps, k, c, other)
        ensures other <= lsn || Forgotten(steps, k, i, c)
      {
        InOrderNeeded(steps, j, i, k, c, lsn, other);
      }
    }
  }

  /** No commit of a consumer is stored while another commit of it is between its check and its store. */
  ghost predicate Serialised(steps: seq<Step>) {
    forall j, i, k, c, lsn, other :: Commit(steps, j, i, c, lsn) && j < k < i ==> !Stores(steps, k, c, other)
  }

  /** Serialised commits never move a consumer back. */
  lemma CommitNeverRegresses(steps: seq<Step>)
    requires Serialised(steps)
    ensures NeverBack(steps)
  {
    hide At, Commit, Stores, Forgotten, NeverBack;
    NeverBackIff(steps);
  }

  /** Overlapping ones can: for every pair, both checks pass, the larger is stored first and the smaller replaces it. */
  lemma OverlapRegresses(c: Text, low: u64, high: u64)
    requires low < high
    ensures var steps := [CommitCheck(0, c, low), CommitCheck(1, c, high), CommitStore(1), CommitStore(0)];
            && At(steps, 3).offsets == map[c := high] && At(steps, 4).offsets == map[c := low]
            && MovesBack(steps, 3, c) && !InOrder(steps)
  {
    hide InOrder, Run, Next;
    var steps := [CommitCheck(0, c, low), CommitCheck(1, c, high), CommitStore(1), CommitStore(0)];
    NothingAtStart(steps);
    assert At(steps, 1) == INITIAL.(inflight := map[0 := Pending(c, low)]) by {
      AtNext(steps, 0);
      Started(c, low);
    }
    AtNext(steps, 1);
    AtNext(steps, 2);
    AtNext(steps, 3);
    Overlapped(c, low, high);
    assert MovesBack(steps, 3, c);
    NeverBackIff(steps);
  }

  lemma Started(c: Text, low: u64)
    ensures Next(INITIAL, CommitCheck(0, c, low)) == INITIAL.(inflight := map[0 := Pending(c, low)])
  {
  }

  lemma Overlapped(c: Text, low: u64, high: u64)
    ensures var s := INITIAL.(inflight := map[0 := Pending(c, low)]);
            var t := Next(Next(s, CommitCheck(1, c, high)), CommitStore(1));
            t.offsets == map[c := high] && Next(t, CommitStore(0)).offsets == map[c := low]
  {
  }
}
