/** The circuit breaker in front of a webhook endpoint, with an explicit clock. */
module Circuit {
  import opened Bytes

  datatype Phase = Closed | Open | HalfOpen

  datatype Breaker = Breaker(phase: Phase, failures: nat, threshold: nat, timeout: nat, openedAt: Option<nat>) {
    /** Enough time has passed since the breaker opened. */
    predicate Rested(now: nat) {
      openedAt.Some? && (if now >= openedAt.value then now - openedAt.value else 0) >= timeout
    }

    predicate Grants(now: nat) { phase.Closed? || (phase.Open? && Rested(now)) }

    function AllowRequest(now: nat): Breaker { if phase.Open? && Rested(now) then this.(phase := HalfOpen) else this }

    function OnSuccess(): Breaker {
      if phase.HalfOpen? then this.(phase := Closed, failures := 0, openedAt := None) else this.(failures := 0)
    }

    function OnFailure(now: nat): Breaker {
      var b := this.(failures := failures + 1);
      match phase
      case Closed => if b.failures >= threshold then b.(phase := Open, openedAt := Some(now)) else b
      case HalfOpen => b.(phase := Open, openedAt := Some(now))
      case Open => b
    }
  }

  function New(threshold: nat, timeout: nat): Breaker { Breaker(Closed, 0, threshold, timeout, None) }

  class CircuitBreaker {
    var phase: Phase
    var failureCount: nat
    const failureThreshold: nat
    const recoveryTimeout: nat
    var openedAt: Option<nat>

    function View(): Breaker
      reads this
    {
      Breaker(phase, failureCount, failureThreshold, recoveryTimeout, openedAt)
    }

    constructor (failureThreshold: nat, recoveryTimeout: nat)
      ensures View() == New(failureThreshold, recoveryTimeout)
    {
      phase, failureCount, openedAt := Closed, 0, None;
      this.failureThreshold, this.recoveryTimeout := failureThreshold, recoveryTimeout;
    }

    method AllowRequest(now: nat) returns (allowed: bool)
      modifies this
      ensures allowed == old(View()).Grants(now) && View() == old(View()).AllowRequest(now)
    {
      match phase {
        case Closed => return true;
        case Open =>
          if openedAt.None? { return false; }
          var elapsed := if now >= openedAt.value then now - openedAt.value else 0;
          if elapsed >= recoveryTimeout {
            phase := HalfOpen;
            return true;
          }
          return false;
        case HalfOpen => return false;
      }
    }

    method OnSuccess()
      modifies this
      ensures View() == old(View()).OnSuccess()
    {
      if phase.HalfOpen? {
        phase := Closed;
        failureCount := 0;
        openedAt := None;
      } else {
        failureCount := 0;
      }
    }

    method OnFailure(now: nat)
      modifies this
      ensures View() == old(View()).OnFailure(now)
    {
      failureCount := failureCount + 1;
      match phase {
        case Closed =>
          if failureCount >= failureThreshold {
            phase := Open;
            openedAt := Some(now);
          }
        case HalfOpen =>
          phase := Open;
          openedAt := Some(now);
        case Open =>
      }
    }
  }

  // ---- call sequences ----

  datatype Call = Allow(now: nat) | Success(now: nat) | Failure(now: nat)

  function Next(b: Breaker, c: Call): Breaker {
    match c
    case Allow(now) => b.AllowRequest(now)
    case Success(_) => b.OnSuccess()
    case Failure(now) => b.OnFailure(now)
  }

  function After(b: Breaker, calls: seq<Call>): Breaker {
    if calls == [] then b else Next(After(b, calls[..|calls| - 1]), calls[|calls| - 1])
  }

  predicate Clocked(calls: seq<Call>) { forall i, j :: 0 <= i < j < |calls| ==> calls[i].now <= calls[j].now }

  /** Failures since the last success. */
  function Streak(calls: seq<Call>): nat {
    if calls == [] then 0
    else match calls[|calls| - 1]
      case Success(_) => 0
      case Failure(_) => Streak(calls[..|calls| - 1]) + 1
      case Allow(_) => Streak(calls[..|calls| - 1])
  }

  ghost predicate Inv(b: Breaker, calls: seq<Call>, threshold: nat, timeout: nat) {
    && b.threshold == threshold && b.timeout == timeout
    && b.failures == Streak(calls)
    && (b.openedAt.Some? <==> !b.phase.Closed?)
    && (b.phase.Closed? ==> Streak(calls) < Max(threshold, 1))
  }

  lemma {:induction false} RunKeeps(threshold: nat, timeout: nat, calls: seq<Call>)
    ensures Inv(After(New(threshold, timeout), calls), calls, threshold, timeout)
  {
    if calls != [] { RunKeeps(threshold, timeout, calls[..|calls| - 1]); }
  }

  /** In every call sequence a closed breaker opens exactly with the max(threshold, 1)-th failure in a row, and it
      carries an opening time exactly when it is not closed. */
  lemma OpensExactly(threshold: nat, timeout: nat, calls: seq<Call>, c: Call)
    ensures var b := After(New(threshold, timeout), calls);
            && (b.openedAt.Some? <==> !b.phase.Closed?)
            && (b.phase.Closed? ==>
                 (Next(b, c).phase.Open? <==> c.Failure? && Streak(calls + [c]) == Max(threshold, 1)))
  {
    hide After;
    RunKeeps(threshold, timeout, calls);
    assert (calls + [c])[..|calls|] == calls;
  }

  /** The breaker after the first k calls. */
  function At(b: Breaker, calls: seq<Call>, k: nat): Breaker
    requires k <= |calls|
  {
    After(b, calls[..k])
  }

  lemma AtNext(b: Breaker, calls: seq<Call>, k: nat)
    requires k < |calls|
    ensures At(b, calls, k + 1) == Next(At(b, calls, k), calls[k])
  {
    assert calls[..k + 1][..k] == calls[..k];
  }

  /** From a trip at call i on: open since no earlier, or the timeout is over. */
  lemma {:induction false} TripHolds(b: Breaker, calls: seq<Call>, i: nat, k: nat)
    requires Clocked(calls) && i < k <= |calls|
    requires !At(b, calls, i).phase.Open? && At(b, calls, i + 1).phase.Open?
    ensures var s := At(b, calls, k);
            s.timeout == At(b, calls, i).timeout
            && (calls[k - 1].now >= calls[i].now + s.timeout
                || (s.phase.Open? && s.openedAt.Some? && s.openedAt.value >= calls[i].now))
    decreases k
  {
    hide At;
    AtNext(b, calls, k - 1);
    if k - 1 > i { TripHolds(b, calls, i, k - 1); }
  }

  /** No request is granted within the recovery timeout of a trip. */
  lemma NoGrantAfterTrip(b: Breaker, calls: seq<Call>, i: nat, k: nat)
    requires Clocked(calls) && i < k < |calls|
    requires !At(b, calls, i).phase.Open? && At(b, calls, i + 1).phase.Open?
    requires calls[k].Allow? && At(b, calls, k).Grants(calls[k].now)
    ensures calls[k].now >= calls[i].now + At(b, calls, i).timeout
  {
    hide At;
    TripHolds(b, calls, i, k);
  }

  /** A probe: a request granted while open. */
  predicate Probe(b: Breaker, calls: seq<Call>, i: nat) {
    i < |calls| && calls[i].Allow? && At(b, calls, i).phase.Open? && At(b, calls, i).Grants(calls[i].now)
  }

  /** From a probe on, until the breaker closes: probing, open since no earlier, or the timeout is over. */
  lemma {:induction false} ProbeHolds(b: Breaker, calls: seq<Call>, i: nat, k: nat)
    requires Clocked(calls) && i < k <= |calls| && Probe(b, calls, i)
    requires forall m :: i < m <= k ==> !At(b, calls, m).phase.Closed?
    ensures var s := At(b, calls, k);
            s.timeout == At(b, calls, i).timeout
            && (s.phase.HalfOpen? || calls[k - 1].now >= calls[i].now + s.timeout
                || (s.phase.Open? && s.openedAt.Some? && s.openedAt.value >= calls[i].now))
    decreases k
  {
    hide At;
    AtNext(b, calls, k - 1);
    if k - 1 > i { ProbeHolds(b, calls, i, k - 1); }
  }

  /** Probes with no closed state between them are at least the timeout apart. */
  lemma ProbesApart(b: Breaker, calls: seq<Call>, i: nat, k: nat)
    requires Clocked(calls) && i < k && Probe(b, calls, i) && Probe(b, calls, k)
    requires forall m :: i < m <= k ==> !At(b, calls, m).phase.Closed?
    ensures calls[k].now >= calls[i].now + At(b, calls, i).timeout
  {
    hide At;
    ProbeHolds(b, calls, i, k);
  }

  /** From a trip until the breaker next leaves the open state it opened at the trip. */
  lemma {:induction false} OpenSince(b: Breaker, calls: seq<Call>, i: nat, k: nat)
    requires i < k <= |calls| && !At(b, calls, i).phase.Open?
    requires forall m :: i < m <= k ==> At(b, calls, m).phase.Open?
    ensures At(b, calls, k).openedAt == Some(calls[i].now) && At(b, calls, k).timeout == At(b, calls, i).timeout
    decreases k
  {
    hide At;
    AtNext(b, calls, k - 1);
    if k - 1 > i { OpenSince(b, calls, i, k - 1); }
  }

  /** While open, a request is granted exactly when the timeout since the trip is over. */
  lemma OpenGrantsIff(b: Breaker, calls: seq<Call>, i: nat, k: nat)
    requires Clocked(calls) && i < k < |calls| && !At(b, calls, i).phase.Open?
    requires forall m :: i < m <= k ==> At(b, calls, m).phase.Open?
    ensures At(b, calls, k).Grants(calls[k].now) <==> calls[k].now - calls[i].now >= At(b, calls, i).timeout
  {
    hide At;
    OpenSince(b, calls, i, k);
  }

  /** After a probe every further request is refused until its outcome is reported; success closes the breaker,
      failure opens it again from that moment. */
  lemma {:induction false} OneProbe(b: Breaker, calls: seq<Call>, i: nat, k: nat)
    requires i < k < |calls| && Probe(b, calls, i) && forall m :: i < m < k ==> calls[m].Allow?
    ensures match calls[k]
            case Allow(now) => !At(b, calls, k).Grants(now)
            case Success(_) => At(b, calls, k + 1).phase.Closed?
            case Failure(now) => At(b, calls, k + 1).phase.Open? && At(b, calls, k + 1).openedAt == Some(now)
  {
    hide At;
    ProbingUntilOutcome(b, calls, i, k);
    AtNext(b, calls, k);
  }

  lemma {:induction false} ProbingUntilOutcome(b: Breaker, calls: seq<Call>, i: nat, k: nat)
    requires i < k <= |calls| && Probe(b, calls, i) && forall m :: i < m < k ==> calls[m].Allow?
    ensures At(b, calls, k).phase.HalfOpen?
    decreases k
  {
    hide At;
    AtNext(b, calls, k - 1);
    if k - 1 > i { ProbingUntilOutcome(b, calls, i, k - 1); }
  }
}
