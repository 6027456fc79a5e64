/** The token bucket that throttles the replication stream, with an explicit clock in seconds. */
module TokenBucket {
  import opened Bytes

  datatype Bucket = Bucket(burst: nat, rate: real, tokens: real, lastRefill: real) {
    function Refill(now: real): Bucket {
      var elapsed := if now >= lastRefill then now - lastRefill else 0.0;
      var sum := tokens + elapsed * rate;
      this.(tokens := if sum <= burst as real then sum else burst as real, lastRefill := now)
    }

    predicate Grants(now: real) { Refill(now).tokens >= 1.0 }

    function TryAcquire(now: real): Bucket {
      var b := Refill(now);
      if b.tokens >= 1.0 then b.(tokens := b.tokens - 1.0) else b
    }

    /** None where `Duration::from_secs_f64` panics: the quotient is infinite, negative or beyond 64-bit seconds. */
    function Backoff(): Option<real> {
      if tokens >= 1.0 then Some(0.0)
      else if rate > 0.0 && (1.0 - tokens) / rate < DURATION_LIMIT then Some((1.0 - tokens) / rate)
      else None
    }
  }

  /** Durations are below 2^64 seconds. */
  const DURATION_LIMIT: real := 18446744073709551616.0

  function New(rate: real, burst: nat, now: real): Bucket { Bucket(burst, rate, burst as real, now) }

  class ReplicationThrottle {
    const burst: nat
    const rate: real
    var tokens: real
    var lastRefill: real

    function View(): Bucket
      reads this
    {
      Bucket(burst, rate, tokens, lastRefill)
    }

    constructor (rate: real, burst: nat, now: real)
      ensures View() == New(rate, burst, now)
    {
      this.burst, this.rate := burst, rate;
      tokens, lastRefill := burst as real, now;
    }

    method TryAcquire(now: real) returns (granted: bool)
      modifies this
      ensures granted == old(View()).Grants(now) && View() == old(View()).TryAcquire(now)
    {
      Refill(now);
      if tokens >= 1.0 {
        tokens := tokens - 1.0;
        return true;
      }
      return false;
    }

    method BackoffDuration() returns (wait: Option<real>)
      ensures wait == View().Backoff()
    {
      if tokens >= 1.0 { return Some(0.0); }
      var deficit := 1.0 - tokens;
      if rate > 0.0 && deficit / rate < DURATION_LIMIT { return Some(deficit / rate); }
      return None;
    }

    method Refill(now: real)
      modifies this
      ensures View() == old(View()).Refill(now)
    {
      var elapsed := if now >= lastRefill then now - lastRefill else 0.0;
      var newTokens := elapsed * rate;
      tokens := if tokens + newTokens <= burst as real then tokens + newTokens else burst as real;
      lastRefill := now;
    }
  }

  // ---- runs: attempts at given times ----

  predicate Nondecreasing(start: real, times: seq<real>) {
    && (forall i :: 0 <= i < |times| ==> start <= times[i])
    && forall i, j :: 0 <= i < j < |times| ==> times[i] <= times[j]
  }

  function After(b: Bucket, times: seq<real>): Bucket {
    if times == [] then b else After(b, times[..|times| - 1]).TryAcquire(times[|times| - 1])
  }

  /** Attempts granted. */
  function Acquired(b: Bucket, times: seq<real>): nat {
    if times == [] then 0
    else
      Acquired(b, times[..|times| - 1])
      + if After(b, times[..|times| - 1]).Grants(times[|times| - 1]) then 1 else 0
  }

  ghost predicate InRange(b: Bucket) { 0.0 <= b.tokens <= b.burst as real }

  lemma Gain(rate: real, elapsed: real)
    requires rate >= 0.0 && elapsed >= 0.0
    ensures elapsed * rate >= 0.0
  {
  }

  /** What the rate adds over a stretch of time. */
  function Accrued(rate: real, from: real, to: real): real { rate * (to - from) }

  lemma AccruedFacts(rate: real, a: real, b: real, c: real)
    ensures Accrued(rate, a, a) == 0.0 && Accrued(rate, a, b) + Accrued(rate, b, c) == Accrued(rate, a, c)
  {
  }

  lemma AccruedGrows(rate: real, a: real, b: real, from: real, t: real)
    requires rate >= 0.0 && from <= a && b <= from + t
    ensures Accrued(rate, a, b) <= rate * t
  {
    Scale(rate, b - a, t);
  }

  lemma AcquireStays(b: Bucket, now: real)
    requires InRange(b) && b.rate >= 0.0 && b.lastRefill <= now
    ensures InRange(b.TryAcquire(now))
    ensures var left := b.TryAcquire(now).tokens + (if b.Grants(now) then 1.0 else 0.0);
            left <= b.burst as real && left <= b.tokens + Accrued(b.rate, b.lastRefill, now)
  {
    Gain(b.rate, now - b.lastRefill);
    assert (now - b.lastRefill) * b.rate == Accrued(b.rate, b.lastRefill, now);
  }

  lemma {:induction false} TokensStay(b: Bucket, times: seq<real>)
    requires InRange(b) && b.rate >= 0.0 && Nondecreasing(b.lastRefill, times)
    ensures var c := After(b, times);
            InRange(c) && c.burst == b.burst && c.rate == b.rate
            && c.lastRefill == if times == [] then b.lastRefill else times[|times| - 1]
  {
    hide InRange;
    if times != [] {
      var front, now := times[..|times| - 1], times[|times| - 1];
      TokensStay(b, front);
      AcquireStays(After(b, front), now);
    }
  }

  /** Tokens stay within [0, burst] over every run exactly when the rate is not negative. */
  lemma TokensStayIff(rate: real, burst: nat, start: real)
    ensures (forall times | Nondecreasing(start, times) :: InRange(After(New(rate, burst, start), times)))
       <==> rate >= 0.0
  {
    var b := New(rate, burst, start);
    if rate >= 0.0 {
      forall times | Nondecreasing(start, times) ensures InRange(After(b, times)) { TokensStay(b, times); }
    } else {
      var wait := (burst as real + 1.0) / -rate;
      var times := [start + wait];
      Drained(burst as real + 1.0, rate);
      assert times[..0] == [];
      assert After(b, times) == b.TryAcquire(start + wait);
      assert Nondecreasing(start, times) && !InRange(After(b, times));
    }
  }

  lemma Drained(x: real, rate: real)
    requires x > 0.0 && rate < 0.0
    ensures x / -rate >= 0.0 && (x / -rate) * rate == -x
  {
  }

  /** From attempt i on, tokens in hand plus grants never exceed the burst plus what the rate adds. */
  lemma {:induction false} WindowBound(b: Bucket, times: seq<real>, i: nat, k: nat)
    requires InRange(b) && b.rate >= 0.0 && Nondecreasing(b.lastRefill, times) && i < k <= |times|
    ensures After(b, times[..k]).tokens + Acquired(b, times[..k]) as real
         <= b.burst as real + Accrued(b.rate, times[i], times[k - 1]) + Acquired(b, times[..i]) as real
    decreases k
  {
    hide InRange, Bucket.TryAcquire, Bucket.Grants, Accrued;
    var front, now := times[..k - 1], times[k - 1];
    assert times[..k][..k - 1] == front && times[..k][k - 1] == now;
    PrefixNondecreasing(b.lastRefill, times, k - 1);
    TokensStay(b, front);
    var c := After(b, front);
    AcquireStays(c, now);
    assert After(b, times[..k]) == c.TryAcquire(now);
    assert Acquired(b, times[..k]) as real == Acquired(b, front) as real + if c.Grants(now) then 1.0 else 0.0;
    if k - 1 > i {
      WindowBound(b, times, i, k - 1);
      AccruedFacts(b.rate, times[i], times[k - 2], now);
    } else {
      AccruedFacts(b.rate, now, now, now);
    }
  }

  /** In any stretch of time of length t, at most burst + rate * t attempts are granted. */
  lemma RateBound(rate: real, burst: nat, start: real, times: seq<real>, i: nat, j: nat, from: real, t: real)
    requires rate >= 0.0 && Nondecreasing(start, times) && i <= j < |times| && from <= times[i] && times[j] <= from + t
    ensures var b := New(rate, burst, start);
            Acquired(b, times[..j + 1]) as real <= Acquired(b, times[..i]) as real + burst as real + rate * t
  {
    hide After, Acquired, Accrued;
    var b := New(rate, burst, start);
    WindowBound(b, times, i, j + 1);
    PrefixNondecreasing(start, times, j + 1);
    TokensStay(b, times[..j + 1]);
    AccruedGrows(rate, times[i], times[j], from, t);
  }

  lemma PrefixNondecreasing(start: real, times: seq<real>, k: nat)
    requires Nondecreasing(start, times) && k <= |times|
    ensures Nondecreasing(start, times[..k])
  {
  }

  lemma Scale(rate: real, a: real, b: real)
    requires rate >= 0.0 && a <= b
    ensures rate * a <= rate * b
  {
  }

  // ---- exactly when an attempt is refused ----

  /** What is left of the burst and the rate in the window that opens with attempt i, before attempt k. */
  function WindowLeft(b: Bucket, times: seq<real>, i: nat, k: nat): real
    requires i <= k < |times|
  {
    b.burst as real + Accrued(b.rate, times[i], times[k])
    - (Acquired(b, times[..k]) as real - Acquired(b, times[..i]) as real)
  }

  /** The tokens in hand at attempt k, after the refill. */
  function InHand(b: Bucket, times: seq<real>, k: nat): real
    requires k < |times|
  {
    After(b, times[..k]).Refill(times[k]).tokens
  }

  lemma StepAttempt(b: Bucket, times: seq<real>, k: nat)
    requires 0 < k < |times|
    ensures After(b, times[..k]).tokens
         == InHand(b, times, k - 1) - (Acquired(b, times[..k]) as real - Acquired(b, times[..k - 1]) as real)
    ensures After(b, times[..k]).lastRefill == times[k - 1]
    ensures After(b, times[..k]).burst == After(b, times[..k - 1]).burst
    ensures After(b, times[..k]).rate == After(b, times[..k - 1]).rate
  {
    assert times[..k][..k - 1] == times[..k - 1] && times[..k][k - 1] == times[k - 1];
  }

  lemma {:induction false} SameSettings(b: Bucket, times: seq<real>)
    ensures After(b, times).burst == b.burst && After(b, times).rate == b.rate
  {
    if times != [] { SameSettings(b, times[..|times| - 1]); }
  }

  lemma WindowGrows(b: Bucket, times: seq<real>, i: nat, k: nat)
    requires i < k < |times|
    ensures WindowLeft(b, times, i, k)
         == WindowLeft(b, times, i, k - 1) + Accrued(b.rate, times[k - 1], times[k])
            - (Acquired(b, times[..k]) as real - Acquired(b, times[..k - 1]) as real)
    ensures WindowLeft(b, times, k, k) == b.burst as real
  {
    hide Acquired, Accrued;
    AccruedFacts(b.rate, times[i], times[k - 1], times[k]);
    AccruedFacts(b.rate, times[k], times[k], times[k]);
  }

  lemma RefillIs(b: Bucket, now: real)
    requires b.lastRefill <= now
    ensures var sum := b.tokens + Accrued(b.rate, b.lastRefill, now);
            b.Refill(now).tokens == if sum <= b.burst as real then sum else b.burst as real
  {
  }

  /** The tokens in hand are the least that any window leaves, and some window leaves no more. */
  lemma {:induction false} InHandIsLeast(rate: real, burst: nat, start: real, times: seq<real>, k: nat)
    requires rate >= 0.0 && Nondecreasing(start, times) && k < |times|
    ensures var b := New(rate, burst, start);
            && (forall i :: 0 <= i <= k ==> InHand(b, times, k) <= WindowLeft(b, times, i, k))
            && exists i :: 0 <= i <= k && InHand(b, times, k) == WindowLeft(b, times, i, k)
  {
    hide After, Acquired, Accrued, WindowLeft;
    var b := New(rate, burst, start);
    SameSettings(b, times[..k]);
    if k == 0 {
      FirstInHand(rate, burst, start, times);
    } else {
      InHandIsLeast(rate, burst, start, times, k - 1);
      StepAttempt(b, times, k);
      RefillIs(After(b, times[..k]), times[k]);
      forall i | 0 <= i < k
        ensures WindowLeft(b, times, i, k)
             == WindowLeft(b, times, i, k - 1) + Accrued(b.rate, times[k - 1], times[k])
                - (Acquired(b, times[..k]) as real - Acquired(b, times[..k - 1]) as real)
      {
        WindowGrows(b, times, i, k);
      }
      WindowGrows(b, times, 0, k);
      var j :| 0 <= j <= k - 1 && InHand(b, times, k - 1) == WindowLeft(b, times, j, k - 1);
      assert InHand(b, times, k) == WindowLeft(b, times, j, k) || InHand(b, times, k) == WindowLeft(b, times, k, k);
    }
  }

  lemma FirstInHand(rate: real, burst: nat, start: real, times: seq<real>)
    requires rate >= 0.0 && times != [] && start <= times[0]
    ensures var b := New(rate, burst, start);
            InHand(b, times, 0) == WindowLeft(b, times, 0, 0) == burst as real
  {
    var b := New(rate, burst, start);
    assert times[..0] == [];
    Gain(rate, times[0] - start);
  }

  /** An attempt is refused exactly when granting it would exceed burst + rate * t in some window of the attempts that
      ends with it: the bucket grants whatever the rate bound leaves room for. */
  lemma RefusedIff(rate: real, burst: nat, start: real, times: seq<real>, k: nat)
    requires rate >= 0.0 && Nondecreasing(start, times) && k < |times|
    ensures var b := New(rate, burst, start);
            After(b, times[..k]).Grants(times[k]) <==>
              forall i :: 0 <= i <= k ==>
                (Acquired(b, times[..k]) - Acquired(b, times[..i]) + 1) as real
                  <= burst as real + rate * (times[k] - times[i])
  {
    hide After, Acquired, Accrued;
    var b := New(rate, burst, start);
    InHandIsLeast(rate, burst, start, times, k);
    forall i | 0 <= i <= k ensures Accrued(rate, times[i], times[k]) == rate * (times[k] - times[i]) {
      AccruedIs(rate, times[i], times[k]);
    }
    assert forall i :: 0 <= i <= k ==>
      (WindowLeft(b, times, i, k) >= 1.0 <==>
        (Acquired(b, times[..k]) - Acquired(b, times[..i]) + 1) as real
          <= burst as real + rate * (times[k] - times[i]));
  }

  lemma AccruedIs(rate: real, a: real, b: real)
    ensures Accrued(rate, a, b) == rate * (b - a)
  {
  }

  lemma {:induction false} AtMostAll(b: Bucket, times: seq<real>, i: nat, k: nat)
    requires i <= k <= |times|
    ensures Acquired(b, times[..i]) <= Acquired(b, times[..k]) <= Acquired(b, times[..i]) + (k - i)
    decreases k
  {
    hide After;
    if i < k {
      AtMostAll(b, times, i, k - 1);
      assert times[..k][..k - 1] == times[..k - 1];
    }
  }

  /** The first `burst` attempts on a new bucket are all granted, whenever they come. */
  lemma FirstBurst(rate: real, burst: nat, start: real, times: seq<real>, k: nat)
    requires rate >= 0.0 && Nondecreasing(start, times) && k < |times| && k < burst
    ensures After(New(rate, burst, start), times[..k]).Grants(times[k])
  {
    hide After, Acquired;
    var b := New(rate, burst, start);
    RefusedIff(rate, burst, start, times, k);
    forall i | 0 <= i <= k
      ensures (Acquired(b, times[..k]) - Acquired(b, times[..i]) + 1) as real
                <= burst as real + rate * (times[k] - times[i])
    {
      AtMostAll(b, times, i, k);
      BurstSuffices(Acquired(b, times[..k]) - Acquired(b, times[..i]) + 1, burst, rate, times[k] - times[i]);
    }
  }

  lemma BurstSuffices(granted: nat, burst: nat, rate: real, elapsed: real)
    requires granted <= burst && rate >= 0.0 && elapsed >= 0.0
    ensures granted as real <= burst as real + rate * elapsed
  {
    assert rate * elapsed >= 0.0;
  }

  /** After a refusal there is a backoff exactly when the rate brings the missing part of a token in less than the
      longest duration, and a later attempt is granted exactly when it is over, provided the bucket can hold one
      token. */
  lemma BackoffIff(b: Bucket, now: real, later: real)
    requires InRange(b) && b.rate > 0.0 && b.burst >= 1 && b.lastRefill <= now <= later && !b.Grants(now)
    ensures var c := b.TryAcquire(now);
            && (c.Backoff().Some? <==> c.tokens + DURATION_LIMIT * c.rate > 1.0)
            && (c.Backoff().Some? ==> (c.Grants(later) <==> later >= now + c.Backoff().value))
  {
    var c := b.TryAcquire(now);
    QuotientBelow(1.0 - c.tokens, c.rate, DURATION_LIMIT);
    Quotient(1.0 - c.tokens, c.rate, later - now);
  }

  lemma Quotient(deficit: real, rate: real, wait: real)
    requires rate > 0.0
    ensures wait * rate >= deficit <==> wait >= deficit / rate
  {
    assert (deficit / rate) * rate == deficit;
    if wait >= deficit / rate {
      Scale(rate, deficit / rate, wait);
    } else {
      assert rate * (deficit / rate - wait) > 0.0;
    }
  }

  lemma QuotientBelow(deficit: real, rate: real, limit: real)
    requires rate > 0.0
    ensures deficit / rate < limit <==> deficit < limit * rate
  {
    assert (deficit / rate) * rate == deficit;
    if deficit / rate < limit {
      assert rate * (limit - deficit / rate) > 0.0;
    } else {
      Scale(rate, limit, deficit / rate);
    }
  }
}
