/** Credit-based flow control: the shared credit counter and the pending counter layered on top of it. */
module Credits {
  import opened Bytes

  // ---- the counters as objects, without interference ----

  class CreditThrottle {
    var credits: u32
    const window: u32

    constructor (window: u32)
      ensures credits == window && this.window == window
    {
      credits := window;
      this.window := window;
    }

    /** The load and compare-exchange loop; `failures` is how often the weak exchange fails for no reason. */
    method TryConsume(failures: nat) returns (ok: bool)
      modifies this
      ensures ok == (old(credits) > 0)
      ensures credits == old(credits) - if ok then 1 else 0
    {
      var left := failures;
      while true
        invariant credits == old(credits)
        decreases left
      {
        var current := credits;
        if current == 0 { return false; }
        if left == 0 {
          credits := current - 1;
          return true;
        }
        left := left - 1;
      }
    }

    method Replenish(amount: u32)
      modifies this
      ensures credits == (old(credits) + Min(amount, window)) % U32_MODULUS
    {
      var capped := if amount < window then amount else window;
      credits := (credits + capped) % U32_MODULUS;
    }

    method Reset()
      modifies this
      ensures credits == window
    {
      credits := window;
    }
  }

  class GrpcBackpressure {
    const maxPending: nat
    var pending: nat

    constructor (maxPending: nat)
      ensures this.maxPending == maxPending && pending == 0
    {
      this.maxPending := maxPending;
      pending := 0;
    }

    method OnSend()
      modifies this
      ensures pending == old(pending) + 1
    {
      pending := pending + 1;
    }

    method OnAck(count: nat)
      modifies this
      ensures pending == old(pending) - Min(count, old(pending))
    {
      pending := if count <= pending then pending - count else 0;
    }

    method ShouldPause() returns (pause: bool)
      ensures pause == (pending >= maxPending)
    {
      pause := pending >= maxPending;
    }
  }

  // ---- any number of threads, interleaved at every atomic access ----

  /** A value a thread goes on with after its load: zero would have ended the call. */
  type Loaded = x: int | 0 < x < 0x1_0000_0000 witness 1

  /** `loaded` holds the value each thread has read but not yet exchanged. `consumed` counts successful
      exchanges, `granted` sums the capped replenishments, `wraps` the overflows of the 32-bit counter. An event is
      `sending` between its exchange and `on_send`; an acknowledgement is `owed` between `on_ack` and `replenish`. */
  datatype State = State(window: u32, credits: u32, loaded: map<nat, Loaded>, consumed: nat, granted: nat, wraps: nat,
                         sending: nat, pending: nat, owed: seq<nat>)

  datatype Step =
    | Load(thread: nat)
    | Exchange(thread: nat, spurious: bool)
    | Replenish(amount: u32)
    | Send
    | Ack(count: nat)
    | Settle

  function Initial(window: u32): State { State(window, window, map[], 0, 0, 0, 0, 0, []) }

  function Grant(s: State, amount: nat): State {
    var sum := s.credits + Min(amount, s.window);
    s.(credits := sum % U32_MODULUS, granted := s.granted + Min(amount, s.window), wraps := s.wraps + sum / U32_MODULUS)
  }

  function Next(s: State, step: Step): State {
    match step
    case Load(t) =>
      // a zero ends the call, anything else is kept for the exchange
      if t in s.loaded || s.credits == 0 then s else s.(loaded := s.loaded[t := s.credits])
    case Exchange(t, spurious) =>
      if t !in s.loaded then s
      else if spurious || s.credits != s.loaded[t] then s.(loaded := s.loaded - {t})
      else s.(credits := s.credits - 1, loaded := s.loaded - {t}, consumed := s.consumed + 1, sending := s.sending + 1)
    case Replenish(amount) => Grant(s, amount)
    case Send => if s.sending == 0 then s else s.(sending := s.sending - 1, pending := s.pending + 1)
    case Ack(n) => s.(pending := s.pending - Min(n, s.pending), owed := s.owed + [n])
    case Settle => if s.owed == [] then s else Grant(s, s.owed[0]).(owed := s.owed[1..])
  }

  function Run(window: u32, steps: seq<Step>): State {
    if steps == [] then Initial(window) else Next(Run(window, steps[..|steps| - 1]), steps[|steps| - 1])
  }

  /** A thread left alone between its load and its exchange takes one credit exactly when there is one. */
  lemma LoneConsume(s: State, t: nat)
    requires t !in s.loaded
    ensures var u := Next(Next(s, Load(t)), Exchange(t, false));
            && u.loaded == s.loaded && u.granted == s.granted && u.wraps == s.wraps && u.pending == s.pending
            && (if s.credits > 0
                then u.credits == s.credits - 1 && u.consumed == s.consumed + 1 && u.sending == s.sending + 1
                else u == s)
  {
    assert s.credits > 0 ==> s.loaded[t := s.credits] - {t} == s.loaded;
  }

  /** In every interleaving credits in hand and consumed, and those lost to overflow, are the window and the grants. */
  lemma {:induction false} CreditConservation(window: u32, steps: seq<Step>)
    ensures var s := Run(window, steps);
            s.window == window && s.credits + s.consumed + U32_MODULUS * s.wraps == window + s.granted
  {
    if steps != [] {
      CreditConservation(window, steps[..|steps| - 1]);
      var s, step := Run(window, steps[..|steps| - 1]), steps[|steps| - 1];
      if step.Replenish? { GrantBalances(s, step.amount); }
      if step.Settle? && s.owed != [] { GrantBalances(s, s.owed[0]); }
    }
  }

  lemma GrantBalances(s: State, amount: nat)
    ensures var t := Grant(s, amount);
            && t.credits + U32_MODULUS * t.wraps == s.credits + U32_MODULUS * s.wraps + Min(amount, s.window)
            && t.granted == s.granted + Min(amount, s.window)
  {
  }

  /** The counter has room for the capped amount: what a caller can test before `replenish`. */
  predicate HasRoom(s: State, amount: nat) { s.credits + Min(amount, s.window) < U32_MODULUS }

  predicate StepHasRoom(s: State, step: Step) {
    match step
    case Replenish(amount) => HasRoom(s, amount)
    case Settle => s.owed == [] || HasRoom(s, s.owed[0])
    case _ => true
  }

  /** Every replenishment of the run found room. */
  predicate RoomyRun(window: u32, steps: seq<Step>) {
    steps == [] ||
    (RoomyRun(window, steps[..|steps| - 1]) && StepHasRoom(Run(window, steps[..|steps| - 1]), steps[|steps| - 1]))
  }

  lemma GrantWrapsIff(s: State, amount: nat)
    ensures Grant(s, amount).wraps >= s.wraps
    ensures Grant(s, amount).wraps == s.wraps <==> HasRoom(s, amount)
  {
    var sum := s.credits + Min(amount, s.window);
    assert sum < U32_MODULUS <==> sum / U32_MODULUS == 0;
  }

  lemma {:induction false} RoomyIff(window: u32, steps: seq<Step>)
    ensures Run(window, steps).wraps == 0 <==> RoomyRun(window, steps)
  {
    hide Grant, HasRoom;
    if steps != [] {
      var s, step := Run(window, steps[..|steps| - 1]), steps[|steps| - 1];
      RoomyIff(window, steps[..|steps| - 1]);
      if step.Replenish? { GrantWrapsIff(s, step.amount); }
      if step.Settle? && s.owed != [] { GrantWrapsIff(s, s.owed[0]); }
    }
  }

  /** In every interleaving no credit is lost exactly when each replenishment found room for its capped amount; a
      window and grants that stay below 2^32 in all rule a loss out. */
  lemma NoLossIff(window: u32, steps: seq<Step>)
    ensures var s := Run(window, steps);
            && (s.credits + s.consumed == window + s.granted <==> RoomyRun(window, steps))
            && (window + s.granted < U32_MODULUS ==> RoomyRun(window, steps))
  {
    hide Run, RoomyRun;
    CreditConservation(window, steps);
    RoomyIff(window, steps);
  }

  /** From any window of at least 2^31, one full replenishment of an untouched counter overflows it: from exactly
      2^31 nothing is left of the 2^32 credits. */
  lemma FullReplenishLoses(window: u32)
    requires window >= 0x8000_0000
    ensures var s := Run(window, [Replenish(window)]);
            !RoomyRun(window, [Replenish(window)]) && s.credits == 2 * window - U32_MODULUS && s.consumed == 0
  {
    var steps := [Replenish(window)];
    assert steps[..0] == [] && Run(window, []) == Initial(window);
    assert (window + window) % U32_MODULUS == 2 * window - U32_MODULUS;
  }

  // ---- acknowledgements drive both counters ----

  function Sum(ns: seq<nat>): nat { if ns == [] then 0 else ns[0] + Sum(ns[1..]) }

  lemma {:induction false} SumAppend(ns: seq<nat>, n: nat)
    ensures Sum(ns + [n]) == Sum(ns) + n
  {
    if ns == [] {
      assert Sum([n]) == n + Sum([n][1..]);
    } else {
      assert (ns + [n])[1..] == ns[1..] + [n];
      SumAppend(ns[1..], n);
    }
  }

  /** Every credit is in hand, on its way out, pending, or owed back. */
  predicate Balanced(s: State) { s.credits + s.sending + s.pending + Sum(s.owed) == s.window }

  /** Credits come back only through acknowledgements, and only of what is pending. */
  predicate Paired(s: State, step: Step) { !step.Replenish? && (step.Ack? ==> step.count <= s.pending) }

  predicate PairedRun(window: u32, steps: seq<Step>) {
    steps == [] ||
    (PairedRun(window, steps[..|steps| - 1]) && Paired(Run(window, steps[..|steps| - 1]), steps[|steps| - 1]))
  }

  lemma {:induction false} PairedKeeps(window: u32, steps: seq<Step>)
    requires PairedRun(window, steps)
    ensures Balanced(Run(window, steps)) && Run(window, steps).window == window
  {
    if steps != [] {
      var s, step := Run(window, steps[..|steps| - 1]), steps[|steps| - 1];
      PairedKeeps(window, steps[..|steps| - 1]);
      if step.Ack? { SumAppend(s.owed, step.count); }
      if step.Settle? && s.owed != [] { assert Min(s.owed[0], s.window) == s.owed[0]; }
    }
  }

  /** A paused stream has no credit left at any moment; once every exchange was sent and every acknowledgement
      settled, credits and pending add up to the window, and the stream is paused exactly when credits are out. */
  lemma PauseIffNoCredit(window: u32, steps: seq<Step>)
    requires PairedRun(window, steps)
    ensures var s := Run(window, steps);
            && (s.pending >= window ==> s.credits == 0)
            && (s.sending == 0 && s.owed == [] ==>
                 s.credits + s.pending == window && (s.pending >= window <==> s.credits == 0))
  {
    hide Run, PairedRun;
    PairedKeeps(window, steps);
  }

  /** An acknowledgement keeps the balance exactly when it covers no more than is pending, or all of the window is
      pending and the cap cuts it down. */
  lemma AckBalancedIff(s: State, n: nat)
    requires Balanced(s) && s.owed == []
    ensures Balanced(Next(Next(s, Ack(n)), Settle)) <==> n <= s.pending || s.pending == s.window
  {
    hide Next, Sum;
    AckSettles(s, n);
    NothingOwed();
    BalanceIff(s.credits, s.sending, s.pending, s.window, n);
  }

  lemma NothingOwed()
    ensures Sum([]) == 0
  {
  }

  lemma AckSettles(s: State, n: nat)
    requires s.owed == []
    ensures var t := Next(Next(s, Ack(n)), Settle);
            && t.credits == (s.credits + Min(n, s.window)) % U32_MODULUS && t.pending == s.pending - Min(n, s.pending)
            && t.sending == s.sending && t.window == s.window && t.owed == []
  {
    hide Min;
    var t := Next(s, Ack(n));
    assert t.owed == [n] && t.owed[1..] == [];
  }

  lemma BalanceIff(credits: u32, sending: nat, pending: nat, window: u32, n: nat)
    requires credits + sending + pending == window
    ensures (credits + Min(n, window)) % U32_MODULUS + sending + (pending - Min(n, pending)) == window
       <==> n <= pending || pending == window
  {
    var sum := credits + Min(n, window);
    if sum >= U32_MODULUS {
      assert sum % U32_MODULUS == sum - U32_MODULUS;
    } else {
      assert sum % U32_MODULUS == sum;
    }
  }
}
