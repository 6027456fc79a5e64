/** Ring buffer, write batch, flush policy and the coordinator that moves events from the ring into batches. */
module Pipeline {
  import opened Bytes
  import opened Events

  // ---- batches ----

  datatype Batch = Batch(events: seq<ChangeEvent>, minLsn: u64, maxLsn: u64, totalBytes: nat)

  const EMPTY_BATCH: Batch := Batch([], U64_MAX, 0, 0)

  function BatchPush(b: Batch, e: ChangeEvent): Batch {
    Batch(b.events + [e],
          if e.lsn < b.minLsn then e.lsn else b.minLsn,
          if e.lsn > b.maxLsn then e.lsn else b.maxLsn,
          b.totalBytes + EstimatedSize(e))
  }

  function TotalSize(es: seq<ChangeEvent>): nat {
    if es == [] then 0 else TotalSize(es[..|es| - 1]) + EstimatedSize(es[|es| - 1])
  }

  /** The running fields of a batch say what they should of its events. */
  ghost predicate Tight(b: Batch) {
    && b.totalBytes == TotalSize(b.events)
    && (forall e <- b.events :: b.minLsn <= e.lsn <= b.maxLsn)
    && (b.events == [] ==> b.minLsn == U64_MAX && b.maxLsn == 0)
    && (b.events != [] ==> (exists e <- b.events :: e.lsn == b.minLsn) && (exists e <- b.events :: e.lsn == b.maxLsn))
  }

  lemma PushTight(b: Batch, e: ChangeEvent)
    requires Tight(b)
    ensures Tight(BatchPush(b, e)) && BatchPush(b, e).totalBytes > 0
  {
    hide EstimatedSize;
    var c := BatchPush(b, e);
    assert c.events[..|c.events| - 1] == b.events;
    assert e in c.events;
    if b.events != [] {
      var x :| x in b.events && x.lsn == b.minLsn;
      var y :| y in b.events && y.lsn == b.maxLsn;
      assert x in c.events && y in c.events;
    }
  }

  lemma NonEmptyHasBytes(b: Batch)
    requires Tight(b)
    ensures b.events != [] <==> b.totalBytes > 0
  {
    hide EstimatedSize;
  }

  class WriteBatch {
    var events: seq<ChangeEvent>
    var minLsn: u64
    var maxLsn: u64
    var totalBytes: nat

    function View(): Batch
      reads this
    {
      Batch(events, minLsn, maxLsn, totalBytes)
    }

    constructor ()
      ensures View() == EMPTY_BATCH
    {
      events, minLsn, maxLsn, totalBytes := [], U64_MAX, 0, 0;
    }

    method Push(e: ChangeEvent)
      modifies this
      ensures View() == BatchPush(old(View()), e)
    {
      if e.lsn < minLsn { minLsn := e.lsn; }
      if e.lsn > maxLsn { maxLsn := e.lsn; }
      totalBytes := totalBytes + EstimatedSize(e);
      events := events + [e];
    }

    method Clear()
      modifies this
      ensures View() == EMPTY_BATCH
    {
      events := [];
      minLsn := U64_MAX;
      maxLsn := 0;
      totalBytes := 0;
    }
  }

  // ---- flush policy ----

  /** Times are microseconds on a monotone clock. */
  datatype Policy = Policy(maxBytes: nat, maxAgeUs: u64, currentBytes: nat, lastFlush: nat, flushCount: nat) {
    /** `elapsed().as_micros() as u64`: a clock reading before the last flush counts as no time at all. */
    function AgeUs(now: nat): u64 { (if now > lastFlush then now - lastFlush else 0) % U64_MODULUS }

    predicate ShouldFlush(now: nat) {
      currentBytes >= maxBytes || (AgeUs(now) >= maxAgeUs && currentBytes > 0)
    }

    function Accumulate(bytes: nat): Policy { this.(currentBytes := currentBytes + bytes) }

    function MarkFlushed(now: nat): Policy { this.(currentBytes := 0, lastFlush := now, flushCount := flushCount + 1) }
  }

  class FlushPolicy {
    const maxBytes: nat
    const maxAgeUs: u64
    var currentBytes: nat
    var lastFlush: nat
    var flushCount: nat

    function View(): Policy
      reads this
    {
      Policy(maxBytes, maxAgeUs, currentBytes, lastFlush, flushCount)
    }

    constructor (maxBytes: nat, maxAgeUs: u64, now: nat)
      ensures View() == Policy(maxBytes, maxAgeUs, 0, now, 0)
    {
      this.maxBytes, this.maxAgeUs := maxBytes, maxAgeUs;
      currentBytes, lastFlush, flushCount := 0, now, 0;
    }

    method Accumulate(bytes: nat)
      modifies this
      ensures View() == old(View()).Accumulate(bytes)
    {
      currentBytes := currentBytes + bytes;
    }

    method ShouldFlush(now: nat) returns (flush: bool)
      ensures flush <==> View().ShouldFlush(now)
    {
      if currentBytes >= maxBytes { return true; }
      var ageUs := (if now > lastFlush then now - lastFlush else 0) % U64_MODULUS;
      if ageUs >= maxAgeUs && currentBytes > 0 { return true; }
      return false;
    }

    method MarkFlushed(now: nat)
      modifies this
      ensures View() == old(View()).MarkFlushed(now)
    {
      currentBytes := 0;
      lastFlush := now;
      flushCount := flushCount + 1;
    }
  }

  // ---- ring ----

  function Offered<T>(capacity: nat, items: seq<T>, item: T): seq<T> {
    if |items| < capacity then items + [item] else items
  }

  /** A bounded FIFO; a full ring refuses the push. */
  class RingBuffer<T> {
    const capacity: nat
    var items: seq<T>

    constructor (capacity: nat)
      requires capacity > 0
      ensures this.capacity == capacity && items == []
    {
      this.capacity := capacity;
      items := [];
    }

    method TryPush(item: T) returns (accepted: bool)
      modifies this
      ensures accepted == (|old(items)| < capacity)
      ensures items == Offered(capacity, old(items), item)
    {
      accepted := |items| < capacity;
      if accepted { items := items + [item]; }
    }

    method TryPop() returns (item: Option<T>)
      modifies this
      ensures old(items) == [] ==> item == None && items == []
      ensures old(items) != [] ==> item == Some(old(items)[0]) && items == old(items)[1..]
    {
      if items == [] { return None; }
      item := Some(items[0]);
      items := items[1..];
    }
  }

  // ---- coordinator ----

  datatype Pipe = Pipe(capacity: nat, ring: seq<ChangeEvent>, batch: Batch, policy: Policy,
                       processed: nat, batchesFlushed: nat)

  /** One turn of the drain loop: the oldest event moves from the ring into the batch. */
  function PopOne(p: Pipe): Pipe
    requires p.ring != []
  {
    p.(ring := p.ring[1..], batch := BatchPush(p.batch, p.ring[0]),
       policy := p.policy.Accumulate(EstimatedSize(p.ring[0])))
  }

  function PopAll(p: Pipe): Pipe
    decreases |p.ring|
  {
    if p.ring == [] then p else PopAll(PopOne(p))
  }

  lemma {:induction false} TotalSizeConcat(a: seq<ChangeEvent>, b: seq<ChangeEvent>)
    ensures TotalSize(a + b) == TotalSize(a) + TotalSize(b)
  {
    hide EstimatedSize;
    if b == [] {
      assert a + b == a;
    } else {
      TotalSizeConcat(a, b[..|b| - 1]);
      assert (a + b)[..|a + b| - 1] == a + b[..|b| - 1];
    }
  }

  /** A drain leaves the ring empty, puts its events behind those of the batch, and accounts for their size. */
  lemma {:induction false} PopAllMeaning(p: Pipe)
    ensures var q := PopAll(p);
            && q.ring == [] && q.batch.events == p.batch.events + p.ring
            && q.batch.totalBytes == p.batch.totalBytes + TotalSize(p.ring)
            && q.policy == p.policy.(currentBytes := p.policy.currentBytes + TotalSize(p.ring))
            && q.capacity == p.capacity && q.processed == p.processed && q.batchesFlushed == p.batchesFlushed
    decreases |p.ring|
  {
    hide EstimatedSize;
    if p.ring == [] {
      assert p.batch.events + [] == p.batch.events;
    } else {
      PopAllMeaning(PopOne(p));
      var e, rest := p.ring[0], p.ring[1..];
      assert p.ring == [e] + rest && [e][..0] == [];
      TotalSizeConcat([e], rest);
      assert TotalSize([e]) == EstimatedSize(e);
      assert p.batch.events + p.ring == (p.batch.events + [e]) + rest;
    }
  }

  /** The batch is handed out and the policy starts over. */
  function TakeBatch(p: Pipe, now: nat): Pipe {
    p.(batch := EMPTY_BATCH, policy := p.policy.MarkFlushed(now), batchesFlushed := p.batchesFlushed + 1)
  }

  class PipelineCoordinator {
    const ring: RingBuffer<ChangeEvent>
    const policy: FlushPolicy
    var batch: WriteBatch
    var processed: nat
    var flushed: nat

    function View(): Pipe
      reads this, ring, policy, batch
    {
      Pipe(ring.capacity, ring.items, batch.View(), policy.View(), processed, flushed)
    }

    constructor (ring: RingBuffer<ChangeEvent>, policy: FlushPolicy)
      ensures this.ring == ring && this.policy == policy && fresh(batch)
      ensures View() == Pipe(ring.capacity, ring.items, EMPTY_BATCH, policy.View(), 0, 0)
    {
      this.ring, this.policy := ring, policy;
      batch := new WriteBatch();
      processed, flushed := 0, 0;
    }

    method DrainRing() returns (count: nat)
      modifies this`processed, ring, policy, batch
      ensures count == |old(ring.items)| && batch == old(batch)
      ensures View() == var p := PopAll(old(View())); p.(processed := p.processed + count)
    {
      hide EstimatedSize;
      count := 0;
      ghost var start := View();
      var popped := ring.TryPop();
      while popped.Some?
        invariant popped.Some? ==> PopAll(start) == PopAll(View().(ring := [popped.value] + ring.items))
        invariant popped.None? ==> PopAll(start) == View() && ring.items == []
        invariant count + |ring.items| + (if popped.Some? then 1 else 0) == |start.ring|
        invariant processed == start.processed && batch == old(batch)
        decreases |ring.items| + if popped.Some? then 1 else 0
      {
        ghost var before := View().(ring := [popped.value] + ring.items);
        var size := EstimatedSize(popped.value);
        batch.Push(popped.value);
        policy.Accumulate(size);
        count := count + 1;
        assert View() == PopOne(before);
        popped := ring.TryPop();
        assert popped.Some? ==> [popped.value] + ring.items == PopOne(before).ring;
      }
      processed := processed + count;
    }

    method MaybeFlush(now: nat) returns (out: WriteBatch?)
      modifies this`batch, this`flushed, policy
      ensures out != null <==> old(View()).policy.ShouldFlush(now) && old(View()).batch.events != []
      ensures out != null ==> out == old(batch) && fresh(batch) && out.View() == old(View()).batch
      ensures View() == if out != null then TakeBatch(old(View()), now) else old(View())
    {
      var due := policy.ShouldFlush(now);
      if due && batch.events != [] {
        out := batch;
        batch := new WriteBatch();
        policy.MarkFlushed(now);
        flushed := flushed + 1;
      } else {
        out := null;
      }
    }

    method ForceFlush(now: nat) returns (out: WriteBatch?)
      modifies this`batch, this`flushed, policy
      ensures out != null <==> old(View()).batch.events != []
      ensures out != null ==> out == old(batch) && fresh(batch) && out.View() == old(View()).batch
      ensures View() == if out != null then TakeBatch(old(View()), now) else old(View())
    {
      if batch.events != [] {
        out := batch;
        batch := new WriteBatch();
        policy.MarkFlushed(now);
        flushed := flushed + 1;
      } else {
        out := null;
      }
    }
  }
}
