/** Key-level filters, the garbage-collection filter and paged replay over the store's log. */
module Replay {
  import opened Bytes
  import opened Events
  import opened Store
  import Lsn

  // ---- read filter ----

  datatype ReadFilter = ReadFilter(tables: Option<seq<Text>>, minLsn: u64, maxLsn: u64) {
    predicate Accept(e: ChangeEvent) {
      && minLsn <= e.lsn <= maxLsn
      && (tables.Some? ==> e.table.Qualified() in tables.value)
    }

    predicate KeyMightMatch(key: Key) {
      |key| >= 8 && (Widths(); minLsn <= FromBE(key[..8]) <= maxLsn)
    }
  }

  /** The key test decides exactly the LSN range, so it never drops an event the filter accepts. */
  lemma KeyFilterExact(f: ReadFilter, e: ChangeEvent)
    ensures f.KeyMightMatch(KeyOf(e)) <==> f.minLsn <= e.lsn <= f.maxLsn
    ensures f.Accept(e) ==> f.KeyMightMatch(KeyOf(e))
    ensures f.tables.None? ==> (f.Accept(e) <==> f.KeyMightMatch(KeyOf(e)))
  {
    Widths();
    FromToBE(8, e.lsn);
    assert KeyOf(e)[..8] == ToBE(8, e.lsn);
  }

  /** An event passes exactly when its LSN is in range and, if tables are given, one of them is its qualified name. */
  lemma AcceptIff(f: ReadFilter, e: ChangeEvent)
    ensures f.Accept(e) <==>
              && f.minLsn <= e.lsn <= f.maxLsn
              && match f.tables
                 case None => true
                 case Some(names) =>
                   exists i :: 0 <= i < |names| && names[i] == e.table.schema + Ascii(".") + e.table.table
  {
    assert Ascii(".") == ['.' as int];
  }

  /** Keys too short to hold an LSN are neither read nor dropped. */
  lemma ShortKeys(f: ReadFilter, watermark: u64, key: Key)
    requires |key| < 8
    ensures !f.KeyMightMatch(key) && !GcFilter(watermark).Removes(key)
  {
  }

  // ---- compaction filter ----

  datatype EventGcFilter = EventGcFilter(watermarkBytes: seq<byte>) {
    predicate Removes(key: Key) { |key| >= 8 && LexLess(key[..8], watermarkBytes) }
  }

  function GcFilter(watermark: u64): EventGcFilter { EventGcFilter(ToBE(8, watermark)) }

  /** On store keys the byte-prefix comparison decides exactly "LSN below the watermark". */
  lemma GcFilterExact(watermark: u64, e: ChangeEvent)
    ensures GcFilter(watermark).Removes(KeyOf(e)) <==> e.lsn < watermark
  {
    Widths();
    BigEndianOrder(8, e.lsn, watermark);
    assert KeyOf(e)[..8] == ToBE(8, e.lsn);
  }

  // ---- replay ----

  datatype ReplayRange = ReplayRange(startLsn: u64, endLsn: u64)

  function RangeFor(committed: u64, head: u64): Option<ReplayRange> {
    if committed >= head then None else Some(ReplayRange(Lsn.SaturatingAdd(committed, 1), head))
  }

  /** The leading events at or before an LSN. */
  function UpTo(log: seq<ChangeEvent>, hi: u64): seq<ChangeEvent> {
    if log == [] || log[0].lsn > hi then [] else [log[0]] + UpTo(log[1..], hi)
  }

  /** The events with LSN in [lo, hi]. */
  function Between(log: seq<ChangeEvent>, lo: u64, hi: u64): seq<ChangeEvent> { UpTo(From(log, lo), hi) }

  /** Repeated reads of one page each: stop at an empty page or once the end is reached, otherwise go on
      behind the last LSN seen. */
  function Replayed(log: seq<ChangeEvent>, lo: u64, hi: u64, limit: nat): seq<ChangeEvent>
    requires Ordered(log)
    decreases U64_MAX - lo
  {
    var page := Page(log, lo, limit);
    if page == [] then []
    else
      var last := page[|page| - 1].lsn;
      if last >= hi then UpTo(page, hi)
      else
        PageAtOrAfter(log, lo, limit);
        page + Replayed(log, last + 1, hi, limit)
  }

  lemma PageAtOrAfter(log: seq<ChangeEvent>, lo: u64, limit: nat)
    requires Ordered(log)
    ensures Ordered(Page(log, lo, limit)) && forall e <- Page(log, lo, limit) :: e.lsn >= lo
  {
    hide From;
    FromMembers(log, lo);
  }

  /** A page holds the next events: any other event from lo on comes after all of the page. */
  lemma PageSplit(log: seq<ChangeEvent>, lo: u64, limit: nat, x: ChangeEvent)
    requires Ordered(log) && x in log && x.lsn >= lo
    ensures Page(log, lo, limit) != []
    ensures x in Page(log, lo, limit) || forall e <- Page(log, lo, limit) :: Before(e, x)
  {
    hide From, Before;
    FromMembers(log, lo);
    var all, page := From(log, lo), Page(log, lo, limit);
    var i :| 0 <= i < |all| && all[i] == x;
    assert i < |page| ==> page[i] == x;
  }

  lemma PageFromLog(log: seq<ChangeEvent>, lo: u64, limit: nat)
    requires Ordered(log)
    ensures forall e <- Page(log, lo, limit) :: e in log
  {
    hide From;
    FromMembers(log, lo);
  }

  lemma {:induction false} UpToMembers(log: seq<ChangeEvent>, hi: u64, e: ChangeEvent)
    requires Ordered(log)
    ensures e in UpTo(log, hi) <==> e in log && e.lsn <= hi
  {
    if log != [] {
      assert log == [log[0]] + log[1..];
      UpToMembers(log[1..], hi, e);
      assert e in log[1..] ==> Before(log[0], e);
    }
  }

  lemma {:induction false} UpToOrdered(log: seq<ChangeEvent>, hi: u64)
    requires Ordered(log)
    ensures Ordered(UpTo(log, hi))
  {
    if log != [] && log[0].lsn <= hi {
      var rest := UpTo(log[1..], hi);
      UpToOrdered(log[1..], hi);
      forall i | 0 <= i < |rest| ensures Before(log[0], rest[i]) {
        UpToMembers(log[1..], hi, rest[i]);
        assert rest[i] in log[1..];
      }
    }
  }

  lemma BetweenMembers(log: seq<ChangeEvent>, lo: u64, hi: u64)
    requires Ordered(log)
    ensures Ordered(Between(log, lo, hi))
    ensures forall e :: e in Between(log, lo, hi) <==> e in log && lo <= e.lsn <= hi
  {
    hide From, UpTo;
    FromMembers(log, lo);
    UpToOrdered(From(log, lo), hi);
    forall e ensures e in Between(log, lo, hi) <==> e in From(log, lo) && e.lsn <= hi {
      UpToMembers(From(log, lo), hi, e);
    }
  }

  ghost predicate DistinctLsns(log: seq<ChangeEvent>, lo: u64, hi: u64) {
    forall a, b | a in log && b in log && lo <= a.lsn == b.lsn <= hi :: a == b
  }

  /** Everything a replay yields lies in range and in the log. */
  lemma {:induction false} ReplayedSound(log: seq<ChangeEvent>, lo: u64, hi: u64, limit: nat)
    requires Ordered(log)
    ensures Ordered(Replayed(log, lo, hi, limit))
    ensures forall e <- Replayed(log, lo, hi, limit) :: e in log && lo <= e.lsn <= hi
    decreases U64_MAX - lo
  {
    hide From, Page, UpTo;
    var page := Page(log, lo, limit);
    PageAtOrAfter(log, lo, limit);
    PageFromLog(log, lo, limit);
    if page != [] {
      var last := page[|page| - 1];
      assert forall i :: 0 <= i < |page| - 1 ==> Before(page[i], last);
      if last.lsn < hi {
        assert last in page;
        ReplayedSound(log, last.lsn + 1, hi, limit);
      } else {
        UpToOrdered(page, hi);
        forall e <- UpTo(page, hi) ensures e in page && e.lsn <= hi { UpToMembers(page, hi, e); }
      }
    }
  }

  lemma DistinctAt(log: seq<ChangeEvent>, lo: u64, hi: u64, a: ChangeEvent, b: ChangeEvent)
    requires DistinctLsns(log, lo, hi) && a in log && b in log && lo <= a.lsn && b.lsn <= hi && Before(a, b)
    ensures a.lsn < b.lsn
  {
  }

  lemma LastOfPage(log: seq<ChangeEvent>, lo: u64, limit: nat)
    requires Ordered(log) && Page(log, lo, limit) != []
    ensures var page := Page(log, lo, limit);
            var last := page[|page| - 1];
            last in page && last in log && last.lsn >= lo && Ordered(page)
  {
    hide Page, Ordered;
    PageAtOrAfter(log, lo, limit);
    PageFromLog(log, lo, limit);
  }

  lemma ReplayedUnfolds(log: seq<ChangeEvent>, lo: u64, hi: u64, limit: nat)
    requires Ordered(log) && Page(log, lo, limit) != []
    ensures var page := Page(log, lo, limit);
            var last := page[|page| - 1].lsn;
            Replayed(log, lo, hi, limit)
              == if last >= hi then UpTo(page, hi) else page + Replayed(log, last + 1, hi, limit)
  {
    hide Page, UpTo, Ordered;
  }

  lemma {:induction false} ReplayedComplete(log: seq<ChangeEvent>, lo: u64, at: u64, hi: u64, limit: nat,
                                            x: ChangeEvent)
    requires Ordered(log) && DistinctLsns(log, lo, hi) && x in log && lo <= at <= x.lsn <= hi
    ensures x in Replayed(log, at, hi, limit)
    decreases U64_MAX - at
  {
    hide Page, UpTo, Ordered, DistinctLsns, Replayed;
    var page := Page(log, at, limit);
    PageSplit(log, at, limit, x);
    LastOfPage(log, at, limit);
    ReplayedUnfolds(log, at, hi, limit);
    var last := page[|page| - 1];
    if x in page {
      if last.lsn >= hi { UpToMembers(page, hi, x); }
    } else {
      DistinctAt(log, lo, hi, last, x);
      ReplayedComplete(log, lo, last.lsn + 1, hi, limit, x);
    }
  }

  ghost predicate StrictLsns(r: seq<ChangeEvent>) {
    forall i, j :: 0 <= i < j < |r| ==> r[i].lsn < r[j].lsn
  }

  lemma SinglePage(log: seq<ChangeEvent>, lo: u64)
    ensures |Page(log, lo, 1)| <= 1
  {
    hide From;
  }

  /** With pages of one event the LSNs of a replay never repeat. */
  lemma {:induction false} SinglePagesStrict(log: seq<ChangeEvent>, lo: u64, hi: u64)
    requires Ordered(log)
    ensures StrictLsns(Replayed(log, lo, hi, 1))
    decreases U64_MAX - lo
  {
    hide From, Page, Ordered;
    var page := Page(log, lo, 1);
    PageAtOrAfter(log, lo, 1);
    SinglePage(log, lo);
    if page != [] { assert page[1..] == [] && UpTo(page[1..], hi) == []; }
    if page != [] && page[0].lsn < hi {
      assert page[0] in page;
      var rest := Replayed(log, page[0].lsn + 1, hi, 1);
      SinglePagesStrict(log, page[0].lsn + 1, hi);
      ReplayedSound(log, page[0].lsn + 1, hi, 1);
      assert Replayed(log, lo, hi, 1) == page + rest;
      assert forall i :: 0 <= i < |rest| ==> rest[i] in rest;
    }
  }

  lemma StrictIsDistinct(r: seq<ChangeEvent>, lo: u64, hi: u64)
    requires StrictLsns(r)
    ensures DistinctLsns(r, lo, hi)
  {
  }

  /** Replay with this page size yields exactly the events in [lo, hi], in order and once each. */
  ghost predicate ReplaysExactly(log: seq<ChangeEvent>, lo: u64, hi: u64, limit: nat)
    requires Ordered(log)
  {
    Replayed(log, lo, hi, limit) == Between(log, lo, hi)
  }

  /** Replay is exact for every page size, zero included, if and only if no two different events in range share
      an LSN. */
  lemma ReplayExactIff(log: seq<ChangeEvent>, lo: u64, hi: u64)
    requires Ordered(log)
    ensures (forall limit: nat :: ReplaysExactly(log, lo, hi, limit)) <==> DistinctLsns(log, lo, hi)
  {
    hide Between, From, Page, DistinctLsns, Ordered, StrictLsns;
    BetweenMembers(log, lo, hi);
    if DistinctLsns(log, lo, hi) {
      forall limit: nat ensures ReplaysExactly(log, lo, hi, limit) {
        ReplayedSound(log, lo, hi, limit);
        forall x | x in log && lo <= x.lsn <= hi ensures x in Replayed(log, lo, hi, limit) {
          ReplayedComplete(log, lo, lo, hi, limit, x);
        }
        OrderedUnique(Replayed(log, lo, hi, limit), Between(log, lo, hi));
      }
    }
    if ReplaysExactly(log, lo, hi, 1) {
      SinglePagesStrict(log, lo, hi);
      StrictIsDistinct(Between(log, lo, hi), lo, hi);
      DistinctByMembers(log, Between(log, lo, hi), lo, hi);
    }
  }

  // ---- one page size ----

  /** No page of n events ends between two events of one LSN. */
  predicate Aligned(all: seq<ChangeEvent>, n: nat)
    requires n > 0
    decreases |all|
  {
    |all| <= n || (all[n - 1].lsn < all[n].lsn && Aligned(all[n..], n))
  }

  /** The same at every multiple of the page size. */
  ghost predicate PagesAligned(all: seq<ChangeEvent>, n: nat)
    requires n > 0
  {
    forall k: nat :: PageAligned(all, n, k)
  }

  predicate PageAligned(all: seq<ChangeEvent>, n: nat, k: nat)
    requires n > 0
  {
    k * n == 0 || k * n >= |all| || all[k * n - 1].lsn < all[k * n].lsn
  }

  lemma NextMultiple(n: nat, k: nat)
    requires n > 0
    ensures (k + 1) * n == k * n + n && (k > 0 ==> k * n >= n) && 1 * n == n && 0 * n == 0
  {
  }

  lemma {:induction false} AlignedIff(all: seq<ChangeEvent>, n: nat)
    requires n > 0
    ensures Aligned(all, n) <==> PagesAligned(all, n)
    decreases |all|
  {
    hide PageAligned;
    if |all| <= n {
      forall k: nat ensures PageAligned(all, n, k) { FewEnough(all, n, k); }
    } else {
      var rest := all[n..];
      AlignedIff(rest, n);
      FirstBoundary(all, n);
      forall k: nat ensures PageAligned(rest, n, k) <==> k == 0 || PageAligned(all, n, k + 1) { Shifted(all, n, k); }
      if PagesAligned(all, n) {
        assert PageAligned(all, n, 1);
        forall k: nat ensures PageAligned(rest, n, k) { assert PageAligned(all, n, k + 1); }
      }
      if Aligned(all, n) {
        forall k: nat ensures PageAligned(all, n, k) {
          if k > 1 { assert PageAligned(rest, n, k - 1); }
        }
      }
    }
  }

  lemma FewEnough(all: seq<ChangeEvent>, n: nat, k: nat)
    requires n > 0 && |all| <= n
    ensures PageAligned(all, n, k)
  {
    NextMultiple(n, k);
    assert k == 0 ==> k * n == 0;
  }

  lemma FirstBoundary(all: seq<ChangeEvent>, n: nat)
    requires 0 < n < |all|
    ensures PageAligned(all, n, 0)
    ensures PageAligned(all, n, 1) <==> all[n - 1].lsn < all[n].lsn
  {
    NextMultiple(n, 1);
  }

  lemma Shifted(all: seq<ChangeEvent>, n: nat, k: nat)
    requires 0 < n < |all|
    ensures PageAligned(all[n..], n, k) <==> k == 0 || PageAligned(all, n, k + 1)
  {
    NextMultiple(n, k);
    assert k == 0 ==> k * n == 0;
    var rest, m := all[n..], k * n;
    assert m > 0 && m < |rest| ==> rest[m - 1] == all[m + n - 1] && rest[m] == all[m + n];
  }

  /** A page holds the leading events of what is to be replayed, or reaches its end. */
  ghost predicate PageFits(page: seq<ChangeEvent>, all: seq<ChangeEvent>, hi: u64, n: nat) {
    && (page == [] ==> all == [])
    && (|all| > n ==> page == all[..n])
    && (|all| <= n && page != [] ==>
          if page[|page| - 1].lsn >= hi then UpTo(page, hi) == all else page == all)
  }

  lemma PageOfBetween(log: seq<ChangeEvent>, lo: u64, hi: u64, limit: nat)
    requires Ordered(log)
    ensures PageFits(Page(log, lo, limit), Between(log, lo, hi), hi, Max(limit, 1))
  {
    hide From, Ordered, UpTo, PageFits, Before;
    FromMembers(log, lo);
    PageOfRest(From(log, lo), Max(limit, 1), hi);
  }

  lemma PageOfRest(rest: seq<ChangeEvent>, n: nat, hi: u64)
    requires Ordered(rest) && n > 0
    ensures PageFits(rest[..Min(|rest|, n)], UpTo(rest, hi), hi, n)
  {
    hide Ordered, UpTo;
    UpToPrefix(rest, hi);
    if |UpTo(rest, hi)| <= n && rest != [] { LastPage(rest, Min(|rest|, n), hi); }
  }

  lemma LastPage(rest: seq<ChangeEvent>, m: nat, hi: u64)
    requires Ordered(rest) && 0 < m <= |rest| && |UpTo(rest, hi)| <= m
    ensures if rest[m - 1].lsn >= hi then UpTo(rest[..m], hi) == UpTo(rest, hi) else rest[..m] == UpTo(rest, hi)
  {
    hide Ordered, UpTo;
    if rest[m - 1].lsn >= hi { UpToOfPrefix(rest, m, hi); } else { AllBelow(rest, m, hi); }
  }

  lemma {:induction false} UpToPrefix(log: seq<ChangeEvent>, hi: u64)
    ensures UpTo(log, hi) <= log
    ensures |UpTo(log, hi)| < |log| ==> log[|UpTo(log, hi)|].lsn > hi
    ensures forall i :: 0 <= i < |UpTo(log, hi)| ==> log[i].lsn <= hi
  {
    if log != [] && log[0].lsn <= hi {
      UpToPrefix(log[1..], hi);
      assert log == [log[0]] + log[1..];
    }
  }

  /** Cutting the log behind what is wanted does not change it. */
  lemma UpToOfPrefix(log: seq<ChangeEvent>, n: nat, hi: u64)
    requires n <= |log| && |UpTo(log, hi)| <= n
    ensures UpTo(log[..n], hi) == UpTo(log, hi)
  {
    hide UpTo;
    UpToPrefix(log, hi);
    UpToPrefix(log[..n], hi);
    var a, b := UpTo(log, hi), UpTo(log[..n], hi);
    assert |a| < |log| ==> log[|a|].lsn > hi;
    assert |b| < n ==> log[..n][|b|].lsn > hi;
  }

  lemma AllBelow(log: seq<ChangeEvent>, n: nat, hi: u64)
    requires Ordered(log) && 0 < n <= |log| && |UpTo(log, hi)| <= n && log[n - 1].lsn < hi
    ensures log[..n] == UpTo(log, hi)
  {
    hide UpTo;
    UpToPrefix(log, hi);
    var a := UpTo(log, hi);
    assert forall i :: 0 <= i < n - 1 ==> Before(log[i], log[n - 1]);
  }

  /** Behind a boundary between LSNs the rest goes on; behind a split LSN an event is lost. */
  lemma BehindPage(log: seq<ChangeEvent>, lo: u64, hi: u64, n: nat)
    requires Ordered(log) && 0 < n <= |Between(log, lo, hi)| && Between(log, lo, hi)[n - 1].lsn < hi
    ensures var all := Between(log, lo, hi);
            (n == |all| || all[n - 1].lsn < all[n].lsn) ==> Between(log, all[n - 1].lsn + 1, hi) == all[n..]
  {
    hide Between, Ordered;
    var all := Between(log, lo, hi);
    var last := all[n - 1].lsn;
    BetweenMembers(log, lo, hi);
    BetweenMembers(log, last + 1, hi);
    assert all[n - 1] in all;
    if n == |all| || all[n - 1].lsn < all[n].lsn {
      OrderedSlice(all, n);
      forall e ensures e in all[n..] <==> e in Between(log, last + 1, hi) { BehindMember(all, n, e); }
      OrderedUnique(all[n..], Between(log, last + 1, hi));
    }
  }

  lemma OrderedSlice(all: seq<ChangeEvent>, n: nat)
    requires Ordered(all) && n <= |all|
    ensures Ordered(all[n..])
  {
  }

  lemma BehindMember(all: seq<ChangeEvent>, n: nat, e: ChangeEvent)
    requires Ordered(all) && 0 < n <= |all| && (n == |all| || all[n - 1].lsn < all[n].lsn)
    ensures e in all[n..] <==> e in all && e.lsn > all[n - 1].lsn
  {
    if e in all {
      var i :| 0 <= i < |all| && all[i] == e;
      assert i > n ==> Before(all[n], all[i]);
      assert i < n - 1 ==> Before(all[i], all[n - 1]);
      assert i >= n ==> all[n..][i - n] == e;
    }
  }

  /** At most one page is left: it is delivered. */
  lemma FewAreExact(log: seq<ChangeEvent>, lo: u64, hi: u64, limit: nat)
    requires Ordered(log) && |Between(log, lo, hi)| <= Max(limit, 1)
    ensures ReplaysExactly(log, lo, hi, limit)
  {
    hide Between, Page, Ordered, UpTo, Replayed;
    var page, all := Page(log, lo, limit), Between(log, lo, hi);
    PageOfBetween(log, lo, hi, limit);
    if page == [] {
      NothingReplayed(log, lo, hi, limit);
    } else {
      LastOfPage(log, lo, limit);
      ReplayedUnfolds(log, lo, hi, limit);
      var last := page[|page| - 1].lsn;
      if last < hi {
        BehindPage(log, lo, hi, |all|);
        NothingInRange(log, last + 1, hi, limit);
        assert page + [] == page;
      }
    }
  }

  lemma NothingInRange(log: seq<ChangeEvent>, lo: u64, hi: u64, limit: nat)
    requires Ordered(log) && Between(log, lo, hi) == []
    ensures Replayed(log, lo, hi, limit) == []
  {
    hide Between, Ordered, Replayed;
    BetweenMembers(log, lo, hi);
    ReplayedSound(log, lo, hi, limit);
    OrderedUnique(Replayed(log, lo, hi, limit), Between(log, lo, hi));
  }

  /** The first page of more than one: what it delivers and where it goes on. */
  lemma FirstPage(log: seq<ChangeEvent>, lo: u64, hi: u64, limit: nat)
    requires Ordered(log) && |Between(log, lo, hi)| > Max(limit, 1)
    ensures var n, all := Max(limit, 1), Between(log, lo, hi);
            var last := all[n - 1].lsn;
            && lo <= last <= all[n].lsn <= hi
            && Replayed(log, lo, hi, limit)
                 == if last >= hi then all[..n] else all[..n] + Replayed(log, last + 1, hi, limit)
  {
    hide Between, Page, Ordered, Replayed, UpTo;
    var n, all := Max(limit, 1), Between(log, lo, hi);
    PageOfBetween(log, lo, hi, limit);
    ReplayedUnfolds(log, lo, hi, limit);
    BetweenMembers(log, lo, hi);
    assert all[n - 1] in all && all[n] in all;
    LaterIsNoLower(all, n);
    AllUpTo(log, lo, hi, n);
  }

  lemma AllUpTo(log: seq<ChangeEvent>, lo: u64, hi: u64, n: nat)
    requires n <= |Between(log, lo, hi)|
    ensures UpTo(Between(log, lo, hi)[..n], hi) == Between(log, lo, hi)[..n]
  {
    hide From, UpTo;
    UpToPrefix(From(log, lo), hi);
    UpToPrefix(Between(log, lo, hi)[..n], hi);
  }

  /** A page that ends inside a run of events with one LSN loses the rest of the run. */
  lemma SplitRunIsLost(log: seq<ChangeEvent>, lo: u64, hi: u64, limit: nat)
    requires Ordered(log) && |Between(log, lo, hi)| > Max(limit, 1)
    requires var n, all := Max(limit, 1), Between(log, lo, hi); all[n - 1].lsn == all[n].lsn
    ensures !ReplaysExactly(log, lo, hi, limit)
  {
    hide Between, Ordered, Replayed;
    var n, all := Max(limit, 1), Between(log, lo, hi);
    FirstPage(log, lo, hi, limit);
    var last := all[n - 1].lsn;
    if last < hi {
      var rest := Replayed(log, last + 1, hi, limit);
      ReplayedSound(log, last + 1, hi, limit);
      assert all == all[..n] + all[n..] && all[n..][0] == all[n];
      SamePrefix(all[..n], rest, all[n..]);
      assert rest != [] ==> rest[0] in rest;
    }
  }

  /** Replay with one page size is exact if and only if no page ends inside a run of events with one LSN. */
  lemma {:induction false} ReplayAlignedIff(log: seq<ChangeEvent>, lo: u64, hi: u64, limit: nat)
    requires Ordered(log)
    ensures ReplaysExactly(log, lo, hi, limit) <==> Aligned(Between(log, lo, hi), Max(limit, 1))
    decreases U64_MAX - lo
  {
    hide Between, Ordered, Replayed;
    var n, all := Max(limit, 1), Between(log, lo, hi);
    if |all| <= n {
      FewAreExact(log, lo, hi, limit);
    } else {
      FirstPage(log, lo, hi, limit);
      var last := all[n - 1].lsn;
      if last < all[n].lsn {
        BehindPage(log, lo, hi, n);
        ReplayAlignedIff(log, last + 1, hi, limit);
        assert all == all[..n] + all[n..];
        SamePrefix(all[..n], Replayed(log, last + 1, hi, limit), all[n..]);
      } else {
        SplitRunIsLost(log, lo, hi, limit);
      }
    }
  }

  lemma LaterIsNoLower(all: seq<ChangeEvent>, n: nat)
    requires Ordered(all) && 0 < n < |all|
    ensures all[n - 1].lsn <= all[n].lsn
  {
  }

  lemma SamePrefix(a: seq<ChangeEvent>, b: seq<ChangeEvent>, c: seq<ChangeEvent>)
    ensures a + b == a + c <==> b == c
  {
    assert (a + b)[|a|..] == b && (a + c)[|a|..] == c;
  }

  /** For every page size: exact if and only if all[k * n - 1] and all[k * n] differ in LSN wherever both exist, n being
      the page size, at least 1, and all the events in range. */
  lemma ReplayExactAtIff(log: seq<ChangeEvent>, lo: u64, hi: u64, limit: nat)
    requires Ordered(log)
    ensures ReplaysExactly(log, lo, hi, limit) <==> PagesAligned(Between(log, lo, hi), Max(limit, 1))
  {
    hide Between, ReplaysExactly, PagesAligned, Aligned;
    ReplayAlignedIff(log, lo, hi, limit);
    AlignedIff(Between(log, lo, hi), Max(limit, 1));
  }

  // ---- replay over stored bytes ----

  lemma ReadGoesOn(db: Db, c: Contents, lo: u64, limit: nat)
    requires Holds(db, c)
    ensures Ordered(Log(c)) && Scan(db, IterateFrom(db.Keys, ToBE(8, lo)), [], limit) == Events(Page(Log(c), lo, limit))
    ensures forall e <- Page(Log(c), lo, limit) :: e.lsn >= lo
  {
    hide Scan, Page, IterateFrom, ToBE, Log, KeyOf;
    ReadIsPage(db, c, lo, limit);
    LogOrdered(c);
    PageAtOrAfter(Log(c), lo, limit);
  }

  /** The same loop over `read_from` on a store's bytes. The contents they stand for only show that it ends. */
  function ReplayedBytes(db: Db, ghost c: Contents, lo: u64, hi: u64, limit: nat): seq<ChangeEvent>
    requires Holds(db, c)
    decreases U64_MAX - lo
  {
    ReadGoesOn(db, c, lo, limit);
    var page := Scan(db, IterateFrom(db.Keys, ToBE(8, lo)), [], limit).events;
    if page == [] then []
    else
      var last := page[|page| - 1].lsn;
      assert page[|page| - 1] in page;
      if last >= hi then UpTo(page, hi) else page + ReplayedBytes(db, c, last + 1, hi, limit)
  }

  /** Reading bytes page by page replays the log they stand for. */
  lemma {:induction false} BytesReplayLog(db: Db, c: Contents, lo: u64, hi: u64, limit: nat)
    requires Holds(db, c)
    ensures Ordered(Log(c)) && ReplayedBytes(db, c, lo, hi, limit) == Replayed(Log(c), lo, hi, limit)
    decreases U64_MAX - lo
  {
    hide Scan, Page, IterateFrom, ToBE, Log, Holds, UpTo, Ordered;
    ReadGoesOn(db, c, lo, limit);
    var page := Page(Log(c), lo, limit);
    if page != [] && page[|page| - 1].lsn < hi {
      assert page[|page| - 1] in page;
      BytesReplayLog(db, c, page[|page| - 1].lsn + 1, hi, limit);
    }
  }

  /** The loop on the store object. */
  method ReplayStore(store: TenantStore, ghost c: Contents, lo: u64, hi: u64, limit: nat)
    returns (out: seq<ChangeEvent>)
    requires store.hasColumnFamily && Holds(store.db, c)
    ensures out == ReplayedBytes(store.db, c, lo, hi, limit)
  {
    hide Scan, IterateFrom, ToBE, Log, Holds, UpTo, Page, Ordered, Replayed, ReplayedBytes;
    ghost var log := Log(c);
    BytesReplayLog(store.db, c, lo, hi, limit);
    var at: u64 := lo;
    out := [];
    while true
      invariant out + Replayed(log, at, hi, limit) == Replayed(log, lo, hi, limit)
      decreases U64_MAX - at
    {
      ReadGoesOn(store.db, c, at, limit);
      var read := store.ReadFrom(at, limit);
      var page := read.events;
      if page == [] {
        NothingReplayed(log, at, hi, limit);
        return;
      }
      ReplayedUnfolds(log, at, hi, limit);
      var last := page[|page| - 1];
      assert last in page;
      if last.lsn >= hi { return out + UpTo(page, hi); }
      ghost var rest := Replayed(log, last.lsn + 1, hi, limit);
      assert out + (page + rest) == (out + page) + rest;
      out, at := out + page, last.lsn + 1;
    }
  }

  lemma NothingReplayed(log: seq<ChangeEvent>, lo: u64, hi: u64, limit: nat)
    requires Ordered(log) && Page(log, lo, limit) == []
    ensures Replayed(log, lo, hi, limit) == []
  {
  }

  ghost predicate BytesReplayExactly(db: Db, c: Contents, lo: u64, hi: u64, limit: nat)
    requires Holds(db, c)
  {
    ReplayedBytes(db, c, lo, hi, limit) == Between(Log(c), lo, hi)
  }

  /** Replay of stored bytes is exact for every page size if and only if no two different events in range share an
      LSN. */
  lemma BytesReplayExactIff(db: Db, c: Contents, lo: u64, hi: u64)
    requires Holds(db, c)
    ensures (forall limit: nat :: BytesReplayExactly(db, c, lo, hi, limit)) <==> DistinctLsns(Log(c), lo, hi)
  {
    hide Between, DistinctLsns, Log, Holds, Replayed, ReplayedBytes;
    BytesReplayLog(db, c, lo, hi, 0);
    forall limit: nat ensures BytesReplayExactly(db, c, lo, hi, limit) <==> ReplaysExactly(Log(c), lo, hi, limit) {
      BytesReplayLog(db, c, lo, hi, limit);
    }
    ReplayExactIff(Log(c), lo, hi);
  }

  /** The same for one page size. */
  lemma BytesReplayExactAtIff(db: Db, c: Contents, lo: u64, hi: u64, limit: nat)
    requires Holds(db, c)
    ensures BytesReplayExactly(db, c, lo, hi, limit) <==> PagesAligned(Between(Log(c), lo, hi), Max(limit, 1))
  {
    hide Between, PagesAligned, Log, Holds, Replayed, ReplayedBytes;
    BytesReplayLog(db, c, lo, hi, limit);
    ReplayExactAtIff(Log(c), lo, hi, limit);
  }

  lemma DistinctByMembers(log: seq<ChangeEvent>, r: seq<ChangeEvent>, lo: u64, hi: u64)
    requires DistinctLsns(r, lo, hi) && forall e :: e in r <==> e in log && lo <= e.lsn <= hi
    ensures DistinctLsns(log, lo, hi)
  {
  }

  /** The replay range of a consumer covers exactly the events after its commit up to the head; a consumer that
      gets no range has none. */
  lemma RangeCovers(log: seq<ChangeEvent>, committed: u64, head: u64, e: ChangeEvent)
    requires Ordered(log) && e in log
    ensures match RangeFor(committed, head)
            case Some(range) => e in Between(log, range.startLsn, range.endLsn) <==> committed < e.lsn <= head
            case None => !(committed < e.lsn <= head)
  {
    match RangeFor(committed, head)
    case Some(range) => BetweenMembers(log, range.startLsn, range.endLsn);
    case None =>
  }
}
