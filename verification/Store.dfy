/** The per-tenant event store: big-endian keys over a map in bytewise key order. */
module Store {
  import opened Bytes
  import opened Events
  import opened Codec

  type Key = seq<byte>

  /** Stored bytes by key: the column family of one tenant. */
  type Db = map<Key, seq<byte>>

  /** The events a store holds, by key. */
  type Contents = map<Key, ChangeEvent>

  // ---- keys ----

  function MakeKey(lsn: u64, xid: u32): Key { ToBE(8, lsn) + ToBE(4, xid) }

  function KeyOf(e: ChangeEvent): Key { MakeKey(e.lsn, e.xid) }

  /** LSN order, ties broken by transaction id. */
  predicate Before(a: ChangeEvent, b: ChangeEvent) { a.lsn < b.lsn || (a.lsn == b.lsn && a.xid < b.xid) }

  lemma BigEndianOrder(n: nat, a: nat, b: nat)
    requires a < Pow256(n) && b < Pow256(n)
    ensures LexLess(ToBE(n, a), ToBE(n, b)) <==> a < b
    ensures ToBE(n, a) == ToBE(n, b) <==> a == b
  {
    FromToBE(n, a);
    FromToBE(n, b);
    LexIsNumeric(ToBE(n, a), ToBE(n, b));
  }

  /** Key order is (lsn, xid) order and equal keys mean equal pairs. */
  lemma KeyOrder(a: ChangeEvent, b: ChangeEvent)
    ensures LexLess(KeyOf(a), KeyOf(b)) <==> Before(a, b)
    ensures KeyOf(a) == KeyOf(b) <==> a.lsn == b.lsn && a.xid == b.xid
  {
    Widths();
    BigEndianOrder(8, a.lsn, b.lsn);
    BigEndianOrder(4, a.xid, b.xid);
    LexConcat(ToBE(8, a.lsn), ToBE(4, a.xid), ToBE(8, b.lsn), ToBE(4, b.xid));
    assert KeyOf(a)[..8] == ToBE(8, a.lsn) && KeyOf(a)[8..] == ToBE(4, a.xid);
    assert KeyOf(b)[..8] == ToBE(8, b.lsn) && KeyOf(b)[8..] == ToBE(4, b.xid);
  }

  /** An 8-byte start key cuts the keys exactly at its LSN. */
  lemma StartKeyOrder(s: u64, e: ChangeEvent)
    ensures LexLess(KeyOf(e), ToBE(8, s)) <==> e.lsn < s
  {
    Widths();
    BigEndianOrder(8, e.lsn, s);
    LexConcat(ToBE(8, e.lsn), ToBE(4, e.xid), ToBE(8, s), []);
    assert ToBE(8, s) + [] == ToBE(8, s);
  }

  // ---- iteration in key order ----

  ghost predicate Ascending(keys: seq<Key>) {
    forall i, j :: 0 <= i < j < |keys| ==> LexLess(keys[i], keys[j])
  }

  predicate IsLeast(m: Key, keys: set<Key>) {
    m in keys && forall k <- keys :: k == m || LexLess(m, k)
  }

  lemma {:induction false} LeastExists(keys: set<Key>)
    requires keys != {}
    ensures exists m :: IsLeast(m, keys)
  {
    var x :| x in keys;
    if keys == {x} {
      assert IsLeast(x, keys);
    } else {
      var rest := keys - {x};
      assert rest != {};
      LeastExists(rest);
      var m :| IsLeast(m, rest);
      LexTotal(x, m);
      if LexLess(m, x) {
        assert IsLeast(m, keys);
      } else {
        forall k <- keys ensures k == x || LexLess(x, k) {
          if k != x && k != m { LexTransitive(x, m, k); }
        }
        assert IsLeast(x, keys);
      }
    }
  }

  lemma LeastUnique(m: Key, n: Key, keys: set<Key>)
    requires IsLeast(m, keys) && IsLeast(n, keys)
    ensures m == n
  {
    if m != n {
      LexTransitive(m, n, m);
      LexIrreflexive(m);
    }
  }

  /** The order in which a RocksDB iterator visits keys. */
  function SortedKeys(keys: set<Key>): (r: seq<Key>)
    ensures forall k :: k in r <==> k in keys
  {
    if keys == {} then []
    else
      LeastExists(keys);
      assert forall m, n | IsLeast(m, keys) && IsLeast(n, keys) :: m == n by {
        forall m, n | IsLeast(m, keys) && IsLeast(n, keys) ensures m == n { LeastUnique(m, n, keys); }
      }
      var m :| IsLeast(m, keys);
      [m] + SortedKeys(keys - {m})
  }

  lemma {:induction false} SortedAscending(keys: set<Key>)
    ensures Ascending(SortedKeys(keys))
  {
    if keys != {} {
      var m := SortedKeys(keys)[0];
      LeastExists(keys);
      assert IsLeast(m, keys);
      SortedAscending(keys - {m});
      assert SortedKeys(keys)[1..] == SortedKeys(keys - {m});
      forall j | 0 < j < |SortedKeys(keys)| ensures LexLess(m, SortedKeys(keys)[j]) {
        assert SortedKeys(keys)[j] == SortedKeys(keys - {m})[j - 1];
        assert SortedKeys(keys)[j] in SortedKeys(keys - {m});
      }
    }
  }

  /** An ascending listing is determined by what it lists. */
  lemma {:induction false} AscendingUnique(a: seq<Key>, b: seq<Key>)
    requires Ascending(a) && Ascending(b)
    requires forall k :: k in a <==> k in b
    ensures a == b
  {
    if a == [] {
      assert forall i :: 0 <= i < |b| ==> b[i] in b;
    } else {
      assert a[0] in b && b != [] && b[0] in a;
      FirstIsLeast(a, b[0]);
      FirstIsLeast(b, a[0]);
      if a[0] != b[0] {
        LexTransitive(a[0], b[0], a[0]);
        LexIrreflexive(a[0]);
      }
      forall k ensures k in a[1..] <==> k in b[1..] {
        TailMembers(a, k);
        TailMembers(b, k);
      }
      AscendingUnique(a[1..], b[1..]);
      assert a == [a[0]] + a[1..] && b == [b[0]] + b[1..];
    }
  }

  lemma FirstIsLeast(a: seq<Key>, k: Key)
    requires Ascending(a) && k in a
    ensures k == a[0] || LexLess(a[0], k)
  {
  }

  lemma TailMembers(a: seq<Key>, k: Key)
    requires Ascending(a) && a != []
    ensures k in a[1..] <==> k in a && k != a[0]
  {
    LexIrreflexive(a[0]);
    if k in a[1..] {
      var i :| 0 <= i < |a[1..]| && a[1..][i] == k;
      assert a[i + 1] == k;
    }
    if k in a && k != a[0] {
      var i :| 0 <= i < |a| && a[i] == k;
      assert a[1..][i - 1] == k;
    }
  }

  /** The keys an iterator opened at `start` goes on to visit. */
  function IterateFrom(keys: set<Key>, start: Key): seq<Key> {
    SortedKeys(set k | k in keys && !LexLess(k, start))
  }

  // ---- writing ----

  /** The store after putting the events in order; a later event replaces an earlier one with its key. */
  function WriteAll(db: Db, es: seq<ChangeEvent>): Db {
    if es == [] then db
    else WriteAll(db, es[..|es| - 1])[KeyOf(es[|es| - 1]) := EventBytes(es[|es| - 1])]
  }

  function PutAll(c: Contents, es: seq<ChangeEvent>): Contents {
    if es == [] then c else PutAll(c, es[..|es| - 1])[KeyOf(es[|es| - 1]) := es[|es| - 1]]
  }

  /** db is the byte form of c. */
  ghost predicate Holds(db: Db, c: Contents) {
    db.Keys == c.Keys && forall k <- c :: KeyOf(c[k]) == k && WellFormed(c[k]) && db[k] == EventBytes(c[k])
  }

  lemma {:induction false} WriteHolds(db: Db, c: Contents, es: seq<ChangeEvent>)
    requires Holds(db, c) && forall e <- es :: WellFormed(e)
    ensures Holds(WriteAll(db, es), PutAll(c, es))
  {
    if es != [] { WriteHolds(db, c, es[..|es| - 1]); }
  }

  /** es[i] is the last event written under its key. */
  ghost predicate LastUnderKey(es: seq<ChangeEvent>, i: int) {
    0 <= i < |es| && forall j :: i < j < |es| ==> KeyOf(es[j]) != KeyOf(es[i])
  }

  lemma {:induction false} PutAllKeepsLast(es: seq<ChangeEvent>, i: int)
    requires LastUnderKey(es, i)
    ensures KeyOf(es[i]) in PutAll(map[], es) && PutAll(map[], es)[KeyOf(es[i])] == es[i]
  {
    if i < |es| - 1 {
      assert KeyOf(es[|es| - 1]) != KeyOf(es[i]);
      PutAllKeepsLast(es[..|es| - 1], i);
    }
  }

  lemma {:induction false} WriteAllKeepsLast(es: seq<ChangeEvent>, i: int)
    requires LastUnderKey(es, i)
    ensures KeyOf(es[i]) in WriteAll(map[], es) && WriteAll(map[], es)[KeyOf(es[i])] == EventBytes(es[i])
  {
    hide KeyOf, EventBytes;
    if i < |es| - 1 {
      assert KeyOf(es[|es| - 1]) != KeyOf(es[i]);
      WriteAllKeepsLast(es[..|es| - 1], i);
    }
  }

  lemma {:induction false} PutAllOnlyLast(es: seq<ChangeEvent>, k: Key) returns (i: nat)
    requires k in PutAll(map[], es)
    ensures LastUnderKey(es, i) && KeyOf(es[i]) == k && PutAll(map[], es)[k] == es[i]
  {
    if KeyOf(es[|es| - 1]) == k {
      i := |es| - 1;
    } else {
      i := PutAllOnlyLast(es[..|es| - 1], k);
    }
  }

  // ---- the log a store stands for ----

  ghost predicate Keyed(c: Contents) { forall k <- c :: KeyOf(c[k]) == k }

  function Values(c: Contents, keys: seq<Key>): seq<ChangeEvent>
    requires forall k <- keys :: k in c
  {
    seq(|keys|, i requires 0 <= i < |keys| => assert keys[i] in keys; c[keys[i]])
  }

  /** Every event held, in (lsn, xid) order. */
  function Log(c: Contents): seq<ChangeEvent> { Values(c, SortedKeys(c.Keys)) }

  ghost predicate Ordered(log: seq<ChangeEvent>) {
    forall i, j :: 0 <= i < j < |log| ==> Before(log[i], log[j])
  }

  lemma ValuesOrdered(c: Contents, keys: seq<Key>)
    requires Keyed(c) && Ascending(keys) && forall k <- keys :: k in c
    ensures Ordered(Values(c, keys))
    ensures forall e :: e in Values(c, keys) <==> KeyOf(e) in keys && c[KeyOf(e)] == e
  {
    hide MakeKey, KeyOf, LexLess;
    var log := Values(c, keys);
    forall i, j | 0 <= i < j < |keys| ensures Before(log[i], log[j]) {
      assert keys[i] in keys && keys[j] in keys;
      KeyOrder(log[i], log[j]);
    }
    forall e ensures e in log <==> KeyOf(e) in keys && c[KeyOf(e)] == e {
      if e in log {
        var i :| 0 <= i < |log| && log[i] == e;
        assert keys[i] in keys;
      }
      if KeyOf(e) in keys && c[KeyOf(e)] == e {
        var i :| 0 <= i < |keys| && keys[i] == KeyOf(e);
        assert log[i] == e;
      }
    }
  }

  lemma LogOrdered(c: Contents)
    requires Keyed(c)
    ensures Ordered(Log(c))
    ensures forall e :: e in Log(c) <==> KeyOf(e) in c && c[KeyOf(e)] == e
  {
    hide MakeKey, KeyOf, LexLess, SortedKeys, Values;
    SortedAscending(c.Keys);
    ValuesOrdered(c, SortedKeys(c.Keys));
  }

  /** An ordered selection that skips nothing smaller is a prefix. */
  lemma PrefixOfOrdered(all: seq<ChangeEvent>, r: seq<ChangeEvent>)
    requires Ordered(all) && Ordered(r)
    requires forall e <- r :: e in all
    requires forall x <- all :: x in r || forall e <- r :: Before(e, x)
    ensures |r| <= |all| && r == all[..|r|]
    ensures forall i :: |r| <= i < |all| ==> all[i] !in r
  {
    for i := 0 to |r|
      invariant i <= |all| && forall t :: 0 <= t < i ==> r[t] == all[t]
    {
      assert r[i] in r;
      var j :| 0 <= j < |all| && all[j] == r[i];
      assert i <= j;
      assert all[i] in all && (i < j ==> Before(all[i], r[i]));
      assert all[i] in r;
      var m :| 0 <= m < |r| && r[m] == all[i];
      assert i < m ==> Before(r[i], r[m]);
    }
  }

  /** An ordered listing is determined by what it lists. */
  lemma OrderedUnique(a: seq<ChangeEvent>, b: seq<ChangeEvent>)
    requires Ordered(a) && Ordered(b) && forall e :: e in a <==> e in b
    ensures a == b
  {
    PrefixOfOrdered(a, b);
    PrefixOfOrdered(b, a);
  }

  /** The part of an ordered log at or after an LSN. */
  function From(log: seq<ChangeEvent>, s: u64): (r: seq<ChangeEvent>)
    ensures |r| <= |log| && r == log[|log| - |r|..]
    ensures forall i :: 0 <= i < |log| - |r| ==> log[i].lsn < s
    ensures r != [] ==> r[0].lsn >= s
  {
    if log == [] || log[0].lsn >= s then log else From(log[1..], s)
  }

  /** What one read returns: a limit of 0 still yields one event. */
  function Page(log: seq<ChangeEvent>, s: u64, limit: nat): seq<ChangeEvent> {
    From(log, s)[..Min(|From(log, s)|, Max(limit, 1))]
  }

  lemma FromMembers(log: seq<ChangeEvent>, s: u64)
    requires Ordered(log)
    ensures Ordered(From(log, s))
    ensures forall e :: e in From(log, s) <==> e in log && e.lsn >= s
  {
    hide From;
    var r := From(log, s);
    var d := |log| - |r|;
    forall e ensures e in r <==> e in log && e.lsn >= s {
      if e in r {
        var i :| 0 <= i < |r| && r[i] == e;
        assert log[d + i] == e && (i > 0 ==> Before(log[d], log[d + i]));
      }
      if e in log && e.lsn >= s {
        var i :| 0 <= i < |log| && log[i] == e;
        assert i >= d && r[i - d] == e;
      }
    }
  }

  // ---- reading ----

  datatype ReadResult = Events(events: seq<ChangeEvent>) | NoColumnFamily | ReadPanics

  /** The loop of `read_from` over the visited keys: undecodable values are skipped, and the limit is tested
      only after an event was added. */
  function Scan(db: Db, keys: seq<Key>, sofar: seq<ChangeEvent>, limit: nat): ReadResult
    requires forall k <- keys :: k in db
  {
    if keys == [] then Events(sofar)
    else match Decode(db[keys[0]])
      case DecodePanic => ReadPanics
      case DecodeError => Scan(db, keys[1..], sofar, limit)
      case Event(e) =>
        if |sofar| + 1 >= limit then Events(sofar + [e]) else Scan(db, keys[1..], sofar + [e], limit)
  }

  lemma {:induction false} ScanHeld(db: Db, c: Contents, keys: seq<Key>, sofar: seq<ChangeEvent>, limit: nat)
    requires Holds(db, c) && forall k <- keys :: k in c
    requires |sofar| < Max(limit, 1)
    ensures Scan(db, keys, sofar, limit)
         == Events(sofar + Values(c, keys[..Min(|keys|, Max(limit, 1) - |sofar|)]))
  {
    hide Decode, EventBytes, WellFormed, MakeKey;
    if keys == [] {
      assert sofar + Values(c, keys) == sofar;
    } else {
      var e := c[keys[0]];
      RoundTripIff(e, []);
      assert EventBytes(e) + [] == EventBytes(e);
      var n := Min(|keys|, Max(limit, 1) - |sofar|);
      assert keys[..n] == [keys[0]] + keys[1..][..n - 1];
      assert Values(c, keys[..n]) == [e] + Values(c, keys[1..][..n - 1]);
      if |sofar| + 1 < limit {
        ScanHeld(db, c, keys[1..], sofar + [e], limit);
        assert sofar + ([e] + Values(c, keys[1..][..n - 1])) == (sofar + [e]) + Values(c, keys[1..][..n - 1]);
      } else {
        assert Values(c, keys[1..][..0]) == [];
      }
    }
  }

  /** The iterator opened at the 8-byte start key visits the log from s on. */
  lemma IterateIsFrom(c: Contents, s: u64)
    requires Keyed(c)
    ensures Values(c, IterateFrom(c.Keys, ToBE(8, s))) == From(Log(c), s)
  {
    hide ToBE, MakeKey, KeyOf, LexLess, SortedKeys, From, Log, Values, Before;
    var start := ToBE(8, s);
    var visited := IterateFrom(c.Keys, start);
    SortedAscending(set k | k in c.Keys && !LexLess(k, start));
    ValuesOrdered(c, visited);
    LogOrdered(c);
    FromMembers(Log(c), s);
    forall e ensures e in Values(c, visited) <==> e in From(Log(c), s) { StartKeyOrder(s, e); }
    OrderedUnique(Values(c, visited), From(Log(c), s));
  }

  /** Reading a store that holds c returns the first max(limit, 1) events of its log at or after the start. */
  lemma ReadIsPage(db: Db, c: Contents, s: u64, limit: nat)
    requires Holds(db, c)
    ensures Scan(db, IterateFrom(db.Keys, ToBE(8, s)), [], limit) == Events(Page(Log(c), s, limit))
  {
    hide ToBE, MakeKey, LexLess, SortedKeys, Decode, EventBytes, WellFormed, Scan, From;
    var keys := IterateFrom(db.Keys, ToBE(8, s));
    ScanHeld(db, c, keys, [], limit);
    IterateIsFrom(c, s);
    ValuesPrefix(c, keys, Min(|keys|, Max(limit, 1)));
  }

  lemma ValuesPrefix(c: Contents, keys: seq<Key>, n: nat)
    requires n <= |keys| && forall k <- keys :: k in c
    ensures [] + Values(c, keys[..n]) == Values(c, keys)[..n]
  {
  }

  // ---- reading any bytes, decodable or not ----

  /** What the values of the keys decode to, those that decode to nothing left out. */
  function Readable(db: Db, keys: seq<Key>): seq<ChangeEvent>
    requires forall k <- keys :: k in db
  {
    if keys == [] then []
    else
      var r := Decode(db[keys[0]]);
      (if r.Event? then [r.event] else []) + Readable(db, keys[1..])
  }

  /** How many keys come before the first whose value makes the decoder panic. */
  function UntilPanic(db: Db, keys: seq<Key>): (n: nat)
    requires forall k <- keys :: k in db
    ensures n <= |keys|
  {
    if keys == [] || Decode(db[keys[0]]) == DecodePanic then 0 else 1 + UntilPanic(db, keys[1..])
  }

  lemma {:induction false} UntilPanicMeaning(db: Db, keys: seq<Key>)
    requires forall k <- keys :: k in db
    ensures var n := UntilPanic(db, keys);
            && (n < |keys| ==> Decode(db[keys[n]]) == DecodePanic)
            && forall i :: 0 <= i < n ==> Decode(db[keys[i]]) != DecodePanic
  {
    hide Decode;
    if keys != [] { UntilPanicMeaning(db, keys[1..]); }
  }

  function ReadOutcome(good: seq<ChangeEvent>, wanted: nat, panics: bool): ReadResult {
    if |good| >= wanted then Events(good[..wanted]) else if panics then ReadPanics else Events(good)
  }

  lemma {:induction false} ScanAny(db: Db, keys: seq<Key>, sofar: seq<ChangeEvent>, limit: nat)
    requires (forall k <- keys :: k in db) && |sofar| < Max(limit, 1)
    ensures var n := UntilPanic(db, keys);
            Scan(db, keys, sofar, limit)
              == ReadOutcome(sofar + Readable(db, keys[..n]), Max(limit, 1), n < |keys|)
  {
    hide Decode;
    var n := UntilPanic(db, keys);
    if keys == [] || n == 0 {
      assert keys[..n] == [] && sofar + [] == sofar;
    } else {
      var r := Decode(db[keys[0]]);
      assert keys[..n][1..] == keys[1..][..n - 1] && keys[..n][0] == keys[0];
      var rest := Readable(db, keys[1..][..n - 1]);
      if r.Event? {
        assert sofar + ([r.event] + rest) == (sofar + [r.event]) + rest;
        if |sofar| + 1 >= limit {
          assert ((sofar + [r.event]) + rest)[..|sofar| + 1] == sofar + [r.event];
        } else {
          ScanAny(db, keys[1..], sofar + [r.event], limit);
        }
      } else {
        assert [] + rest == rest;
        ScanAny(db, keys[1..], sofar, limit);
      }
    }
  }

  /** On any stored bytes, a read skips values that do not decode, stops at max(limit, 1) events, and panics exactly
      when a value that makes the decoder panic comes before that many. */
  lemma ScanMeaning(db: Db, keys: seq<Key>, limit: nat)
    requires forall k <- keys :: k in db
    ensures var n := UntilPanic(db, keys);
            Scan(db, keys, [], limit) == ReadOutcome(Readable(db, keys[..n]), Max(limit, 1), n < |keys|)
  {
    hide Scan, Readable, UntilPanic;
    ScanAny(db, keys, [], limit);
    var n := UntilPanic(db, keys);
    assert [] + Readable(db, keys[..n]) == Readable(db, keys[..n]);
  }

  // ---- what a page is, said of the write history alone ----

  /** e was written, and nothing was written over it. */
  ghost predicate Written(history: seq<ChangeEvent>, e: ChangeEvent) {
    exists i :: LastUnderKey(history, i) && history[i] == e
  }

  /** r lists, in strict (lsn, xid) order, last-written events at or after s, and leaves out only events that
      come after all of r once the limit is used up. */
  ghost predicate IsPage(history: seq<ChangeEvent>, s: u64, limit: nat, r: seq<ChangeEvent>) {
    && |r| <= Max(limit, 1)
    && Ordered(r)
    && (forall e <- r :: e.lsn >= s && Written(history, e))
    && forall x :: Written(history, x) && x.lsn >= s && x !in r ==>
         |r| == Max(limit, 1) && forall e <- r :: Before(e, x)
  }

  lemma HistoryLog(history: seq<ChangeEvent>)
    ensures Keyed(PutAll(map[], history)) && Ordered(Log(PutAll(map[], history)))
    ensures forall e :: e in Log(PutAll(map[], history)) <==> Written(history, e)
  {
    hide MakeKey, KeyOf, Log, SortedKeys, PutAll;
    var c := PutAll(map[], history);
    forall k <- c ensures KeyOf(c[k]) == k { var i := PutAllOnlyLast(history, k); }
    LogOrdered(c);
    forall e ensures e in Log(c) <==> Written(history, e) {
      if e in Log(c) { var i := PutAllOnlyLast(history, KeyOf(e)); }
      if i :| LastUnderKey(history, i) && history[i] == e { PutAllKeepsLast(history, i); }
    }
  }

  lemma PageIsPage(history: seq<ChangeEvent>, s: u64, limit: nat)
    ensures IsPage(history, s, limit, Page(Log(PutAll(map[], history)), s, limit))
  {
    hide MakeKey, KeyOf, Log, SortedKeys, PutAll, From, Written;
    var all, r := From(Log(PutAll(map[], history)), s), Page(Log(PutAll(map[], history)), s, limit);
    HistoryLog(history);
    FromMembers(Log(PutAll(map[], history)), s);
    forall x | Written(history, x) && x.lsn >= s && x !in r
      ensures |r| == Max(limit, 1) && forall e <- r :: Before(e, x)
    {
      assert x in all;
      var j :| 0 <= j < |all| && all[j] == x;
    }
    forall e <- r ensures e in all { }
  }

  lemma IsPageIsPage(history: seq<ChangeEvent>, s: u64, limit: nat, r: seq<ChangeEvent>)
    requires IsPage(history, s, limit, r)
    ensures r == Page(Log(PutAll(map[], history)), s, limit)
  {
    hide MakeKey, KeyOf, Log, SortedKeys, PutAll, From, Written, Ordered, Before;
    var all := From(Log(PutAll(map[], history)), s);
    HistoryLog(history);
    FromMembers(Log(PutAll(map[], history)), s);
    PrefixOfOrdered(all, r);
    assert |r| < |all| ==> all[|r|] in all;
  }

  /** Store refinement: a page read after any writes is the one sequence that IsPage allows. */
  lemma PageIff(history: seq<ChangeEvent>, s: u64, limit: nat, r: seq<ChangeEvent>)
    ensures IsPage(history, s, limit, r) <==> r == Page(Log(PutAll(map[], history)), s, limit)
  {
    hide IsPage, Page;
    PageIsPage(history, s, limit);
    if IsPage(history, s, limit, r) { IsPageIsPage(history, s, limit, r); }
  }

  /** Every written event stays readable exactly when no two different events share (lsn, xid). */
  lemma NothingLostIff(history: seq<ChangeEvent>)
    ensures (forall e <- history :: e in Log(PutAll(map[], history)))
       <==> (forall a, b | a in history && b in history && a.lsn == b.lsn && a.xid == b.xid :: a == b)
  {
    hide MakeKey, KeyOf, Log, SortedKeys, PutAll;
    var c := PutAll(map[], history);
    HistoryLog(history);
    LogOrdered(c);
    forall a, b ensures KeyOf(a) == KeyOf(b) <==> a.lsn == b.lsn && a.xid == b.xid { KeyOrder(a, b); }
    if forall a, b | a in history && b in history && a.lsn == b.lsn && a.xid == b.xid :: a == b {
      forall e <- history ensures e in Log(c) {
        var i :| 0 <= i < |history| && history[i] == e;
        var j := LastIndex(history, i);
        assert history[j] in history;
      }
    }
  }

  lemma {:induction false} LastIndex(history: seq<ChangeEvent>, i: nat) returns (j: nat)
    requires i < |history|
    ensures LastUnderKey(history, j) && KeyOf(history[j]) == KeyOf(history[i])
    decreases |history| - i
  {
    if k :| i < k < |history| && KeyOf(history[k]) == KeyOf(history[i]) {
      j := LastIndex(history, k);
    } else {
      j := i;
    }
  }

  // ---- whole write histories ----

  /** The store after writing the batches one by one to an empty one. */
  function WriteBatches(batches: seq<seq<ChangeEvent>>): Db {
    if batches == [] then map[] else WriteAll(WriteBatches(batches[..|batches| - 1]), batches[|batches| - 1])
  }

  lemma {:induction false} WriteAllConcat(db: Db, a: seq<ChangeEvent>, b: seq<ChangeEvent>)
    ensures WriteAll(WriteAll(db, a), b) == WriteAll(db, a + b)
  {
    hide KeyOf, EventBytes;
    if b == [] {
      assert a + b == a;
    } else {
      var front := b[..|b| - 1];
      WriteAllConcat(db, a, front);
      assert (a + b)[..|a + b| - 1] == a + front && (a + b)[|a + b| - 1] == b[|b| - 1];
    }
  }

  lemma {:induction false} PutAllConcat(c: Contents, a: seq<ChangeEvent>, b: seq<ChangeEvent>)
    ensures PutAll(PutAll(c, a), b) == PutAll(c, a + b)
  {
    hide KeyOf;
    if b == [] {
      assert a + b == a;
    } else {
      PutAllConcat(c, a, b[..|b| - 1]);
      assert (a + b)[..|a + b| - 1] == a + b[..|b| - 1];
    }
  }

  lemma {:induction false} WriteBatchesFlat(batches: seq<seq<ChangeEvent>>)
    ensures WriteBatches(batches) == WriteAll(map[], Flatten(batches))
  {
    if batches != [] {
      WriteBatchesFlat(batches[..|batches| - 1]);
      WriteAllConcat(map[], Flatten(batches[..|batches| - 1]), batches[|batches| - 1]);
    }
  }

  /** After any batches of events that fit the codec, a read returns exactly the page the write history
      determines: first max(limit, 1) last-written events at or after the start, in (lsn, xid) order. */
  lemma StoreRefinement(batches: seq<seq<ChangeEvent>>, s: u64, limit: nat)
    requires forall e <- Flatten(batches) :: WellFormed(e)
    ensures var r := Scan(WriteBatches(batches), IterateFrom(WriteBatches(batches).Keys, ToBE(8, s)), [], limit);
            r.Events? && IsPage(Flatten(batches), s, limit, r.events)
  {
    hide Scan, IterateFrom, ToBE, IsPage, Page, Flatten, WriteBatches, WellFormed, KeyOf, EventBytes;
    var history := Flatten(batches);
    WriteBatchesFlat(batches);
    WriteHolds(map[], map[], history);
    ReadIsPage(WriteAll(map[], history), PutAll(map[], history), s, limit);
    PageIff(history, s, limit, Page(Log(PutAll(map[], history)), s, limit));
  }

  // ---- the store object ----

  class TenantStore {
    var db: Db
    var hasColumnFamily: bool

    constructor ()
      ensures db == map[] && hasColumnFamily
    {
      db := map[];
      hasColumnFamily := true;
    }

    /** Puts are collected and then applied at once; a missing column family changes nothing. */
    method WriteBatch(events: seq<ChangeEvent>) returns (ok: bool)
      modifies this`db
      ensures ok == hasColumnFamily
      ensures db == if ok then WriteAll(old(db), events) else old(db)
    {
      hide MakeKey, EventBytes;
      if !hasColumnFamily { return false; }
      var current := db;
      var wb: seq<(Key, seq<byte>)> := [];
      for i := 0 to |events|
        invariant |wb| == i && forall j :: 0 <= j < i ==> wb[j] == (KeyOf(events[j]), EventBytes(events[j]))
      {
        var value := EncodeEvent(events[i]);
        wb := wb + [(KeyOf(events[i]), value)];
      }
      var updated := current;
      for i := 0 to |wb|
        invariant updated == WriteAll(current, events[..i])
      {
        assert events[..i + 1][..i] == events[..i];
        updated := updated[wb[i].0 := wb[i].1];
      }
      assert events[..|events|] == events;
      db := updated;
      return true;
    }

    method ReadFrom(start: u64, limit: nat) returns (r: ReadResult)
      ensures hasColumnFamily ==> r == Scan(db, IterateFrom(db.Keys, ToBE(8, start)), [], limit)
      ensures !hasColumnFamily ==> r == NoColumnFamily
    {
      hide Decode, SortedKeys, ToBE, LexLess;
      if !hasColumnFamily { return NoColumnFamily; }
      var keys := IterateFrom(db.Keys, ToBE(8, start));
      var events: seq<ChangeEvent> := [];
      for i := 0 to |keys|
        invariant forall k <- keys[i..] :: k in db
        invariant Scan(db, keys, [], limit) == Scan(db, keys[i..], events, limit)
      {
        assert keys[i] in keys && keys[i..][1..] == keys[i + 1..];
        var d := DecodeEvent(db[keys[i]]);
        match d {
          case Event(e) =>
            events := events + [e];
            if |events| >= limit { return Events(events); }
          case DecodeError =>
          case DecodePanic => return ReadPanics;
        }
      }
      return Events(events);
    }
  }
}
