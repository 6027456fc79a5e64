/** The 64-bit FNV-1a schema fingerprint (section 2 of draft-eastlake-fnv). Text is bytes as bit vectors, because the
    hash mixes exclusive-or with multiplication modulo 2^64. */
module Fingerprint {
  type Octets = seq<bv8>

  datatype ColumnSchema = ColumnSchema(name: Octets, typeName: Octets)

  function TimesPrime(x: bv64): bv64 { x * 0x100_0000_01b3 }

  function Mix(h: bv64, b: bv8): bv64 { TimesPrime(h ^ (b as bv64)) }

  /** FNV-1a over a text, from any starting value. */
  function Fnv(h: bv64, s: Octets): bv64 {
    if s == [] then h else Mix(Fnv(h, s[..|s| - 1]), s[|s| - 1])
  }

  const DOT: bv8 := 0x2E
  const BAR: bv8 := 0x7C
  const COLON: bv8 := 0x3A

  /** `|name:type` for each column. */
  function ColumnsText(columns: seq<ColumnSchema>): Octets {
    if columns == [] then []
    else
      var c := columns[|columns| - 1];
      ColumnsText(columns[..|columns| - 1]) + ColumnText(c)
  }

  function ColumnText(c: ColumnSchema): Octets { [BAR] + c.name + [COLON] + c.typeName }

  /** The text the fingerprint stands for: `schema.table|name:type|...`. */
  function Canonical(schema: Octets, table: Octets, columns: seq<ColumnSchema>): Octets {
    schema + [DOT] + table + ColumnsText(columns)
  }

  function FingerprintOf(schema: Octets, table: Octets, columns: seq<ColumnSchema>): bv64 {
    Fnv(0xcbf2_9ce4_8422_2325, Canonical(schema, table, columns))
  }

  lemma {:induction false} FnvConcat(h: bv64, a: Octets, b: Octets)
    ensures Fnv(h, a + b) == Fnv(Fnv(h, a), b)
  {
    hide Mix;
    if b == [] {
      assert a + b == a;
    } else {
      FnvConcat(h, a, b[..|b| - 1]);
      assert (a + b)[..|a + b| - 1] == a + b[..|b| - 1];
    }
  }

  lemma FnvAppend(h: bv64, a: Octets, b: bv8)
    ensures Fnv(h, a + [b]) == Mix(Fnv(h, a), b)
  {
    hide Mix;
    assert (a + [b])[..|a|] == a;
  }

  method HashText(start: bv64, s: Octets) returns (hash: bv64)
    ensures hash == Fnv(start, s)
  {
    hide Mix;
    hash := start;
    for i := 0 to |s|
      invariant hash == Fnv(start, s[..i])
    {
      assert s[..i + 1][..i] == s[..i];
      hash := Mix(hash, s[i]);
    }
    assert s[..|s|] == s;
  }

  method HashColumn(start: bv64, c: ColumnSchema) returns (hash: bv64)
    ensures hash == Fnv(start, ColumnText(c))
  {
    hide Mix;
    hash := Mix(start, BAR);
    hash := HashText(hash, c.name);
    hash := Mix(hash, COLON);
    hash := HashText(hash, c.typeName);
    FnvAppend(start, [], BAR);
    assert [] + [BAR] == [BAR];
    FnvConcat(start, [BAR], c.name);
    FnvAppend(start, [BAR] + c.name, COLON);
    FnvConcat(start, [BAR] + c.name + [COLON], c.typeName);
  }

  // ---- what is hashed, from the front and with every byte spelled out ----

  /** FNV-1a of section 2 of draft-eastlake-fnv: for each byte in turn, exclusive-or, then times the prime. */
  ghost predicate Steps(hs: seq<bv64>, bytes: Octets) {
    |hs| == |bytes| + 1 && forall i :: 0 <= i < |bytes| ==> Follows(hs[i], bytes[i], hs[i + 1])
  }

  predicate Follows(h: bv64, b: bv8, next: bv64) { next == (h ^ (b as bv64)) * 0x100_0000_01b3 }

  /** The steps lead from the start value over all the bytes to the hash. */
  ghost predicate IsFnv1a(start: bv64, bytes: Octets, hash: bv64) {
    exists hs :: Steps(hs, bytes) && hs[0] == start && hs[|bytes|] == hash
  }

  lemma MixFollows(h: bv64, b: bv8)
    ensures Follows(h, b, Mix(h, b))
  {
  }

  lemma {:induction false} StepsUnique(gs: seq<bv64>, hs: seq<bv64>, bytes: Octets, k: nat)
    requires Steps(gs, bytes) && Steps(hs, bytes) && gs[0] == hs[0] && k <= |bytes|
    ensures gs[k] == hs[k]
  {
    hide Follows;
    if k > 0 {
      StepsUnique(gs, hs, bytes, k - 1);
      FollowsOnce(gs[k - 1], bytes[k - 1], gs[k], hs[k]);
    }
  }

  lemma FollowsOnce(h: bv64, b: bv8, x: bv64, y: bv64)
    requires Follows(h, b, x) && Follows(h, b, y)
    ensures x == y
  {
  }

  /** There is one such hash. */
  lemma IsFnv1aUnique(start: bv64, bytes: Octets, a: bv64, b: bv64)
    requires IsFnv1a(start, bytes, a) && IsFnv1a(start, bytes, b)
    ensures a == b
  {
    hide Follows;
    var gs :| Steps(gs, bytes) && gs[0] == start && gs[|bytes|] == a;
    var hs :| Steps(hs, bytes) && hs[0] == start && hs[|bytes|] == b;
    StepsUnique(gs, hs, bytes, |bytes|);
  }

  function ColumnBytes(columns: seq<ColumnSchema>): Octets {
    if columns == [] then []
    else [0x7C as bv8] + columns[0].name + [0x3A as bv8] + columns[0].typeName + ColumnBytes(columns[1..])
  }

  lemma FnvIsFnv1a(h: bv64, s: Octets)
    ensures IsFnv1a(h, s, Fnv(h, s))
  {
    hide Mix, Fnv, Follows;
    var hs := seq(|s| + 1, i requires 0 <= i <= |s| => Fnv(h, s[..i]));
    forall i | 0 <= i < |s| ensures Follows(hs[i], s[i], hs[i + 1]) {
      FnvAppend(h, s[..i], s[i]);
      MixFollows(Fnv(h, s[..i]), s[i]);
      assert s[..i + 1] == s[..i] + [s[i]];
    }
    EmptyHash(h);
    assert s[..0] == [] && s[..|s|] == s;
    assert Steps(hs, s);
  }

  lemma EmptyHash(h: bv64)
    ensures Fnv(h, []) == h
  {
  }

  lemma {:induction false} ColumnBytesAre(columns: seq<ColumnSchema>)
    ensures ColumnBytes(columns) == ColumnsText(columns)
  {
    hide ColumnsText;
    ColumnsTextStart(columns);
    if columns != [] {
      ColumnBytesAre(columns[1..]);
      ColumnsTextFront(columns[0], columns[1..]);
      assert columns == [columns[0]] + columns[1..];
    }
  }

  /** The fingerprint is the 64-bit FNV-1a hash, from its standard offset basis, of the schema, a dot, the table, and
      for each column a bar, its name, a colon and its type. */
  lemma FingerprintIsFnv1a(schema: Octets, table: Octets, columns: seq<ColumnSchema>)
    ensures IsFnv1a(0xcbf2_9ce4_8422_2325, schema + [0x2E as bv8] + table + ColumnBytes(columns),
                    FingerprintOf(schema, table, columns))
  {
    hide IsFnv1a, Fnv, ColumnsText, ColumnBytes;
    ColumnBytesAre(columns);
    FnvIsFnv1a(0xcbf2_9ce4_8422_2325, schema + [0x2E as bv8] + table + ColumnBytes(columns));
  }

  /** The hash of a lone dot. */
  lemma Anchor()
    ensures FingerprintOf([], [], []) == 0xaf63_a34c_8601_8bb1
  {
    hide Fnv;
    ColumnsTextStart([]);
    assert Canonical([], [], []) == [] + [DOT];
    FnvAppend(0xcbf2_9ce4_8422_2325, [], DOT);
    EmptyHash(0xcbf2_9ce4_8422_2325);
  }

  /** The nested loops hash exactly these bytes. */
  method Compute(schema: Octets, table: Octets, columns: seq<ColumnSchema>) returns (hash: bv64)
    ensures IsFnv1a(0xcbf2_9ce4_8422_2325, schema + [0x2E as bv8] + table + ColumnBytes(columns), hash)
    ensures hash == FingerprintOf(schema, table, columns)
  {
    hide Mix, Fnv, IsFnv1a, ColumnText, ColumnBytes;
    FingerprintIsFnv1a(schema, table, columns);
    var basis: bv64 := 0xcbf2_9ce4_8422_2325;
    hash := HashText(basis, schema);
    hash := Mix(hash, DOT);
    hash := HashText(hash, table);
    ghost var head := schema + [DOT] + table;
    FnvAppend(basis, schema, DOT);
    FnvConcat(basis, schema + [DOT], table);
    assert head + [] == head;
    for i := 0 to |columns|
      invariant hash == Fnv(basis, head + ColumnsText(columns[..i]))
    {
      ghost var done := head + ColumnsText(columns[..i]);
      hash := HashColumn(hash, columns[i]);
      FnvConcat(basis, done, ColumnText(columns[i]));
      assert columns[..i + 1][..i] == columns[..i];
      assert done + ColumnText(columns[i]) == head + ColumnsText(columns[..i + 1]);
    }
    assert columns[..|columns|] == columns;
  }

  // ---- sensitivity ----

  function TimesInverse(x: bv64): bv64 { x * 0xce96_5057_aff6_957b }

  lemma ProductInvertible(x: bv64)
    ensures TimesInverse(x * 0x100_0000_01b3) == x
  {
  }

  /** Multiplying by the prime is undone by its inverse modulo 2^64. */
  lemma PrimeInvertible(x: bv64)
    ensures TimesInverse(TimesPrime(x)) == x
  {
    hide TimesInverse;
    ProductInvertible(x);
  }

  lemma PrimeInjective(x: bv64, y: bv64)
    requires TimesPrime(x) == TimesPrime(y)
    ensures x == y
  {
    hide *;
    PrimeInvertible(x);
    PrimeInvertible(y);
  }

  lemma MixInjective(g: bv64, h: bv64, b: bv8, c: bv8)
    requires Mix(g, b) == Mix(h, c)
    ensures g ^ (b as bv64) == h ^ (c as bv64)
  {
    hide TimesPrime;
    PrimeInjective(g ^ (b as bv64), h ^ (c as bv64));
  }

  lemma MixInState(g: bv64, h: bv64, b: bv8)
    requires Mix(g, b) == Mix(h, b)
    ensures g == h
  {
    hide TimesPrime;
    MixInjective(g, h, b, b);
  }

  lemma MixInByte(h: bv64, b: bv8, c: bv8)
    requires Mix(h, b) == Mix(h, c)
    ensures b == c
  {
    hide TimesPrime;
    MixInjective(h, h, b, c);
  }

  lemma {:induction false} FnvInjective(g: bv64, h: bv64, s: Octets)
    requires Fnv(g, s) == Fnv(h, s)
    ensures g == h
  {
    hide Mix;
    if s != [] {
      var front := s[..|s| - 1];
      MixInState(Fnv(g, front), Fnv(h, front), s[|s| - 1]);
      FnvInjective(g, h, front);
    }
  }

  /** Two texts of one length that differ in exactly one byte never have the same hash. */
  lemma OneByteChangesHash(h: bv64, s: Octets, t: Octets, i: nat)
    requires |s| == |t| && i < |s| && s[i] != t[i]
    requires forall j :: 0 <= j < |s| && j != i ==> s[j] == t[j]
    ensures Fnv(h, s) != Fnv(h, t)
  {
    hide Mix, Fnv;
    assert s == s[..i] + [s[i]] + s[i + 1..] && t == s[..i] + [t[i]] + s[i + 1..];
    FnvConcat(h, s[..i] + [s[i]], s[i + 1..]);
    FnvConcat(h, s[..i] + [t[i]], s[i + 1..]);
    FnvAppend(h, s[..i], s[i]);
    FnvAppend(h, s[..i], t[i]);
    if Fnv(h, s) == Fnv(h, t) {
      FnvInjective(Fnv(h, s[..i] + [s[i]]), Fnv(h, s[..i] + [t[i]]), s[i + 1..]);
      MixInByte(Fnv(h, s[..i]), s[i], t[i]);
    }
  }

  /** Two schemas whose canonical texts have one length and differ in one byte have different fingerprints. */
  lemma FingerprintSensitive(s1: Octets, t1: Octets, c1: seq<ColumnSchema>, s2: Octets, t2: Octets,
                             c2: seq<ColumnSchema>, i: nat)
    requires var a, b := Canonical(s1, t1, c1), Canonical(s2, t2, c2);
             |a| == |b| && i < |a| && a[i] != b[i] && forall j :: 0 <= j < |a| && j != i ==> a[j] == b[j]
    ensures FingerprintOf(s1, t1, c1) != FingerprintOf(s2, t2, c2)
  {
    hide Fnv, Canonical;
    OneByteChangesHash(0xcbf2_9ce4_8422_2325, Canonical(s1, t1, c1), Canonical(s2, t2, c2), i);
  }

  // ---- which schemas share a canonical text ----

  /** Each separator can be found again: no dot in the schema, no bar in the table or a type, no colon in a name. */
  predicate Separable(schema: Octets, table: Octets, columns: seq<ColumnSchema>) {
    && DOT !in schema && BAR !in table
    && SeparableColumns(columns)
  }

  /** Texts that end at the same separator are equal, and so is what follows. */
  lemma CutAt(a: Octets, x: Octets, b: Octets, y: Octets, sep: bv8)
    requires sep !in a && sep !in b && a + [sep] + x == b + [sep] + y
    ensures a == b && x == y
  {
    var s, t := a + [sep] + x, b + [sep] + y;
    assert s[|a|] == sep && t[|b|] == sep;
    assert forall i :: 0 <= i < |a| ==> s[i] == a[i];
    assert forall i :: 0 <= i < |b| ==> t[i] == b[i];
    assert |a| == |b|;
    assert s[..|a|] == a && t[..|b|] == b && s[|a| + 1..] == x && t[|b| + 1..] == y;
  }

  lemma {:induction false} ColumnsTextFront(c: ColumnSchema, cs: seq<ColumnSchema>)
    ensures ColumnsText([c] + cs) == ColumnText(c) + ColumnsText(cs)
  {
    hide ColumnText;
    var all := [c] + cs;
    if cs == [] {
      assert all[..0] == [];
    } else {
      ColumnsTextFront(c, cs[..|cs| - 1]);
      assert all[..|all| - 1] == [c] + cs[..|cs| - 1];
    }
  }

  /** Nothing follows a table or type, or a bar does. */
  lemma {:induction false} ColumnsTextStart(cs: seq<ColumnSchema>)
    ensures cs == [] <==> ColumnsText(cs) == []
    ensures cs != [] ==> ColumnsText(cs)[0] == BAR
  {
    if cs != [] {
      assert cs == [cs[0]] + cs[1..];
      ColumnsTextFront(cs[0], cs[1..]);
    }
  }

  /** A bar-free text and the columns behind it can be told apart. */
  lemma CutAtColumns(a: Octets, cs: seq<ColumnSchema>, b: Octets, ds: seq<ColumnSchema>)
    requires BAR !in a && BAR !in b && a + ColumnsText(cs) == b + ColumnsText(ds)
    ensures a == b && ColumnsText(cs) == ColumnsText(ds)
  {
    hide ColumnsText;
    ColumnsTextStart(cs);
    ColumnsTextStart(ds);
    var s, t, x, y := a + ColumnsText(cs), b + ColumnsText(ds), ColumnsText(cs), ColumnsText(ds);
    assert s[..|a|] == a && s[|a|..] == x && t[..|b|] == b && t[|b|..] == y;
    assert forall i :: 0 <= i < |a| ==> s[i] == a[i];
    assert forall i :: 0 <= i < |b| ==> t[i] == b[i];
  }

  predicate SeparableColumns(cs: seq<ColumnSchema>) { forall c <- cs :: COLON !in c.name && BAR !in c.typeName }

  lemma {:induction false} ColumnsTextInjective(cs: seq<ColumnSchema>, ds: seq<ColumnSchema>)
    requires SeparableColumns(cs) && SeparableColumns(ds) && ColumnsText(cs) == ColumnsText(ds)
    ensures cs == ds
  {
    hide ColumnsText;
    ColumnsTextStart(cs);
    ColumnsTextStart(ds);
    if cs != [] {
      var c, d, x, y := cs[0], ds[0], ColumnsText(cs[1..]), ColumnsText(ds[1..]);
      assert cs == [c] + cs[1..] && ds == [d] + ds[1..];
      ColumnsTextFront(c, cs[1..]);
      ColumnsTextFront(d, ds[1..]);
      assert (ColumnText(c) + x)[1..] == c.name + [COLON] + (c.typeName + x);
      assert (ColumnText(d) + y)[1..] == d.name + [COLON] + (d.typeName + y);
      CutAt(c.name, c.typeName + x, d.name, d.typeName + y, COLON);
      CutAtColumns(c.typeName, cs[1..], d.typeName, ds[1..]);
      ColumnsTextInjective(cs[1..], ds[1..]);
    }
  }

  /** Schemas whose separators can be found again share a canonical text only when they are equal. */
  lemma CanonicalInjective(s1: Octets, t1: Octets, c1: seq<ColumnSchema>, s2: Octets, t2: Octets,
                           c2: seq<ColumnSchema>)
    requires Separable(s1, t1, c1) && Separable(s2, t2, c2)
    ensures Canonical(s1, t1, c1) == Canonical(s2, t2, c2) <==> s1 == s2 && t1 == t2 && c1 == c2
  {
    hide ColumnsText;
    if Canonical(s1, t1, c1) == Canonical(s2, t2, c2) {
      assert Canonical(s1, t1, c1) == s1 + [DOT] + (t1 + ColumnsText(c1));
      assert Canonical(s2, t2, c2) == s2 + [DOT] + (t2 + ColumnsText(c2));
      CutAt(s1, t1 + ColumnsText(c1), s2, t2 + ColumnsText(c2), DOT);
      CutAtColumns(t1, c1, t2, c2);
      ColumnsTextInjective(c1, c2);
    }
  }

  /** A dot in a name can belong to either side. */
  lemma DottedNamesCollide(a: Octets, b: Octets, c: Octets, columns: seq<ColumnSchema>)
    ensures Canonical(a + [DOT] + b, c, columns) == Canonical(a, b + [DOT] + c, columns)
    ensures FingerprintOf(a + [DOT] + b, c, columns) == FingerprintOf(a, b + [DOT] + c, columns)
  {
    hide ColumnsText, Fnv;
    assert Canonical(a + [DOT] + b, c, columns) == Canonical(a, b + [DOT] + c, columns);
  }

  /** Columns can belong to the table name: every table with columns shares its text, and so its fingerprint, with a
      table without any. */
  lemma SwallowedColumnsCollide(s: Octets, t: Octets, columns: seq<ColumnSchema>)
    ensures Canonical(s, t + ColumnsText(columns), []) == Canonical(s, t, columns)
    ensures FingerprintOf(s, t + ColumnsText(columns), []) == FingerprintOf(s, t, columns)
  {
    hide Fnv;
    assert Canonical(s, t + ColumnsText(columns), []) == Canonical(s, t, columns);
  }

  /** A bar with a colon behind it: a table name that can be read as one with a column. */
  predicate LooksLikeColumn(t: Octets) { exists i, j :: 0 <= i < j < |t| && t[i] == BAR && t[j] == COLON }

  lemma ColumnShapedCollides(s: Octets, t: Octets, i: nat, j: nat)
    requires i < j < |t| && t[i] == BAR && t[j] == COLON
    ensures Canonical(s, t[..i], [ColumnSchema(t[i + 1..j], t[j + 1..])]) == Canonical(s, t, [])
  {
    hide ColumnsText;
    var c := ColumnSchema(t[i + 1..j], t[j + 1..]);
    OneColumn(c);
    ColumnsTextStart([]);
    assert t[..i] + ColumnText(c) == t;
    SwallowedColumnsCollide(s, t[..i], [c]);
  }

  lemma OneColumn(c: ColumnSchema)
    ensures ColumnsText([c]) == ColumnText(c)
  {
    hide ColumnText;
    assert [c][..0] == [] && [] + ColumnText(c) == ColumnText(c);
  }

  /** No other schema has the canonical text. */
  ghost predicate Identified(s: Octets, t: Octets, cs: seq<ColumnSchema>) {
    forall s2, t2, c2 :: Canonical(s2, t2, c2) == Canonical(s, t, cs) ==> s2 == s && t2 == t && c2 == cs
  }

  predicate Unambiguous(s: Octets, t: Octets, cs: seq<ColumnSchema>) {
    cs == [] && DOT !in s && DOT !in t && !LooksLikeColumn(t)
  }

  lemma UnambiguousNeeded(s: Octets, t: Octets, cs: seq<ColumnSchema>)
    requires Identified(s, t, cs)
    ensures Unambiguous(s, t, cs)
  {
    hide Canonical, ColumnsText;
    SwallowedColumnsCollide(s, t, cs);
    assert cs == [];
    if DOT in s {
      var i :| 0 <= i < |s| && s[i] == DOT;
      assert s == s[..i] + [DOT] + s[i + 1..];
      DottedNamesCollide(s[..i], s[i + 1..], t, cs);
    }
    if DOT in t {
      var i :| 0 <= i < |t| && t[i] == DOT;
      assert t == t[..i] + [DOT] + t[i + 1..];
      DottedNamesCollide(s, t[..i], t[i + 1..], cs);
    }
    if LooksLikeColumn(t) {
      var i, j :| 0 <= i < j < |t| && t[i] == BAR && t[j] == COLON;
      ColumnShapedCollides(s, t, i, j);
    }
  }

  lemma TextHoldsColumn(cs: seq<ColumnSchema>)
    requires cs != []
    ensures LooksLikeColumn(ColumnsText(cs))
  {
    hide ColumnsText;
    assert cs == [cs[0]] + cs[1..];
    ColumnsTextFront(cs[0], cs[1..]);
    var x := ColumnsText(cs);
    assert x[0] == BAR && x[1 + |cs[0].name|] == COLON;
  }

  lemma UnambiguousSuffices(s: Octets, t: Octets, s2: Octets, t2: Octets, c2: seq<ColumnSchema>)
    requires Unambiguous(s, t, []) && Canonical(s2, t2, c2) == Canonical(s, t, [])
    ensures s2 == s && t2 == t && c2 == []
  {
    hide ColumnsText, LooksLikeColumn;
    var x := ColumnsText(c2);
    ColumnsTextStart([]);
    var text := s + [DOT] + t;
    assert Canonical(s, t, []) == text && Canonical(s2, t2, c2) == s2 + [DOT] + (t2 + x);
    assert (s2 + [DOT] + (t2 + x))[|s2|] == DOT;
    assert forall k :: 0 <= k < |text| && text[k] == DOT ==> k == |s|;
    assert text[..|s|] == s && text[|s| + 1..] == t;
    assert (s2 + [DOT] + (t2 + x))[..|s2|] == s2 && (s2 + [DOT] + (t2 + x))[|s2| + 1..] == t2 + x;
    if c2 != [] {
      TextHoldsColumn(c2);
      ShapeBehind(t2, x);
    }
    ColumnsTextStart(c2);
  }

  lemma ShapeBehind(a: Octets, x: Octets)
    requires LooksLikeColumn(x)
    ensures LooksLikeColumn(a + x)
  {
    var i, j :| 0 <= i < j < |x| && x[i] == BAR && x[j] == COLON;
    assert (a + x)[|a| + i] == BAR && (a + x)[|a| + j] == COLON;
  }

  /** A canonical text stands for one schema alone exactly when that schema has no columns, no dot in either name, and
      no bar with a colon behind it in its table name. */
  lemma IdentifiedIff(s: Octets, t: Octets, cs: seq<ColumnSchema>)
    ensures Identified(s, t, cs) <==> Unambiguous(s, t, cs)
  {
    hide Canonical, LooksLikeColumn;
    if Identified(s, t, cs) { UnambiguousNeeded(s, t, cs); }
    if Unambiguous(s, t, cs) {
      forall s2, t2, c2 | Canonical(s2, t2, c2) == Canonical(s, t, cs) ensures s2 == s && t2 == t && c2 == cs {
        UnambiguousSuffices(s, t, s2, t2, c2);
      }
    }
  }
}
