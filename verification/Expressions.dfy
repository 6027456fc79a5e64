/** What filter expressions mean, said without the parser's own steps. */
module Expressions {
  import opened Bytes
  import opened Events
  import opened Utf8
  import opened Ingestion

  // ---- trimming, character by character ----

  /** The Unicode White_Space property. */
  predicate IsWhite(c: Scalar) {
    || 0x09 <= c <= 0x0D || c == 0x20 || c == 0x85 || c == 0xA0 || c == 0x1680 || 0x2000 <= c <= 0x200A
    || c == 0x2028 || c == 0x2029 || c == 0x202F || c == 0x205F || c == 0x3000
  }

  function DropWhite(cs: seq<Scalar>): seq<Scalar> {
    if cs != [] && IsWhite(cs[0]) then DropWhite(cs[1..]) else cs
  }

  function DropWhiteEnd(cs: seq<Scalar>): seq<Scalar> {
    if cs != [] && IsWhite(cs[|cs| - 1]) then DropWhiteEnd(cs[..|cs| - 1]) else cs
  }

  lemma LeadSpaceOf(c: Scalar, t: Text)
    ensures LeadSpace(EncodeOne(c) + t) == if IsWhite(c) then |EncodeOne(c)| else 0
  {
    var s := EncodeOne(c) + t;
    assert forall i :: 0 <= i < |EncodeOne(c)| ==> s[i] == EncodeOne(c)[i];
  }

  lemma TailSpaceOf(t: Text, c: Scalar)
    ensures TailSpace(t + EncodeOne(c)) == if IsWhite(c) then |EncodeOne(c)| else 0
  {
    var s, e := t + EncodeOne(c), EncodeOne(c);
    assert forall i :: 0 <= i < |e| ==> s[|t| + i] == e[i];
  }

  lemma {:induction false} EncodeAppend(cs: seq<Scalar>, c: Scalar)
    ensures Encode(cs + [c]) == Encode(cs) + EncodeOne(c)
  {
    hide EncodeOne;
    if cs == [] {
      assert ([] + [c])[1..] == [] && EncodeOne(c) + [] == [] + EncodeOne(c);
    } else {
      EncodeAppend(cs[1..], c);
      assert (cs + [c])[1..] == cs[1..] + [c];
    }
  }

  lemma {:induction false} TrimStartMeaning(cs: seq<Scalar>)
    ensures TrimStart(Encode(cs)) == Encode(DropWhite(cs))
  {
    hide EncodeOne, LeadSpace, IsWhite;
    if cs == [] {
      NoSpace();
    } else {
      var c, rest := EncodeOne(cs[0]), Encode(cs[1..]);
      LeadSpaceOf(cs[0], rest);
      assert (c + rest)[|c|..] == rest;
      TrimStartMeaning(cs[1..]);
    }
  }

  lemma NoSpace()
    ensures LeadSpace([]) == 0 && TailSpace([]) == 0
  {
  }

  lemma {:induction false} TrimEndMeaning(cs: seq<Scalar>)
    ensures TrimEnd(Encode(cs)) == Encode(DropWhiteEnd(cs))
  {
    hide EncodeOne, Encode, TailSpace, IsWhite;
    if cs == [] {
      NoSpace();
      NothingEncoded();
    } else {
      var front, c := cs[..|cs| - 1], cs[|cs| - 1];
      assert cs == front + [c];
      EncodeAppend(front, c);
      TailSpaceOf(Encode(front), c);
      var s := Encode(front) + EncodeOne(c);
      assert s[..|s| - |EncodeOne(c)|] == Encode(front);
      TrimEndMeaning(front);
    }
  }

  lemma NothingEncoded()
    ensures Encode([]) == []
  {
  }

  /** On every text, trimming drops exactly the white-space characters at both ends. */
  lemma TrimMeaning(cs: seq<Scalar>)
    ensures Trim(Encode(cs)) == Encode(DropWhiteEnd(DropWhite(cs)))
  {
    hide Encode, TrimStart, TrimEnd;
    TrimStartMeaning(cs);
    TrimEndMeaning(DropWhite(cs));
  }

  // ---- splitting and searching ----

  function Rejoin(parts: seq<Text>, sep: byte): Text {
    if parts == [] then [] else if |parts| == 1 then parts[0] else parts[0] + [sep] + Rejoin(parts[1..], sep)
  }

  /** The parts hold no separator and, with one between each two, give the text back: there is no other way to split. */
  lemma {:induction false} SplitMeaning(s: Text, sep: byte)
    ensures Rejoin(Split(s, sep), sep) == s && forall part <- Split(s, sep) :: sep !in part
    decreases |s|
  {
    hide Split, IndexOf;
    var i := IndexOf(s, sep);
    SplitParts(s, sep);
    SplitStep(s, sep);
    if i < |s| {
      SplitMeaning(s[i + 1..], sep);
      RejoinStep(s[..i], Split(s[i + 1..], sep), sep);
      assert s == s[..i] + [sep] + s[i + 1..];
    }
  }

  lemma RejoinStep(a: Text, rest: seq<Text>, sep: byte)
    requires rest != []
    ensures Rejoin([a] + rest, sep) == a + [sep] + Rejoin(rest, sep)
  {
    assert ([a] + rest)[1..] == rest;
  }

  ghost predicate OccursAt(s: Text, sym: Text, i: int) { 0 <= i && i + |sym| <= |s| && s[i..i + |sym|] == sym }

  /** The first occurrence, if there is one. */
  lemma {:induction false} FindMeaning(s: Text, sym: Text)
    ensures match Find(s, sym)
            case Some(i) => OccursAt(s, sym, i) && forall j :: 0 <= j < i ==> !OccursAt(s, sym, j)
            case None => forall j :: !OccursAt(s, sym, j)
  {
    if HasPrefix(s, sym) {
      assert s[0..|sym|] == sym;
    } else {
      assert !OccursAt(s, sym, 0);
      if s != [] {
        FindMeaning(s[1..], sym);
        forall j | 0 < j ensures OccursAt(s, sym, j) <==> OccursAt(s[1..], sym, j - 1) {
          if j + |sym| <= |s| { assert s[1..][j - 1..j - 1 + |sym|] == s[j..j + |sym|]; }
        }
      }
    }
  }

  // ---- operations ----

  /** The three ways to write an operation. */
  ghost predicate Spells(s: Text, op: OpType) {
    match op
    case Insert => s == Ascii("insert") || s == Ascii("INSERT") || s == Ascii("I")
    case Update => s == Ascii("update") || s == Ascii("UPDATE") || s == Ascii("U")
    case Delete => s == Ascii("delete") || s == Ascii("DELETE") || s == Ascii("D")
    case Truncate => s == Ascii("truncate") || s == Ascii("TRUNCATE") || s == Ascii("T")
  }

  lemma FirstLetters()
    ensures Ascii("insert")[0] == 'i' as int && Ascii("INSERT")[0] == Ascii("I")[0] == 'I' as int
    ensures Ascii("update")[0] == 'u' as int && Ascii("UPDATE")[0] == Ascii("U")[0] == 'U' as int
    ensures Ascii("delete")[0] == 'd' as int && Ascii("DELETE")[0] == Ascii("D")[0] == 'D' as int
    ensures Ascii("truncate")[0] == 't' as int && Ascii("TRUNCATE")[0] == Ascii("T")[0] == 'T' as int
  {
  }

  lemma SpellingIff(s: Text, op: OpType)
    ensures FromTag(s) == Some(op) <==> Spells(s, op)
  {
    FirstLetters();
  }

  /** One of the comma-separated names, trimmed, is the operation's. */
  ghost predicate Lists(names: Text, op: OpType) { exists part <- Split(names, COMMA) :: Spells(Trim(part), op) }

  lemma {:induction false} ParseOpsMeaning(names: seq<Text>, op: OpType)
    ensures op in ParseOps(names) <==> exists part <- names :: Spells(Trim(part), op)
  {
    hide FromTag, Trim, Spells;
    if names != [] {
      ParseOpsMeaning(names[1..], op);
      SpellingIff(Trim(names[0]), op);
      assert forall part :: part in names <==> part == names[0] || part in names[1..];
    }
  }

  /** The expression names the operation in some clause. */
  ghost predicate Names(clauses: seq<Text>, op: OpType) {
    exists c <- clauses :: HasPrefix(c, Ascii("op:")) && Lists(c[3..], op)
  }

  lemma ClauseOps(c: Text, op: OpType)
    ensures op in ClauseRule(c).ops <==> HasPrefix(c, Ascii("op:")) && Lists(c[3..], op)
  {
    hide Split, ParsePredicate, ParseOps, Spells, Trim;
    assert Ascii("op:") == OP_PREFIX;
    if HasPrefix(c, OP_PREFIX) { ParseOpsMeaning(Split(c[3..], COMMA), op); }
  }

  lemma ClausePredicates(c: Text, p: ColumnPredicate)
    ensures p in ClauseRule(c).predicates <==>
              c != [] && !HasPrefix(c, Ascii("op:")) && ParsePredicate(c) == Some(p)
  {
    hide Split, ParsePredicate, ParseOps;
    assert Ascii("op:") == OP_PREFIX;
  }

  ghost predicate RowSatisfies(columns: seq<ColumnValue>, c: Text) {
    c != [] && !HasPrefix(c, Ascii("op:")) && ParsePredicate(c).Some? ==>
      var p := ParsePredicate(c).value; Evaluate(GetText(columns, p.column), p.op, p.value)
  }

  lemma NoneNamedIff(clauses: seq<Text>)
    ensures RuleOf(clauses).ops == [] <==> forall op :: !Names(clauses, op)
  {
    hide RuleOf, ClauseRule, HasPrefix, Lists;
    RuleMembers(clauses);
    forall op ensures op in RuleOf(clauses).ops <==> Names(clauses, op) { NamedIff(clauses, op); }
    var ops := RuleOf(clauses).ops;
    assert ops != [] ==> ops[0] in ops;
  }

  lemma NamedIff(clauses: seq<Text>, op: OpType)
    ensures op in RuleOf(clauses).ops <==> Names(clauses, op)
  {
    hide RuleOf, ClauseRule, Lists;
    RuleMembers(clauses);
    forall c ensures op in ClauseRule(c).ops <==> HasPrefix(c, Ascii("op:")) && Lists(c[3..], op) { ClauseOps(c, op); }
  }

  lemma RowIff(clauses: seq<Text>, columns: seq<ColumnValue>)
    ensures (forall p <- RuleOf(clauses).predicates :: Evaluate(GetText(columns, p.column), p.op, p.value))
       <==> forall c <- clauses :: RowSatisfies(columns, c)
  {
    hide RuleOf, ClauseRule, HasPrefix, ParsePredicate, Evaluate, GetText;
    RuleMembers(clauses);
    var ps := RuleOf(clauses).predicates;
    if forall p <- ps :: Evaluate(GetText(columns, p.column), p.op, p.value) {
      forall c <- clauses ensures RowSatisfies(columns, c) {
        if ParsePredicate(c).Some? { ClausePredicates(c, ParsePredicate(c).value); }
      }
    }
    if forall c <- clauses :: RowSatisfies(columns, c) {
      forall p <- ps ensures Evaluate(GetText(columns, p.column), p.op, p.value) {
        var c :| c in clauses && p in ClauseRule(c).predicates;
        ClausePredicates(c, p);
        assert RowSatisfies(columns, c);
      }
    }
  }

  /** What configuring a table with an expression accepts: other tables are untouched; an event of the table passes when
      no clause names an operation or one names its own, and its new row, if any, satisfies every comparison. Without
      rules everything passes. */
  lemma FilterMeaning(filters: map<Text, FilterRule>, table: Text, expr: Text, e: ChangeEvent)
    ensures Accept(map[], e)
    ensures Accept(filters[table := RuleOf(Clauses(expr))], e) <==>
              if e.table.schema + Ascii(".") + e.table.table != table then Accept(filters, e)
              else
                && ((forall op :: !Names(Clauses(expr), op)) || Names(Clauses(expr), e.op))
                && (e.after.Some? ==> forall c <- Clauses(expr) :: RowSatisfies(e.after.value.columns, c))
  {
    hide RuleOf, Clauses, Evaluate, GetText, Names, RowSatisfies;
    assert Ascii(".") == ['.' as int];
    NoneNamedIff(Clauses(expr));
    NamedIff(Clauses(expr), e.op);
    if e.after.Some? { RowIff(Clauses(expr), e.after.value.columns); }
  }

  // ---- an expression of operations only ----

  /** A white-space character at the end goes, whatever is in front of it. */
  lemma {:induction false} TrimDropsEnd(y: Text, sp: Text)
    requires TailSpace(sp) == |sp| > 0 && TailSpace(y + sp) == |sp|
    ensures Trim(y + sp) == Trim(y)
    decreases |y|
  {
    hide TrimEnd, TailSpace;
    var x := y + sp;
    assert x[..|x| - |sp|] == y;
    if y == [] {
      assert x == sp;
      SpaceAlone(sp);
      NoSpace();
    } else {
      LeadBefore(y, sp);
      var k := LeadSpace(y);
      if k == 0 {
        TrimEndStep(x);
      } else {
        assert x[k..] == y[k..] + sp;
        TailOfSuffix(y, sp, k);
        TrimDropsEnd(y[k..], sp);
      }
    }
  }

  lemma TrimEndStep(x: Text)
    requires TailSpace(x) > 0
    ensures TrimEnd(x) == TrimEnd(x[..|x| - TailSpace(x)])
  {
  }

  lemma SpaceAlone(sp: Text)
    requires TailSpace(sp) == |sp| > 0
    ensures LeadSpace(sp) == |sp| && Trim(sp) == [] && Trim([]) == []
  {
    assert sp[|sp|..] == [];
    assert LeadSpace(sp) == |sp|;
    assert TrimStart(sp) == TrimStart([]) == [];
  }

  lemma LeadBefore(y: Text, sp: Text)
    requires y != [] && TailSpace(sp) == |sp| > 0
    ensures LeadSpace(y + sp) == LeadSpace(y)
  {
    var x := y + sp;
    assert x[0] == y[0] && (|y| >= 2 ==> x[1] == y[1]) && (|y| >= 3 ==> x[2] == y[2]);
    assert |y| == 1 ==> x[1] == sp[0];
    assert |y| == 2 ==> x[2] == sp[0];
  }

  lemma TailOfSuffix(y: Text, sp: Text, k: nat)
    requires k <= |y| && TailSpace(sp) == |sp| > 0 && TailSpace(y + sp) == |sp|
    ensures TailSpace(y[k..] + sp) == |sp|
  {
    var x, z := y + sp, y[k..] + sp;
    assert z == x[k..];
  }

  lemma {:induction false} TrimAfterEnd(s: Text)
    ensures Trim(TrimEnd(s)) == Trim(s)
  {
    hide Trim, TailSpace;
    if TailSpace(s) > 0 {
      var y, sp := s[..|s| - TailSpace(s)], s[|s| - TailSpace(s)..];
      assert s == y + sp;
      TailIsSpace(s);
      TrimDropsEnd(y, sp);
      TrimAfterEnd(y);
    }
  }

  lemma TailIsSpace(s: Text)
    requires TailSpace(s) > 0
    ensures var sp := s[|s| - TailSpace(s)..]; TailSpace(sp) == |sp|
  {
  }

  /** Behind a visible character the end is trimmed on its own. */
  lemma {:induction false} TrimEndBehind(a: Text, l: Text)
    requires a != [] && 33 <= a[|a| - 1] < 0x80
    ensures TrimEnd(a + l) == a + TrimEnd(l)
  {
    hide TailSpace;
    var s := a + l;
    if TailSpace(l) == 0 {
      if l == [] {
        assert s == a;
        VisibleEnds(a);
      } else {
        TailSpaceAfter(a, l);
      }
    } else {
      var n := TailSpace(l);
      TailBehind(a, l);
      assert s[..|s| - n] == a + l[..|l| - n];
      TrimEndBehind(a, l[..|l| - n]);
    }
  }

  lemma TailBehind(a: Text, l: Text)
    requires TailSpace(l) > 0
    ensures TailSpace(a + l) == TailSpace(l)
  {
    var s, k := a + l, |l|;
    assert s[|s| - 1] == l[k - 1] && (k >= 2 ==> s[|s| - 2] == l[k - 2]) && (k >= 3 ==> s[|s| - 3] == l[k - 3]);
  }

  /** Trimming the end of a list changes none of its trimmed parts. */
  lemma {:induction false} PartsOfTrimmed(s: Text)
    ensures TrimAll(Split(TrimEnd(s), COMMA)) == TrimAll(Split(s, COMMA))
    decreases |s|
  {
    hide Trim, TrimEnd, Split;
    var i := IndexOf(s, COMMA);
    if i == |s| {
      assert s[..i] == s;
      TrimEndDone(s);
      SplitNone(s, COMMA);
      SplitNone(TrimEnd(s), COMMA);
      TrimAfterEnd(s);
    } else {
      var a, l := s[..i], s[i + 1..];
      assert s == a + [COMMA] + l;
      TrimEndBehind(a + [COMMA], l);
      SplitFirst(a, COMMA, l);
      SplitFirst(a, COMMA, TrimEnd(l));
      PartsOfTrimmed(l);
      TrimAllFirst(a, Split(l, COMMA));
      TrimAllFirst(a, Split(TrimEnd(l), COMMA));
    }
  }

  lemma TrimAllFirst(a: Text, parts: seq<Text>)
    ensures TrimAll([a] + parts) == [Trim(a)] + TrimAll(parts)
  {
    hide Trim;
  }

  lemma ListsByParts(names: Text, op: OpType)
    ensures Lists(names, op) <==> exists t <- TrimAll(Split(names, COMMA)) :: Spells(t, op)
  {
    hide Trim, Split, Spells;
    var parts := Split(names, COMMA);
    var ts := TrimAll(parts);
    if Lists(names, op) {
      var part :| part in parts && Spells(Trim(part), op);
      var i :| 0 <= i < |parts| && parts[i] == part;
      assert ts[i] in ts;
    }
    if t :| t in ts && Spells(t, op) {
      var i :| 0 <= i < |ts| && ts[i] == t;
      assert parts[i] in parts;
    }
  }

  lemma ListsTrimmed(names: Text, op: OpType)
    ensures Lists(TrimEnd(names), op) <==> Lists(names, op)
  {
    hide Lists, TrimEnd, TrimAll, Split, Spells;
    PartsOfTrimmed(names);
    ListsByParts(names, op);
    ListsByParts(TrimEnd(names), op);
  }

  ghost predicate IsSpelling(s: Text) { exists op :: Spells(s, op) }

  lemma NoneListedIff(names: Text)
    ensures (forall op :: !Lists(names, op)) <==> forall part <- Split(names, COMMA) :: !IsSpelling(Trim(part))
  {
    hide Trim, Split, Spells;
    if forall op :: !Lists(names, op) {
      forall part <- Split(names, COMMA) ensures !IsSpelling(Trim(part)) {
        forall op ensures !Spells(Trim(part), op) { assert !Lists(names, op); }
      }
    }
    if forall part <- Split(names, COMMA) :: !IsSpelling(Trim(part)) {
      forall op ensures !Lists(names, op) { }
    }
  }

  /** The one clause of such an expression. */
  lemma OpClause(names: Text)
    requires SEMICOLON !in names
    ensures Clauses(Ascii("op:") + names) == [Ascii("op:") + TrimEnd(names)]
  {
    hide TrimEnd, LeadSpace, TailSpace, Split;
    var pre := Ascii("op:");
    assert SEMICOLON !in pre + names;
    SplitNone(pre + names, SEMICOLON);
    VisibleEnds(pre + names);
    TrimEndBehind(pre, names);
    assert TrimAll([pre + names]) == [Trim(pre + names)];
  }

  /** `op:` and a list of names admits an event exactly when some name, trimmed, is one of the three spellings of its
      operation, or no name is a spelling of any. */
  lemma OperationsMeaning(names: Text, e: ChangeEvent)
    requires SEMICOLON !in names
    ensures Admits(RuleOf(Clauses(Ascii("op:") + names)), e) <==>
              || (exists part <- Split(names, COMMA) :: Spells(Trim(part), e.op))
              || (forall part <- Split(names, COMMA) :: !IsSpelling(Trim(part)))
  {
    hide RuleOf, Clauses, TrimEnd, Split, Spells, Trim, Evaluate, GetText, ParsePredicate;
    var clauses := Clauses(Ascii("op:") + names);
    OpClause(names);
    var c := Ascii("op:") + TrimEnd(names);
    assert c[3..] == TrimEnd(names) && HasPrefix(c, Ascii("op:"));
    forall op ensures Names(clauses, op) <==> Lists(names, op) { ListsTrimmed(names, op); assert c in clauses; }
    NamedIff(clauses, e.op);
    NoneNamedIff(clauses);
    NoneListedIff(names);
    if e.after.Some? {
      RowIff(clauses, e.after.value.columns);
      assert forall d <- clauses :: d == c && RowSatisfies(e.after.value.columns, d);
    }
  }
}
