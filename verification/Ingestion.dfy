/** The ingestion filter: rule expressions, their parsing, and which events a rule admits. */
module Ingestion {
  import opened Bytes
  import opened Events

  datatype PredicateOp = Eq | Neq | Gt | Lt | Gte | Lte | Contains | StartsWith | IsNull | IsNotNull

  datatype ColumnPredicate = ColumnPredicate(column: Text, op: PredicateOp, value: Text)

  datatype FilterRule = FilterRule(ops: seq<OpType>, predicates: seq<ColumnPredicate>)

  // ---- evaluation ----

  /** The value of the first column of that name. */
  function GetText(columns: seq<ColumnValue>, name: Text): Option<Text> {
    if columns == [] then None
    else if columns[0].name == name then columns[0].value
    else GetText(columns[1..], name)
  }

  predicate HasPrefix(s: Text, p: Text) { |p| <= |s| && s[..|p|] == p }

  /** Strings compare by their bytes. */
  predicate Evaluate(actual: Option<Text>, op: PredicateOp, expected: Text) {
    match op
    case IsNull => actual.None?
    case IsNotNull => actual.Some?
    case _ => actual.Some? && Compare(actual.value, op, expected)
  }

  predicate Compare(actual: Text, op: PredicateOp, expected: Text) {
    match op
    case Eq => actual == expected
    case Neq => actual != expected
    case Gt => LexLess(expected, actual)
    case Lt => LexLess(actual, expected)
    case Gte => !LexLess(actual, expected)
    case Lte => !LexLess(expected, actual)
    case Contains => exists i :: 0 <= i <= |actual| && HasPrefix(actual[i..], expected)
    case StartsWith => HasPrefix(actual, expected)
    case _ => true
  }

  /** Column predicates look at the new row only; an event without one passes them. */
  predicate Admits(rule: FilterRule, e: ChangeEvent) {
    && (rule.ops == [] || e.op in rule.ops)
    && (e.after.Some? ==>
          forall p <- rule.predicates :: Evaluate(GetText(e.after.value.columns, p.column), p.op, p.value))
  }

  /** A table without a rule admits everything. */
  predicate Accept(filters: map<Text, FilterRule>, e: ChangeEvent) {
    e.table.Qualified() in filters ==> Admits(filters[e.table.Qualified()], e)
  }

  /** With n the length of the common prefix, the next bytes decide every comparison, and a missing or null column
      satisfies none of them. */
  lemma ComparisonMeaning(actual: Text, expected: Text, n: nat)
    requires n <= |actual| && n <= |expected| && actual[..n] == expected[..n]
    requires n == |actual| || n == |expected| || actual[n] != expected[n]
    ensures var greater := n < |actual| && (n == |expected| || actual[n] > expected[n]);
            var equal := n == |actual| == |expected|;
            && (Evaluate(Some(actual), Gt, expected) <==> greater)
            && (Evaluate(Some(actual), Eq, expected) <==> equal)
            && (Evaluate(Some(actual), Lt, expected) <==> !greater && !equal)
            && (Evaluate(Some(actual), Gte, expected) <==> greater || equal)
            && (Evaluate(Some(actual), Lte, expected) <==> !greater)
            && (Evaluate(Some(actual), Neq, expected) <==> !equal)
    ensures forall op :: Evaluate(None, op, expected) <==> op.IsNull?
    ensures !Evaluate(Some(actual), IsNull, expected) && Evaluate(Some(actual), IsNotNull, expected)
  {
    hide LexLess;
    LexAtFirstDifference(actual, expected, n);
    LexAtFirstDifference(expected, actual, n);
    assert actual[..n] == actual || n < |actual|;
    assert expected[..n] == expected || n < |expected|;
  }

  /** A text contains another exactly when it is that text with something before and after it, and starts with it
      exactly when only something after it follows. */
  lemma ContainsMeaning(actual: Text, expected: Text)
    ensures Evaluate(Some(actual), Contains, expected) <==> exists before, after :: actual == before + expected + after
    ensures Evaluate(Some(actual), StartsWith, expected) <==> exists after :: actual == expected + after
  {
    if Evaluate(Some(actual), Contains, expected) {
      var i :| 0 <= i <= |actual| && HasPrefix(actual[i..], expected);
      assert actual == actual[..i] + actual[i..][..|expected|] + actual[i + |expected|..];
      assert actual == actual[..i] + expected + actual[i + |expected|..];
    }
    if before, after :| actual == before + expected + after {
      assert actual[|before|..][..|expected|] == expected;
      assert HasPrefix(actual[|before|..], expected);
    }
    if Evaluate(Some(actual), StartsWith, expected) { assert actual == expected + actual[|expected|..]; }
    if after :| actual == expected + after { assert actual[..|expected|] == expected; }
  }

  /** Predicates look at the first column of their name, if there is one. */
  lemma {:induction false} GetTextFirst(columns: seq<ColumnValue>, name: Text, i: nat)
    requires i <= |columns| && forall j :: 0 <= j < i ==> columns[j].name != name
    ensures i == |columns| ==> GetText(columns, name) == None
    ensures i < |columns| && columns[i].name == name ==> GetText(columns, name) == columns[i].value
  {
    if i > 0 { GetTextFirst(columns[1..], name, i - 1); }
  }

  // ---- trimming ----

  // The UTF-8 encodings of the Unicode White_Space characters, which `trim` removes, by width.

  predicate Space1(a: byte) { 9 <= a <= 13 || a == 32 }

  predicate Space2(a: byte, b: byte) { a == 0xC2 && (b == 0x85 || b == 0xA0) }

  predicate Space3(a: byte, b: byte, c: byte) {
    || (a == 0xE1 && b == 0x9A && c == 0x80)
    || (a == 0xE2 && b == 0x80 && (0x80 <= c <= 0x8A || c == 0xA8 || c == 0xA9 || c == 0xAF))
    || (a == 0xE2 && b == 0x81 && c == 0x9F)
    || (a == 0xE3 && b == 0x80 && c == 0x80)
  }

  /** Width of the white-space character at the front, 0 when there is none. */
  function LeadSpace(s: Text): (n: nat)
    ensures n <= |s|
  {
    if |s| >= 1 && Space1(s[0]) then 1
    else if |s| >= 2 && Space2(s[0], s[1]) then 2
    else if |s| >= 3 && Space3(s[0], s[1], s[2]) then 3
    else 0
  }

  function TailSpace(s: Text): (n: nat)
    ensures n <= |s|
  {
    var k := |s|;
    if k >= 1 && Space1(s[k - 1]) then 1
    else if k >= 2 && Space2(s[k - 2], s[k - 1]) then 2
    else if k >= 3 && Space3(s[k - 3], s[k - 2], s[k - 1]) then 3
    else 0
  }

  function TrimStart(s: Text): Text { if LeadSpace(s) == 0 then s else TrimStart(s[LeadSpace(s)..]) }

  function TrimEnd(s: Text): Text { if TailSpace(s) == 0 then s else TrimEnd(s[..|s| - TailSpace(s)]) }

  function Trim(s: Text): Text { TrimEnd(TrimStart(s)) }

  // ---- splitting and searching ----

  /** Position of the first occurrence of a byte, or the length. */
  function IndexOf(s: Text, b: byte): (i: nat)
    ensures i <= |s| && b !in s[..i] && (i < |s| ==> s[i] == b) && (b !in s ==> i == |s|)
  {
    if s == [] || s[0] == b then 0
    else
      assert s == [s[0]] + s[1..];
      1 + IndexOf(s[1..], b)
  }

  /** `split` on a separator: always at least one part. */
  function Split(s: Text, sep: byte): (parts: seq<Text>)
    ensures parts != []
    decreases |s|
  {
    var i := IndexOf(s, sep);
    if i == |s| then [s] else [s[..i]] + Split(s[i + 1..], sep)
  }

  /** `find`: position of the first occurrence of a text. */
  function Find(s: Text, sym: Text): (r: Option<nat>)
    ensures r.Some? ==> r.value + |sym| <= |s| && s[r.value..r.value + |sym|] == sym
  {
    if HasPrefix(s, sym) then Some(0)
    else if s == [] then None
    else match Find(s[1..], sym)
      case Some(i) => Some(i + 1)
      case None => None
  }

  // ---- parsing ----

  const BANG: byte := '!' as int
  const EQUALS: byte := '=' as int
  const LESS: byte := '<' as int
  const GREATER: byte := '>' as int
  const SEMICOLON: byte := ';' as int
  const COMMA: byte := ',' as int
  const SPACE: byte := ' ' as int
  const OP_PREFIX: Text := ['o' as int, 'p' as int, ':' as int]

  function Symbol(op: PredicateOp): Text
    requires Comparison(op)
  {
    match op
    case Neq => [BANG, EQUALS]
    case Gte => [GREATER, EQUALS]
    case Lte => [LESS, EQUALS]
    case Eq => [EQUALS, EQUALS]
    case Gt => [GREATER]
    case Lt => [LESS]
  }

  predicate Comparison(op: PredicateOp) { op in {Eq, Neq, Gt, Lt, Gte, Lte} }

  function SplitAt(s: Text, op: PredicateOp): Option<ColumnPredicate>
    requires Comparison(op)
  {
    match Find(s, Symbol(op))
    case None => None
    case Some(i) => Some(ColumnPredicate(Trim(s[..i]), op, Trim(s[i + |Symbol(op)|..])))
  }

  function FirstSome<T>(a: Option<T>, b: Option<T>): Option<T> { if a.Some? then a else b }

  /** The symbols are tried in this order; the first that occurs anywhere decides. */
  function ParsePredicate(s: Text): Option<ColumnPredicate> {
    FirstSome(SplitAt(s, Neq), FirstSome(SplitAt(s, Gte), FirstSome(SplitAt(s, Lte),
    FirstSome(SplitAt(s, Eq), FirstSome(SplitAt(s, Gt), SplitAt(s, Lt))))))
  }

  function FromTag(s: Text): Option<OpType> {
    if s == Ascii("insert") || s == Ascii("INSERT") || s == Ascii("I") then Some(Insert)
    else if s == Ascii("update") || s == Ascii("UPDATE") || s == Ascii("U") then Some(Update)
    else if s == Ascii("delete") || s == Ascii("DELETE") || s == Ascii("D") then Some(Delete)
    else if s == Ascii("truncate") || s == Ascii("TRUNCATE") || s == Ascii("T") then Some(Truncate)
    else None
  }

  /** Unknown operation names are dropped. */
  function ParseOps(names: seq<Text>): seq<OpType> {
    if names == [] then []
    else
      var op := FromTag(Trim(names[0]));
      (if op.Some? then [op.value] else []) + ParseOps(names[1..])
  }

  /** What one trimmed clause contributes. */
  function ClauseRule(part: Text): FilterRule {
    if part == [] then FilterRule([], [])
    else if HasPrefix(part, OP_PREFIX) then FilterRule(ParseOps(Split(part[3..], COMMA)), [])
    else match ParsePredicate(part)
      case Some(p) => FilterRule([], [p])
      case None => FilterRule([], [])
  }

  function Clauses(expr: Text): seq<Text> { TrimAll(Split(expr, SEMICOLON)) }

  function TrimAll(parts: seq<Text>): seq<Text> { seq(|parts|, i requires 0 <= i < |parts| => Trim(parts[i])) }

  function RuleOf(clauses: seq<Text>): FilterRule {
    if clauses == [] then FilterRule([], [])
    else
      var front, last := RuleOf(clauses[..|clauses| - 1]), ClauseRule(clauses[|clauses| - 1]);
      FilterRule(front.ops + last.ops, front.predicates + last.predicates)
  }

  /** The loop of `parse_filter_expr` collects what the clauses contribute, in order. */
  method ParseFilterExpr(expr: Text) returns (rule: FilterRule)
    ensures rule == RuleOf(Clauses(expr))
  {
    hide Trim, ParsePredicate, Split;
    var ops: seq<OpType> := [];
    var predicates: seq<ColumnPredicate> := [];
    var parts := Split(expr, SEMICOLON);
    ghost var clauses := Clauses(expr);
    for i := 0 to |parts|
      invariant FilterRule(ops, predicates) == RuleOf(clauses[..i])
    {
      var part := Trim(parts[i]);
      assert clauses[..i + 1][..i] == clauses[..i] && clauses[i] == part;
      if part != [] {
        if HasPrefix(part, OP_PREFIX) {
          var names := Split(part[3..], COMMA);
          ghost var before := ops;
          for j := 0 to |names|
            invariant ops + ParseOps(names[j..]) == before + ParseOps(names)
          {
            var op := FromTag(Trim(names[j]));
            assert names[j..][1..] == names[j + 1..];
            ghost var tail := ParseOps(names[j + 1..]);
            if op.Some? {
              assert ops + ([op.value] + tail) == (ops + [op.value]) + tail;
              ops := ops + [op.value];
            } else {
              assert [] + tail == tail;
            }
          }
          assert ops + [] == ops;
        } else {
          var p := ParsePredicate(part);
          if p.Some? { predicates := predicates + [p.value]; }
        }
      }
      assert predicates + [] == predicates && ops + [] == ops;
    }
    assert clauses[..|clauses|] == clauses;
    return FilterRule(ops, predicates);
  }

  // ---- the order of clauses does not matter ----

  lemma {:induction false} RuleMembers(clauses: seq<Text>)
    ensures forall o :: o in RuleOf(clauses).ops <==> exists c <- clauses :: o in ClauseRule(c).ops
    ensures forall p :: p in RuleOf(clauses).predicates <==> exists c <- clauses :: p in ClauseRule(c).predicates
  {
    hide ClauseRule;
    if clauses != [] {
      var front, last := clauses[..|clauses| - 1], clauses[|clauses| - 1];
      RuleMembers(front);
      assert forall c :: c in clauses <==> c in front || c == last;
    }
  }

  /** Expressions with the same clauses, in any order and number and with any space around them, admit the same
      events. */
  lemma ClauseOrderIrrelevant(a: Text, b: Text, e: ChangeEvent)
    requires forall c :: c in Clauses(a) <==> c in Clauses(b)
    ensures Admits(RuleOf(Clauses(a)), e) <==> Admits(RuleOf(Clauses(b)), e)
  {
    hide RuleOf, Clauses, ClauseRule, Evaluate;
    RuleMembers(Clauses(a));
    RuleMembers(Clauses(b));
    var r, s := RuleOf(Clauses(a)), RuleOf(Clauses(b));
    assert forall o :: o in r.ops <==> o in s.ops;
    assert forall p :: p in r.predicates <==> p in s.predicates;
    assert r.ops == [] <==> s.ops == [] by {
      assert r.ops != [] ==> r.ops[0] in s.ops;
      assert s.ops != [] ==> s.ops[0] in r.ops;
    }
  }

  // ---- rendering ----

  function OpText(op: OpType): Text {
    match op
    case Insert => Ascii("insert")
    case Update => Ascii("update")
    case Delete => Ascii("delete")
    case Truncate => Ascii("truncate")
  }

  function JoinOps(ops: seq<OpType>): Text {
    if ops == [] then [] else if |ops| == 1 then OpText(ops[0]) else OpText(ops[0]) + [COMMA] + JoinOps(ops[1..])
  }

  function RenderPredicate(p: ColumnPredicate): Text
    requires Comparison(p.op)
  {
    p.column + [SPACE] + Symbol(p.op) + [SPACE] + p.value
  }

  function RenderPredicates(ps: seq<ColumnPredicate>): seq<Text>
    requires forall p <- ps :: Comparison(p.op)
  {
    seq(|ps|, i requires 0 <= i < |ps| => assert ps[i] in ps; RenderPredicate(ps[i]))
  }

  function Join(clauses: seq<Text>): Text {
    if clauses == [] then []
    else if |clauses| == 1 then clauses[0]
    else clauses[0] + [SEMICOLON] + ([SPACE] + Join(clauses[1..]))
  }

  function RenderClauses(rule: FilterRule): seq<Text>
    requires forall p <- rule.predicates :: Comparison(p.op)
  {
    (if rule.ops == [] then [] else [OP_PREFIX + JoinOps(rule.ops)]) + RenderPredicates(rule.predicates)
  }

  /** The documented format: `op:insert,update; column == value; other != value`. */
  function Render(rule: FilterRule): Text
    requires forall p <- rule.predicates :: Comparison(p.op)
  {
    Join(RenderClauses(rule))
  }

  predicate Plain(s: Text) {
    Trim(s) == s && BANG !in s && EQUALS !in s && LESS !in s && GREATER !in s && SEMICOLON !in s
  }

  predicate PlainPredicate(p: ColumnPredicate) {
    Comparison(p.op) && Plain(p.column) && Plain(p.value) && !HasPrefix(p.column, OP_PREFIX)
  }

  /** The place of a symbol in the order in which the parser tries them. */
  function Turn(op: PredicateOp): nat
    requires Comparison(op)
  {
    match op
    case Neq => 0
    case Gte => 1
    case Lte => 2
    case Eq => 3
    case Gt => 4
    case Lt => 5
  }

  predicate Trimmed(p: ColumnPredicate) { Trim(p.column) == p.column && Trim(p.value) == p.value }

  /** In the rendered text no symbol tried earlier occurs anywhere, and the predicate's own occurs first where it was
      put. */
  predicate SymbolStands(p: ColumnPredicate)
    requires Comparison(p.op)
  {
    && (forall op :: Comparison(op) && Turn(op) < Turn(p.op) ==> Find(Core(p), Symbol(op)) == None)
    && Find(Core(p), Symbol(p.op)) == Some(|LeftOf(p)|)
  }

  /** As a clause of its own the predicate is not taken for anything else. */
  predicate StandsAlone(p: ColumnPredicate)
    requires Comparison(p.op)
  {
    Trimmed(p) && !HasPrefix(p.column, OP_PREFIX) && SymbolStands(p)
  }

  predicate ReadsBack(p: ColumnPredicate)
    requires Comparison(p.op)
  {
    StandsAlone(p) && SEMICOLON !in p.column && SEMICOLON !in p.value
  }

  // ---- trimming facts ----

  lemma {:induction false} TrimEndShrinks(s: Text)
    ensures |TrimEnd(s)| <= |s|
  {
    if TailSpace(s) > 0 { TrimEndShrinks(s[..|s| - TailSpace(s)]); }
  }

  lemma {:induction false} TrimStartShrinks(s: Text)
    ensures |TrimStart(s)| <= |s|
  {
    if LeadSpace(s) > 0 { TrimStartShrinks(s[LeadSpace(s)..]); }
  }

  /** A text that trims to itself has no white space at either end. */
  lemma TrimmedEnds(s: Text)
    requires Trim(s) == s
    ensures LeadSpace(s) == 0 && TailSpace(s) == 0
  {
    hide LeadSpace, TailSpace;
    TrimEndShrinks(TrimStart(s));
    TrimStartShrinks(s);
    if LeadSpace(s) > 0 { TrimStartShrinks(s[LeadSpace(s)..]); }
    if LeadSpace(s) == 0 && TailSpace(s) > 0 { TrimEndShrinks(s[..|s| - TailSpace(s)]); }
  }

  /** White space at the front is not created by an ASCII byte that follows. */
  lemma LeadSpaceBefore(s: Text, t: Text)
    requires s != [] && LeadSpace(s) == 0 && (t == [] || t[0] < 0x80)
    ensures LeadSpace(s + t) == 0
  {
  }

  lemma TailSpaceAfter(t: Text, s: Text)
    requires s != [] && TailSpace(s) == 0 && (t == [] || t[|t| - 1] < 0x80)
    ensures TailSpace(t + s) == 0
  {
  }

  lemma TrimFront(s: Text)
    ensures Trim([SPACE] + s) == Trim(s)
  {
    hide TrimEnd;
    assert ([SPACE] + s)[..1] == [SPACE] && ([SPACE] + s)[1..] == s;
    assert LeadSpace([SPACE] + s) == 1;
  }

  lemma TrimBack(s: Text)
    requires LeadSpace(s) == 0 && TailSpace(s) == 0
    ensures Trim(s + [SPACE]) == s && Trim(s) == s
  {
    var t := s + [SPACE];
    assert t[|t| - 1..] == [SPACE] && t[..|t| - 1] == s;
    assert TailSpace(t) == 1;
    if s == [] {
      assert t == [SPACE] + [];
      TrimFront([]);
    } else {
      LeadSpaceBefore(s, [SPACE]);
      assert TrimStart(t) == t && TrimEnd(t) == TrimEnd(s);
    }
  }

  lemma {:induction false} TrimEndDone(s: Text)
    ensures TailSpace(TrimEnd(s)) == 0 && TrimEnd(s) <= s
  {
    hide TailSpace;
    if TailSpace(s) > 0 { TrimEndDone(s[..|s| - TailSpace(s)]); }
  }

  lemma {:induction false} TrimStartDone(s: Text)
    ensures LeadSpace(TrimStart(s)) == 0
  {
    hide LeadSpace;
    if LeadSpace(s) > 0 { TrimStartDone(s[LeadSpace(s)..]); }
  }

  lemma LeadSpacePrefix(t: Text, s: Text)
    requires t <= s && LeadSpace(s) == 0
    ensures LeadSpace(t) == 0
  {
  }

  lemma TrimTwice(s: Text)
    ensures Trim(Trim(s)) == Trim(s)
  {
    hide LeadSpace, TailSpace, TrimStart, TrimEnd;
    TrimStartDone(s);
    TrimEndDone(TrimStart(s));
    LeadSpacePrefix(TrimEnd(TrimStart(s)), TrimStart(s));
    TrimBack(Trim(s));
  }

  lemma {:induction false} TrimStartBytes(s: Text, b: byte)
    requires b !in s
    ensures b !in TrimStart(s) && |TrimStart(s)| <= |s|
  {
    hide LeadSpace;
    if LeadSpace(s) > 0 { TrimStartBytes(s[LeadSpace(s)..], b); }
  }

  lemma TrimBytes(s: Text, b: byte)
    requires b !in s
    ensures b !in Trim(s)
  {
    hide LeadSpace, TailSpace, TrimStart, TrimEnd;
    TrimStartBytes(s, b);
    TrimEndDone(TrimStart(s));
  }

  lemma TrimShrinks(s: Text)
    ensures |Trim(s)| <= |s|
  {
    hide LeadSpace, TailSpace, TrimStart, TrimEnd;
    TrimStartShrinks(s);
    TrimEndShrinks(TrimStart(s));
  }

  // ---- parsing a rendered predicate ----

  /** How a rendered predicate stands after trimming. */
  function Core(p: ColumnPredicate): Text
    requires Comparison(p.op)
  {
    LeftOf(p) + Symbol(p.op) + RightOf(p)
  }

  function LeftOf(p: ColumnPredicate): Text { if p.column == [] then [] else p.column + [SPACE] }

  function RightOf(p: ColumnPredicate): Text { if p.value == [] then [] else [SPACE] + p.value }

  /** Visible ASCII at an end is no white space. */
  lemma VisibleEnds(s: Text)
    requires s != []
    ensures 33 <= s[0] < 0x80 ==> LeadSpace(s) == 0
    ensures 33 <= s[|s| - 1] < 0x80 ==> TailSpace(s) == 0
  {
  }

  lemma SymbolEnds(op: PredicateOp)
    requires Comparison(op)
    ensures var s := Symbol(op); s != [] && LeadSpace(s) == 0 && TailSpace(s) == 0 && s[0] < 0x80 && s[|s| - 1] < 0x80
  {
    hide LeadSpace, TailSpace;
    VisibleEnds(Symbol(op));
  }

  lemma TrimRendered(p: ColumnPredicate)
    requires Comparison(p.op) && Trimmed(p)
    ensures Trim(RenderPredicate(p)) == Core(p)
  {
    hide LeadSpace, TailSpace, Symbol;
    TrimmedEnds(p.column);
    TrimmedEnds(p.value);
    SymbolEnds(p.op);
    var sym, l, r := Symbol(p.op), LeftOf(p), RightOf(p);
    // no white space at either end of the core
    if p.column == [] {
      LeadSpaceBefore(sym, r);
      assert Core(p) == sym + r;
    } else {
      LeadSpaceBefore(p.column, [SPACE] + sym + r);
      assert Core(p) == p.column + ([SPACE] + sym + r);
    }
    if p.value == [] {
      TailSpaceAfter(l, sym);
      assert Core(p) == l + sym;
    } else {
      TailSpaceAfter(l + sym + [SPACE], p.value);
      assert Core(p) == (l + sym + [SPACE]) + p.value;
    }
    TrimBack(Core(p));
    // the rendering adds at most one space at each end
    var front: Text := if p.column == [] then [SPACE] else [];
    var back: Text := if p.value == [] then [SPACE] else [];
    assert RenderPredicate(p) == front + (Core(p) + back);
    if p.column == [] { TrimFront(Core(p) + back); } else { assert front + (Core(p) + back) == Core(p) + back; }
    if p.value != [] { assert Core(p) + back == Core(p); }
  }

  lemma {:induction false} FindMissing(s: Text, sym: Text, k: nat)
    requires k < |sym| && sym[k] !in s
    ensures Find(s, sym) == None
  {
    if s != [] { FindMissing(s[1..], sym, k); }
  }

  lemma {:induction false} FindHere(a: Text, sym: Text, b: Text)
    requires sym != [] && sym[0] !in a
    ensures Find(a + sym + b, sym) == Some(|a|)
  {
    var s := a + sym + b;
    if a == [] {
      assert s[..|sym|] == sym;
    } else {
      assert s[1..] == a[1..] + sym + b;
      FindHere(a[1..], sym, b);
    }
  }

  lemma CoreMember(p: ColumnPredicate, b: byte)
    requires Comparison(p.op) && b != SPACE && b !in p.column && b !in p.value
    ensures b in Core(p) <==> b in Symbol(p.op)
    ensures b !in LeftOf(p)
  {
    hide Symbol;
    var lr := LeftOf(p) + Symbol(p.op);
    assert Core(p) == lr + RightOf(p);
  }

  lemma CoreBytes(p: ColumnPredicate)
    requires PlainPredicate(p)
    ensures BANG in Core(p) <==> p.op.Neq?
    ensures EQUALS in Core(p) <==> p.op.Neq? || p.op.Eq? || p.op.Gte? || p.op.Lte?
    ensures GREATER in Core(p) <==> p.op.Gt? || p.op.Gte?
    ensures LESS in Core(p) <==> p.op.Lt? || p.op.Lte?
    ensures SEMICOLON !in Core(p)
    ensures Symbol(p.op)[0] !in LeftOf(p)
  {
    hide Trim, HasPrefix, Core, LeftOf;
    CoreMember(p, BANG);
    CoreMember(p, EQUALS);
    CoreMember(p, GREATER);
    CoreMember(p, LESS);
    CoreMember(p, SEMICOLON);
  }

  lemma CorePieces(p: ColumnPredicate)
    requires Comparison(p.op) && Trimmed(p)
    ensures var i, n := |LeftOf(p)|, |Symbol(p.op)|;
            && i + n <= |Core(p)| && Trim(Core(p)[..i]) == p.column && Trim(Core(p)[i + n..]) == p.value
  {
    hide LeadSpace, TailSpace, Symbol, Trim;
    var sym, l, r := Symbol(p.op), LeftOf(p), RightOf(p);
    assert Core(p)[..|l|] == l && Core(p)[|l| + |sym|..] == r;
    TrimmedEnds(p.column);
    TrimmedEnds(p.value);
    TrimBack(p.column);
    TrimFront(p.value);
    TrimBack(p.value);
  }

  /** The parser takes the symbol whose turn comes first among those that occur. */
  lemma ParseTakes(s: Text, op: PredicateOp)
    requires Comparison(op)
    ensures var r := ParsePredicate(s);
            r.Some? && r.value.op == op <==>
              && Find(s, Symbol(op)).Some?
              && forall q :: Comparison(q) && Turn(q) < Turn(op) ==> Find(s, Symbol(q)) == None
    ensures var r := ParsePredicate(s);
            r.Some? && r.value.op == op ==> r == SplitAt(s, op)
  {
    hide Find, Trim, Symbol;
    assert Turn(Neq) == 0 && Turn(Gte) == 1 && Turn(Lte) == 2 && Turn(Eq) == 3 && Turn(Gt) == 4 && Turn(Lt) == 5;
    assert forall q :: Comparison(q) && Turn(q) < Turn(op) ==> q in {Neq, Gte, Lte, Eq, Gt, Lt};
  }

  lemma {:induction false} FindNoLater(a: Text, sym: Text, b: Text)
    ensures Find(a + sym + b, sym).Some? && Find(a + sym + b, sym).value <= |a|
  {
    var s := a + sym + b;
    if a == [] {
      assert s[..|sym|] == sym;
    } else {
      assert s[1..] == a[1..] + sym + b;
      FindNoLater(a[1..], sym, b);
    }
  }

  /** If the column comes out right, the symbol was found where it was put. */
  lemma FoundInPlace(p: ColumnPredicate, i: nat)
    requires Comparison(p.op) && Trimmed(p) && Find(Core(p), Symbol(p.op)) == Some(i) && Trim(Core(p)[..i]) == p.column
    ensures i == |LeftOf(p)|
  {
    hide Trim, Find, Symbol, LeadSpace, TailSpace;
    var sym, l, r := Symbol(p.op), LeftOf(p), RightOf(p);
    FindNoLater(l, sym, r);
    TrimShrinks(Core(p)[..i]);
    SymbolStart(p.op);
    assert p.column != [] ==> Core(p)[|p.column|] == SPACE;
    assert Core(p)[i..i + |sym|][0] == Core(p)[i];
  }

  lemma SymbolStart(op: PredicateOp)
    requires Comparison(op)
    ensures Symbol(op) != [] && Symbol(op)[0] != SPACE
  {
  }

  lemma ParseCoreIff(p: ColumnPredicate)
    requires Comparison(p.op) && Trimmed(p)
    ensures ParsePredicate(Core(p)) == Some(p) <==> SymbolStands(p)
  {
    hide Find, Trim, Symbol, ParsePredicate, Core, LeftOf, Turn;
    ParseTakes(Core(p), p.op);
    CorePieces(p);
    var found := Find(Core(p), Symbol(p.op));
    if ParsePredicate(Core(p)) == Some(p) { FoundInPlace(p, found.value); }
  }

  /** Whatever is parsed is trimmed and made of bytes of the text. */
  lemma ParsedIsTrimmed(s: Text, p: ColumnPredicate)
    requires ParsePredicate(s) == Some(p)
    ensures Comparison(p.op) && Trimmed(p)
    ensures SEMICOLON !in s ==> SEMICOLON !in p.column && SEMICOLON !in p.value
  {
    hide Find, Trim, Symbol, Turn;
    ParsedOp(s, p);
    ParseTakes(s, p.op);
    var i := Find(s, Symbol(p.op)).value;
    var l, r := s[..i], s[i + |Symbol(p.op)|..];
    TrimTwice(l);
    TrimTwice(r);
    if SEMICOLON !in s {
      TrimBytes(l, SEMICOLON);
      TrimBytes(r, SEMICOLON);
    }
  }

  lemma ParsedOp(s: Text, p: ColumnPredicate)
    requires ParsePredicate(s) == Some(p)
    ensures Comparison(p.op)
  {
    hide Find, Trim;
  }

  lemma OpClauseIff(p: ColumnPredicate)
    requires Comparison(p.op)
    ensures Core(p) != []
    ensures HasPrefix(Core(p), OP_PREFIX) <==> HasPrefix(p.column, OP_PREFIX)
  {
    var c := Core(p);
    assert |p.column| >= 3 ==> c[..3] == p.column[..3];
    assert |p.column| == 2 ==> c[2] == SPACE;
    assert |p.column| == 1 ==> c[1] == SPACE;
    assert |c| >= 3 ==> c[..3][0] == c[0] && c[..3][1] == c[1] && c[..3][2] == c[2];
  }

  /** Exactly these predicates read back from their own clause. */
  lemma PredicateClauseIff(p: ColumnPredicate)
    requires Comparison(p.op)
    ensures ClauseRule(Trim(RenderPredicate(p))) == FilterRule([], [p]) <==> StandsAlone(p)
  {
    hide Core, Trim, ParsePredicate, HasPrefix, SymbolStands, RenderPredicate, Comparison;
    var part := Trim(RenderPredicate(p));
    if ClauseRule(part) == FilterRule([], [p]) {
      assert ParsePredicate(part) == Some(p);
      ParsedIsTrimmed(part, p);
    }
    if Trimmed(p) {
      TrimRendered(p);
      OpClauseIff(p);
      ParseCoreIff(p);
    }
  }

  /** Comparisons of plain columns with plain values are among them. */
  lemma PlainReadsBack(p: ColumnPredicate)
    requires PlainPredicate(p)
    ensures Comparison(p.op) && ReadsBack(p)
  {
    hide Core, Find, Trim;
    CoreBytes(p);
    var s := Core(p);
    SymbolStart(p.op);
    FindHere(LeftOf(p), Symbol(p.op), RightOf(p));
    assert s == LeftOf(p) + Symbol(p.op) + RightOf(p) by { CoreIs(p); }
    if !p.op.Neq? { FindMissing(s, Symbol(Neq), 0); }
    if p.op.Lte? || p.op.Eq? { FindMissing(s, Symbol(Gte), 0); }
    if p.op.Gt? || p.op.Lt? { FindMissing(s, Symbol(Gte), 1); }
    if p.op.Eq? { FindMissing(s, Symbol(Lte), 0); }
    if p.op.Gt? || p.op.Lt? {
      FindMissing(s, Symbol(Lte), 1);
      FindMissing(s, Symbol(Eq), 0);
    }
    if p.op.Lt? { FindMissing(s, Symbol(Gt), 0); }
  }

  lemma CoreIs(p: ColumnPredicate)
    requires Comparison(p.op)
    ensures Core(p) == LeftOf(p) + Symbol(p.op) + RightOf(p)
  {
  }

  // ---- the operation clause ----

  lemma OpTextFacts(op: OpType)
    ensures var s := OpText(op);
            s != [] && FromTag(s) == Some(op) && (forall i :: 0 <= i < |s| ==> 'a' as int <= s[i] <= 'z' as int)
  {
    var s := OpText(op);
    assert s[0] == match op {
      case Insert => 'i' as int
      case Update => 'u' as int
      case Delete => 'd' as int
      case Truncate => 't' as int
    };
    assert Ascii("insert")[0] == 'i' as int && Ascii("update")[0] == 'u' as int && Ascii("delete")[0] == 'd' as int;
    assert Ascii("INSERT")[0] == 'I' as int && Ascii("UPDATE")[0] == 'U' as int && Ascii("DELETE")[0] == 'D' as int;
    assert Ascii("I")[0] == 'I' as int && Ascii("U")[0] == 'U' as int && Ascii("D")[0] == 'D' as int;
  }

  lemma OpTextTrims(op: OpType)
    ensures Trim(OpText(op)) == OpText(op) && COMMA !in OpText(op) && SEMICOLON !in OpText(op)
  {
    hide OpText, FromTag, LeadSpace, TailSpace;
    OpTextFacts(op);
    VisibleEnds(OpText(op));
    TrimBack(OpText(op));
  }

  lemma SplitFirst(a: Text, sep: byte, t: Text)
    requires sep !in a
    ensures Split(a + [sep] + t, sep) == [a] + Split(t, sep)
  {
    var s := a + [sep] + t;
    assert s[|a|] == sep && forall j :: 0 <= j < |a| ==> s[j] == a[j];
    assert IndexOf(s, sep) == |a|;
    assert s[..|a|] == a && s[|a| + 1..] == t;
  }

  lemma {:induction false} ParseJoinedOps(ops: seq<OpType>)
    requires ops != []
    ensures ParseOps(Split(JoinOps(ops), COMMA)) == ops
  {
    hide OpText, FromTag, Trim, Split;
    OpTextFacts(ops[0]);
    OpTextTrims(ops[0]);
    if |ops| == 1 {
      SplitNone(OpText(ops[0]), COMMA);
      assert [OpText(ops[0])][1..] == [] && [ops[0]] + [] == ops;
    } else {
      SplitFirst(OpText(ops[0]), COMMA, JoinOps(ops[1..]));
      ParseJoinedOps(ops[1..]);
      var rest := Split(JoinOps(ops[1..]), COMMA);
      assert ([OpText(ops[0])] + rest)[1..] == rest;
      assert [ops[0]] + ops[1..] == ops;
    }
  }

  lemma SplitNone(s: Text, sep: byte)
    requires sep !in s
    ensures Split(s, sep) == [s]
  {
  }

  lemma {:induction false} JoinOpsBytes(ops: seq<OpType>)
    requires ops != []
    ensures var s := JoinOps(ops); s != [] && SEMICOLON !in s && 'a' as int <= s[|s| - 1] <= 'z' as int
  {
    hide OpText, FromTag;
    OpTextFacts(ops[0]);
    if |ops| > 1 { JoinOpsBytes(ops[1..]); }
  }

  lemma OpsClause(ops: seq<OpType>)
    requires ops != []
    ensures ClauseRule(Trim(OP_PREFIX + JoinOps(ops))) == FilterRule(ops, [])
    ensures SEMICOLON !in OP_PREFIX + JoinOps(ops)
  {
    hide LeadSpace, TailSpace, JoinOps, Split, ParseOps, ParsePredicate;
    var s := OP_PREFIX + JoinOps(ops);
    JoinOpsBytes(ops);
    VisibleEnds(s);
    TrimBack(s);
    ParseJoinedOps(ops);
    assert s[..3] == OP_PREFIX && s[3..] == JoinOps(ops);
  }

  // ---- joined clauses come apart again ----

  lemma SplitSpace(s: Text)
    ensures Split([SPACE] + s, SEMICOLON) == [[SPACE] + Split(s, SEMICOLON)[0]] + Split(s, SEMICOLON)[1..]
  {
    hide IndexOf;
    var t, i := [SPACE] + s, IndexOf(s, SEMICOLON);
    IndexBehindSpace(s);
    if i < |s| {
      var rest := Split(s[i + 1..], SEMICOLON);
      assert t[..i + 1] == [SPACE] + s[..i] && t[i + 2..] == s[i + 1..];
      assert ([s[..i]] + rest)[1..] == rest;
    }
  }

  lemma IndexBehindSpace(s: Text)
    ensures IndexOf([SPACE] + s, SEMICOLON) == 1 + IndexOf(s, SEMICOLON)
  {
    assert ([SPACE] + s)[1..] == s;
  }

  lemma TrimSplitSpace(s: Text)
    ensures TrimAll(Split([SPACE] + s, SEMICOLON)) == TrimAll(Split(s, SEMICOLON))
  {
    hide Trim, Split;
    SplitSpace(s);
    TrimFront(Split(s, SEMICOLON)[0]);
  }

  lemma {:induction false} ClausesOfJoin(cs: seq<Text>)
    requires cs != [] && forall c <- cs :: SEMICOLON !in c
    ensures Clauses(Join(cs)) == TrimAll(cs)
  {
    hide Trim, Split;
    if |cs| == 1 {
      SplitNone(cs[0], SEMICOLON);
      assert [cs[0]] == cs;
    } else {
      var rest := [SPACE] + Join(cs[1..]);
      SplitFirst(cs[0], SEMICOLON, rest);
      TrimSplitSpace(Join(cs[1..]));
      ClausesOfJoin(cs[1..]);
      assert TrimAll([cs[0]] + Split(rest, SEMICOLON)) == [Trim(cs[0])] + TrimAll(Split(rest, SEMICOLON));
      assert TrimAll(cs) == [Trim(cs[0])] + TrimAll(cs[1..]);
    }
  }

  lemma {:induction false} RuleConcat(a: seq<Text>, b: seq<Text>)
    ensures RuleOf(a + b) == FilterRule(RuleOf(a).ops + RuleOf(b).ops, RuleOf(a).predicates + RuleOf(b).predicates)
  {
    hide ClauseRule;
    if b == [] {
      assert a + b == a;
    } else {
      RuleConcat(a, b[..|b| - 1]);
      assert (a + b)[..|a + b| - 1] == a + b[..|b| - 1];
    }
  }

  lemma ClauseAdds(part: Text)
    ensures |ClauseRule(part).predicates| <= 1
  {
    hide ParsePredicate, ParseOps, Split;
  }

  lemma {:induction false} RuleSize(clauses: seq<Text>)
    ensures |RuleOf(clauses).predicates| <= |clauses|
  {
    hide ClauseRule;
    if clauses != [] {
      RuleSize(clauses[..|clauses| - 1]);
      ClauseAdds(clauses[|clauses| - 1]);
    }
  }

  predicate AllStandAlone(ps: seq<ColumnPredicate>)
    requires forall p <- ps :: Comparison(p.op)
  {
    forall p <- ps :: StandsAlone(p)
  }

  /** Rendered predicates read back one by one or not at all: no clause can make up for another. */
  lemma {:induction false} RuleOfPredicatesIff(ps: seq<ColumnPredicate>)
    requires forall p <- ps :: Comparison(p.op)
    ensures RuleOf(TrimAll(RenderPredicates(ps))) == FilterRule([], ps) <==> AllStandAlone(ps)
  {
    hide ClauseRule, Trim, TrimAll, RenderPredicate, RenderPredicates, RuleOf, StandsAlone, Comparison;
    if ps == [] {
      NothingRendered();
    } else {
      var front, last := ps[..|ps| - 1], ps[|ps| - 1];
      assert ps == front + [last];
      var head, clause := TrimAll(RenderPredicates(front)), Trim(RenderPredicate(last));
      RuleOfPredicatesIff(front);
      PredicateClauseIff(last);
      RenderedLast(front, last);
      RuleAppend(head, clause);
      RenderedSize(front);
      RuleSize(head);
      ClauseAdds(clause);
      LastPart(RuleOf(head), ClauseRule(clause), front, last);
    }
  }

  lemma NothingRendered()
    ensures RuleOf(TrimAll(RenderPredicates([]))) == FilterRule([], [])
  {
  }

  lemma RenderedSize(ps: seq<ColumnPredicate>)
    requires forall p <- ps :: Comparison(p.op)
    ensures |TrimAll(RenderPredicates(ps))| == |ps|
  {
    hide Trim, RenderPredicate;
  }

  lemma RenderedLast(front: seq<ColumnPredicate>, last: ColumnPredicate)
    requires forall p <- front + [last] :: Comparison(p.op)
    ensures (forall p <- front :: Comparison(p.op)) && Comparison(last.op)
    ensures TrimAll(RenderPredicates(front + [last]))
         == TrimAll(RenderPredicates(front)) + [Trim(RenderPredicate(last))]
    ensures AllStandAlone(front + [last]) <==> AllStandAlone(front) && StandsAlone(last)
  {
    hide Trim, RenderPredicate, Comparison, StandsAlone;
    assert forall p :: p in front + [last] <==> p in front || p == last;
  }

  lemma RuleAppend(cs: seq<Text>, c: Text)
    ensures RuleOf(cs + [c])
         == FilterRule(RuleOf(cs).ops + ClauseRule(c).ops, RuleOf(cs).predicates + ClauseRule(c).predicates)
  {
    hide ClauseRule;
    assert (cs + [c])[..|cs|] == cs;
  }

  lemma LastPart(a: FilterRule, b: FilterRule, front: seq<ColumnPredicate>, last: ColumnPredicate)
    requires |a.predicates| <= |front| && |b.predicates| <= 1
    ensures FilterRule(a.ops + b.ops, a.predicates + b.predicates) == FilterRule([], front + [last])
       <==> a == FilterRule([], front) && b == FilterRule([], [last])
  {
    if a.predicates + b.predicates == front + [last] {
      assert |a.predicates| == |front|;
      assert (a.predicates + b.predicates)[..|front|] == front && (a.predicates + b.predicates)[|front|..] == [last];
    }
    assert a.ops + b.ops == [] <==> a.ops == [] && b.ops == [];
  }

  lemma {:induction false} SplitParts(s: Text, sep: byte)
    ensures forall part <- Split(s, sep) :: sep !in part
    decreases |s|
  {
    hide Split, IndexOf;
    var i := IndexOf(s, sep);
    SplitStep(s, sep);
    if i < |s| { SplitParts(s[i + 1..], sep); } else { assert s[..i] == s; }
  }

  lemma SplitStep(s: Text, sep: byte)
    ensures var i := IndexOf(s, sep);
            Split(s, sep) == if i == |s| then [s] else [s[..i]] + Split(s[i + 1..], sep)
  {
    hide IndexOf;
  }

  /** No predicate that comes out of an expression holds a semicolon. */
  lemma RuleHasNoSemicolon(expr: Text, p: ColumnPredicate)
    requires p in RuleOf(Clauses(expr)).predicates
    ensures SEMICOLON !in p.column && SEMICOLON !in p.value
  {
    hide Trim, Split, ParsePredicate, RuleOf, ParseOps;
    RuleMembers(Clauses(expr));
    var c :| c in Clauses(expr) && p in ClauseRule(c).predicates;
    var parts := Split(expr, SEMICOLON);
    var i :| 0 <= i < |parts| && c == Trim(parts[i]);
    SplitParts(expr, SEMICOLON);
    assert parts[i] in parts;
    TrimBytes(parts[i], SEMICOLON);
    ParsedIsTrimmed(c, p);
  }

  lemma RenderedBytes(p: ColumnPredicate)
    requires Comparison(p.op) && SEMICOLON !in p.column && SEMICOLON !in p.value
    ensures SEMICOLON !in RenderPredicate(p)
  {
  }

  predicate NoSemicolons(ps: seq<ColumnPredicate>) {
    forall p <- ps :: SEMICOLON !in p.column && SEMICOLON !in p.value
  }

  /** A rule of comparisons reads back unchanged from its rendering in the documented format exactly when each of its
      predicates does: trimmed, free of semicolons, not starting like an operation clause, with no symbol tried earlier
      in its text and its own symbol first where it was put. */
  lemma RenderParseIff(rule: FilterRule)
    requires forall p <- rule.predicates :: Comparison(p.op)
    ensures RuleOf(Clauses(Render(rule))) == rule <==> forall p <- rule.predicates :: ReadsBack(p)
  {
    hide Trim, RenderPredicate, StandsAlone, Comparison, RuleOf, Clauses, Render;
    if RuleOf(Clauses(Render(rule))) == rule {
      forall p <- rule.predicates ensures SEMICOLON !in p.column && SEMICOLON !in p.value {
        RuleHasNoSemicolon(Render(rule), p);
      }
    }
    if NoSemicolons(rule.predicates) {
      RenderedApart(rule);
      RuleOfPredicatesIff(rule.predicates);
    }
  }

  /** In particular every rule of plain comparisons does. */
  lemma RenderParse(rule: FilterRule)
    requires forall p <- rule.predicates :: PlainPredicate(p)
    ensures (forall p <- rule.predicates :: Comparison(p.op)) && RuleOf(Clauses(Render(rule))) == rule
  {
    hide PlainPredicate, ReadsBack, Clauses, Render, RuleOf;
    forall p <- rule.predicates ensures Comparison(p.op) && ReadsBack(p) { PlainReadsBack(p); }
    RenderParseIff(rule);
  }

  /** Without semicolons, a rendering comes apart into its clauses. */
  lemma RenderedApart(rule: FilterRule)
    requires NoSemicolons(rule.predicates) && forall p <- rule.predicates :: Comparison(p.op)
    ensures RuleOf(Clauses(Render(rule))) == rule
       <==> RuleOf(TrimAll(RenderPredicates(rule.predicates))) == FilterRule([], rule.predicates)
  {
    hide Trim, RenderPredicate, Comparison, ClauseRule, JoinOps, Split, Clauses, Join, RuleOf, NoSemicolons;
    var cs := RenderClauses(rule);
    var ps := RenderPredicates(rule.predicates);
    forall c <- cs ensures SEMICOLON !in c { ClausesHaveNoSemicolon(rule, c); }
    if cs == [] {
      EmptyExpression();
      assert TrimAll(ps) == [] && rule == FilterRule([], []);
    } else {
      ClausesOfJoin(cs);
      var ops: seq<Text> := if rule.ops == [] then [] else [OP_PREFIX + JoinOps(rule.ops)];
      assert TrimAll(ops + ps) == TrimAll(ops) + TrimAll(ps);
      RuleConcat(TrimAll(ops), TrimAll(ps));
      RuleOfOps(rule.ops);
      var rest := RuleOf(TrimAll(ps));
      assert [] + rest.predicates == rest.predicates;
      assert rule.ops + rest.ops == rule.ops <==> rest.ops == [];
    }
  }

  lemma RuleOfOps(ops: seq<OpType>)
    ensures var cs: seq<Text> := if ops == [] then [] else [OP_PREFIX + JoinOps(ops)];
            RuleOf(TrimAll(cs)) == FilterRule(ops, [])
  {
    hide Trim, ClauseRule, JoinOps;
    if ops != [] {
      OpsClause(ops);
      var t := TrimAll([OP_PREFIX + JoinOps(ops)]);
      assert t[..|t| - 1] == [];
      assert [] + ops == ops;
    }
  }

  lemma EmptyExpression()
    ensures Join([]) == [] && RuleOf(Clauses([])) == FilterRule([], []) && RuleOf([]) == FilterRule([], [])
  {
    var cs := Clauses([]);
    assert cs == [[]];
    assert cs[..0] == [];
  }

  lemma ClausesHaveNoSemicolon(rule: FilterRule, c: Text)
    requires (forall p <- rule.predicates :: Comparison(p.op)) && NoSemicolons(rule.predicates)
    requires c in RenderClauses(rule)
    ensures SEMICOLON !in c
  {
    hide Trim, RenderPredicate, JoinOps, Comparison;
    if rule.ops != [] && c == OP_PREFIX + JoinOps(rule.ops) {
      OpsClause(rule.ops);
    } else {
      var ps := RenderPredicates(rule.predicates);
      assert c in ps;
      var i :| 0 <= i < |ps| && ps[i] == c;
      assert rule.predicates[i] in rule.predicates;
      RenderedBytes(rule.predicates[i]);
    }
  }
}
