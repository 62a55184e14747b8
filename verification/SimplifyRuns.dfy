/**
 SimplifyRuns: the simplifier on expressions as they are in memory, where several users share an operand and uses are
 redirected one at a time. Which expression is visited when, and again, is left open: a run is any sequence of what the
 visitor does to expressions. Every such sequence keeps the values, and the assertion on an empty chain can only fail on a
 conjunction that always holds or a disjunction that never does.
 */
module SimplifyRuns {
  import opened Expressions
  import opened SimplifyExpressions

  /** Operands are addresses. A holder is a statement, or whoever else refers to expressions from outside. */
  datatype Cell =
    | Token(e: Expr)
    | Negation(x: nat)
    | Chain(op: NAryOp, args: seq<nat>)
    | Holder(args: seq<nat>)

  /** `rank` shows that no expression is below itself; `origin` tells for a rebuilt chain which one it was built from at first. */
  datatype Graph = Graph(cells: map<nat, Cell>, rank: map<nat, nat>, origin: map<nat, nat>, next: nat)

  const TRUE_ID: nat := 0
  const FALSE_ID: nat := 1

  function Args(c: Cell): seq<nat> {
    match c
    case Token(_) => []
    case Negation(x) => [x]
    case Chain(_, args) => args
    case Holder(args) => args
  }

  predicate Simple(e: Expr) { !e.Not? && !e.NAry? }

  ghost predicate CellValid(g: Graph, n: nat)
    requires n in g.cells
  {
    && n < g.next && n in g.rank
    && (g.cells[n].Token? ==> Simple(g.cells[n].e))
    && (IsChain(g, n) ==> n in g.origin)
    && forall i :: 0 <= i < |Args(g.cells[n])| ==> Below(g, Args(g.cells[n])[i], n)
  }

  ghost predicate Below(g: Graph, a: nat, n: nat) {
    a in g.cells && !g.cells[a].Holder? && a in g.rank && n in g.rank && g.rank[a] < g.rank[n]
  }

  predicate IsChain(g: Graph, n: nat) {
    n in g.cells && g.cells[n].Chain? && IsLogical(g.cells[n].op)
  }

  ghost predicate Valid(g: Graph) {
    && TRUE_ID in g.cells && g.cells[TRUE_ID] == Token(True) && TRUE_ID in g.rank && g.rank[TRUE_ID] == 0
    && FALSE_ID in g.cells && g.cells[FALSE_ID] == Token(False) && FALSE_ID in g.rank && g.rank[FALSE_ID] == 0
    && forall n :: n in g.cells ==> CellValid(g, n)
  }

  /** The expression that an address stands for. */
  ghost function TreeOf(g: Graph, n: nat): Expr
    requires Valid(g) && n in g.cells
    decreases g.rank[n]
  {
    assert CellValid(g, n);
    match g.cells[n]
    case Token(e) => e
    case Negation(x) => assert Below(g, Args(g.cells[n])[0], n); Not(TreeOf(g, x))
    case Chain(op, args) =>
      NAry(op, seq(|args|, i requires 0 <= i < |args| => assert Below(g, Args(g.cells[n])[i], n); TreeOf(g, args[i])))
    case Holder(_) => False
  }

  // ----- Collecting terms -----

  datatype Ids = Ids(plain: seq<nat>, negated: seq<nat>)

  ghost function Strip(g: Graph, n: nat): (r: (nat, bool))
    requires Valid(g) && n in g.cells
    ensures r.0 in g.cells && g.rank[r.0] <= g.rank[n] && (n == r.0 || Below(g, r.0, n))
    decreases g.rank[n]
  {
    assert CellValid(g, n);
    if g.cells[n].Negation? then
      assert Below(g, Args(g.cells[n])[0], n);
      var r := Strip(g, g.cells[n].x);
      (r.0, !r.1)
    else (n, false)
  }

  ghost function AddId(g: Graph, t: Ids, n: nat): Ids
    requires Valid(g) && n in g.cells
  {
    var c := Strip(g, n);
    if c.1 then (if c.0 in t.negated then t else t.(negated := t.negated + [c.0]))
    else (if c.0 in t.plain then t else t.(plain := t.plain + [c.0]))
  }

  ghost predicate AllBelow(g: Graph, args: seq<nat>, bound: nat) {
    forall i :: 0 <= i < |args| ==> args[i] in g.cells && args[i] in g.rank && g.rank[args[i]] < bound
  }

  lemma ArgsBelow(g: Graph, n: nat)
    requires Valid(g) && n in g.cells
    ensures n in g.rank && AllBelow(g, Args(g.cells[n]), g.rank[n])
  {
    assert CellValid(g, n);
    forall i | 0 <= i < |Args(g.cells[n])| ensures Below(g, Args(g.cells[n])[i], n) {
    }
  }

  /** collectExpressionTerms: `bound` is above the ranks of the operands. */
  ghost function CollectIds(g: Graph, op: NAryOp, args: seq<nat>, bound: nat, t: Ids): Ids
    requires Valid(g) && AllBelow(g, args, bound)
    decreases bound, |args|
  {
    if args == [] then t else
      var a := args[0];
      ArgsBelow(g, a);
      var next := if g.cells[a].Chain? && g.cells[a].op == op then CollectIds(g, op, g.cells[a].args, g.rank[a], t)
                  else AddId(g, t, a);
      CollectIds(g, op, args[1..], bound, next)
  }

  ghost function TermsOf(g: Graph, p: nat): Ids
    requires Valid(g) && IsChain(g, p)
  {
    ArgsBelow(g, p);
    CollectIds(g, g.cells[p].op, g.cells[p].args, g.rank[p], Ids([], []))
  }

  function DecidingId(op: NAryOp): nat { if op.ShortCircuitOr? then TRUE_ID else FALSE_ID }

  function NeutralId(op: NAryOp): nat { if op.ShortCircuitOr? then FALSE_ID else TRUE_ID }

  predicate DecidedIds(op: NAryOp, t: Ids) {
    || DecidingId(op) in t.plain || NeutralId(op) in t.negated
    || exists x :: x in t.negated && x in t.plain
  }

  function Others(ids: seq<nat>): seq<nat> {
    if ids == [] then [] else (if ids[0] == TRUE_ID || ids[0] == FALSE_ID then [] else [ids[0]]) + Others(ids[1..])
  }

  /** removeIdenticalTerms runs into the assertion of AstContext::nary. */
  ghost predicate Fails(g: Graph, p: nat)
    requires Valid(g)
  {
    && IsChain(g, p)
    && var t := TermsOf(g, p);
      !DecidedIds(g.cells[p].op, t) && Others(t.negated) == [] && Others(t.plain) == []
  }

  // ----- What the visitor does -----

  /** `subst` holds the pairs of an expression and what takes its place, while its uses are being redirected. */
  datatype State = State(g: Graph, subst: set<Substitution>)

  datatype Substitution = Substitution(from: nat, to: nat)

  function WithPair(s: State, p: nat, r: nat): State { s.(subst := s.subst + {Substitution(p, r)}) }

  datatype Action =
    | Decide(p: nat)
    | Rebuild(p: nat)
    | Cancel(n: nat)
    | Flip(n: nat)
    | SetUse(user: nat, slot: nat, to: nat)
    | Drop(n: nat)

  ghost predicate Enabled(s: State, a: Action)
    requires Valid(s.g)
  {
    var cells := s.g.cells;
    match a
    case Decide(p) => IsChain(s.g, p) && DecidedIds(cells[p].op, TermsOf(s.g, p))
    case Rebuild(p) => IsChain(s.g, p) && !DecidedIds(cells[p].op, TermsOf(s.g, p)) && !Fails(s.g, p)
    case Cancel(n) => n in cells && cells[n].Negation? && cells[n].x in cells && cells[cells[n].x].Negation?
    case Flip(n) =>
      && n in cells && cells[n].Negation? && cells[n].x in cells && cells[cells[n].x].Chain?
      && Flippable(cells[cells[n].x].op) && |cells[cells[n].x].args| == 2
    case SetUse(user, slot, to) => user in cells && slot < |Args(cells[user])| && Substitution(Args(cells[user])[slot], to) in s.subst
    case Drop(n) =>
      && n in cells && n != TRUE_ID && n != FALSE_ID && !cells[n].Holder?
      && (forall u :: u in cells ==> n !in Args(cells[u])) && (forall pair :: pair in s.subst ==> pair.to != n)
  }

  function WithArg(c: Cell, slot: nat, to: nat): Cell
    requires slot < |Args(c)|
  {
    match c
    case Negation(_) => Negation(to)
    case Chain(op, args) => Chain(op, args[slot := to])
    case Holder(args) => Holder(args[slot := to])
  }

  function Add(g: Graph, c: Cell, rank: nat, origin: nat): Graph {
    Graph(g.cells[g.next := c], g.rank[g.next := rank], g.origin[g.next := origin], g.next + 1)
  }

  function RankOf(g: Graph, n: nat): nat { if n in g.rank then g.rank[n] else 0 }

  function AddNegation(g: Graph, x: nat): Graph { Add(g, Negation(x), RankOf(g, x) + 1, 0) }

  /** New negations of the terms, in order. */
  function AddNegations(g: Graph, ids: seq<nat>): (r: Graph)
    ensures r.next == g.next + |ids|
    decreases |ids|
  {
    if ids == [] then g else AddNegations(AddNegation(g, ids[0]), ids[1..])
  }

  function Upto(from: nat, count: nat): seq<nat> { seq(count, i => from + i) }

  /** The chain that takes the place of `p` comes after its new negations. */
  function AddRebuilt(g: Graph, op: NAryOp, t: Ids, rank: nat, origin: nat): Graph {
    Add(AddNegations(g, t.negated), Chain(op, Upto(g.next, |t.negated|) + t.plain), rank, origin)
  }

  ghost function LeftTerms(g: Graph, p: nat): Ids
    requires Valid(g) && IsChain(g, p)
  {
    var t := TermsOf(g, p);
    Ids(Others(t.plain), Others(t.negated))
  }

  ghost function Do(s: State, a: Action): State
    requires Valid(s.g) && Enabled(s, a)
  {
    var g := s.g;
    match a
    case Decide(p) => WithPair(s, p, DecidingId(g.cells[p].op))
    case Rebuild(p) =>
      assert CellValid(g, p);
      var t := LeftTerms(g, p);
      WithPair(s.(g := AddRebuilt(g, g.cells[p].op, t, g.rank[p], g.origin[p])), p, g.next + |t.negated|)
    case Cancel(n) => WithPair(s, n, g.cells[g.cells[n].x].x)
    case Flip(n) =>
      var c := g.cells[g.cells[n].x];
      WithPair(s.(g := Add(g, Chain(Flipped(c.op), c.args), RankOf(g, g.cells[n].x), 0)), n, g.next)
    case SetUse(user, slot, to) => s.(g := g.(cells := g.cells[user := WithArg(g.cells[user], slot, to)]))
    case Drop(n) => State(g.(cells := g.cells - {n}), set pair | pair in s.subst && pair.from != n)
  }

  // ----- Values -----

  predicate IsPair(g: Graph, n: nat) {
    n in g.cells && g.cells[n].Chain? && g.cells[n].op.BitwiseAnd? && |g.cells[n].args| == 2
  }

  predicate IsBit(x: int) { x == 0 || x == 1 }

  /** What an operator computes from the values of its operands. */
  ghost function Apply(op: NAryOp, xs: seq<int>, v: Valuation): int {
    if op.ShortCircuitAnd? then Bit(forall i :: 0 <= i < |xs| ==> xs[i] != 0)
    else if op.ShortCircuitOr? then Bit(exists i :: 0 <= i < |xs| && xs[i] != 0)
    else if IsComparison(op) && |xs| == 2 then Bit(Compare(op, xs[0], xs[1]))
    else v.arith(op, xs)
  }

  ghost predicate Known(val: map<nat, int>, args: seq<nat>) {
    forall i :: 0 <= i < |args| ==> args[i] in val
  }

  ghost function Values(val: map<nat, int>, args: seq<nat>): seq<int>
    requires Known(val, args)
  {
    seq(|args|, i requires 0 <= i < |args| => val[args[i]])
  }

  /** May stand under a negation. */
  ghost predicate Negatable(g: Graph, val: map<nat, int>, x: nat) {
    x in val && IsBit(val[x]) && !IsPair(g, x)
  }

  ghost predicate CellHolds(g: Graph, val: map<nat, int>, v: Valuation, n: nat)
    requires n in g.cells
  {
    && n in val
    && match g.cells[n]
       case Token(e) => val[n] == Eval(e, v)
       case Negation(x) => Negatable(g, val, x) && val[n] == Bit(val[x] == 0)
       case Chain(op, args) => Known(val, args) && val[n] == Apply(op, Values(val, args), v)
       case Holder(_) => true
  }

  ghost predicate Consistent(g: Graph, val: map<nat, int>, v: Valuation) {
    forall n :: n in g.cells ==> CellHolds(g, val, v, n)
  }

  /** The value of a chain is that of the chain it was built from at first. */
  ghost predicate Traced(g: Graph, val: map<nat, int>) {
    forall n :: IsChain(g, n) && n in g.origin ==> n in val && g.origin[n] in val && val[g.origin[n]] == val[n]
  }

  ghost predicate Replaces(g: Graph, val: map<nat, int>, p: nat, r: nat) {
    && p in g.cells && r in g.cells && p in g.rank && r in g.rank && g.rank[r] <= g.rank[p]
    && !g.cells[r].Holder? && !IsPair(g, r)
    && p in val && r in val && val[p] == val[r]
  }

  ghost predicate Inv(s: State, val: map<nat, int>, v: Valuation) {
    && Valid(s.g) && Consistent(s.g, val, v) && Traced(s.g, val)
    && (forall n :: n in val ==> n < s.g.next)
    && forall pair :: pair in s.subst ==> Replaces(s.g, val, pair.from, pair.to)
  }

  /** The operand decides the chain: it holds in a disjunction, or fails in a conjunction. */
  predicate Hot(op: NAryOp, val: map<nat, int>, n: nat)
    requires n in val
  {
    (val[n] != 0) == op.ShortCircuitOr?
  }

  ghost predicate AnyHot(op: NAryOp, val: map<nat, int>, args: seq<nat>)
    requires Known(val, args)
  {
    exists i :: 0 <= i < |args| && Hot(op, val, args[i])
  }

  ghost predicate TermsHot(op: NAryOp, val: map<nat, int>, t: Ids)
    requires Known(val, t.plain) && Known(val, t.negated)
  {
    AnyHot(op, val, t.plain) || exists i :: 0 <= i < |t.negated| && !Hot(op, val, t.negated[i])
  }

  lemma ChainHot(g: Graph, val: map<nat, int>, v: Valuation, p: nat)
    requires IsChain(g, p) && CellHolds(g, val, v, p)
    ensures IsBit(val[p]) && (Hot(g.cells[p].op, val, p) <==> AnyHot(g.cells[p].op, val, g.cells[p].args))
  {
    var op, args := g.cells[p].op, g.cells[p].args;
    var xs := Values(val, args);
    if i :| 0 <= i < |args| && Hot(op, val, args[i]) {
      assert (xs[i] != 0) == op.ShortCircuitOr?;
    }
    if i :| 0 <= i < |xs| && ((xs[i] != 0) == op.ShortCircuitOr?) {
      assert Hot(op, val, args[i]);
    }
  }

  lemma {:induction false} StripHolds(g: Graph, val: map<nat, int>, v: Valuation, n: nat)
    requires Valid(g) && Consistent(g, val, v) && n in g.cells && !g.cells[n].Holder?
    ensures var r := Strip(g, n);
      && !g.cells[r.0].Holder? && r.0 in val && n in val
      && ((val[n] != 0) == ((val[r.0] != 0) != r.1))
      && (r.1 ==> Negatable(g, val, r.0) && g.rank[r.0] < g.rank[n])
      && (n != r.0 ==> Negatable(g, val, r.0))
    decreases g.rank[n]
  {
    assert CellValid(g, n) && CellHolds(g, val, v, n);
    if g.cells[n].Negation? {
      assert Below(g, Args(g.cells[n])[0], n);
      StripHolds(g, val, v, g.cells[n].x);
    }
  }

  ghost predicate PlainOk(g: Graph, val: map<nat, int>, bound: nat, ids: seq<nat>) {
    forall i :: 0 <= i < |ids| ==>
      ids[i] in g.cells && !g.cells[ids[i]].Holder? && ids[i] in val && ids[i] in g.rank && g.rank[ids[i]] < bound
  }

  ghost predicate NegatedOk(g: Graph, val: map<nat, int>, bound: nat, ids: seq<nat>) {
    forall i :: 0 <= i < |ids| ==>
      ids[i] in g.cells && !g.cells[ids[i]].Holder? && Negatable(g, val, ids[i]) && ids[i] in g.rank && g.rank[ids[i]] + 1 < bound
  }

  ghost predicate TermsOk(g: Graph, val: map<nat, int>, bound: nat, t: Ids) {
    PlainOk(g, val, bound, t.plain) && NegatedOk(g, val, bound, t.negated)
  }

  lemma AnyHotSnoc(op: NAryOp, val: map<nat, int>, ids: seq<nat>, x: nat)
    requires Known(val, ids) && x in val
    ensures Known(val, ids + [x]) && (AnyHot(op, val, ids + [x]) <==> AnyHot(op, val, ids) || Hot(op, val, x))
  {
    if i :| 0 <= i < |ids| && Hot(op, val, ids[i]) { assert (ids + [x])[i] == ids[i]; }
    assert (ids + [x])[|ids|] == x;
  }

  lemma AddIdOk(g: Graph, val: map<nat, int>, v: Valuation, t: Ids, n: nat, bound: nat)
    requires Valid(g) && Consistent(g, val, v) && n in g.cells && !g.cells[n].Holder? && g.rank[n] < bound
    requires TermsOk(g, val, bound, t)
    ensures n in val && TermsOk(g, val, bound, AddId(g, t, n))
  {
    StripHolds(g, val, v, n);
  }

  lemma AddIdHot(g: Graph, val: map<nat, int>, v: Valuation, op: NAryOp, t: Ids, n: nat)
    requires Valid(g) && Consistent(g, val, v) && n in g.cells && !g.cells[n].Holder? && n in val
    requires Known(val, t.plain) && Known(val, t.negated) && Known(val, AddId(g, t, n).plain) && Known(val, AddId(g, t, n).negated)
    ensures TermsHot(op, val, AddId(g, t, n)) <==> TermsHot(op, val, t) || Hot(op, val, n)
  {
    StripHolds(g, val, v, n);
    var c := Strip(g, n);
    AnyHotSnoc(op, val, t.plain, c.0);
    AnyColdSnoc(op, val, t.negated, c.0);
  }

  lemma AnyColdSnoc(op: NAryOp, val: map<nat, int>, ids: seq<nat>, x: nat)
    requires Known(val, ids) && x in val
    ensures (exists i :: 0 <= i < |ids + [x]| && (ids + [x])[i] in val && !Hot(op, val, (ids + [x])[i])) <==>
            (exists i :: 0 <= i < |ids| && !Hot(op, val, ids[i])) || !Hot(op, val, x)
  {
    if i :| 0 <= i < |ids| && !Hot(op, val, ids[i]) { assert (ids + [x])[i] == ids[i]; }
    assert (ids + [x])[|ids|] == x;
  }

  lemma ChainOk(g: Graph, val: map<nat, int>, v: Valuation, n: nat)
    requires Valid(g) && Consistent(g, val, v) && n in g.cells && g.cells[n].Chain?
    ensures n in g.rank && PlainOk(g, val, g.rank[n], g.cells[n].args)
  {
    assert CellValid(g, n) && CellHolds(g, val, v, n);
    var args := g.cells[n].args;
    forall i | 0 <= i < |args|
      ensures args[i] in g.cells && !g.cells[args[i]].Holder? && args[i] in val && args[i] in g.rank && g.rank[args[i]] < g.rank[n]
    {
      assert Below(g, Args(g.cells[n])[i], n);
    }
  }

  lemma HotCons(op: NAryOp, val: map<nat, int>, args: seq<nat>)
    requires args != [] && Known(val, args)
    ensures Known(val, args[1..]) && (AnyHot(op, val, args) <==> Hot(op, val, args[0]) || AnyHot(op, val, args[1..]))
  {
    if i :| 0 <= i < |args| && Hot(op, val, args[i]) {
      assert i > 0 ==> args[1..][i - 1] == args[i];
    }
  }

  /** The collected terms decide a chain exactly if one of its operands does. */
  lemma {:induction false} CollectHot(
      g: Graph, val: map<nat, int>, v: Valuation, op: NAryOp, args: seq<nat>, bound: nat, t: Ids, limit: nat)
    requires Valid(g) && Consistent(g, val, v) && IsLogical(op) && bound <= limit
    requires PlainOk(g, val, bound, args) && TermsOk(g, val, limit, t)
    ensures AllBelow(g, args, bound) && TermsOk(g, val, limit, CollectIds(g, op, args, bound, t))
    ensures TermsHot(op, val, CollectIds(g, op, args, bound, t)) <==> TermsHot(op, val, t) || AnyHot(op, val, args)
    decreases bound, |args|
  {
    if args != [] {
      var a := args[0];
      ArgsBelow(g, a);
      HotCons(op, val, args);
      if g.cells[a].Chain? && g.cells[a].op == op {
        ChainOk(g, val, v, a);
        assert CellHolds(g, val, v, a);
        ChainHot(g, val, v, a);
        CollectHot(g, val, v, op, g.cells[a].args, g.rank[a], t, limit);
        CollectHot(g, val, v, op, args[1..], bound, CollectIds(g, op, g.cells[a].args, g.rank[a], t), limit);
      } else {
        AddIdOk(g, val, v, t, a, limit);
        AddIdHot(g, val, v, op, t, a);
        CollectHot(g, val, v, op, args[1..], bound, AddId(g, t, a), limit);
      }
    }
  }

  lemma TermsOfHot(g: Graph, val: map<nat, int>, v: Valuation, p: nat)
    requires Valid(g) && Consistent(g, val, v) && IsChain(g, p)
    ensures TermsOk(g, val, g.rank[p], TermsOf(g, p)) && p in val && IsBit(val[p])
    ensures TermsHot(g.cells[p].op, val, TermsOf(g, p)) <==> Hot(g.cells[p].op, val, p)
  {
    ChainOk(g, val, v, p);
    assert CellHolds(g, val, v, p);
    ChainHot(g, val, v, p);
    CollectHot(g, val, v, g.cells[p].op, g.cells[p].args, g.rank[p], Ids([], []), g.rank[p]);
  }

  lemma LiteralValues(g: Graph, val: map<nat, int>, v: Valuation)
    requires Valid(g) && Consistent(g, val, v)
    ensures TRUE_ID in val && FALSE_ID in val && val[TRUE_ID] == 1 && val[FALSE_ID] == 0
  {
    assert CellHolds(g, val, v, TRUE_ID) && CellHolds(g, val, v, FALSE_ID);
  }

  lemma DecidedHot(g: Graph, val: map<nat, int>, v: Valuation, op: NAryOp, t: Ids, bound: nat)
    requires Valid(g) && Consistent(g, val, v) && IsLogical(op) && TermsOk(g, val, bound, t) && DecidedIds(op, t)
    ensures TermsHot(op, val, t)
  {
    LiteralValues(g, val, v);
    if x :| x in t.negated && x in t.plain {
      var i :| 0 <= i < |t.negated| && t.negated[i] == x;
      var j :| 0 <= j < |t.plain| && t.plain[j] == x;
      assert Hot(op, val, t.plain[j]) || !Hot(op, val, t.negated[i]);
    } else if DecidingId(op) in t.plain {
      var j :| 0 <= j < |t.plain| && t.plain[j] == DecidingId(op);
      assert Hot(op, val, t.plain[j]);
    } else {
      var j :| 0 <= j < |t.negated| && t.negated[j] == NeutralId(op);
      assert !Hot(op, val, t.negated[j]);
    }
  }

  lemma {:induction false} OthersAt(ids: seq<nat>, x: nat)
    ensures x in Others(ids) <==> x in ids && x != TRUE_ID && x != FALSE_ID
    decreases |ids|
  {
    if ids != [] {
      OthersAt(ids[1..], x);
    }
  }

  lemma OthersOk(g: Graph, val: map<nat, int>, bound: nat, t: Ids)
    requires TermsOk(g, val, bound, t)
    ensures TermsOk(g, val, bound, Ids(Others(t.plain), Others(t.negated)))
  {
    forall i | 0 <= i < |Others(t.plain)| ensures Others(t.plain)[i] in t.plain {
      OthersAt(t.plain, Others(t.plain)[i]);
    }
    forall i | 0 <= i < |Others(t.negated)| ensures Others(t.negated)[i] in t.negated {
      OthersAt(t.negated, Others(t.negated)[i]);
    }
  }

  /** Literals that do not decide the chain do not matter. */
  lemma OthersHot(g: Graph, val: map<nat, int>, v: Valuation, op: NAryOp, t: Ids, bound: nat)
    requires Valid(g) && Consistent(g, val, v) && IsLogical(op) && TermsOk(g, val, bound, t) && !DecidedIds(op, t)
    ensures TermsOk(g, val, bound, Ids(Others(t.plain), Others(t.negated)))
    ensures TermsHot(op, val, Ids(Others(t.plain), Others(t.negated))) <==> TermsHot(op, val, t)
  {
    LiteralValues(g, val, v);
    OthersOk(g, val, bound, t);
    var plain, negated := Others(t.plain), Others(t.negated);
    if i :| 0 <= i < |t.plain| && Hot(op, val, t.plain[i]) {
      OthersAt(t.plain, t.plain[i]);
      var j :| 0 <= j < |plain| && plain[j] == t.plain[i];
    }
    if i :| 0 <= i < |t.negated| && !Hot(op, val, t.negated[i]) {
      OthersAt(t.negated, t.negated[i]);
      var j :| 0 <= j < |negated| && negated[j] == t.negated[i];
    }
    if j :| 0 <= j < |plain| && Hot(op, val, plain[j]) {
      OthersAt(t.plain, plain[j]);
      var i :| 0 <= i < |t.plain| && t.plain[i] == plain[j];
    }
    if j :| 0 <= j < |negated| && !Hot(op, val, negated[j]) {
      OthersAt(t.negated, negated[j]);
      var i :| 0 <= i < |t.negated| && t.negated[i] == negated[j];
    }
  }

  /** Where no term is left the chain has its neutral value. */
  lemma FailsNeutral(g: Graph, val: map<nat, int>, v: Valuation, p: nat)
    requires Valid(g) && Consistent(g, val, v) && Fails(g, p)
    ensures p in val && val[p] == Bit(g.cells[p].op.ShortCircuitAnd?)
  {
    TermsOfHot(g, val, v, p);
    OthersHot(g, val, v, g.cells[p].op, TermsOf(g, p), g.rank[p]);
  }

  // ----- Every step keeps the values -----

  /** What a graph and its values keep when cells are added. */
  ghost predicate Extends(g: Graph, val: map<nat, int>, h: Graph, val': map<nat, int>) {
    && g.next <= h.next
    && (forall n :: n in val ==> n in val' && val'[n] == val[n])
    && (forall n :: n in val' ==> n < h.next)
    && (forall n :: n in h.cells ==> n in g.cells || g.next <= n < h.next)
    && forall n :: n in g.cells ==> SameCell(g, h, n)
  }

  ghost predicate SameCell(g: Graph, h: Graph, n: nat) {
    && (n in h.cells <==> n in g.cells) && (n in g.cells ==> h.cells[n] == g.cells[n])
    && (n in h.rank <==> n in g.rank) && (n in g.rank ==> h.rank[n] == g.rank[n])
    && (n in h.origin <==> n in g.origin) && (n in g.origin ==> h.origin[n] == g.origin[n])
  }

  ghost predicate NewCell(h: Graph, val: map<nat, int>, v: Valuation, n: nat) {
    && n in h.cells && CellValid(h, n) && CellHolds(h, val, v, n)
    && (IsChain(h, n) ==> n in h.origin && h.origin[n] in val && val[h.origin[n]] == val[n])
  }

  lemma OldValid(g: Graph, val: map<nat, int>, h: Graph, val': map<nat, int>, n: nat)
    requires Valid(g) && Extends(g, val, h, val') && n in g.cells
    ensures n in h.cells && CellValid(h, n)
  {
    assert CellValid(g, n) && SameCell(g, h, n);
    forall i | 0 <= i < |Args(g.cells[n])| ensures Below(h, Args(h.cells[n])[i], n) {
      assert Below(g, Args(g.cells[n])[i], n) && SameCell(g, h, Args(g.cells[n])[i]);
    }
  }

  lemma OldHolds(g: Graph, val: map<nat, int>, h: Graph, val': map<nat, int>, v: Valuation, n: nat)
    requires Valid(g) && Extends(g, val, h, val') && n in g.cells && CellHolds(g, val, v, n)
    ensures n in h.cells && CellHolds(h, val', v, n)
  {
    assert CellValid(g, n) && SameCell(g, h, n);
    if g.cells[n].Chain? {
      assert Values(val, g.cells[n].args) == Values(val', g.cells[n].args);
    } else if g.cells[n].Negation? {
      assert Below(g, Args(g.cells[n])[0], n) && SameCell(g, h, g.cells[n].x);
    }
  }

  lemma ExtendKeeps(s: State, val: map<nat, int>, h: Graph, val': map<nat, int>, v: Valuation)
    requires Inv(s, val, v) && Extends(s.g, val, h, val')
    requires forall n :: n in h.cells && n !in s.g.cells ==> NewCell(h, val', v, n)
    ensures Inv(s.(g := h), val', v)
  {
    var g := s.g;
    assert SameCell(g, h, TRUE_ID) && SameCell(g, h, FALSE_ID);
    forall n | n in h.cells ensures CellValid(h, n) && CellHolds(h, val', v, n) {
      if n in g.cells {
        OldValid(g, val, h, val', n);
        OldHolds(g, val, h, val', v, n);
      } else {
        assert NewCell(h, val', v, n);
      }
    }
    forall n | IsChain(h, n) && n in h.origin ensures n in val' && h.origin[n] in val' && val'[h.origin[n]] == val'[n] {
      if n in g.cells {
        assert SameCell(g, h, n) && CellHolds(g, val, v, n);
        assert IsChain(g, n) && n in g.origin;
      } else {
        assert NewCell(h, val', v, n);
      }
    }
    forall pair | pair in s.subst ensures Replaces(h, val', pair.from, pair.to) {
      assert Replaces(g, val, pair.from, pair.to) && SameCell(g, h, pair.from) && SameCell(g, h, pair.to);
    }
  }

  // ----- Rebuilding a chain -----

  ghost predicate NegationAt(g: Graph, h: Graph, n: nat, x: nat) {
    n in h.cells && h.cells[n] == Negation(x) && n in h.rank && h.rank[n] == RankOf(g, x) + 1
  }

  lemma {:induction false} AddNegationsAt(g: Graph, ids: seq<nat>)
    requires forall i :: 0 <= i < |ids| ==> ids[i] < g.next
    ensures forall n: nat :: n < g.next ==> SameCell(g, AddNegations(g, ids), n)
    ensures forall i :: 0 <= i < |ids| ==> NegationAt(g, AddNegations(g, ids), g.next + i, ids[i])
    ensures forall n :: n in AddNegations(g, ids).cells ==> n in g.cells || g.next <= n < g.next + |ids|
    decreases |ids|
  {
    if ids != [] {
      var first, h := AddNegation(g, ids[0]), AddNegations(g, ids);
      AddNegationsAt(first, ids[1..]);
      assert h == AddNegations(first, ids[1..]);
      assert SameCell(first, h, g.next);
      forall n: nat | n < g.next ensures SameCell(g, h, n) {
        assert SameCell(first, h, n);
      }
      forall i | 0 <= i < |ids| ensures NegationAt(g, h, g.next + i, ids[i]) {
        if i > 0 {
          assert NegationAt(first, h, first.next + (i - 1), ids[1..][i - 1]);
        }
      }
    }
  }

  /** What AddRebuilt adds: the negations, and after them the chain. */
  lemma AddRebuiltAt(g: Graph, op: NAryOp, t: Ids, rank: nat, origin: nat)
    requires forall i :: 0 <= i < |t.negated| ==> t.negated[i] < g.next
    ensures var h, k := AddRebuilt(g, op, t, rank, origin), |t.negated|; 
      && h.next == g.next + k + 1
      && (forall n: nat :: n < g.next ==> SameCell(g, h, n))
      && (forall i :: 0 <= i < k ==> NegationAt(g, h, g.next + i, t.negated[i]))
      && (forall n :: n in h.cells ==> n in g.cells || g.next <= n <= g.next + k)
      && g.next + k in h.cells && h.cells[g.next + k] == Chain(op, Upto(g.next, k) + t.plain)
      && g.next + k in h.rank && h.rank[g.next + k] == rank && g.next + k in h.origin && h.origin[g.next + k] == origin
  {
    AddNegationsAt(g, t.negated);
    var mid, h := AddNegations(g, t.negated), AddRebuilt(g, op, t, rank, origin);
    forall n: nat | n < g.next ensures SameCell(g, h, n) {
      assert SameCell(g, mid, n);
    }
    forall i | 0 <= i < |t.negated| ensures NegationAt(g, h, g.next + i, t.negated[i]) {
      assert NegationAt(g, mid, g.next + i, t.negated[i]);
    }
  }

  /** The values of the new negations. */
  ghost predicate Negates(val: map<nat, int>, val': map<nat, int>, from: nat, ids: seq<nat>) {
    && (forall n :: n in val ==> n in val' && val'[n] == val[n])
    && (forall n :: n in val' ==> n in val || from <= n < from + |ids|)
    && forall i :: 0 <= i < |ids| ==> ids[i] in val && from + i in val' && val'[from + i] == Bit(val[ids[i]] == 0)
  }

  lemma {:induction false} NegationValues(val: map<nat, int>, from: nat, ids: seq<nat>) returns (val': map<nat, int>)
    requires (forall n :: n in val ==> n < from) && Known(val, ids)
    ensures Negates(val, val', from, ids)
    decreases |ids|
  {
    val' := val;
    if ids != [] {
      var first := val[from := Bit(val[ids[0]] == 0)];
      val' := NegationValues(first, from + 1, ids[1..]);
      forall i | 0 <= i < |ids|
        ensures ids[i] in val && from + i in val' && val'[from + i] == Bit(val[ids[i]] == 0)
      {
        if i > 0 {
          assert ids[i] == ids[1..][i - 1] && from + i == (from + 1) + (i - 1);
        }
      }
    }
  }

  ghost predicate BitValues(val: map<nat, int>, ids: seq<nat>) {
    forall i :: 0 <= i < |ids| ==> ids[i] in val && IsBit(val[ids[i]])
  }

  /** An operand of the new chain decides it exactly if a term does. */
  lemma NegatedHot(op: NAryOp, val: map<nat, int>, val': map<nat, int>, from: nat, ids: seq<nat>)
    requires Negates(val, val', from, ids) && BitValues(val, ids)
    ensures Known(val', Upto(from, |ids|))
    ensures AnyHot(op, val', Upto(from, |ids|)) <==> exists i :: 0 <= i < |ids| && !Hot(op, val, ids[i])
  {
    var new' := Upto(from, |ids|);
    forall i | 0 <= i < |ids| ensures new'[i] == from + i && new'[i] in val' {
      assert ids[i] in val && from + i in val';
    }
    if i :| 0 <= i < |ids| && !Hot(op, val, ids[i]) {
      assert Hot(op, val', new'[i]);
    }
    if i :| 0 <= i < |ids| && Hot(op, val', new'[i]) {
      assert !Hot(op, val, ids[i]);
    }
  }

  lemma AnyHotConcat(op: NAryOp, val: map<nat, int>, a: seq<nat>, b: seq<nat>)
    requires Known(val, a) && Known(val, b)
    ensures Known(val, a + b) && (AnyHot(op, val, a + b) <==> AnyHot(op, val, a) || AnyHot(op, val, b))
  {
    if i :| 0 <= i < |a| && Hot(op, val, a[i]) { assert (a + b)[i] == a[i]; }
    if i :| 0 <= i < |b| && Hot(op, val, b[i]) { assert (a + b)[|a| + i] == b[i]; }
  }

  lemma RebuiltHot(op: NAryOp, val: map<nat, int>, val': map<nat, int>, from: nat, t: Ids)
    requires Negates(val, val', from, t.negated) && BitValues(val, t.negated) && Known(val, t.plain) && Known(val, t.negated)
    ensures var args := Upto(from, |t.negated|) + t.plain;
      Known(val', args) && (AnyHot(op, val', args) <==> TermsHot(op, val, t))
  {
    NegatedHot(op, val, val', from, t.negated);
    AnyHotConcat(op, val', Upto(from, |t.negated|), t.plain);
    assert AnyHot(op, val', t.plain) <==> AnyHot(op, val, t.plain);
  }

  /** A chain has the value that its operands decide. */
  lemma ApplyHot(op: NAryOp, val: map<nat, int>, args: seq<nat>, v: Valuation, value: int)
    requires IsLogical(op) && Known(val, args) && IsBit(value)
    requires ((value != 0) == op.ShortCircuitOr?) <==> AnyHot(op, val, args)
    ensures value == Apply(op, Values(val, args), v)
  {
    var xs := Values(val, args);
    assert forall i :: 0 <= i < |args| ==> (Hot(op, val, args[i]) <==> (xs[i] != 0) == op.ShortCircuitOr?);
  }

  lemma TermsSmall(g: Graph, val: map<nat, int>, bound: nat, t: Ids)
    requires Valid(g) && TermsOk(g, val, bound, t)
    ensures Known(val, t.plain) && Known(val, t.negated) && BitValues(val, t.negated)
    ensures forall i :: 0 <= i < |t.negated| ==> t.negated[i] < g.next
    ensures forall i :: 0 <= i < |t.plain| ==> t.plain[i] < g.next
  {
    forall i | 0 <= i < |t.negated| ensures t.negated[i] < g.next {
      assert CellValid(g, t.negated[i]);
    }
    forall i | 0 <= i < |t.plain| ensures t.plain[i] < g.next {
      assert CellValid(g, t.plain[i]);
    }
  }

  /** The terms that are left of an undecided chain, and what they say. */
  lemma LeftHot(g: Graph, val: map<nat, int>, v: Valuation, p: nat)
    requires Valid(g) && Consistent(g, val, v) && IsChain(g, p) && !DecidedIds(g.cells[p].op, TermsOf(g, p))
    ensures TermsOk(g, val, g.rank[p], LeftTerms(g, p)) && p in val && IsBit(val[p])
    ensures TermsHot(g.cells[p].op, val, LeftTerms(g, p)) <==> Hot(g.cells[p].op, val, p)
  {
    TermsOfHot(g, val, v, p);
    OthersHot(g, val, v, g.cells[p].op, TermsOf(g, p), g.rank[p]);
  }

  lemma NewNegation(g: Graph, val: map<nat, int>, h: Graph, val': map<nat, int>, v: Valuation, n: nat, x: nat)
    requires Valid(g) && Extends(g, val, h, val') && NegationAt(g, h, n, x) && n < h.next
    requires x in g.cells && !g.cells[x].Holder? && Negatable(g, val, x) && n in val' && val'[n] == Bit(val[x] == 0)
    ensures NewCell(h, val', v, n)
  {
    assert CellValid(g, x) && SameCell(g, h, x);
    assert Args(h.cells[n]) == [x];
    assert Below(h, x, n);
  }

  lemma NewChain(h: Graph, val': map<nat, int>, v: Valuation, n: nat)
    requires n in h.cells && n < h.next && n in h.rank && h.cells[n].Chain? && AllBelow(h, h.cells[n].args, h.rank[n])
    requires forall i :: 0 <= i < |h.cells[n].args| ==> h.cells[n].args[i] in h.cells && !h.cells[h.cells[n].args[i]].Holder?
    requires n in val' && Known(val', h.cells[n].args) && val'[n] == Apply(h.cells[n].op, Values(val', h.cells[n].args), v)
    requires IsLogical(h.cells[n].op) ==> n in h.origin && h.origin[n] in val' && val'[h.origin[n]] == val'[n]
    ensures NewCell(h, val', v, n)
  {
    forall i | 0 <= i < |Args(h.cells[n])| ensures Below(h, Args(h.cells[n])[i], n) {
    }
  }

  lemma RebuiltArgs(g: Graph, val: map<nat, int>, h: Graph, val': map<nat, int>, t: Ids, rank: nat)
    requires Valid(g) && Extends(g, val, h, val') && TermsOk(g, val, rank, t)
    requires forall i :: 0 <= i < |t.negated| ==> NegationAt(g, h, g.next + i, t.negated[i])
    ensures var args := Upto(g.next, |t.negated|) + t.plain;
      AllBelow(h, args, rank) && forall i :: 0 <= i < |args| ==> args[i] in h.cells && !h.cells[args[i]].Holder?
  {
    var args, k := Upto(g.next, |t.negated|) + t.plain, |t.negated|;
    forall i | 0 <= i < |args|
      ensures args[i] in h.cells && args[i] in h.rank && h.rank[args[i]] < rank && !h.cells[args[i]].Holder?
    {
      if i < k {
        assert args[i] == g.next + i && NegationAt(g, h, g.next + i, t.negated[i]);
      } else {
        assert args[i] == t.plain[i - k] && SameCell(g, h, t.plain[i - k]);
      }
    }
  }

  ghost predicate NegationNew(g: Graph, val: map<nat, int>, h: Graph, val': map<nat, int>, n: nat, x: nat) {
    NegationAt(g, h, n, x) && n in val' && x in val && val'[n] == Bit(val[x] == 0)
  }

  /** `h` has the cells of `g`, new negations of the terms with their values, and after them a chain of the given value. */
  ghost predicate Grown(g: Graph, val: map<nat, int>, h: Graph, val': map<nat, int>, op: NAryOp, t: Ids, value: int) {
    var k, args := |t.negated|, Upto(g.next, |t.negated|) + t.plain;
    && Extends(g, val, h, val') && h.next == g.next + k + 1
    && (forall i :: 0 <= i < k ==> NegationNew(g, val, h, val', g.next + i, t.negated[i]))
    && Known(val, t.plain) && Known(val, t.negated)
    && Known(val', args) && (AnyHot(op, val', args) <==> TermsHot(op, val, t))
    && g.next + k in val' && val'[g.next + k] == value
    && g.next + k in h.cells && h.cells[g.next + k] == Chain(op, args)
  }

  lemma AddRebuiltGrows(g: Graph, val: map<nat, int>, op: NAryOp, t: Ids, rank: nat, origin: nat, value: int)
    returns (val': map<nat, int>)
    requires Valid(g) && (forall n :: n in val ==> n < g.next) && TermsOk(g, val, rank, t)
    ensures Grown(g, val, AddRebuilt(g, op, t, rank, origin), val', op, t, value)
  {
    var h := AddRebuilt(g, op, t, rank, origin);
    TermsSmall(g, val, rank, t);
    AddRebuiltAt(g, op, t, rank, origin);
    var mid := NegationValues(val, g.next, t.negated);
    RebuiltHot(op, val, mid, g.next, t);
    val' := mid[g.next + |t.negated| := value];
    HotKept(op, mid, val', Upto(g.next, |t.negated|) + t.plain);
    forall n | n in g.cells ensures SameCell(g, h, n) {
      assert CellValid(g, n);
    }
    forall i | 0 <= i < |t.negated| ensures NegationNew(g, val, h, val', g.next + i, t.negated[i]) {
      assert NegationAt(g, h, g.next + i, t.negated[i]);
    }
  }

  lemma HotKept(op: NAryOp, val: map<nat, int>, val': map<nat, int>, args: seq<nat>)
    requires Known(val, args) && forall i :: 0 <= i < |args| ==> args[i] in val' && val'[args[i]] == val[args[i]]
    ensures Known(val', args) && (AnyHot(op, val', args) <==> AnyHot(op, val, args))
  {
  }

  lemma GrownCells(g: Graph, val: map<nat, int>, h: Graph, val': map<nat, int>, v: Valuation, op: NAryOp, t: Ids, rank: nat, value: int)
    requires Valid(g) && Grown(g, val, h, val', op, t, value) && TermsOk(g, val, rank, t) && IsLogical(op)
    requires IsBit(value) && (((value != 0) == op.ShortCircuitOr?) <==> TermsHot(op, val, t))
    requires var m := g.next + |t.negated|;
      m in h.rank && h.rank[m] == rank && m in h.origin && h.origin[m] in val' && val'[h.origin[m]] == value
    ensures forall n :: n in h.cells && n !in g.cells ==> NewCell(h, val', v, n)
  {
    var k, args := |t.negated|, Upto(g.next, |t.negated|) + t.plain;
    forall i | 0 <= i < k ensures NegationAt(g, h, g.next + i, t.negated[i]) {
      assert NegationNew(g, val, h, val', g.next + i, t.negated[i]);
    }
    RebuiltArgs(g, val, h, val', t, rank);
    ApplyHot(op, val', args, v, value);
    NewChain(h, val', v, g.next + k);
    forall n | n in h.cells && n !in g.cells ensures NewCell(h, val', v, n) {
      if n != g.next + k {
        var i := n - g.next;
        assert NegationNew(g, val, h, val', g.next + i, t.negated[i]);
        NewNegation(g, val, h, val', v, n, t.negated[i]);
      }
    }
  }

  /** An expression and one of its value may be substituted. */
  lemma PairKeeps(s: State, val: map<nat, int>, v: Valuation, p: nat, r: nat)
    requires Inv(s, val, v) && Replaces(s.g, val, p, r)
    ensures Inv(WithPair(s, p, r), val, v)
  {
  }

  lemma RebuiltKeeps(s: State, val: map<nat, int>, v: Valuation, p: nat, val': map<nat, int>, h: Graph)
    requires Inv(s, val, v) && Enabled(s, Rebuild(p)) && p in s.g.rank && p in s.g.origin && p in val
    requires h == AddRebuilt(s.g, s.g.cells[p].op, LeftTerms(s.g, p), s.g.rank[p], s.g.origin[p])
    requires Grown(s.g, val, h, val', s.g.cells[p].op, LeftTerms(s.g, p), val[p])
    ensures Inv(s.(g := h), val', v)
  {
    var g, op, t := s.g, s.g.cells[p].op, LeftTerms(s.g, p);
    LeftHot(g, val, v, p);
    TermsSmall(g, val, g.rank[p], t);
    AddRebuiltAt(g, op, t, g.rank[p], g.origin[p]);
    assert g.origin[p] in val && val[g.origin[p]] == val[p];
    GrownCells(g, val, h, val', v, op, t, g.rank[p], val[p]);
    ExtendKeeps(s, val, h, val', v);
  }

  lemma RebuiltReplaces(g: Graph, val: map<nat, int>, p: nat, val': map<nat, int>, h: Graph, t: Ids)
    requires Valid(g) && IsChain(g, p) && p in g.rank && p in g.origin && p in val
    requires h == AddRebuilt(g, g.cells[p].op, t, g.rank[p], g.origin[p])
    requires Grown(g, val, h, val', g.cells[p].op, t, val[p])
    requires forall i :: 0 <= i < |t.negated| ==> t.negated[i] < g.next
    ensures Replaces(h, val', p, g.next + |t.negated|)
  {
    AddRebuiltAt(g, g.cells[p].op, t, g.rank[p], g.origin[p]);
    assert SameCell(g, h, p);
  }

  lemma RebuiltInv(s: State, val: map<nat, int>, v: Valuation, p: nat, val': map<nat, int>, h: Graph, t: Ids)
    requires Inv(s, val, v) && Enabled(s, Rebuild(p)) && p in s.g.rank && p in s.g.origin && p in val
    requires t == LeftTerms(s.g, p) && h == AddRebuilt(s.g, s.g.cells[p].op, t, s.g.rank[p], s.g.origin[p])
    requires forall i :: 0 <= i < |t.negated| ==> t.negated[i] < s.g.next
    requires Grown(s.g, val, h, val', s.g.cells[p].op, t, val[p])
    ensures Inv(WithPair(s.(g := h), p, s.g.next + |t.negated|), val', v)
  {
    RebuiltKeeps(s, val, v, p, val', h);
    RebuiltReplaces(s.g, val, p, val', h, t);
    PairKeeps(s.(g := h), val', v, p, s.g.next + |t.negated|);
  }

  /** Rebuilding adds cells with the right values, the last with that of the chain. */
  lemma RebuildKeeps(s: State, val: map<nat, int>, v: Valuation, p: nat) returns (val': map<nat, int>)
    requires Inv(s, val, v) && Enabled(s, Rebuild(p))
    ensures Inv(Do(s, Rebuild(p)), val', v)
    ensures forall n :: n in val ==> n in val' && val'[n] == val[n]
  {
    var g, op, t := s.g, s.g.cells[p].op, LeftTerms(s.g, p);
    assert CellValid(g, p);
    LeftHot(g, val, v, p);
    TermsSmall(g, val, g.rank[p], t);
    val' := AddRebuiltGrows(g, val, op, t, g.rank[p], g.origin[p], val[p]);
    RebuiltInv(s, val, v, p, val', AddRebuilt(g, op, t, g.rank[p], g.origin[p]), t);
  }

  // ----- The other steps -----

  lemma DecideKeeps(s: State, val: map<nat, int>, v: Valuation, p: nat)
    requires Inv(s, val, v) && Enabled(s, Decide(p))
    ensures Inv(Do(s, Decide(p)), val, v)
  {
    var g, op := s.g, s.g.cells[p].op;
    assert CellValid(g, p);
    TermsOfHot(g, val, v, p);
    DecidedHot(g, val, v, op, TermsOf(g, p), g.rank[p]);
    LiteralValues(g, val, v);
    PairKeeps(s, val, v, p, DecidingId(op));
  }

  lemma CancelKeeps(s: State, val: map<nat, int>, v: Valuation, n: nat)
    requires Inv(s, val, v) && Enabled(s, Cancel(n))
    ensures Inv(Do(s, Cancel(n)), val, v)
  {
    var g := s.g;
    var m := g.cells[n].x;
    assert CellValid(g, n) && CellValid(g, m) && CellHolds(g, val, v, n) && CellHolds(g, val, v, m);
    assert Below(g, Args(g.cells[n])[0], n) && Below(g, Args(g.cells[m])[0], m);
    PairKeeps(s, val, v, n, g.cells[m].x);
  }

  lemma SetUseKeeps(s: State, val: map<nat, int>, v: Valuation, user: nat, slot: nat, to: nat)
    requires Inv(s, val, v) && Enabled(s, SetUse(user, slot, to))
    ensures Inv(Do(s, SetUse(user, slot, to)), val, v)
  {
    var g, h := s.g, Do(s, SetUse(user, slot, to)).g;
    assert Replaces(g, val, Args(g.cells[user])[slot], to);
    assert forall n :: IsPair(h, n) <==> IsPair(g, n);
    assert CellValid(g, user) && CellHolds(g, val, v, user) && Below(g, Args(g.cells[user])[slot], user);
    forall n | n in h.cells ensures CellValid(h, n) && CellHolds(h, val, v, n) {
      assert CellValid(g, n) && CellHolds(g, val, v, n);
      forall i | 0 <= i < |Args(h.cells[n])| ensures Below(h, Args(h.cells[n])[i], n) {
        assert Below(g, Args(g.cells[n])[i], n);
      }
      if n == user && g.cells[n].Chain? {
        assert Values(val, h.cells[n].args) == Values(val, g.cells[n].args);
      }
    }
    forall pair | pair in s.subst ensures Replaces(h, val, pair.from, pair.to) {
      assert Replaces(g, val, pair.from, pair.to);
    }
  }

  lemma DropKeeps(s: State, val: map<nat, int>, v: Valuation, d: nat)
    requires Inv(s, val, v) && Enabled(s, Drop(d))
    ensures Inv(Do(s, Drop(d)), val, v)
  {
    var g, h := s.g, Do(s, Drop(d)).g;
    forall n | n in h.cells ensures CellValid(h, n) && CellHolds(h, val, v, n) {
      assert CellValid(g, n) && CellHolds(g, val, v, n);
      forall i | 0 <= i < |Args(h.cells[n])| ensures Below(h, Args(h.cells[n])[i], n) {
        assert Below(g, Args(g.cells[n])[i], n);
      }
    }
    forall pair | pair in Do(s, Drop(d)).subst ensures Replaces(h, val, pair.from, pair.to) {
      assert Replaces(g, val, pair.from, pair.to);
    }
  }

  lemma FlippedValue(op: NAryOp, xs: seq<int>, v: Valuation)
    requires IsComparison(op) && |xs| == 2
    ensures Apply(Flipped(op), xs, v) == Bit(Apply(op, xs, v) == 0)
  {
  }

  lemma FlipKeeps(s: State, val: map<nat, int>, v: Valuation, n: nat) returns (val': map<nat, int>)
    requires Inv(s, val, v) && Enabled(s, Flip(n))
    ensures Inv(Do(s, Flip(n)), val', v)
    ensures forall n :: n in val ==> n in val' && val'[n] == val[n]
  {
    var g, x := s.g, s.g.cells[n].x;
    var c, h := g.cells[x], Add(g, Chain(Flipped(g.cells[x].op), g.cells[x].args), RankOf(g, x), 0);
    assert CellValid(g, n) && CellValid(g, x) && CellHolds(g, val, v, n) && CellHolds(g, val, v, x);
    assert Below(g, Args(g.cells[n])[0], n);
    val' := val[g.next := val[n]];
    forall m | m in g.cells ensures SameCell(g, h, m) {
      assert CellValid(g, m);
    }
    ChainOk(g, val, v, x);
    FlippedValue(c.op, Values(val, c.args), v);
    assert Values(val, c.args) == Values(val', c.args);
    forall i | 0 <= i < |c.args| ensures c.args[i] in h.cells && SameCell(g, h, c.args[i]) && !h.cells[c.args[i]].Holder? {
      assert Below(g, Args(c)[i], x);
    }
    NewChain(h, val', v, g.next);
    ExtendKeeps(s, val, h, val', v);
    assert SameCell(g, h, n);
    PairKeeps(s.(g := h), val', v, n, g.next);
  }

  /** Every step keeps the values, whichever it is. */
  lemma StepKeeps(s: State, val: map<nat, int>, v: Valuation, a: Action) returns (val': map<nat, int>)
    requires Inv(s, val, v) && Enabled(s, a)
    ensures Inv(Do(s, a), val', v)
    ensures forall n :: n in val ==> n in val' && val'[n] == val[n]
  {
    val' := val;
    match a {
      case Decide(p) => DecideKeeps(s, val, v, p);
      case Rebuild(p) => val' := RebuildKeeps(s, val, v, p);
      case Cancel(n) => CancelKeeps(s, val, v, n);
      case Flip(n) => val' := FlipKeeps(s, val, v, n);
      case SetUse(user, slot, to) => SetUseKeeps(s, val, v, user, slot, to);
      case Drop(n) => DropKeeps(s, val, v, n);
    }
  }

  // ----- Runs -----

  ghost predicate CanRun(s: State, run: seq<Action>)
    decreases |run|
  {
    Valid(s.g) && (run != [] ==> Enabled(s, run[0]) && CanRun(Do(s, run[0]), run[1..]))
  }

  ghost function After(s: State, run: seq<Action>): (r: State)
    requires CanRun(s, run)
    ensures Valid(r.g)
    decreases |run|
  {
    if run == [] then s else After(Do(s, run[0]), run[1..])
  }

  lemma {:induction false} RunInv(s: State, val: map<nat, int>, v: Valuation, run: seq<Action>) returns (val': map<nat, int>)
    requires Inv(s, val, v) && CanRun(s, run)
    ensures Inv(After(s, run), val', v)
    ensures forall n :: n in val ==> n in val' && val'[n] == val[n]
    decreases |run|
  {
    if run == [] {
      val' := val;
    } else {
      var first := StepKeeps(s, val, v, run[0]);
      val' := RunInv(Do(s, run[0]), first, v, run[1..]);
    }
  }

  /** Before the visitor starts: every chain is its own origin, and only what may be negated is. */
  ghost predicate Start(s: State) {
    && Valid(s.g) && s.subst == {}
    && (forall n :: IsChain(s.g, n) ==> n in s.g.origin && s.g.origin[n] == n)
    && forall n :: n in s.g.cells ==> Regular(TreeOf(s.g, n))
  }

  ghost function StartValues(g: Graph, v: Valuation): map<nat, int>
    requires Valid(g)
  {
    map n | n in g.cells :: Eval(TreeOf(g, n), v)
  }

  lemma EvalApply(op: NAryOp, es: seq<Expr>, v: Valuation)
    ensures Eval(NAry(op, es), v) == Apply(op, seq(|es|, i requires 0 <= i < |es| => Eval(es[i], v)), v)
  {
    var xs := seq(|es|, i requires 0 <= i < |es| => Eval(es[i], v));
    assert forall i :: 0 <= i < |es| ==> xs[i] == Eval(es[i], v);
  }

  lemma ChainTree(g: Graph, n: nat) returns (es: seq<Expr>)
    requires Valid(g) && n in g.cells && g.cells[n].Chain?
    ensures TreeOf(g, n) == NAry(g.cells[n].op, es) && |es| == |g.cells[n].args|
    ensures forall i :: 0 <= i < |es| ==> Below(g, g.cells[n].args[i], n) && es[i] == TreeOf(g, g.cells[n].args[i])
  {
    assert CellValid(g, n);
    forall i | 0 <= i < |g.cells[n].args| ensures Below(g, g.cells[n].args[i], n) {
      assert Below(g, Args(g.cells[n])[i], n);
    }
    es := TreeOf(g, n).es;
  }

  lemma StartHolds(g: Graph, v: Valuation, n: nat)
    requires Valid(g) && n in g.cells && Bitwise(v) && Regular(TreeOf(g, n))
    ensures CellHolds(g, StartValues(g, v), v, n)
  {
    var val := StartValues(g, v);
    assert CellValid(g, n);
    match g.cells[n] {
      case Negation(x) =>
        assert Below(g, Args(g.cells[n])[0], n);
        BooleanBit(TreeOf(g, x), v);
        if IsPair(g, x) {
          var es := ChainTree(g, x);
        }
      case Chain(op, args) =>
        var es := ChainTree(g, n);
        EvalApply(op, es, v);
        assert Values(val, args) == seq(|es|, i requires 0 <= i < |es| => Eval(es[i], v));
      case _ =>
    }
  }

  lemma StartInv(s: State, v: Valuation)
    requires Start(s) && Bitwise(v)
    ensures Inv(s, StartValues(s.g, v), v)
  {
    forall n | n in s.g.cells ensures CellHolds(s.g, StartValues(s.g, v), v, n) && n < s.g.next {
      StartHolds(s.g, v, n);
      assert CellValid(s.g, n);
    }
  }

  lemma {:induction false} TreeValue(g: Graph, val: map<nat, int>, v: Valuation, n: nat)
    requires Valid(g) && Consistent(g, val, v) && n in g.cells && !g.cells[n].Holder?
    ensures n in val && Eval(TreeOf(g, n), v) == val[n]
    decreases g.rank[n]
  {
    assert CellValid(g, n) && CellHolds(g, val, v, n);
    match g.cells[n] {
      case Negation(x) =>
        assert Below(g, Args(g.cells[n])[0], n);
        TreeValue(g, val, v, x);
      case Chain(op, args) =>
        var es := ChainTree(g, n);
        forall i | 0 <= i < |args| ensures Eval(es[i], v) == val[args[i]] {
          assert Below(g, args[i], n);
          TreeValue(g, val, v, args[i]);
        }
        EvalApply(op, es, v);
        assert Values(val, args) == seq(|es|, i requires 0 <= i < |es| => Eval(es[i], v));
      case _ =>
    }
  }

  // ----- What statements refer to -----

  ghost predicate HolderKept(g: Graph, val: map<nat, int>, h: Graph, u: nat) {
    && u in g.cells && g.cells[u].Holder? && u in h.cells && h.cells[u].Holder? && |h.cells[u].args| == |g.cells[u].args|
    && forall i :: 0 <= i < |g.cells[u].args| ==>
         g.cells[u].args[i] in val && h.cells[u].args[i] in val && val[h.cells[u].args[i]] == val[g.cells[u].args[i]]
  }

  lemma HolderKnown(g: Graph, val: map<nat, int>, v: Valuation, u: nat, i: nat)
    requires Valid(g) && Consistent(g, val, v) && u in g.cells && g.cells[u].Holder? && i < |g.cells[u].args|
    ensures var a := g.cells[u].args[i]; a in g.cells && !g.cells[a].Holder? && a in val
  {
    assert CellValid(g, u) && Below(g, Args(g.cells[u])[i], u);
    assert CellHolds(g, val, v, g.cells[u].args[i]);
  }

  lemma SameHolder(g: Graph, val: map<nat, int>, v: Valuation, h: Graph, u: nat)
    requires Valid(g) && Consistent(g, val, v) && u in g.cells && g.cells[u].Holder? && u in h.cells && h.cells[u] == g.cells[u]
    ensures HolderKept(g, val, h, u)
  {
    forall i | 0 <= i < |g.cells[u].args| ensures g.cells[u].args[i] in val {
      HolderKnown(g, val, v, u, i);
    }
  }

  /** A step changes what a statement refers to only for something of the same value. */
  lemma StepHolder(s: State, val: map<nat, int>, v: Valuation, a: Action, u: nat)
    requires Inv(s, val, v) && Enabled(s, a) && u in s.g.cells && s.g.cells[u].Holder?
    ensures HolderKept(s.g, val, Do(s, a).g, u)
  {
    var g, h := s.g, Do(s, a).g;
    assert CellValid(g, u);
    if a.SetUse? && a.user == u {
      assert Replaces(g, val, Args(g.cells[u])[a.slot], a.to);
      forall i | 0 <= i < |g.cells[u].args| ensures g.cells[u].args[i] in val {
        HolderKnown(g, val, v, u, i);
      }
    } else {
      if a.Rebuild? {
        assert CellValid(g, a.p);
        LeftHot(g, val, v, a.p);
        TermsSmall(g, val, g.rank[a.p], LeftTerms(g, a.p));
        AddRebuiltAt(g, g.cells[a.p].op, LeftTerms(g, a.p), g.rank[a.p], g.origin[a.p]);
        assert SameCell(g, h, u);
      }
      SameHolder(g, val, v, h, u);
    }
  }

  lemma {:induction false} RunHolder(s: State, val: map<nat, int>, v: Valuation, run: seq<Action>, u: nat)
    returns (val': map<nat, int>)
    requires Inv(s, val, v) && CanRun(s, run) && u in s.g.cells && s.g.cells[u].Holder?
    ensures Inv(After(s, run), val', v) && HolderKept(s.g, val', After(s, run).g, u)
    ensures forall n :: n in val ==> n in val' && val'[n] == val[n]
    decreases |run|
  {
    if run == [] {
      val' := val;
      SameHolder(s.g, val, v, s.g, u);
    } else {
      var next := Do(s, run[0]);
      var first := StepKeeps(s, val, v, run[0]);
      StepHolder(s, val, v, run[0], u);
      val' := RunHolder(next, first, v, run[1..], u);
      HolderSteps(s.g, val, next.g, first, After(s, run).g, val', u);
    }
  }

  lemma HolderSteps(
      g: Graph, val: map<nat, int>, mid: Graph, first: map<nat, int>, h: Graph, val': map<nat, int>, u: nat)
    requires HolderKept(g, val, mid, u) && HolderKept(mid, val', h, u)
    requires forall n :: n in val ==> n in first && first[n] == val[n]
    requires forall n :: n in first ==> n in val' && val'[n] == first[n]
    ensures HolderKept(g, val', h, u)
  {
  }

  /**
   After any sequence of steps, in any order and with any sharing, whatever a statement referred to before has been replaced
   by something of the same value in every state.
   */
  lemma RunKeeps(s: State, run: seq<Action>, u: nat, i: nat, v: Valuation)
    requires Start(s) && CanRun(s, run) && Bitwise(v)
    requires u in s.g.cells && s.g.cells[u].Holder? && i < |s.g.cells[u].args|
    ensures var h := After(s, run).g;
      && Valid(h) && u in h.cells && h.cells[u].Holder? && |h.cells[u].args| == |s.g.cells[u].args|
      && s.g.cells[u].args[i] in s.g.cells && h.cells[u].args[i] in h.cells
      && Eval(TreeOf(h, h.cells[u].args[i]), v) == Eval(TreeOf(s.g, s.g.cells[u].args[i]), v)
  {
    StartInv(s, v);
    var val := StartValues(s.g, v);
    var val' := RunHolder(s, val, v, run, u);
    var h := After(s, run).g;
    HolderKnown(s.g, val, v, u, i);
    HolderKnown(h, val', v, u, i);
    TreeValue(h, val', v, h.cells[u].args[i]);
  }

  lemma {:induction false} RunStep(s: State, val: map<nat, int>, v: Valuation, run: seq<Action>, a: Action)
    requires Inv(s, val, v) && CanRun(s, run) && Enabled(After(s, run), a)
    ensures CanRun(s, run + [a])
    decreases |run|
  {
    var first := StepKeeps(s, val, v, (run + [a])[0]);
    if run == [] {
      assert (run + [a])[1..] == [];
    } else {
      assert (run + [a])[1..] == run[1..] + [a];
      RunStep(Do(s, run[0]), first, v, run[1..], a);
    }
  }

  /** What the visitor does next leads to a valid state again, so that runs leave nothing out. */
  lemma RunsGoOn(s: State, run: seq<Action>, a: Action)
    requires Start(s) && CanRun(s, run) && Enabled(After(s, run), a)
    ensures CanRun(s, run + [a])
  {
    BitStateBitwise();
    StartInv(s, BitState());
    RunStep(s, StartValues(s.g, BitState()), BitState(), run, a);
  }

  // ----- The assertion -----

  /** Chains come from chains of the same operator. */
  ghost predicate Derived(g0: Graph, g: Graph) {
    forall n :: IsChain(g, n) && n in g.origin ==> IsChain(g0, g.origin[n]) && g0.cells[g.origin[n]].op == g.cells[n].op
  }

  lemma RebuiltDerived(g0: Graph, g: Graph, t: Ids, p: nat)
    requires Valid(g) && IsChain(g, p) && p in g.origin && p in g.rank && Derived(g0, g)
    requires forall i :: 0 <= i < |t.negated| ==> t.negated[i] < g.next
    ensures Derived(g0, AddRebuilt(g, g.cells[p].op, t, g.rank[p], g.origin[p]))
  {
    var h := AddRebuilt(g, g.cells[p].op, t, g.rank[p], g.origin[p]);
    AddRebuiltAt(g, g.cells[p].op, t, g.rank[p], g.origin[p]);
    forall n: nat | g.next <= n < g.next + |t.negated| ensures !IsChain(h, n) {
      var k := n - g.next;
      assert NegationAt(g, h, g.next + k, t.negated[k]);
    }
    forall n: nat | IsChain(h, n) && n in h.origin
      ensures IsChain(g0, h.origin[n]) && g0.cells[h.origin[n]].op == h.cells[n].op
    {
      if n in g.cells {
        assert CellValid(g, n) && SameCell(g, h, n);
      }
    }
  }

  lemma StepDerived(g0: Graph, s: State, val: map<nat, int>, v: Valuation, a: Action)
    requires Inv(s, val, v) && Enabled(s, a) && Derived(g0, s.g)
    ensures Derived(g0, Do(s, a).g)
  {
    if a.Rebuild? {
      assert CellValid(s.g, a.p);
      LeftHot(s.g, val, v, a.p);
      TermsSmall(s.g, val, s.g.rank[a.p], LeftTerms(s.g, a.p));
      RebuiltDerived(g0, s.g, LeftTerms(s.g, a.p), a.p);
    }
  }

  lemma {:induction false} RunDerived(g0: Graph, s: State, val: map<nat, int>, v: Valuation, run: seq<Action>)
    requires Inv(s, val, v) && CanRun(s, run) && Derived(g0, s.g)
    ensures Derived(g0, After(s, run).g)
    decreases |run|
  {
    if run != [] {
      var first := StepKeeps(s, val, v, run[0]);
      StepDerived(g0, s, val, v, run[0]);
      RunDerived(g0, Do(s, run[0]), first, v, run[1..]);
    }
  }

  /** The chain has the same value as its neutral literal in every state. */
  ghost predicate AlwaysNeutral(g: Graph, q: nat)
    requires Valid(g) && IsChain(g, q)
  {
    forall v :: Bitwise(v) ==> Eval(TreeOf(g, q), v) == Bit(g.cells[q].op.ShortCircuitAnd?)
  }

  /**
   Whenever the assertion fails, on an expression of the start or one that was built since, some chain was there at the start
   that is a conjunction that always holds or a disjunction that never does.
   */
  lemma FailsOnlyOnNeutral(s: State, run: seq<Action>, p: nat) returns (q: nat)
    requires Start(s) && CanRun(s, run) && Fails(After(s, run).g, p)
    ensures IsChain(s.g, q) && AlwaysNeutral(s.g, q)
  {
    var h := After(s, run).g;
    assert CellValid(h, p);
    q := h.origin[p];
    BitStateBitwise();
    StartInv(s, BitState());
    RunDerived(s.g, s, StartValues(s.g, BitState()), BitState(), run);
    forall v | Bitwise(v) ensures Eval(TreeOf(s.g, q), v) == Bit(s.g.cells[q].op.ShortCircuitAnd?) {
      StartInv(s, v);
      var val' := RunInv(s, StartValues(s.g, v), v, run);
      FailsNeutral(h, val', v, p);
    }
  }

  /** So it never fails if every conjunction can fail and every disjunction can hold. */
  lemma NothingFails(s: State, run: seq<Action>, p: nat)
    requires Start(s) && CanRun(s, run)
    requires forall q :: IsChain(s.g, q) ==> !AlwaysNeutral(s.g, q)
    ensures !Fails(After(s, run).g, p)
  {
    if Fails(After(s, run).g, p) {
      var q := FailsOnlyOnNeutral(s, run, p);
    }
  }

  // ----- Example -----

  /** A statement on `true && (a || !a)`. */
  function Sample(): Graph {
    Graph(map[0 := Token(True), 1 := Token(False), 2 := Token(Leaf(0, true, false)), 3 := Negation(2),
              4 := Chain(ShortCircuitOr, [2, 3]), 5 := Chain(ShortCircuitAnd, [0, 4]), 6 := Holder([5])],
          map[0 := 0, 1 := 0, 2 := 0, 3 := 1, 4 := 2, 5 := 3, 6 := 4], map[4 := 4, 5 := 5], 7)
  }

  lemma SampleValid()
    ensures Valid(Sample())
  {
    var g := Sample();
    forall n | n in g.cells ensures CellValid(g, n) {
      assert n in {0, 1, 2, 3, 4, 5, 6};
    }
  }

  lemma PairTree(g: Graph, n: nat, a: nat, b: nat)
    requires Valid(g) && n in g.cells && g.cells[n].Chain? && g.cells[n].args == [a, b] && a in g.cells && b in g.cells
    ensures TreeOf(g, n) == NAry(g.cells[n].op, [TreeOf(g, a), TreeOf(g, b)])
  {
    var es := ChainTree(g, n);
    assert es == [TreeOf(g, a), TreeOf(g, b)];
  }

  lemma PairRegular(op: NAryOp, x: Expr, y: Expr)
    requires Regular(x) && Regular(y)
    ensures Regular(NAry(op, [x, y]))
  {
    assert forall e :: e in [x, y] ==> Regular(e);
  }

  lemma SampleStarts()
    ensures Start(State(Sample(), {}))
  {
    var g := Sample();
    SampleValid();
    var a := Leaf(0, true, false);
    assert TreeOf(g, 2) == a && TreeOf(g, 3) == Not(TreeOf(g, 2)) && TreeOf(g, 0) == True;
    PairTree(g, 4, 2, 3);
    PairTree(g, 5, 0, 4);
    PairRegular(ShortCircuitOr, a, Not(a));
    PairRegular(ShortCircuitAnd, True, Or([a, Not(a)]));
    forall n | n in g.cells ensures Regular(TreeOf(g, n)) {
      assert n in {0, 1, 2, 3, 4, 5, 6};
    }
  }

  lemma PairTerms(g: Graph, p: nat, a: nat, b: nat)
    requires Valid(g) && IsChain(g, p) && g.cells[p].args == [a, b] && a in g.cells && b in g.cells
    requires !(g.cells[a].Chain? && g.cells[a].op == g.cells[p].op) && !(g.cells[b].Chain? && g.cells[b].op == g.cells[p].op)
    ensures TermsOf(g, p) == AddId(g, AddId(g, Ids([], []), a), b)
  {
    ArgsBelow(g, p);
    assert [a, b][1..] == [b] && [b][1..] == [];
    var first := AddId(g, Ids([], []), a);
    assert CollectIds(g, g.cells[p].op, [b], g.rank[p], first) == AddId(g, first, b);
  }

  lemma TwoSteps(s: State, a: Action, b: Action)
    requires Start(s) && Enabled(s, a) && Valid(Do(s, a).g) && Enabled(Do(s, a), b)
    ensures CanRun(s, [a, b]) && After(s, [a, b]) == Do(Do(s, a), b)
  {
    assert CanRun(s, []) && After(s, []) == s;
    assert [] + [a] == [a] && [a][1..] == [] && [a] + [b] == [a, b] && [a, b][1..] == [b] && [b][1..] == [];
    RunsGoOn(s, [], a);
    assert After(s, [a]) == Do(s, a);
    RunsGoOn(s, [a], b);
    assert After(Do(s, a), [b]) == Do(Do(s, a), b);
  }

  lemma TruePairFails(g: Graph, p: nat)
    requires Valid(g) && p in g.cells && g.cells[p] == Chain(ShortCircuitAnd, [TRUE_ID, TRUE_ID])
    ensures Fails(g, p)
  {
    PairTerms(g, p, TRUE_ID, TRUE_ID);
    assert TermsOf(g, p) == Ids([TRUE_ID], []);
    assert [TRUE_ID][1..] == [] && Others([TRUE_ID]) == [];
  }

  /** Once a disjunction has become `true` in a conjunction with `true`, visiting the conjunction again fails. */
  lemma DecidedOperandFails(s: State, p: nat, c: nat)
    requires Start(s) && p in s.g.cells && s.g.cells[p] == Chain(ShortCircuitAnd, [TRUE_ID, c])
    requires c in s.g.cells && s.g.cells[c].Chain? && s.g.cells[c].op.ShortCircuitOr? && Enabled(s, Decide(c))
    ensures var run := [Decide(c), SetUse(p, 1, TRUE_ID)]; CanRun(s, run) && Fails(After(s, run).g, p)
  {
    var first := Do(s, Decide(c));
    assert Substitution(c, TRUE_ID) in first.subst && Args(s.g.cells[p])[1] == c;
    TwoSteps(s, Decide(c), SetUse(p, 1, TRUE_ID));
    var last := Do(first, SetUse(p, 1, TRUE_ID)).g;
    assert last.cells[p].args == [TRUE_ID, TRUE_ID];
    TruePairFails(last, p);
  }

  /** So `true && (a || !a)` fails. */
  lemma SampleFails()
    ensures var s, run := State(Sample(), {}), [Decide(4), SetUse(5, 1, TRUE_ID)];
      Start(s) && CanRun(s, run) && Fails(After(s, run).g, 5)
  {
    SampleStarts();
    SampleDecides();
    DecidedOperandFails(State(Sample(), {}), 5, 4);
  }

  lemma SampleDecides()
    ensures Valid(Sample()) && Enabled(State(Sample(), {}), Decide(4))
  {
    var g := Sample();
    SampleValid();
    PairTerms(g, 4, 2, 3);
    assert Strip(g, 2) == (2, false) && Strip(g, 3) == (2, true);
    assert 2 in TermsOf(g, 4).negated && 2 in TermsOf(g, 4).plain;
  }
}
