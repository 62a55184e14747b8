/**
 SimplifyExact: when simplifying a condition gives an expression at all. A chain of which no term is left trips an
 assertion, be it the first time it is visited or again, after operands of it became literals.
 */
module SimplifyExact {
  import opened Expressions
  import opened ConsecutiveCombiner
  import opened SimplifyExpressions
  import D = Disjunction

  // ----- Chains -----

  /** The operands of a chain, with operands of the same operator flattened. */
  function Operands(op: NAryOp, es: seq<Expr>): seq<Expr>
    decreases es
  {
    if es == [] then []
    else (if es[0].NAry? && es[0].op == op then Operands(op, es[0].es) else [es[0]]) + Operands(op, es[1..])
  }

  /** An operand that is `e` under negations, an odd number of them or an even one. */
  predicate Occurs(operands: seq<Expr>, e: Expr, negated: bool) {
    exists i :: 0 <= i < |operands| && CountNegationDepth(operands[i]) == (e, negated)
  }

  /** The operand is a literal that does not matter in the chain. */
  predicate Neutralized(op: NAryOp, e: Expr) {
    var c := CountNegationDepth(e);
    c.0 == if c.1 then Deciding(op) else Neutral(op)
  }

  /** A literal decides the chain, or a term and its negation do. */
  predicate DecidedBy(same: Equality, op: NAryOp, operands: seq<Expr>) {
    || Occurs(operands, Deciding(op), false) || Occurs(operands, Neutral(op), true)
    || exists i, j :: 0 <= i < |operands| && 0 <= j < |operands| &&
         Opposed(same, CountNegationDepth(operands[i]), CountNegationDepth(operands[j]))
  }

  predicate Opposed(same: Equality, plain: (Expr, bool), negated: (Expr, bool)) {
    !plain.1 && negated.1 && same(plain.0, negated.0)
  }

  /** Some operand matters, be it the literal that decides the chain. */
  predicate Matters(op: NAryOp, operands: seq<Expr>) {
    exists i :: 0 <= i < |operands| && !Neutralized(op, operands[i])
  }

  lemma OccursConcat(a: seq<Expr>, b: seq<Expr>, e: Expr, negated: bool)
    ensures Occurs(a + b, e, negated) <==> Occurs(a, e, negated) || Occurs(b, e, negated)
  {
    if i :| 0 <= i < |a| && CountNegationDepth(a[i]) == (e, negated) { assert (a + b)[i] == a[i]; }
    if i :| 0 <= i < |b| && CountNegationDepth(b[i]) == (e, negated) { assert (a + b)[|a| + i] == b[i]; }
  }

  /** The collected terms are those that occur. */
  lemma {:induction false} CollectAt(same: Equality, op: NAryOp, es: seq<Expr>, terms: Terms, e: Expr)
    requires ByAddress(same)
    ensures e in Collect(same, op, es, terms).plain <==> e in terms.plain || Occurs(Operands(op, es), e, false)
    ensures e in Collect(same, op, es, terms).negated <==> e in terms.negated || Occurs(Operands(op, es), e, true)
    decreases es
  {
    if es != [] {
      var first, rest := es[0], Operands(op, es[1..]);
      if first.NAry? && first.op == op {
        CollectAt(same, op, first.es, terms, e);
        CollectAt(same, op, es[1..], Collect(same, op, first.es, terms), e);
        OccursConcat(Operands(op, first.es), rest, e, false);
        OccursConcat(Operands(op, first.es), rest, e, true);
      } else {
        AddTermAt(same, terms, first, e);
        CollectAt(same, op, es[1..], AddTerm(same, terms, first), e);
        OccursConcat([first], rest, e, false);
        OccursConcat([first], rest, e, true);
      }
    }
  }

  lemma AddTermAt(same: Equality, terms: Terms, t: Expr, e: Expr)
    requires ByAddress(same)
    ensures e in AddTerm(same, terms, t).plain <==> e in terms.plain || Occurs([t], e, false)
    ensures e in AddTerm(same, terms, t).negated <==> e in terms.negated || Occurs([t], e, true)
  {
    assert [t][0] == t;
  }

  lemma DecidedExact(same: Equality, op: NAryOp, es: seq<Expr>)
    requires ByAddress(same)
    ensures Decided(same, op, Collect(same, op, es, Terms([], []))) <==> DecidedBy(same, op, Operands(op, es))
  {
    var terms, operands := Collect(same, op, es, Terms([], [])), Operands(op, es);
    forall e
      ensures e in terms.plain <==> Occurs(operands, e, false)
      ensures e in terms.negated <==> Occurs(operands, e, true)
    {
      CollectAt(same, op, es, Terms([], []), e);
    }
    if i :| 0 <= i < |terms.negated| && Contains(same, terms.plain, terms.negated[i]) {
      var j :| 0 <= j < |terms.plain| && same(terms.plain[j], terms.negated[i]);
      assert terms.plain[j] in terms.plain && terms.negated[i] in terms.negated;
      var k :| 0 <= k < |operands| && CountNegationDepth(operands[k]) == (terms.plain[j], false);
      var l :| 0 <= l < |operands| && CountNegationDepth(operands[l]) == (terms.negated[i], true);
      assert Opposed(same, CountNegationDepth(operands[k]), CountNegationDepth(operands[l]));
    }
    if k, l :| 0 <= k < |operands| && 0 <= l < |operands| && Opposed(same, CountNegationDepth(operands[k]), CountNegationDepth(operands[l])) {
      OpposedTerms(same, terms, CountNegationDepth(operands[k]).0, CountNegationDepth(operands[l]).0);
    }
  }

  lemma OpposedTerms(same: Equality, terms: Terms, x: Expr, y: Expr)
    requires x in terms.plain && y in terms.negated && same(x, y)
    ensures exists i :: 0 <= i < |terms.negated| && Contains(same, terms.plain, terms.negated[i])
  {
    var i :| 0 <= i < |terms.negated| && terms.negated[i] == y;
    var j :| 0 <= j < |terms.plain| && terms.plain[j] == x;
    assert Contains(same, terms.plain, terms.negated[i]);
  }

  lemma {:induction false} KeptAt(es: seq<Expr>, e: Expr)
    ensures e in Kept(es) <==> e in es && !IsLiteral(e)
    decreases es
  {
    if es != [] {
      KeptAt(es[1..], e);
    }
  }

  lemma {:induction false} NegatedAt(es: seq<Expr>)
    ensures |Negated(es)| == |es| && forall i :: 0 <= i < |es| ==> Negated(es)[i] == Negate(es[i])
    decreases es
  {
    if es != [] {
      NegatedAt(es[1..]);
    }
  }

  lemma KeptEmpty(es: seq<Expr>)
    ensures Kept(es) == [] <==> forall e :: e in es ==> IsLiteral(e)
  {
    forall e ensures e in Kept(es) <==> e in es && !IsLiteral(e) {
      KeptAt(es, e);
    }
    if Kept(es) != [] {
      assert Kept(es)[0] in Kept(es);
    }
  }

  /** A term of every chain is left exactly if some operand matters. */
  lemma RemoveIdenticalExact(same: Equality, op: NAryOp, es: seq<Expr>)
    requires ByAddress(same)
    ensures RemoveIdentical(same, op, es).Some? <==> !IsLogical(op) || Matters(op, Operands(op, es))
  {
    if IsLogical(op) {
      var terms, operands := Collect(same, op, es, Terms([], [])), Operands(op, es);
      DecidedExact(same, op, es);
      KeptEmpty(terms.plain);
      KeptEmpty(terms.negated);
      NegatedAt(Kept(terms.negated));
      forall e
        ensures e in terms.plain <==> Occurs(operands, e, false)
        ensures e in terms.negated <==> Occurs(operands, e, true)
      {
        CollectAt(same, op, es, Terms([], []), e);
      }
      if Matters(op, operands) {
        var i :| 0 <= i < |operands| && !Neutralized(op, operands[i]);
        var c := CountNegationDepth(operands[i]);
        assert Occurs(operands, c.0, c.1);
      } else {
        NeutralUndecided(same, op, operands);
        forall e, negated | Occurs(operands, e, negated) ensures IsLiteral(e) {
          var i :| 0 <= i < |operands| && CountNegationDepth(operands[i]) == (e, negated);
          assert Neutralized(op, operands[i]);
        }
      }
    }
  }

  lemma NeutralUndecided(same: Equality, op: NAryOp, operands: seq<Expr>)
    requires ByAddress(same) && IsLogical(op) && !Matters(op, operands)
    ensures !DecidedBy(same, op, operands)
  {
    assert forall i :: 0 <= i < |operands| ==> Neutralized(op, operands[i]);
  }

  // ----- Whole expressions -----

  lemma {:induction false} OperandSize(op: NAryOp, es: seq<Expr>, i: nat)
    requires i < |Operands(op, es)|
    ensures D.ExprSize(Operands(op, es)[i]) <= D.SumSizes(es)
    decreases es
  {
    var first := es[0];
    var front := if first.NAry? && first.op == op then Operands(op, first.es) else [first];
    if i >= |front| {
      OperandSize(op, es[1..], i - |front|);
    } else if first.NAry? && first.op == op {
      OperandSize(op, first.es, i);
    }
  }

  /** A chain that is decided at once: it becomes a literal. */
  predicate Folds(same: Equality, e: Expr) {
    e.NAry? && IsLogical(e.op) && DecidedBy(same, e.op, Operands(e.op, e.es))
  }

  /** An operand becomes a literal, so that the chain is visited again. */
  predicate SomeFolds(same: Equality, es: seq<Expr>) {
    exists i :: 0 <= i < |es| && Folds(same, es[i])
  }

  /** Some operand is neither a neutral literal nor becomes one. */
  predicate Lasts(same: Equality, op: NAryOp, operands: seq<Expr>) {
    exists i :: 0 <= i < |operands| && !Neutralized(op, operands[i]) && !Folds(same, operands[i])
  }

  /**
   A term is left of every chain that is looked at, the second time too; below a chain that is decided at once
   nothing is looked at.
   */
  ghost predicate Simplifiable(same: Equality, e: Expr)
    decreases D.ExprSize(e)
  {
    match e
    case Not(x) => Simplifiable(same, x)
    case NAry(op, es) =>
      if !IsLogical(op) then forall i :: 0 <= i < |es| ==> (SumSizesDrop(es, i); Simplifiable(same, es[i]))
      else
        var operands := Operands(op, es);
        || DecidedBy(same, op, operands)
        || (&& Matters(op, operands)
            && (SomeFolds(same, es) ==> Lasts(same, op, operands))
            && forall i :: 0 <= i < |operands| ==> (OperandSize(op, es, i); Simplifiable(same, operands[i])))
    case _ => true
  }

  /** A term whose literal, if it becomes one, stands where visiting the chain again finds it, and that stays a term then. */
  predicate Settled(same: Equality, op: NAryOp, es: seq<Expr>, t: Expr) {
    var c := CountNegationDepth(t);
    && (Folds(same, c.0) ==> !t.Not? && t in es)
    && (t.Not? && !c.1 ==> !(c.0.NAry? && c.0.op == op))
  }

  /**
   What may be visited again is settled: `again` says that something around `e` may be. Otherwise a literal that is left
   under a negation or in a nested chain is seen or not depending on what was visited before it.
   */
  ghost predicate InPlace(same: Equality, e: Expr, again: bool)
    decreases D.ExprSize(e)
  {
    match e
    case Not(x) => InPlace(same, x, again)
    case NAry(op, es) =>
      if !IsLogical(op) then
        forall i :: 0 <= i < |es| ==> (SumSizesDrop(es, i); InPlace(same, es[i], SomeFolds(same, es)))
      else
        var operands, again' := Operands(op, es), again || SomeFolds(same, es);
        || DecidedBy(same, op, operands)
        || forall i :: 0 <= i < |operands| ==>
             (OperandSize(op, es, i); InPlace(same, operands[i], again')) && (again' ==> Settled(same, op, es, operands[i]))
    case _ => true
  }

  lemma {:induction false} UnderNegations(same: Equality, e: Expr, again: bool)
    ensures Simplifiable(same, e) <==> Simplifiable(same, CountNegationDepth(e).0)
    ensures InPlace(same, e, again) <==> InPlace(same, CountNegationDepth(e).0, again)
    ensures !CountNegationDepth(e).0.Not?
    ensures !e.Not? ==> CountNegationDepth(e) == (e, false)
    decreases e
  {
    if e.Not? {
      UnderNegations(same, e.e, again);
    }
  }

  lemma {:induction false} SimplifyAllSome(same: Equality, es: seq<Expr>)
    ensures SimplifyAll(same, es).Some? <==> forall i :: 0 <= i < |es| ==> Simplify(same, es[i]).Some?
    ensures SimplifyAll(same, es).Some? ==>
              && |SimplifyAll(same, es).value| == |es|
              && forall i :: 0 <= i < |es| ==> SimplifyAll(same, es).value[i] == Simplify(same, es[i]).value
    decreases |es|
  {
    if es != [] {
      SimplifyAllSome(same, es[1..]);
    }
  }

  lemma DecidedMatters(same: Equality, op: NAryOp, operands: seq<Expr>)
    requires ByAddress(same) && IsLogical(op) && DecidedBy(same, op, operands)
    ensures Matters(op, operands)
  {
    if !Matters(op, operands) {
      NeutralUndecided(same, op, operands);
    }
  }

  lemma KeptPlain(same: Equality, op: NAryOp, es: seq<Expr>, e: Expr)
    requires ByAddress(same)
    ensures var terms := Collect(same, op, es, Terms([], []));
      && (e in Kept(terms.plain) <==> Occurs(Operands(op, es), e, false) && !IsLiteral(e))
      && (e in Kept(terms.negated) <==> Occurs(Operands(op, es), e, true) && !IsLiteral(e))
  {
    var terms := Collect(same, op, es, Terms([], []));
    CollectAt(same, op, es, Terms([], []), e);
    KeptAt(terms.plain, e);
    KeptAt(terms.negated, e);
  }

  /** What is left of the collected terms. */
  function Left(terms: Terms): seq<Expr> {
    Negated(Kept(terms.negated)) + Kept(terms.plain)
  }

  function LeftOf(same: Equality, op: NAryOp, es: seq<Expr>): seq<Expr> {
    Left(Collect(same, op, es, Terms([], [])))
  }

  /** The term that an operand leaves. */
  function Term(t: Expr): Expr {
    var c := CountNegationDepth(t);
    if c.1 then Not(c.0) else c.0
  }

  lemma LeftFromOperand(same: Equality, op: NAryOp, es: seq<Expr>, k: nat) returns (i: nat)
    requires ByAddress(same) && k < |LeftOf(same, op, es)|
    ensures i < |Operands(op, es)| && LeftOf(same, op, es)[k] == Term(Operands(op, es)[i])
    ensures !IsLiteral(CountNegationDepth(Operands(op, es)[i]).0)
  {
    var terms, operands := Collect(same, op, es, Terms([], [])), Operands(op, es);
    var c := LeftAt(terms, k);
    KeptPlain(same, op, es, c.0);
    i :| 0 <= i < |operands| && CountNegationDepth(operands[i]) == c;
    UnderNegations(same, operands[i], false);
  }

  lemma LeftAt(terms: Terms, k: nat) returns (c: (Expr, bool))
    requires k < |Left(terms)|
    ensures c.0 in Kept(if c.1 then terms.negated else terms.plain)
    ensures Left(terms)[k] == if c.1 then Negate(c.0) else c.0
  {
    var negated, plain := Kept(terms.negated), Kept(terms.plain);
    NegatedAt(negated);
    c := if k < |negated| then (negated[k], true) else (plain[k - |negated|], false);
  }

  lemma OperandLeft(same: Equality, op: NAryOp, es: seq<Expr>, i: nat) returns (k: nat)
    requires ByAddress(same) && i < |Operands(op, es)| && !IsLiteral(CountNegationDepth(Operands(op, es)[i]).0)
    ensures k < |LeftOf(same, op, es)| && LeftOf(same, op, es)[k] == Term(Operands(op, es)[i])
  {
    var terms, operands := Collect(same, op, es, Terms([], [])), Operands(op, es);
    var negated, plain := Kept(terms.negated), Kept(terms.plain);
    NegatedAt(negated);
    UnderNegations(same, operands[i], false);
    var c := CountNegationDepth(operands[i]);
    KeptPlain(same, op, es, c.0);
    assert Occurs(operands, c.0, c.1);
    if c.1 {
      k :| 0 <= k < |negated| && negated[k] == c.0;
    } else {
      var j :| 0 <= j < |plain| && plain[j] == c.0;
      k := |negated| + j;
    }
  }

  lemma TermAlike(same: Equality, t: Expr, again: bool)
    ensures Simplifiable(same, Term(t)) <==> Simplifiable(same, t)
    ensures InPlace(same, Term(t), again) <==> InPlace(same, t, again)
    ensures Term(t).Not? ==> !Term(t).e.Not?
  {
    UnderNegations(same, t, again);
  }

  /** What is left of a chain can be simplified exactly if its operands can. */
  lemma LeftSimplifiable(same: Equality, op: NAryOp, es: seq<Expr>)
    requires ByAddress(same)
    ensures var left, operands := LeftOf(same, op, es), Operands(op, es);
      (forall k :: 0 <= k < |left| ==> Simplifiable(same, left[k])) <==>
      (forall i :: 0 <= i < |operands| ==> Simplifiable(same, operands[i]))
  {
    var left, operands := LeftOf(same, op, es), Operands(op, es);
    if k :| 0 <= k < |left| && !Simplifiable(same, left[k]) {
      var i := LeftFromOperand(same, op, es, k);
      TermAlike(same, operands[i], false);
    }
    if i :| 0 <= i < |operands| && !Simplifiable(same, operands[i]) {
      TermAlike(same, operands[i], false);
      UnderNegations(same, operands[i], false);
      var k := OperandLeft(same, op, es, i);
    }
  }

  // ----- Literals that visiting makes -----

  lemma {:induction false} OperandsFlat(op: NAryOp, es: seq<Expr>, i: nat)
    requires i < |Operands(op, es)|
    ensures var t := Operands(op, es)[i]; !(t.NAry? && t.op == op)
    decreases es
  {
    var first := es[0];
    var front := if first.NAry? && first.op == op then Operands(op, first.es) else [first];
    if i >= |front| {
      OperandsFlat(op, es[1..], i - |front|);
    } else if first.NAry? && first.op == op {
      OperandsFlat(op, first.es, i);
    }
  }

  /** Every operand is an operand of the flattened chain, or a chain of which all operands are. */
  lemma {:induction false} DirectOperand(op: NAryOp, es: seq<Expr>, k: nat)
    requires k < |es|
    ensures if es[k].NAry? && es[k].op == op then forall t :: t in Operands(op, es[k].es) ==> t in Operands(op, es)
            else es[k] in Operands(op, es)
    decreases k
  {
    if k > 0 {
      DirectOperand(op, es[1..], k - 1);
    }
  }

  lemma DecidedMonotone(same: Equality, op: NAryOp, a: seq<Expr>, b: seq<Expr>)
    requires DecidedBy(same, op, a) && forall t :: t in a ==> t in b
    ensures DecidedBy(same, op, b)
  {
    if e, negated :| Occurs(a, e, negated) && (e, negated) in {(Deciding(op), false), (Neutral(op), true)} {
      var i :| 0 <= i < |a| && CountNegationDepth(a[i]) == (e, negated);
      assert a[i] in b;
      assert Occurs(b, e, negated);
    } else {
      var i, j :| 0 <= i < |a| && 0 <= j < |a| && Opposed(same, CountNegationDepth(a[i]), CountNegationDepth(a[j]));
      assert a[i] in b && a[j] in b;
      var k :| 0 <= k < |b| && b[k] == a[i];
      var l :| 0 <= l < |b| && b[l] == a[j];
    }
  }

  /** An operand that becomes a literal stays a term of an undecided chain. */
  lemma FoldingOperand(same: Equality, op: NAryOp, es: seq<Expr>, k: nat)
    requires IsLogical(op) && k < |es| && Folds(same, es[k]) && !DecidedBy(same, op, Operands(op, es))
    ensures es[k] in Operands(op, es)
  {
    DirectOperand(op, es, k);
    if es[k].op == op {
      DecidedMonotone(same, op, Operands(op, es[k].es), Operands(op, es));
    }
  }

  /** The literals that visiting leaves are those of chains that are decided at once. */
  ghost predicate LiteralIfFolds(same: Equality, e: Expr, r: Expr) {
    && (!e.Not? ==> !r.Not?)
    && (e.NAry? ==> (IsLiteral(r) <==> Folds(same, e)) && (Folds(same, e) ==> r == Deciding(e.op)))
  }

  lemma NegateVisitedLiteral(e: Expr)
    requires !e.Not?
    ensures !IsLiteral(NegateVisited(e))
  {
  }

  lemma TermVisited(same: Equality, t: Expr)
    requires !IsLiteral(CountNegationDepth(t).0) && Simplify(same, Term(t)).Some?
    requires var l := CountNegationDepth(t).0; LiteralIfFolds(same, l, Simplify(same, l).value)
    ensures IsLiteral(Simplify(same, Term(t)).value) <==> !CountNegationDepth(t).1 && Folds(same, CountNegationDepth(t).0)
  {
    UnderNegations(same, t, false);
    var c := CountNegationDepth(t);
    if c.1 {
      NegateVisitedLiteral(Simplify(same, c.0).value);
    }
  }

  // ----- The theorem -----

  /** Simplifying gives an expression exactly if in every chain that is looked at a term is left. */
  lemma {:induction false} SimplifyExact(same: Equality, e: Expr, again: bool)
    requires ByAddress(same) && InPlace(same, e, again)
    ensures Simplify(same, e).Some? <==> Simplifiable(same, e)
    ensures Simplify(same, e).Some? ==> LiteralIfFolds(same, e, Simplify(same, e).value)
    decreases D.ExprSize(e), 0
  {
    match e {
      case Not(x) => SimplifyExact(same, x, again);
      case NAry(op, es) =>
        RemoveIdenticalExact(same, op, es);
        if IsLogical(op) {
          ChainExact(same, op, es, again);
        } else {
          SimplifyAllSome(same, es);
          forall k | 0 <= k < |es| ensures Simplify(same, es[k]).Some? <==> Simplifiable(same, es[k]) {
            SumSizesDrop(es, k);
            SimplifyExact(same, es[k], SomeFolds(same, es));
          }
        }
      case _ =>
    }
  }

  lemma ChainExact(same: Equality, op: NAryOp, es: seq<Expr>, again: bool)
    requires ByAddress(same) && IsLogical(op) && InPlace(same, NAry(op, es), again)
    ensures OperandVisited(same, NAry(op, es))
    decreases D.SumSizes(es), 2
  {
    var operands := Operands(op, es);
    RemoveIdenticalExact(same, op, es);
    DecidedExact(same, op, es);
    if DecidedBy(same, op, operands) {
      DecidedMatters(same, op, operands);
    } else if Matters(op, operands) {
      forall i | 0 <= i < |operands| && !IsLiteral(CountNegationDepth(operands[i]).0)
        ensures OperandVisited(same, CountNegationDepth(operands[i]).0)
      {
        OperandExact(same, op, es, again, i);
      }
      UndecidedExact(same, op, es, again);
    }
  }

  lemma UndecidedExact(same: Equality, op: NAryOp, es: seq<Expr>, again: bool)
    requires ByAddress(same) && IsLogical(op) && InPlace(same, NAry(op, es), again)
    requires RemoveIdentical(same, op, es) == Some(NAry(op, LeftOf(same, op, es)))
    requires !DecidedBy(same, op, Operands(op, es)) && Matters(op, Operands(op, es)) && OperandsVisited(same, Operands(op, es))
    ensures OperandVisited(same, NAry(op, es))
  {
    var left := LeftOf(same, op, es);
    RemoveIdenticalSize(same, op, es);
    SimplifyAllSome(same, left);
    LeftVisited(same, op, es);
    LeftSimplifiable(same, op, es);
    if SimplifyAll(same, left).Some? {
      var visited := SimplifyAll(same, left).value;
      FoldedIfRevisited(same, op, es, visited);
      if SomeFolds(same, es) {
        RevisitedIfFolded(same, op, es, visited);
        NotDecidedAgain(same, op, es, again, visited);
        VisitedAgain(same, op, es, again, visited);
      }
    }
  }

  ghost predicate OperandVisited(same: Equality, l: Expr) {
    && (Simplify(same, l).Some? <==> Simplifiable(same, l))
    && (Simplify(same, l).Some? ==> LiteralIfFolds(same, l, Simplify(same, l).value))
  }

  ghost predicate OperandsVisited(same: Equality, operands: seq<Expr>) {
    forall i :: 0 <= i < |operands| && !IsLiteral(CountNegationDepth(operands[i]).0) ==>
      OperandVisited(same, CountNegationDepth(operands[i]).0)
  }

  lemma OperandExact(same: Equality, op: NAryOp, es: seq<Expr>, again: bool, i: nat)
    requires ByAddress(same) && IsLogical(op) && InPlace(same, NAry(op, es), again)
    requires !DecidedBy(same, op, Operands(op, es)) && i < |Operands(op, es)|
    ensures OperandVisited(same, CountNegationDepth(Operands(op, es)[i]).0)
    decreases D.SumSizes(es), 1
  {
    var t, again' := Operands(op, es)[i], again || SomeFolds(same, es);
    OperandSize(op, es, i);
    NegationSize(t);
    UnderNegations(same, t, again');
    SimplifyExact(same, CountNegationDepth(t).0, again');
  }

  lemma LeftVisited(same: Equality, op: NAryOp, es: seq<Expr>)
    requires ByAddress(same) && OperandsVisited(same, Operands(op, es))
    ensures var left := LeftOf(same, op, es);
      forall k :: 0 <= k < |left| ==> (Simplify(same, left[k]).Some? <==> Simplifiable(same, left[k]))
  {
    var left, operands := LeftOf(same, op, es), Operands(op, es);
    forall k | 0 <= k < |left| ensures Simplify(same, left[k]).Some? <==> Simplifiable(same, left[k]) {
      var i := LeftFromOperand(same, op, es, k);
      assert OperandVisited(same, CountNegationDepth(operands[i]).0);
    }
  }

  /** What visiting the terms that are left of an undecided chain gives. */
  ghost predicate TermsVisited(same: Equality, op: NAryOp, es: seq<Expr>, visited: seq<Expr>) {
    && IsLogical(op) && !DecidedBy(same, op, Operands(op, es)) && OperandsVisited(same, Operands(op, es))
    && SimplifyAll(same, LeftOf(same, op, es)) == Some(visited)
  }

  /** Which of the visited terms are literals. */
  lemma TermLiteral(same: Equality, op: NAryOp, es: seq<Expr>, visited: seq<Expr>, k: nat) returns (i: nat)
    requires ByAddress(same) && TermsVisited(same, op, es, visited)
    requires k < |LeftOf(same, op, es)|
    ensures |visited| == |LeftOf(same, op, es)|
    ensures i < |Operands(op, es)| && LeftOf(same, op, es)[k] == Term(Operands(op, es)[i])
    ensures LiteralTerm(same, Operands(op, es)[i], visited[k])
  {
    i := LeftFromOperand(same, op, es, k);
    SimplifyAllSome(same, LeftOf(same, op, es));
    var t := Operands(op, es)[i];
    assert OperandVisited(same, CountNegationDepth(t).0);
    TermVisited(same, t);
  }

  predicate LiteralTerm(same: Equality, t: Expr, r: Expr) {
    var c := CountNegationDepth(t);
    && !IsLiteral(c.0)
    && (IsLiteral(r) <==> !c.1 && Folds(same, c.0))
    && (IsLiteral(r) ==> r == Deciding(c.0.op))
  }

  lemma FoldedIfRevisited(same: Equality, op: NAryOp, es: seq<Expr>, visited: seq<Expr>)
    requires ByAddress(same) && TermsVisited(same, op, es, visited)
    ensures Revisited(op, es, LeftOf(same, op, es), visited) ==> SomeFolds(same, es)
  {
    var left := LeftOf(same, op, es);
    if k :| 0 <= k < |left| && k < |visited| && left[k] in es && IsLiteral(visited[k]) {
      var i := TermLiteral(same, op, es, visited, k);
      var j :| 0 <= j < |es| && es[j] == left[k];
      assert Folds(same, es[j]);
    }
  }

  lemma TermAt(same: Equality, op: NAryOp, es: seq<Expr>, visited: seq<Expr>, i: nat) returns (k: nat)
    requires ByAddress(same) && TermsVisited(same, op, es, visited)
    requires i < |Operands(op, es)| && !IsLiteral(CountNegationDepth(Operands(op, es)[i]).0)
    ensures k < |visited| == |LeftOf(same, op, es)| && LeftOf(same, op, es)[k] == Term(Operands(op, es)[i])
    ensures LiteralTerm(same, Operands(op, es)[i], visited[k])
  {
    k := OperandLeft(same, op, es, i);
    var j := TermLiteral(same, op, es, visited, k);
    SameTerm(Operands(op, es)[i], Operands(op, es)[j]);
  }

  lemma SameTerm(t: Expr, u: Expr)
    requires Term(t) == Term(u)
    ensures CountNegationDepth(t) == CountNegationDepth(u)
  {
    UnderNegations((_, _) => false, t, false);
    UnderNegations((_, _) => false, u, false);
  }

  lemma RevisitedIfFolded(same: Equality, op: NAryOp, es: seq<Expr>, visited: seq<Expr>)
    requires ByAddress(same) && TermsVisited(same, op, es, visited)
    requires SomeFolds(same, es)
    ensures Revisited(op, es, LeftOf(same, op, es), visited)
  {
    var j :| 0 <= j < |es| && Folds(same, es[j]);
    FoldingOperand(same, op, es, j);
    var i :| 0 <= i < |Operands(op, es)| && Operands(op, es)[i] == es[j];
    var k := TermAt(same, op, es, visited, i);
  }

  /** A decided operand is neutral in a chain of the other operator. */
  lemma NotDecidedAgain(same: Equality, op: NAryOp, es: seq<Expr>, again: bool, visited: seq<Expr>)
    requires ByAddress(same) && TermsVisited(same, op, es, visited)
    requires InPlace(same, NAry(op, es), again) && SomeFolds(same, es)
    ensures Deciding(op) !in visited
  {
    SimplifyAllSome(same, LeftOf(same, op, es));
    forall k | 0 <= k < |visited| ensures visited[k] != Deciding(op) {
      var i := TermLiteral(same, op, es, visited, k);
      assert Settled(same, op, es, Operands(op, es)[i]);
      UnderNegations(same, Operands(op, es)[i], again);
      OperandsFlat(op, es, i);
    }
  }

  /** A term is left the second time exactly if some operand lasts. */
  lemma VisitedAgain(same: Equality, op: NAryOp, es: seq<Expr>, again: bool, visited: seq<Expr>)
    requires ByAddress(same) && TermsVisited(same, op, es, visited)
    requires InPlace(same, NAry(op, es), again) && SomeFolds(same, es)
    ensures Kept(visited) != [] <==> Lasts(same, op, Operands(op, es))
  {
    var operands := Operands(op, es);
    KeptEmpty(visited);
    SimplifyAllSome(same, LeftOf(same, op, es));
    if e :| e in visited && !IsLiteral(e) {
      var k :| 0 <= k < |visited| && visited[k] == e;
      var i := TermLiteral(same, op, es, visited, k);
      UnderNegations(same, operands[i], false);
      assert !Neutralized(op, operands[i]) && !Folds(same, operands[i]);
    }
    if i :| 0 <= i < |operands| && !Neutralized(op, operands[i]) && !Folds(same, operands[i]) {
      UndecidedTerm(same, op, operands, i);
      var k := TermAt(same, op, es, visited, i);
      assert Settled(same, op, es, operands[i]);
      UnderNegations(same, operands[i], false);
      assert visited[k] in visited;
    }
  }

  lemma UndecidedTerm(same: Equality, op: NAryOp, operands: seq<Expr>, i: nat)
    requires IsLogical(op) && !DecidedBy(same, op, operands) && i < |operands| && !Neutralized(op, operands[i])
    ensures !IsLiteral(CountNegationDepth(operands[i]).0)
  {
    var c := CountNegationDepth(operands[i]);
    assert Occurs(operands, c.0, c.1);
  }

  /** Simplifying keeps the value of every regular expression of which something is left. */
  lemma SimplifyCorrect(same: Equality, e: Expr, v: Valuation)
    requires ByAddress(same) && Bitwise(v) && Regular(e) && InPlace(same, e, false) && Simplifiable(same, e)
    ensures Simplify(same, e).Some? && Eval(Simplify(same, e).value, v) == Eval(e, v)
  {
    SimplifyExact(same, e, false);
    SimplifyKeeps(same, e, v);
  }

  // ----- Examples -----

  /** No term of `true && true` is left. */
  lemma NothingLeft(same: Equality)
    requires ByAddress(same)
    ensures Simplify(same, And([True, True])).None?
  {
    RemoveIdenticalExact(same, ShortCircuitAnd, [True, True]);
    assert [True, True][1..] == [True];
    assert Operands(ShortCircuitAnd, [True]) == [True];
    assert Operands(ShortCircuitAnd, [True, True]) == [True, True];
  }

  /** The conditions that switches put on edges begin with a literal, and can be simplified. */
  lemma SwitchEdgeSimplifiable(same: Equality, test: Expr, n: int)
    requires Simplifiable(same, test)
    ensures Simplifiable(same, Or([False, NAry(Equal, [test, Number(n)])]))
  {
    var es := [False, NAry(Equal, [test, Number(n)])];
    assert es[1..] == [es[1]] && [es[1]][1..] == [];
    assert Operands(ShortCircuitOr, es[1..]) == [es[1]];
    assert Operands(ShortCircuitOr, es) == es;
    assert !Neutralized(ShortCircuitOr, es[1]);
    var pair := [test, Number(n)];
    assert pair[0] == test && pair[1] == Number(n);
  }

  /** `a || !a`, which is decided at once. */
  function Tautology(a: Expr): Expr { Or([a, Not(a)]) }

  lemma TautologyFolds(same: Equality, a: Expr)
    requires a.Leaf? && same(a, a)
    ensures Folds(same, Tautology(a)) && Simplifiable(same, Tautology(a)) && InPlace(same, Tautology(a), true)
  {
    var es := [a, Not(a)];
    assert es[1..] == [Not(a)] && [Not(a)][1..] == [];
    assert Operands(ShortCircuitOr, es[1..]) == [Not(a)];
    var operands := Operands(ShortCircuitOr, es);
    assert operands == es;
    assert Opposed(same, CountNegationDepth(operands[0]), CountNegationDepth(operands[1]));
  }

  lemma PairOperands(op: NAryOp, x: Expr, y: Expr)
    requires !(x.NAry? && x.op == op) && !(y.NAry? && y.op == op)
    ensures Operands(op, [x, y]) == [x, y]
  {
    assert [x, y][1..] == [y] && [y][1..] == [];
    assert Operands(op, [y]) == [y];
  }

  /** A term of a conjunction that is `true` or decided. */
  ghost predicate Vanishes(same: Equality, e: Expr) {
    e == True || (e.NAry? && e.op.ShortCircuitOr? && Folds(same, e) && InPlace(same, e, true))
  }

  lemma PairUndecided(same: Equality, es: seq<Expr>)
    requires forall e :: e in es ==> !e.Not? && e != False
    ensures !DecidedBy(same, ShortCircuitAnd, es)
  {
    forall i | 0 <= i < |es| ensures CountNegationDepth(es[i]) == (es[i], false) {
      assert es[i] in es;
    }
  }

  /** In a conjunction of such terms, one of them decided, no term is left the second time. */
  lemma PairFails(same: Equality, x: Expr, y: Expr)
    requires ByAddress(same) && Vanishes(same, x) && Vanishes(same, y) && SomeFolds(same, [x, y])
    ensures Simplify(same, And([x, y])).None?
  {
    var op, es := ShortCircuitAnd, [x, y];
    PairOperands(op, x, y);
    PairUndecided(same, es);
    PairInPlace(same, x, y);
    assert !Lasts(same, op, es);
    SimplifyExact(same, And(es), false);
  }

  lemma PairInPlace(same: Equality, x: Expr, y: Expr)
    requires Vanishes(same, x) && Vanishes(same, y) && SomeFolds(same, [x, y])
    ensures InPlace(same, And([x, y]), false)
  {
    var es := [x, y];
    PairOperands(ShortCircuitAnd, x, y);
    assert x in es && y in es;
    forall i | 0 <= i < 2
      ensures InPlace(same, es[i], true) && Settled(same, ShortCircuitAnd, es, es[i])
    {
      assert Vanishes(same, es[i]);
    }
  }

  /** `true && (a || !a)` has an operand that is no literal, and fails when it is visited again. */
  lemma NothingLeftAgain(same: Equality, a: Expr)
    requires ByAddress(same) && a.Leaf? && same(a, a)
    ensures RemoveIdentical(same, ShortCircuitAnd, [True, Tautology(a)]).Some?
    ensures Simplify(same, And([True, Tautology(a)])).None?
  {
    var es := [True, Tautology(a)];
    TautologyFolds(same, a);
    assert Folds(same, es[1]);
    PairFails(same, True, es[1]);
    PairOperands(ShortCircuitAnd, True, es[1]);
    RemoveIdenticalExact(same, ShortCircuitAnd, es);
    assert !Neutralized(ShortCircuitAnd, es[1]);
  }

  /** So does `(a || !a) && (b || !b)`. */
  lemma TautologiesFail(same: Equality, a: Expr, b: Expr)
    requires ByAddress(same) && a.Leaf? && b.Leaf? && same(a, a) && same(b, b)
    ensures Simplify(same, And([Tautology(a), Tautology(b)])).None?
  {
    var es := [Tautology(a), Tautology(b)];
    TautologyFolds(same, a);
    TautologyFolds(same, b);
    assert Folds(same, es[0]);
    PairFails(same, es[0], es[1]);
  }

  /** `b && (a || !a)` loses its second operand. */
  lemma TautologyDropped(same: Equality, a: Expr, b: Expr)
    requires ByAddress(same) && a.Leaf? && b.Leaf? && same(a, a)
    ensures Simplify(same, And([b, Tautology(a)])) == Some(And([b]))
  {
    var op, es := ShortCircuitAnd, [b, Tautology(a)];
    assert es[0] == b && es[1] == Tautology(a) && es[1] in es;
    TautologyVisited(same, a);
    PairOperands(op, es[0], es[1]);
    PairUndecided(same, es);
    DecidedExact(same, op, es);
    PairLeft(same, es[0], es[1]);
    PairVisited(same, es[0], es[1]);
    DropSecond(b);
    assert IsLiteral([b, True][1]);
    SimplifyAgain(same, op, es, [b, True]);
  }

  lemma TautologyVisited(same: Equality, a: Expr)
    requires ByAddress(same) && a.Leaf? && same(a, a)
    ensures Simplify(same, Tautology(a)) == Some(True)
  {
    TautologyFolds(same, a);
    DecidedExact(same, ShortCircuitOr, Tautology(a).es);
  }

  lemma SimplifyAgain(same: Equality, op: NAryOp, es: seq<Expr>, visited: seq<Expr>)
    requires RemoveIdentical(same, op, es) == Some(NAry(op, es)) && SimplifyAll(same, es) == Some(visited)
    requires Revisited(op, es, es, visited)
    ensures Simplify(same, NAry(op, es)) == Again(op, visited)
  {
    RemoveIdenticalSize(same, op, es);
  }

  lemma DropSecond(e: Expr)
    requires !IsLiteral(e)
    ensures Again(ShortCircuitAnd, [e, True]) == Some(And([e]))
  {
    assert [e, True][1..] == [True] && [True][1..] == [];
    assert Kept([True]) == [] && Kept([e, True]) == [e];
    assert False !in [e, True];
  }

  lemma PairVisited(same: Equality, x: Expr, y: Expr)
    requires Simplify(same, x).Some? && Simplify(same, y).Some?
    ensures SimplifyAll(same, [x, y]) == Some([Simplify(same, x).value, Simplify(same, y).value])
  {
    var es := [x, y];
    assert es[0] == x && es[1] == y;
    SimplifyAllSome(same, es);
    assert forall i :: 0 <= i < |es| ==> es[i] == x || es[i] == y;
    assert SimplifyAll(same, es).Some?;
    var visited := SimplifyAll(same, es).value;
    assert visited == [visited[0], visited[1]];
  }

  lemma PairLeft(same: Equality, x: Expr, y: Expr)
    requires ByAddress(same) && x != y && !IsLiteral(x) && !IsLiteral(y) && !x.Not? && !y.Not?
    requires !(x.NAry? && x.op.ShortCircuitAnd?) && !(y.NAry? && y.op.ShortCircuitAnd?)
    ensures LeftOf(same, ShortCircuitAnd, [x, y]) == [x, y]
  {
    var terms := Terms([], []);
    assert [x, y][1..] == [y] && [y][1..] == [];
    assert AddTerm(same, terms, x) == Terms([x], []);
    assert AddTerm(same, Terms([x], []), y) == Terms([x, y], []);
    assert Collect(same, ShortCircuitAnd, [], Terms([x, y], [])) == Terms([x, y], []);
    assert Collect(same, ShortCircuitAnd, [y], Terms([x], [])) == Terms([x, y], []);
    assert [y] + Kept([]) == [y] && Kept([y]) == [y] + Kept([]);
    assert [x] + [y] == [x, y] && Kept([x, y]) == [x] + Kept([x, y][1..]);
    assert Negated(Kept([])) == [];
  }
}
