/**
 SimplifyForm: what simplified conditions look like. Negations are cancelled or turned into the opposite comparison, and
 the terms of a chain are there once each.
 */
module SimplifyForm {
  import opened Expressions
  import opened ConsecutiveCombiner
  import opened SimplifyExpressions
  import opened X = SimplifyExact
  import D = Disjunction

  // ----- Negations -----

  /** The operators in their order in NAryOperatorType. */
  function Enumerator(op: NAryOp): nat {
    match op
    case Arithmetic(code) => code
    case SmallerThan => 8
    case GreaterOrEqualTo => 9
    case GreaterThan => 10
    case SmallerOrEqualTo => 11
    case Equal => 12
    case NotEqual => 13
    case BitwiseAnd => 14
    case BitwiseXor => 15
    case BitwiseOr => 16
    case ShortCircuitAnd => 17
    case ShortCircuitOr => 18
  }

  /** The next enumerator up for an even one, and the next one down for an odd one. */
  predicate Beside(op: NAryOp, other: NAryOp) {
    Enumerator(other) == if Enumerator(op) % 2 == 0 then Enumerator(op) + 1 else Enumerator(op) - 1
  }

  /** A negation that the simplifier takes away: of a negation, or of two operands with an operator from 8 to 14. */
  predicate Removable(e: Expr) {
    e.Not? && (e.e.Not? || (e.e.NAry? && |e.e.es| == 2 && 8 <= Enumerator(e.e.op) <= 14 && !e.e.op.Arithmetic?))
  }

  /** No part of the expression, however deep, is one. */
  ghost predicate NoneRemovable(e: Expr) {
    forall path :: Part(e, path).Some? ==> !Removable(Part(e, path).value)
  }

  lemma NoneInOperand(e: Expr, k: nat, x: Expr)
    requires NoneRemovable(e) && ((e.Not? && k == 0 && x == e.e) || (e.NAry? && k < |e.es| && x == e.es[k]))
    ensures NoneRemovable(x)
  {
    forall path | Part(x, path).Some? ensures !Removable(Part(x, path).value) {
      assert ([k] + path)[1..] == path;
      assert Part(e, [k] + path) == Part(x, path);
    }
  }

  lemma NoneInNAry(op: NAryOp, es: seq<Expr>)
    ensures NoneRemovable(NAry(op, es)) <==> forall i :: 0 <= i < |es| ==> NoneRemovable(es[i])
  {
    var e := NAry(op, es);
    if NoneRemovable(e) {
      forall i | 0 <= i < |es| ensures NoneRemovable(es[i]) {
        NoneInOperand(e, i, es[i]);
      }
    }
    if forall i :: 0 <= i < |es| ==> NoneRemovable(es[i]) {
      forall path | Part(e, path).Some? ensures !Removable(Part(e, path).value) {
        if path != [] {
          assert Part(e, path) == Part(es[path[0]], path[1..]);
        }
      }
    }
  }

  lemma NoneInSimple(e: Expr)
    requires !e.Not? && !e.NAry?
    ensures NoneRemovable(e)
  {
  }

  lemma NegationRemoved(e: Expr)
    requires NoneRemovable(e)
    ensures NoneRemovable(NegateVisited(e))
  {
    if e.Not? {
      NoneInOperand(e, 0, e.e);
    } else if e.NAry? && |e.es| == 2 && Flippable(e.op) {
      NoneInNAry(e.op, e.es);
      NoneInNAry(Flipped(e.op), e.es);
    } else {
      forall path | Part(Not(e), path).Some? ensures !Removable(Part(Not(e), path).value) {
        if path != [] {
          assert Part(Not(e), path) == Part(e, path[1..]);
        }
      }
    }
  }

  /** No simplified expression contains a negation that could be taken away. */
  lemma {:induction false} SimplifiedForm(same: Equality, e: Expr)
    requires Simplify(same, e).Some?
    ensures NoneRemovable(Simplify(same, e).value)
    decreases D.ExprSize(e), 0, 0
  {
    match e {
      case Not(x) =>
        SimplifiedForm(same, x);
        NegationRemoved(Simplify(same, x).value);
      case NAry(op, es) =>
        var r := RemoveIdentical(same, op, es).value;
        RemoveIdenticalSize(same, op, es);
        if r.NAry? {
          SimplifiedAllForm(same, r.es);
          var visited := SimplifyAll(same, r.es).value;
          NoneInNAry(op, visited);
          KeptForm(visited);
          NoneInNAry(op, Kept(visited));
          NoneInSimple(Deciding(op));
        } else {
          NoneInSimple(r);
        }
      case _ => NoneInSimple(e);
    }
  }

  lemma {:induction false} SimplifiedAllForm(same: Equality, es: seq<Expr>)
    requires SimplifyAll(same, es).Some?
    ensures forall i :: 0 <= i < |SimplifyAll(same, es).value| ==> NoneRemovable(SimplifyAll(same, es).value[i])
    decreases D.SumSizes(es), 1, |es|
  {
    if es != [] {
      SimplifiedForm(same, es[0]);
      SimplifiedAllForm(same, es[1..]);
    }
  }

  lemma KeptForm(es: seq<Expr>)
    requires forall i :: 0 <= i < |es| ==> NoneRemovable(es[i])
    ensures forall i :: 0 <= i < |Kept(es)| ==> NoneRemovable(Kept(es)[i])
  {
    forall i | 0 <= i < |Kept(es)| ensures NoneRemovable(Kept(es)[i]) {
      KeptAt(es, Kept(es)[i]);
    }
  }

  /** A negated comparison of two leaves becomes the one beside it in the enumeration; so does a bitwise `and`. */
  lemma NegatedComparison(same: Equality, op: NAryOp, x: Expr, y: Expr) returns (other: NAryOp)
    requires 8 <= Enumerator(op) <= 14 && !op.Arithmetic? && x.Leaf? && y.Leaf?
    ensures Beside(op, other) && Simplify(same, Not(NAry(op, [x, y]))) == Some(NAry(other, [x, y]))
  {
    other := Flipped(op);
    PairVisited(same, x, y);
    assert Simplify(same, NAry(op, [x, y])) == Some(NAry(op, [x, y]));
  }

  // ----- Chains -----

  /** The comparison of addresses, where equal expressions have one address. */
  ghost predicate Shared(same: Equality) {
    forall a, b :: same(a, b) <==> a == b
  }

  ghost predicate NoRepeats(es: seq<Expr>) {
    forall i, j :: 0 <= i < j < |es| ==> es[i] != es[j]
  }

  lemma NoRepeatsSnoc(es: seq<Expr>, e: Expr)
    requires NoRepeats(es) && e !in es
    ensures NoRepeats(es + [e])
  {
  }

  ghost predicate Stripped(es: seq<Expr>) {
    forall i :: 0 <= i < |es| ==> !es[i].Not?
  }

  /** The terms are without negations and all different. */
  ghost predicate Collected(terms: Terms) {
    NoRepeats(terms.plain) && NoRepeats(terms.negated) && Stripped(terms.plain) && Stripped(terms.negated)
  }

  lemma {:induction false} CollectForm(same: Equality, op: NAryOp, es: seq<Expr>, terms: Terms)
    requires Shared(same) && Collected(terms)
    ensures Collected(Collect(same, op, es, terms))
    decreases es
  {
    if es != [] {
      if es[0].NAry? && es[0].op == op {
        CollectForm(same, op, es[0].es, terms);
        CollectForm(same, op, es[1..], Collect(same, op, es[0].es, terms));
      } else {
        AddTermForm(same, terms, es[0]);
        CollectForm(same, op, es[1..], AddTerm(same, terms, es[0]));
      }
    }
  }

  lemma AddTermForm(same: Equality, terms: Terms, e: Expr)
    requires Shared(same) && Collected(terms)
    ensures Collected(AddTerm(same, terms, e))
  {
    var c := CountNegationDepth(e);
    if c.0 !in terms.negated { NoRepeatsSnoc(terms.negated, c.0); }
    if c.0 !in terms.plain { NoRepeatsSnoc(terms.plain, c.0); }
  }

  lemma {:induction false} KeptNoRepeats(es: seq<Expr>)
    requires NoRepeats(es)
    ensures NoRepeats(Kept(es))
    decreases es
  {
    if es != [] {
      KeptNoRepeats(es[1..]);
      KeptAt(es[1..], es[0]);
      assert es[0] !in es[1..];
      var rest := Kept(es[1..]);
      assert [] + rest == rest;
      forall i | 0 <= i < |rest| ensures rest[i] != es[0] { assert rest[i] in rest; }
    }
  }

  /** A term that is no literal, and that the flattened chain has under some number of negations. */
  ghost predicate IsTerm(operands: seq<Expr>, t: Expr) {
    exists i :: 0 <= i < |operands| && t == Term(operands[i]) && !IsLiteral(CountNegationDepth(operands[i]).0)
  }

  lemma LeftForm(terms: Terms)
    requires Collected(terms)
    ensures NoRepeats(Left(terms))
  {
    var negated, plain := Kept(terms.negated), Kept(terms.plain);
    KeptNoRepeats(terms.negated);
    KeptNoRepeats(terms.plain);
    NegatedAt(negated);
    forall i | 0 <= i < |negated| ensures Negated(negated)[i] == Not(negated[i]) {
      KeptAt(terms.negated, negated[i]);
    }
    forall i | 0 <= i < |plain| ensures !plain[i].Not? {
      KeptAt(terms.plain, plain[i]);
    }
  }

  /** Of a chain that is not decided exactly the terms that are no literals are left, each once. */
  lemma ChainForm(same: Equality, op: NAryOp, es: seq<Expr>)
    requires Shared(same) && IsLogical(op) && RemoveIdentical(same, op, es).Some?
    ensures var r, operands := RemoveIdentical(same, op, es).value, Operands(op, es);
      if DecidedBy(same, op, operands) then r == Deciding(op)
      else r.NAry? && r.op == op && NoRepeats(r.es) && forall t :: t in r.es <==> IsTerm(operands, t)
  {
    var operands, left := Operands(op, es), LeftOf(same, op, es);
    DecidedExact(same, op, es);
    if !DecidedBy(same, op, operands) {
      CollectForm(same, op, es, Terms([], []));
      LeftForm(Collect(same, op, es, Terms([], [])));
      forall t ensures t in left <==> IsTerm(operands, t) {
        if t in left {
          var k :| 0 <= k < |left| && left[k] == t;
          var i := LeftFromOperand(same, op, es, k);
        }
        if i :| 0 <= i < |operands| && t == Term(operands[i]) && !IsLiteral(CountNegationDepth(operands[i]).0) {
          var k := OperandLeft(same, op, es, i);
        }
      }
    }
  }

  lemma CollectCons(same: Equality, op: NAryOp, e: Expr, es: seq<Expr>, terms: Terms)
    requires !(e.NAry? && e.op == op)
    ensures Collect(same, op, [e] + es, terms) == Collect(same, op, es, AddTerm(same, terms, e))
  {
    assert ([e] + es)[1..] == es;
  }

  lemma KeptCons(e: Expr, es: seq<Expr>)
    requires !IsLiteral(e)
    ensures Kept([e] + es) == [e] + Kept(es)
  {
    assert ([e] + es)[1..] == es;
  }

  lemma AddLeaf(same: Equality, terms: Terms, x: Expr)
    requires Shared(same) && x.Leaf?
    ensures AddTerm(same, terms, x) == if x in terms.plain then terms else Terms(terms.plain + [x], terms.negated)
    ensures AddTerm(same, terms, Not(x)) == if x in terms.negated then terms else Terms(terms.plain, terms.negated + [x])
  {
    assert Contains(same, terms.plain, x) <==> x in terms.plain;
    assert Contains(same, terms.negated, x) <==> x in terms.negated;
  }

  /** The terms from two operands, and then from the rest. */
  lemma CollectTwo(same: Equality, e: Expr, f: Expr, es: seq<Expr>, terms: Terms)
    requires Shared(same) && !e.NAry? && !f.NAry?
    ensures Collect(same, ShortCircuitAnd, [e, f] + es, terms)
         == Collect(same, ShortCircuitAnd, es, AddTerm(same, AddTerm(same, terms, e), f))
  {
    assert [e, f] + es == [e] + ([f] + es);
    CollectCons(same, ShortCircuitAnd, e, [f] + es, terms);
    CollectCons(same, ShortCircuitAnd, f, es, AddTerm(same, terms, e));
  }

  lemma CollectedInOrder(same: Equality, a: Expr, b: Expr, c: Expr)
    requires Shared(same) && a.Leaf? && b.Leaf? && c.Leaf? && a != c
    ensures Collect(same, ShortCircuitAnd, [a, Not(b), c, a], Terms([], [])) == Terms([a, c], [b])
  {
    var none, some, all := Terms([], []), Terms([a], [b]), Terms([a, c], [b]);
    AddLeaf(same, none, a);
    AddLeaf(same, Terms([a], []), b);
    assert [] + [a] == [a] && [] + [b] == [b] && [a] + [c] == [a, c];
    AddLeaf(same, some, c);
    AddLeaf(same, all, a);
    CollectTwo(same, a, Not(b), [c, a], none);
    CollectTwo(same, c, a, [], some);
    assert [a, Not(b)] + [c, a] == [a, Not(b), c, a] && [c, a] + [] == [c, a];
  }

  /** Negated terms come first, and both kinds in the order of their first occurrence. */
  lemma TermsInOrder(same: Equality, a: Expr, b: Expr, c: Expr)
    requires Shared(same) && a.Leaf? && b.Leaf? && c.Leaf? && a != b && a != c && b != c
    ensures RemoveIdentical(same, ShortCircuitAnd, [a, Not(b), c, a]) == Some(And([Not(b), a, c]))
  {
    CollectedInOrder(same, a, b, c);
    var terms := Terms([a, c], [b]);
    assert !Decided(same, ShortCircuitAnd, terms);
    KeptCons(a, [c]);
    KeptCons(c, []);
    KeptCons(b, []);
    assert [a] + [c] == [a, c] && [c] + [] == [c] && [b] + [] == [b];
    assert Kept(terms.plain) == [a, c] && Kept(terms.negated) == [b];
    assert [b][1..] == [] && Negated([b]) == [Not(b)];
    assert [Not(b)] + [a, c] == [Not(b), a, c];
  }
}
