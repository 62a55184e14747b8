/**
 Expressions as the AST passes see them.

 The passes look inside logical negations and n-ary operators only; everything else (tokens other than
 `true` and `false`, assignables, loads, calls, casts, ...) is a leaf whose value the program state decides.
 Pointers to expressions are modelled by the expressions they point to.
 */
module Expressions {

  datatype Option<+T> = None | Some(value: T)

  // In the order of NAryOperatorType, so that neighbours differ in the lowest bit of the enumerator. The operators that no
  // pass looks at are numbered, from the assignment on.
  datatype NAryOp =
    | Arithmetic(code: nat)
    | SmallerThan | GreaterOrEqualTo
    | GreaterThan | SmallerOrEqualTo
    | Equal | NotEqual
    | BitwiseAnd | BitwiseXor
    | BitwiseOr
    | ShortCircuitAnd | ShortCircuitOr

  datatype Expr =
    | True
    | False
    | Number(n: int)
    | Leaf(id: nat, boolean: bool, memory: bool)
    | Not(e: Expr)
    | NAry(op: NAryOp, es: seq<Expr>)

  /** The part of an expression that operand numbers lead to, from the outside in. */
  ghost function Part(e: Expr, path: seq<nat>): Option<Expr>
    decreases |path|
  {
    if path == [] then Some(e)
    else if e.Not? && path[0] == 0 then Part(e.e, path[1..])
    else if e.NAry? && path[0] < |e.es| then Part(e.es[path[0]], path[1..])
    else None
  }

  /** What a program state says about leaves, and what the operators the passes leave alone compute. */
  datatype Valuation = Valuation(leaf: nat -> int, arith: (NAryOp, seq<int>) -> int)

  const ASSIGN := Arithmetic(0)

  predicate IsComparison(op: NAryOp) {
    op in {SmallerThan, GreaterOrEqualTo, GreaterThan, SmallerOrEqualTo, Equal, NotEqual}
  }

  predicate IsLogical(op: NAryOp) {
    op.ShortCircuitAnd? || op.ShortCircuitOr?
  }

  function Compare(op: NAryOp, a: int, b: int): bool
    requires IsComparison(op)
  {
    match op
    case SmallerThan => a < b
    case GreaterOrEqualTo => a >= b
    case GreaterThan => a > b
    case SmallerOrEqualTo => a <= b
    case Equal => a == b
    case NotEqual => a != b
  }

  function Bit(b: bool): int {
    if b then 1 else 0
  }

  ghost function Eval(e: Expr, v: Valuation): int {
    match e
    case True => 1
    case False => 0
    case Number(n) => n
    case Leaf(id, boolean, _) => if boolean then Bit(v.leaf(id) != 0) else v.leaf(id)
    case Not(x) => Bit(Eval(x, v) == 0)
    case NAry(op, es) =>
      if op.ShortCircuitAnd? then Bit(forall i :: 0 <= i < |es| ==> Eval(es[i], v) != 0)
      else if op.ShortCircuitOr? then Bit(exists i :: 0 <= i < |es| && Eval(es[i], v) != 0)
      else if IsComparison(op) && |es| == 2 then Bit(Compare(op, Eval(es[0], v), Eval(es[1], v)))
      else v.arith(op, seq(|es|, i requires 0 <= i < |es| => Eval(es[i], v)))
  }

  ghost predicate Holds(e: Expr, v: Valuation) {
    Eval(e, v) != 0
  }

  ghost predicate AllHold(es: seq<Expr>, v: Valuation) {
    forall i :: 0 <= i < |es| ==> Holds(es[i], v)
  }

  ghost predicate AnyHolds(es: seq<Expr>, v: Valuation) {
    exists i :: 0 <= i < |es| && Holds(es[i], v)
  }

  function And(es: seq<Expr>): Expr { NAry(ShortCircuitAnd, es) }

  function Or(es: seq<Expr>): Expr { NAry(ShortCircuitOr, es) }

  lemma AndOrHold(es: seq<Expr>, v: Valuation)
    ensures Holds(And(es), v) <==> AllHold(es, v)
    ensures Holds(Or(es), v) <==> AnyHolds(es, v)
  {
  }

  lemma AndPairHolds(a: Expr, b: Expr, v: Valuation)
    ensures Holds(And([a, b]), v) <==> Holds(a, v) && Holds(b, v)
  {
    AndOrHold([a, b], v);
    assert [a, b][0] == a && [a, b][1] == b;
    assert forall i :: 0 <= i < 2 ==> [a, b][i] == a || [a, b][i] == b;
  }

  lemma AllHoldConcat(a: seq<Expr>, b: seq<Expr>, v: Valuation)
    ensures AllHold(a + b, v) <==> AllHold(a, v) && AllHold(b, v)
  {
    forall i | 0 <= i < |b|
      ensures b[i] == (a + b)[|a| + i]
    {
    }
    if AllHold(a + b, v) {
      forall i | 0 <= i < |a| ensures Holds(a[i], v) { assert (a + b)[i] == a[i]; }
    }
  }

  lemma AnyHoldsConcat(a: seq<Expr>, b: seq<Expr>, v: Valuation)
    ensures AnyHolds(a + b, v) <==> AnyHolds(a, v) || AnyHolds(b, v)
  {
    if i :| 0 <= i < |a| && Holds(a[i], v) { assert Holds((a + b)[i], v); }
    if i :| 0 <= i < |b| && Holds(b[i], v) { assert Holds((a + b)[|a| + i], v); }
  }

  /** AstContext::negate: strips a negation, swaps the literals, and otherwise adds a negation. */
  function Negate(e: Expr): (r: Expr)
    ensures forall v :: Holds(r, v) <==> !Holds(e, v)
  {
    match e
    case Not(x) => x
    case True => False
    case False => True
    case _ => Not(e)
  }

  /** Negating twice gives the expression back, but for negations that `Negate` itself would not have made. */
  lemma NegateTwice(e: Expr)
    ensures Negate(Negate(e)) == e <==> !(e.Not? && (e.e.Not? || e.e.True? || e.e.False?))
  {
    if e.Not? && e.e.Not? {
      assert e.e.e < e.e && e.e < e;
    }
  }

  /** AstContext::nary with `returnSingle`; an empty operand list trips its assertion. */
  function NaryOrSingle(op: NAryOp, es: seq<Expr>): (r: Expr)
    requires |es| > 0 && IsLogical(op)
    ensures forall v :: Holds(r, v) <==> Holds(NAry(op, es), v)
  {
    if |es| == 1 then
      assert forall v :: Holds(NAry(op, es), v) <==> Holds(es[0], v);
      es[0]
    else NAry(op, es)
  }
}
