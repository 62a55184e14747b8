/**
 SimplifyExpressions: the pass over conditions that flattens chains of one logical operator, removes repeated and
 neutral terms, recognises tautologies and contradictions, cancels double negations, and flips negated comparisons.

 The pass compares expressions by address. That test is a parameter here, which may tell equal expressions apart.
 */
module SimplifyExpressions {
  import opened Expressions
  import opened ConsecutiveCombiner
  import D = Disjunction

  ghost predicate ByAddress(same: Equality) {
    forall a, b :: same(a, b) ==> a == b
  }

  /** The terms of a chain, with and without a negation in front. */
  datatype Terms = Terms(plain: seq<Expr>, negated: seq<Expr>)

  predicate Contains(same: Equality, es: seq<Expr>, e: Expr) {
    exists i :: 0 <= i < |es| && same(es[i], e)
  }

  function AddTerm(same: Equality, terms: Terms, e: Expr): Terms {
    var c := CountNegationDepth(e);
    if c.1 then (if Contains(same, terms.negated, c.0) then terms else terms.(negated := terms.negated + [c.0]))
    else (if Contains(same, terms.plain, c.0) then terms else terms.(plain := terms.plain + [c.0]))
  }

  function Collect(same: Equality, op: NAryOp, es: seq<Expr>, terms: Terms): Terms
    decreases es
  {
    if es == [] then terms else
      var next := if es[0].NAry? && es[0].op == op then Collect(same, op, es[0].es, terms) else AddTerm(same, terms, es[0]);
      Collect(same, op, es[1..], next)
  }

  /** collectExpressionTerms */
  method CollectTerms(same: Equality, op: NAryOp, es: seq<Expr>, plain: seq<Expr>, negated: seq<Expr>)
    returns (plain': seq<Expr>, negated': seq<Expr>)
    ensures Terms(plain', negated') == Collect(same, op, es, Terms(plain, negated))
    decreases es
  {
    plain', negated' := plain, negated;
    for i := 0 to |es|
      invariant Collect(same, op, es[i..], Terms(plain', negated')) == Collect(same, op, es, Terms(plain, negated))
    {
      var e := es[i];
      assert es[i..][1..] == es[i + 1..];
      if e.NAry? && e.op == op {
        plain', negated' := CollectTerms(same, op, e.es, plain', negated');
      } else {
        var c := CountNegationDepth(e);
        if c.1 {
          if !Contains(same, negated', c.0) {
            negated' := negated' + [c.0];
          }
        } else if !Contains(same, plain', c.0) {
          plain' := plain' + [c.0];
        }
      }
    }
  }

  /** The literal that decides a chain of `op`, and the one that does not matter in it. */
  function Deciding(op: NAryOp): Expr { if op.ShortCircuitOr? then True else False }

  function Neutral(op: NAryOp): Expr { if op.ShortCircuitOr? then False else True }

  predicate Decided(same: Equality, op: NAryOp, terms: Terms) {
    || Deciding(op) in terms.plain
    || Neutral(op) in terms.negated
    || exists i :: 0 <= i < |terms.negated| && Contains(same, terms.plain, terms.negated[i])
  }

  function Kept(es: seq<Expr>): seq<Expr> {
    if es == [] then [] else (if es[0] == True || es[0] == False then [] else [es[0]]) + Kept(es[1..])
  }

  function Negated(es: seq<Expr>): seq<Expr> {
    if es == [] then [] else [Negate(es[0])] + Negated(es[1..])
  }

  /** removeIdenticalTerms; None where AstContext::nary would trip over an empty list. */
  function RemoveIdentical(same: Equality, op: NAryOp, es: seq<Expr>): Option<Expr> {
    if !IsLogical(op) then Some(NAry(op, es)) else
      var terms := Collect(same, op, es, Terms([], []));
      if Decided(same, op, terms) then Some(Deciding(op)) else
        var left := Negated(Kept(terms.negated)) + Kept(terms.plain);
        if left == [] then None else Some(NAry(op, left))
  }

  lemma {:induction false} KeptSnoc(es: seq<Expr>, e: Expr)
    ensures Kept(es + [e]) == Kept(es) + if e == True || e == False then [] else [e]
    decreases |es|
  {
    if es == [] {
      assert es + [e] == [e];
    } else {
      KeptSnoc(es[1..], e);
      assert (es + [e])[1..] == es[1..] + [e];
    }
  }

  lemma {:induction false} NegatedConcat(a: seq<Expr>, b: seq<Expr>)
    ensures Negated(a + b) == Negated(a) + Negated(b)
    decreases |a|
  {
    if a == [] {
      assert a + b == b;
    } else {
      NegatedConcat(a[1..], b);
      assert (a + b)[1..] == a[1..] + b;
    }
  }

  lemma NegatedSnoc(es: seq<Expr>, i: nat)
    requires i < |es|
    ensures Negated(Kept(es[..i + 1])) == Negated(Kept(es[..i])) + if es[i] == True || es[i] == False then [] else [Negate(es[i])]
  {
    assert es[..i + 1] == es[..i] + [es[i]];
    KeptSnoc(es[..i], es[i]);
    NegatedConcat(Kept(es[..i]), if es[i] == True || es[i] == False then [] else [es[i]]);
  }

  /** The loop over negated terms: None if one of them decides the chain. */
  method TakeNegated(same: Equality, op: NAryOp, plain: seq<Expr>, negated: seq<Expr>) returns (r: Option<seq<Expr>>)
    requires IsLogical(op)
    ensures r.None? <==> Neutral(op) in negated || exists i :: 0 <= i < |negated| && Contains(same, plain, negated[i])
    ensures r.Some? ==> r.value == Negated(Kept(negated))
  {
    var expressions: seq<Expr> := [];
    for i := 0 to |negated|
      invariant expressions == Negated(Kept(negated[..i]))
      invariant forall j :: 0 <= j < i ==> negated[j] != Neutral(op) && !Contains(same, plain, negated[j])
    {
      var e := negated[i];
      NegatedSnoc(negated, i);
      if Contains(same, plain, e) {
        return None;
      }
      if e == True {
        if op.ShortCircuitAnd? {
          return None;
        }
      } else if e == False {
        if op.ShortCircuitOr? {
          return None;
        }
      } else {
        expressions := expressions + [Negate(e)];
      }
    }
    assert negated[..|negated|] == negated;
    r := Some(expressions);
  }

  /** The loop over the other terms. */
  method TakePlain(op: NAryOp, plain: seq<Expr>) returns (r: Option<seq<Expr>>)
    requires IsLogical(op)
    ensures r.None? <==> Deciding(op) in plain
    ensures r.Some? ==> r.value == Kept(plain)
  {
    var expressions: seq<Expr> := [];
    for i := 0 to |plain|
      invariant expressions == Kept(plain[..i])
      invariant forall j :: 0 <= j < i ==> plain[j] != Deciding(op)
    {
      var e := plain[i];
      assert plain[..i + 1] == plain[..i] + [e];
      KeptSnoc(plain[..i], e);
      if e == True {
        if op.ShortCircuitOr? {
          return None;
        }
      } else if e == False {
        if op.ShortCircuitAnd? {
          return None;
        }
      } else {
        expressions := expressions + [e];
      }
    }
    assert plain[..|plain|] == plain;
    r := Some(expressions);
  }

  method RemoveIdenticalTerms(same: Equality, op: NAryOp, es: seq<Expr>) returns (r: Option<Expr>)
    ensures r == RemoveIdentical(same, op, es)
  {
    if !IsLogical(op) {
      return Some(NAry(op, es));
    }
    var plain, negated := CollectTerms(same, op, es, [], []);
    var first := TakeNegated(same, op, plain, negated);
    if first.None? {
      return Some(Deciding(op));
    }
    var second := TakePlain(op, plain);
    if second.None? {
      return Some(Deciding(op));
    }
    var expressions := first.value + second.value;
    r := if expressions == [] then None else Some(NAry(op, expressions));
  }

  // ----- Meaning of the terms -----

  /** The value of a chain from its terms: for `or` some term holds, for `and` all do. */
  ghost predicate SomeTerm(terms: Terms, v: Valuation) {
    AnyHolds(terms.plain, v) || !AllHold(terms.negated, v)
  }

  ghost predicate EveryTerm(terms: Terms, v: Valuation) {
    AllHold(terms.plain, v) && !AnyHolds(terms.negated, v)
  }

  ghost predicate ChainHolds(op: NAryOp, terms: Terms, v: Valuation) {
    if op.ShortCircuitOr? then SomeTerm(terms, v) else EveryTerm(terms, v)
  }

  lemma SingleHolds(e: Expr, v: Valuation)
    ensures AllHold([e], v) <==> Holds(e, v)
    ensures AnyHolds([e], v) <==> Holds(e, v)
  {
    assert [e][0] == e;
  }

  lemma AddTermHolds(same: Equality, op: NAryOp, terms: Terms, e: Expr, v: Valuation)
    requires ByAddress(same) && IsLogical(op)
    ensures ChainHolds(op, AddTerm(same, terms, e), v)
       <==> if op.ShortCircuitOr? then ChainHolds(op, terms, v) || Holds(e, v) else ChainHolds(op, terms, v) && Holds(e, v)
  {
    var c := CountNegationDepth(e);
    SingleHolds(c.0, v);
    AllHoldConcat(terms.negated, [c.0], v);
    AnyHoldsConcat(terms.negated, [c.0], v);
    AllHoldConcat(terms.plain, [c.0], v);
    AnyHoldsConcat(terms.plain, [c.0], v);
  }

  lemma {:induction false} CollectHolds(same: Equality, op: NAryOp, es: seq<Expr>, terms: Terms, v: Valuation)
    requires ByAddress(same) && IsLogical(op)
    ensures ChainHolds(op, Collect(same, op, es, terms), v)
       <==> if op.ShortCircuitOr? then ChainHolds(op, terms, v) || AnyHolds(es, v) else ChainHolds(op, terms, v) && AllHold(es, v)
    decreases es
  {
    if es != [] {
      var e, rest := es[0], es[1..];
      assert es == [e] + rest;
      SingleHolds(e, v);
      AllHoldConcat([e], rest, v);
      AnyHoldsConcat([e], rest, v);
      if e.NAry? && e.op == op {
        CollectHolds(same, op, e.es, terms, v);
        AndOrHold(e.es, v);
        CollectHolds(same, op, rest, Collect(same, op, e.es, terms), v);
      } else {
        AddTermHolds(same, op, terms, e, v);
        CollectHolds(same, op, rest, AddTerm(same, terms, e), v);
      }
    }
  }

  lemma {:induction false} KeptHolds(op: NAryOp, es: seq<Expr>, v: Valuation)
    requires IsLogical(op)
    requires Deciding(op) !in es
    ensures op.ShortCircuitOr? ==> (AnyHolds(Kept(es), v) <==> AnyHolds(es, v))
    ensures op.ShortCircuitAnd? ==> (AllHold(Kept(es), v) <==> AllHold(es, v))
    decreases es
  {
    if es != [] {
      var e, rest := es[0], es[1..];
      assert es == [e] + rest;
      SingleHolds(e, v);
      AllHoldConcat([e], rest, v);
      AnyHoldsConcat([e], rest, v);
      KeptHolds(op, rest, v);
      if e == True || e == False {
        assert Kept(es) == Kept(rest);
      } else {
        AllHoldConcat([e], Kept(rest), v);
        AnyHoldsConcat([e], Kept(rest), v);
      }
    }
  }

  lemma {:induction false} NegatedHolds(es: seq<Expr>, v: Valuation)
    ensures AllHold(Negated(es), v) <==> !AnyHolds(es, v)
    ensures AnyHolds(Negated(es), v) <==> !AllHold(es, v)
    decreases es
  {
    if es != [] {
      assert es == [es[0]] + es[1..];
      SingleHolds(es[0], v);
      SingleHolds(Negate(es[0]), v);
      AllHoldConcat([es[0]], es[1..], v);
      AnyHoldsConcat([es[0]], es[1..], v);
      AllHoldConcat([Negate(es[0])], Negated(es[1..]), v);
      AnyHoldsConcat([Negate(es[0])], Negated(es[1..]), v);
      NegatedHolds(es[1..], v);
    }
  }

  /** Removing terms keeps the value of the chain. */
  lemma RemoveIdenticalCorrect(same: Equality, op: NAryOp, es: seq<Expr>, v: Valuation)
    requires ByAddress(same) && RemoveIdentical(same, op, es).Some?
    ensures Eval(RemoveIdentical(same, op, es).value, v) == Eval(NAry(op, es), v)
  {
    if IsLogical(op) {
      var terms := Collect(same, op, es, Terms([], []));
      CollectHolds(same, op, es, Terms([], []), v);
      AndOrHold(es, v);
      if Decided(same, op, terms) {
        DecidedHolds(same, op, terms, v);
      } else {
        KeptTermsHold(same, op, terms, v);
      }
    }
  }

  lemma KeptTermsHold(same: Equality, op: NAryOp, terms: Terms, v: Valuation)
    requires IsLogical(op) && !Decided(same, op, terms)
    ensures Holds(NAry(op, Negated(Kept(terms.negated)) + Kept(terms.plain)), v) <==> ChainHolds(op, terms, v)
  {
    var negated, plain := Kept(terms.negated), Kept(terms.plain);
    KeptHolds(op, terms.plain, v);
    KeptHolds(if op.ShortCircuitOr? then ShortCircuitAnd else ShortCircuitOr, terms.negated, v);
    NegatedHolds(negated, v);
    AllHoldConcat(Negated(negated), plain, v);
    AnyHoldsConcat(Negated(negated), plain, v);
    AndOrHold(Negated(negated) + plain, v);
  }

  lemma DecidedHolds(same: Equality, op: NAryOp, terms: Terms, v: Valuation)
    requires ByAddress(same) && IsLogical(op) && Decided(same, op, terms)
    ensures ChainHolds(op, terms, v) <==> op.ShortCircuitOr?
  {
    if i :| 0 <= i < |terms.negated| && Contains(same, terms.plain, terms.negated[i]) {
      var j :| 0 <= j < |terms.plain| && same(terms.plain[j], terms.negated[i]);
      assert Holds(terms.plain[j], v) <==> Holds(terms.negated[i], v);
    }
  }

  // ----- Sizes, which bound the recursion -----

  function TermsSize(terms: Terms): nat {
    D.SumSizes(terms.plain) + D.SumSizes(terms.negated) + |terms.negated|
  }

  lemma {:induction false} NegationSize(e: Expr)
    ensures D.ExprSize(CountNegationDepth(e).0) + (if CountNegationDepth(e).1 then 1 else 0) <= D.ExprSize(e)
    decreases e
  {
    if e.Not? {
      NegationSize(e.e);
    }
  }

  lemma {:induction false} CollectSize(same: Equality, op: NAryOp, es: seq<Expr>, terms: Terms)
    ensures TermsSize(Collect(same, op, es, terms)) <= TermsSize(terms) + D.SumSizes(es)
    decreases es
  {
    if es != [] {
      var e := es[0];
      if e.NAry? && e.op == op {
        CollectSize(same, op, e.es, terms);
        CollectSize(same, op, es[1..], Collect(same, op, e.es, terms));
      } else {
        var c := CountNegationDepth(e).0;
        NegationSize(e);
        D.SumSizesConcat(terms.plain, [c]);
        D.SumSizesConcat(terms.negated, [c]);
        D.SumSizesSingle(c);
        CollectSize(same, op, es[1..], AddTerm(same, terms, e));
      }
    }
  }

  lemma {:induction false} KeptSize(es: seq<Expr>)
    ensures D.SumSizes(Kept(es)) <= D.SumSizes(es) && |Kept(es)| <= |es|
    decreases es
  {
    if es != [] {
      KeptSize(es[1..]);
      D.SumSizesConcat([es[0]], Kept(es[1..]));
      D.SumSizesSingle(es[0]);
      assert [] + Kept(es[1..]) == Kept(es[1..]);
    }
  }

  lemma {:induction false} NegatedSize(es: seq<Expr>)
    ensures D.SumSizes(Negated(es)) <= D.SumSizes(es) + |es|
    decreases es
  {
    if es != [] {
      NegatedSize(es[1..]);
      D.SumSizesConcat([Negate(es[0])], Negated(es[1..]));
      D.SumSizesSingle(Negate(es[0]));
    }
  }

  /** Removing terms makes no chain larger. */
  lemma RemoveIdenticalSize(same: Equality, op: NAryOp, es: seq<Expr>)
    requires RemoveIdentical(same, op, es).Some?
    ensures var r := RemoveIdentical(same, op, es).value;
      if r.NAry? then r.op == op && D.SumSizes(r.es) <= D.SumSizes(es) else r == Deciding(op) && IsLogical(op)
  {
    if IsLogical(op) {
      var terms := Collect(same, op, es, Terms([], []));
      CollectSize(same, op, es, Terms([], []));
      KeptSize(terms.negated);
      KeptSize(terms.plain);
      NegatedSize(Kept(terms.negated));
      D.SumSizesConcat(Negated(Kept(terms.negated)), Kept(terms.plain));
    }
  }

  // ----- The visitor -----

  /** The operators that a negation flips: up to ComparisonMax, which is already the bitwise and. */
  predicate Flippable(op: NAryOp) {
    IsComparison(op) || op.BitwiseAnd?
  }

  /** The operator whose number differs in the lowest bit. */
  function Flipped(op: NAryOp): NAryOp
    requires Flippable(op)
  {
    match op
    case SmallerThan => GreaterOrEqualTo
    case GreaterOrEqualTo => SmallerThan
    case GreaterThan => SmallerOrEqualTo
    case SmallerOrEqualTo => GreaterThan
    case Equal => NotEqual
    case NotEqual => Equal
    case BitwiseAnd => BitwiseXor
  }

  /** visitUnaryOperator for a logical negation, once its operand has been visited. */
  function NegateVisited(e: Expr): Expr {
    if e.Not? then e.e
    else if e.NAry? && |e.es| == 2 && Flippable(e.op) then NAry(Flipped(e.op), e.es)
    else Not(e)
  }

  predicate IsLiteral(e: Expr) { e == True || e == False }

  /** A chain that was an operand itself became a literal: whoever uses it is visited again. */
  predicate Revisited(op: NAryOp, es: seq<Expr>, left: seq<Expr>, visited: seq<Expr>) {
    IsLogical(op) && exists k :: 0 <= k < |left| && k < |visited| && left[k] in es && IsLiteral(visited[k])
  }

  /** The chain over visited operands, some of them literals by now; None if no term is left. */
  function Again(op: NAryOp, visited: seq<Expr>): Option<Expr> {
    if Deciding(op) in visited then Some(Deciding(op))
    else if Kept(visited) == [] then None
    else Some(NAry(op, Kept(visited)))
  }

  /** The expression that takes the place of `e`; None where removeIdenticalTerms fails, the first time or again. */
  function Simplify(same: Equality, e: Expr): Option<Expr>
    decreases D.ExprSize(e), 0, 0
  {
    match e
    case Not(x) =>
      var r := Simplify(same, x);
      if r.None? then None else Some(NegateVisited(r.value))
    case NAry(op, es) =>
      var r := RemoveIdentical(same, op, es);
      if r.None? then None else
        RemoveIdenticalSize(same, op, es);
        if !r.value.NAry? then r else
          var visited := SimplifyAll(same, r.value.es);
          if visited.None? then None
          else if Revisited(op, es, r.value.es, visited.value) then Again(op, visited.value)
          else Some(NAry(op, visited.value))
    case _ => Some(e)
  }

  function SimplifyAll(same: Equality, es: seq<Expr>): Option<seq<Expr>>
    decreases D.SumSizes(es), 1, |es|
  {
    if es == [] then Some([]) else
      var first, rest := Simplify(same, es[0]), SimplifyAll(same, es[1..]);
      if first.None? || rest.None? then None else Some([first.value] + rest.value)
  }

  /**
   visitNAryOperator and visitUnaryOperator: the operands of what is left of a chain are visited after it, and the
   chain once more if one of them became a literal.
   */
  method Visit(same: Equality, e: Expr) returns (r: Option<Expr>)
    ensures r == Simplify(same, e)
    decreases D.ExprSize(e), 0
  {
    match e {
      case Not(x) =>
        var operand := Visit(same, x);
        r := if operand.None? then None else Some(NegateVisited(operand.value));
      case NAry(op, es) =>
        var result := RemoveIdenticalTerms(same, op, es);
        if result.None? || !result.value.NAry? {
          return result;
        }
        RemoveIdenticalSize(same, op, es);
        var visited := VisitAll(same, result.value.es);
        if visited.None? {
          return None;
        }
        if !Revisited(op, es, result.value.es, visited.value) {
          return Some(NAry(op, visited.value));
        }
        var again := TakePlain(op, visited.value);
        r := if again.None? then Some(Deciding(op)) else if again.value == [] then None else Some(NAry(op, again.value));
      case _ => r := Some(e);
    }
  }

  method VisitAll(same: Equality, es: seq<Expr>) returns (r: Option<seq<Expr>>)
    ensures r == SimplifyAll(same, es)
    decreases D.SumSizes(es), 1
  {
    var visited: seq<Expr> := [];
    assert es[0..] == es;
    for i := 0 to |es|
      invariant SimplifyAll(same, es) == Prepended(visited, SimplifyAll(same, es[i..]))
    {
      SumSizesDrop(es, i);
      var e := Visit(same, es[i]);
      assert es[i..][0] == es[i] && es[i..][1..] == es[i + 1..];
      if e.None? {
        return None;
      }
      PrependedStep(visited, e.value, SimplifyAll(same, es[i + 1..]));
      visited := visited + [e.value];
    }
    assert visited + [] == visited;
    r := Some(visited);
  }

  ghost function Prepended(first: seq<Expr>, rest: Option<seq<Expr>>): Option<seq<Expr>> {
    if rest.None? then None else if first == [] then rest else Some(first + rest.value)
  }

  lemma PrependedStep(first: seq<Expr>, e: Expr, rest: Option<seq<Expr>>)
    ensures Prepended(first, Prepended([e], rest)) == Prepended(first + [e], rest)
  {
    if rest.Some? {
      assert first + ([e] + rest.value) == (first + [e]) + rest.value;
      assert first == [] ==> first + [e] == [e];
    }
  }

  lemma {:induction false} SumSizesDrop(es: seq<Expr>, i: nat)
    requires i < |es|
    ensures D.ExprSize(es[i]) <= D.SumSizes(es)
    decreases i
  {
    if i > 0 {
      SumSizesDrop(es[1..], i - 1);
    }
  }

  // ----- Meaning of the result -----

  /** The expression is 0 or 1 in every state. */
  predicate Boolean(e: Expr) {
    match e
    case Leaf(_, boolean, _) => boolean
    case Number(n) => n == 0 || n == 1
    case NAry(op, es) =>
      IsLogical(op) || (IsComparison(op) && |es| == 2)
      || ((op.BitwiseAnd? || op.BitwiseXor? || op.BitwiseOr?) && forall i :: 0 <= i < |es| ==> Boolean(es[i]))
    case _ => true
  }

  predicate BitwisePair(e: Expr) {
    e.NAry? && e.op.BitwiseAnd? && |e.es| == 2
  }

  /** Only boolean expressions are negated, and no bitwise and of two operands is. */
  predicate Regular(e: Expr) {
    match e
    case Not(x) => Boolean(x) && !BitwisePair(x) && Regular(x)
    case NAry(_, es) => forall i :: 0 <= i < |es| ==> Regular(es[i])
    case _ => true
  }

  ghost predicate AllRegular(es: seq<Expr>) {
    forall i :: 0 <= i < |es| ==> Regular(es[i])
  }

  ghost predicate Bits(xs: seq<int>) {
    forall i :: 0 <= i < |xs| ==> xs[i] == 0 || xs[i] == 1
  }

  /** Bitwise operators on bits: `and` is their product, `xor` of two tells whether they differ. */
  ghost predicate Bitwise(v: Valuation) {
    && (forall xs :: Bits(xs) ==> v.arith(BitwiseAnd, xs) == Bit(forall i :: 0 <= i < |xs| ==> xs[i] == 1))
    && (forall xs :: Bits(xs) ==> Bits([v.arith(BitwiseXor, xs), v.arith(BitwiseOr, xs)]))
    && (forall x, y :: Bits([x, y]) ==> v.arith(BitwiseXor, [x, y]) == Bit(x != y))
  }

  lemma {:induction false} BooleanBit(e: Expr, v: Valuation)
    requires Boolean(e) && Bitwise(v)
    ensures Eval(e, v) == 0 || Eval(e, v) == 1
    decreases e
  {
    if e.NAry? && !IsLogical(e.op) && !IsComparison(e.op) {
      var xs := seq(|e.es|, i requires 0 <= i < |e.es| => Eval(e.es[i], v));
      forall i | 0 <= i < |xs| ensures xs[i] == 0 || xs[i] == 1 {
        BooleanBit(e.es[i], v);
      }
      assert Bits(xs);
      var rs := [v.arith(BitwiseXor, xs), v.arith(BitwiseOr, xs)];
      assert rs[0] == v.arith(BitwiseXor, xs) && rs[1] == v.arith(BitwiseOr, xs);
    }
  }

  /** Equal operands give equal results. */
  lemma EvalCongruence(op: NAryOp, es: seq<Expr>, fs: seq<Expr>, v: Valuation)
    requires |es| == |fs| && forall i :: 0 <= i < |es| ==> Eval(es[i], v) == Eval(fs[i], v)
    ensures Eval(NAry(op, es), v) == Eval(NAry(op, fs), v)
  {
    assert seq(|es|, i requires 0 <= i < |es| => Eval(es[i], v)) == seq(|fs|, i requires 0 <= i < |fs| => Eval(fs[i], v));
  }

  /** A term that may stand under a negation. */
  predicate Negatable(e: Expr) {
    Regular(e) && Boolean(e) && !BitwisePair(e)
  }

  ghost predicate TermsRegular(terms: Terms) {
    && (forall i :: 0 <= i < |terms.plain| ==> Regular(terms.plain[i]))
    && (forall i :: 0 <= i < |terms.negated| ==> Negatable(terms.negated[i]))
  }

  lemma {:induction false} NegationRegular(e: Expr)
    requires Regular(e)
    ensures Regular(CountNegationDepth(e).0)
    ensures e.Not? ==> Negatable(CountNegationDepth(e).0)
    decreases e
  {
    if e.Not? {
      NegationRegular(e.e);
    }
  }

  lemma {:induction false} CollectRegular(same: Equality, op: NAryOp, es: seq<Expr>, terms: Terms)
    requires AllRegular(es) && TermsRegular(terms)
    ensures TermsRegular(Collect(same, op, es, terms))
    decreases es
  {
    if es != [] {
      var e := es[0];
      if e.NAry? && e.op == op {
        CollectRegular(same, op, e.es, terms);
        CollectRegular(same, op, es[1..], Collect(same, op, e.es, terms));
      } else {
        NegationRegular(e);
        CollectRegular(same, op, es[1..], AddTerm(same, terms, e));
      }
    }
  }

  lemma {:induction false} KeptRegular(es: seq<Expr>)
    ensures AllRegular(es) ==> AllRegular(Kept(es))
    ensures (forall i :: 0 <= i < |es| ==> Negatable(es[i])) ==> AllRegular(Negated(Kept(es)))
    decreases es
  {
    if es != [] {
      KeptRegular(es[1..]);
      assert [] + Kept(es[1..]) == Kept(es[1..]);
    }
  }

  lemma RemoveIdenticalRegular(same: Equality, op: NAryOp, es: seq<Expr>)
    requires AllRegular(es) && RemoveIdentical(same, op, es).Some?
    ensures Regular(RemoveIdentical(same, op, es).value)
  {
    if IsLogical(op) {
      var terms := Collect(same, op, es, Terms([], []));
      CollectRegular(same, op, es, Terms([], []));
      KeptRegular(terms.plain);
      KeptRegular(terms.negated);
    }
  }

  lemma NegateVisitedCorrect(e: Expr, v: Valuation)
    requires Negatable(e) && Bitwise(v)
    ensures Eval(NegateVisited(e), v) == Eval(Not(e), v)
    ensures Regular(NegateVisited(e)) && Boolean(NegateVisited(e)) && !BitwisePair(NegateVisited(e))
  {
    if e.Not? {
      BooleanBit(e.e, v);
    }
  }

  /** Simplifying keeps the value of every regular expression in every state. */
  lemma {:induction false} SimplifyKeeps(same: Equality, e: Expr, v: Valuation)
    requires ByAddress(same) && Bitwise(v) && Regular(e) && Simplify(same, e).Some?
    ensures var r := Simplify(same, e).value;
      Eval(r, v) == Eval(e, v) && Regular(r) && (Boolean(e) ==> Boolean(r)) && (BitwisePair(r) ==> BitwisePair(e))
    decreases D.ExprSize(e), 0, 0
  {
    match e {
      case Not(x) =>
        SimplifyKeeps(same, x, v);
        NegateVisitedCorrect(Simplify(same, x).value, v);
      case NAry(op, es) =>
        var r := RemoveIdentical(same, op, es).value;
        RemoveIdenticalSize(same, op, es);
        RemoveIdenticalCorrect(same, op, es, v);
        RemoveIdenticalRegular(same, op, es);
        if r.NAry? {
          SimplifyAllKeeps(same, r.es, v);
          var visited := SimplifyAll(same, r.es).value;
          EvalCongruence(op, visited, r.es, v);
          if Revisited(op, es, r.es, visited) {
            AgainKeeps(op, visited, v);
          }
        }
      case _ =>
    }
  }

  lemma AgainKeeps(op: NAryOp, visited: seq<Expr>, v: Valuation)
    requires IsLogical(op) && AllRegular(visited) && Again(op, visited).Some?
    ensures var r := Again(op, visited).value; Eval(r, v) == Eval(NAry(op, visited), v) && Regular(r) && Boolean(r) && !BitwisePair(r)
  {
    AndOrHold(visited, v);
    if Deciding(op) in visited {
      var i :| 0 <= i < |visited| && visited[i] == Deciding(op);
      assert Holds(visited[i], v) <==> op.ShortCircuitOr?;
    } else {
      KeptHolds(op, visited, v);
      KeptRegular(visited);
      AndOrHold(Kept(visited), v);
    }
  }

  lemma {:induction false} SimplifyAllKeeps(same: Equality, es: seq<Expr>, v: Valuation)
    requires ByAddress(same) && Bitwise(v) && AllRegular(es) && SimplifyAll(same, es).Some?
    ensures var rs := SimplifyAll(same, es).value;
      && |rs| == |es|
      && forall i :: 0 <= i < |es| ==> Eval(rs[i], v) == Eval(es[i], v) && Regular(rs[i]) && (Boolean(es[i]) ==> Boolean(rs[i]))
    decreases D.SumSizes(es), 1, |es|
  {
    if es != [] {
      SimplifyKeeps(same, es[0], v);
      SimplifyAllKeeps(same, es[1..], v);
    }
  }

  /** Flipping is right for the six comparisons and for them only: the bitwise and is at the end of their range. */
  lemma FlipExact(op: NAryOp)
    requires Flippable(op)
    ensures IsComparison(op) <==>
              forall a, b, v :: Boolean(a) && Boolean(b) && Bitwise(v) ==>
                Eval(NegateVisited(NAry(op, [a, b])), v) == Eval(Not(NAry(op, [a, b])), v)
  {
    if op.BitwiseAnd? {
      BitStateBitwise();
      FlipFails(BitState());
    } else {
      forall a, b, v ensures Eval(NegateVisited(NAry(op, [a, b])), v) == Eval(Not(NAry(op, [a, b])), v) {
        ComparisonFlips(op, a, b, v);
      }
    }
  }

  lemma ComparisonFlips(op: NAryOp, a: Expr, b: Expr, v: Valuation)
    requires IsComparison(op)
    ensures Eval(NegateVisited(NAry(op, [a, b])), v) == Eval(Not(NAry(op, [a, b])), v)
  {
    assert [a, b][0] == a && [a, b][1] == b;
  }

  ghost function BitState(): Valuation {
    Valuation(_ => 0, (o: NAryOp, xs: seq<int>) => if o.BitwiseXor? then Bit(|xs| == 2 && xs[0] != xs[1])
                                                   else Bit(o.BitwiseAnd? && forall i :: 0 <= i < |xs| ==> xs[i] == 1))
  }

  lemma BitStateBitwise()
    ensures Bitwise(BitState())
  {
    var v := BitState();
    forall xs: seq<int> | Bits(xs) ensures Bits([v.arith(BitwiseXor, xs), v.arith(BitwiseOr, xs)]) {
    }
    forall x, y | Bits([x, y]) ensures v.arith(BitwiseXor, [x, y]) == Bit(x != y) {
      assert [x, y][0] == x && [x, y][1] == y;
    }
  }

  /** The negation of `false & false` becomes `false ^ false`. */
  lemma FlipFails(v: Valuation)
    requires Bitwise(v)
    ensures Eval(NegateVisited(NAry(BitwiseAnd, [False, False])), v) != Eval(Not(NAry(BitwiseAnd, [False, False])), v)
  {
    assert Bits([0, 0]);
    var es := [False, False];
    assert seq(2, i requires 0 <= i < 2 => Eval(es[i], v)) == [0, 0];
    assert [0, 0][0] == 0;
  }

  /** A state in which everything that need not be a bit is none. */
  ghost function WideState(): Valuation {
    Valuation(_ => 2, (o: NAryOp, xs: seq<int>) =>
      if !Bits(xs) || !(o.BitwiseAnd? || o.BitwiseXor? || o.BitwiseOr?) then 2 else BitState().arith(o, xs))
  }

  lemma WideStateBitwise()
    ensures Bitwise(WideState())
  {
    BitStateBitwise();
    var v := WideState();
    forall xs: seq<int> | Bits(xs) ensures Bits([v.arith(BitwiseXor, xs), v.arith(BitwiseOr, xs)]) {
      assert Bits([BitState().arith(BitwiseXor, xs), BitState().arith(BitwiseOr, xs)]);
    }
  }

  lemma {:induction false} WideValue(e: Expr)
    requires !Boolean(e)
    ensures Eval(e, WideState()) != 0 && Eval(e, WideState()) != 1
    decreases e
  {
    if e.NAry? && (e.op.BitwiseAnd? || e.op.BitwiseXor? || e.op.BitwiseOr?) {
      var i :| 0 <= i < |e.es| && !Boolean(e.es[i]);
      WideValue(e.es[i]);
      var xs := seq(|e.es|, j requires 0 <= j < |e.es| => Eval(e.es[j], WideState()));
      assert xs[i] != 0 && xs[i] != 1;
      assert !Bits(xs);
    }
  }

  /** Dropping a double negation is right in every state exactly if the inner expression is always 0 or 1. */
  lemma DoubleNegationExact(e: Expr)
    ensures Boolean(e) <==> forall v :: Bitwise(v) ==> Eval(NegateVisited(Not(e)), v) == Eval(Not(Not(e)), v)
  {
    if Boolean(e) {
      forall v | Bitwise(v) ensures Eval(NegateVisited(Not(e)), v) == Eval(Not(Not(e)), v) {
        BooleanBit(e, v);
      }
    } else {
      WideStateBitwise();
      WideValue(e);
      assert Eval(NegateVisited(Not(e)), WideState()) != Eval(Not(Not(e)), WideState());
    }
  }
}
