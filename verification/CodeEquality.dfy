/**
 CodeEquality: the comparison of expressions that the combiners use, and what merging neighbouring `if`s by it, or over a
 branch that changes its own condition, does to a program.
 */
module CodeEquality {
  import opened Expressions
  import opened Statements
  import opened ConsecutiveCombiner
  import opened CombinerPipeline
  import D = Disjunction

  /**
   How leaves compare: by their own comparison, and by kind and number of operands alone where the default comparison gets
   to see them.
   */
  datatype Leaves = Leaves(equal: (Expr, Expr) -> bool, alike: (Expr, Expr) -> bool)

  /** The loops of defaultEqualityCheck that look through chains of one operand. */
  function Unwrapped(e: Expr): (r: Expr)
    ensures D.ExprSize(r) <= D.ExprSize(e) && !(r.NAry? && |r.es| == 1)
    ensures e.NAry? && |e.es| == 1 ==> D.ExprSize(r) < D.ExprSize(e)
    decreases e
  {
    if e.NAry? && |e.es| == 1 then
      D.SumSizesSingle(e.es[0]);
      assert e.es == [e.es[0]];
      Unwrapped(e.es[0])
    else e
  }

  predicate IsToken(e: Expr) { e == True || e == False }

  /** The `==` of expressions. */
  predicate CodeEqual(leaves: Leaves, a: Expr, b: Expr)
    decreases D.ExprSize(a), 1
  {
    match a
    case Not(x) => b.Not? && CodeEqual(leaves, x, b.e)
    case NAry(_, _) => DefaultEqual(leaves, a, b)
    case Number(n) => b.Number? && b.n == n
    case _ => if IsToken(a) && IsToken(b) then a == b else !b.Not? && !b.NAry? && !b.Number? && leaves.equal(a, b)
  }

  /** defaultEqualityCheck: kinds and operands are compared, but not the operator of a chain. */
  predicate DefaultEqual(leaves: Leaves, a: Expr, b: Expr)
    decreases D.ExprSize(a), 0
  {
    var x, y := Unwrapped(a), Unwrapped(b);
    match x
    case Not(e) => y.Not? && (e == y.e || CodeEqual(leaves, e, y.e))
    case NAry(_, es) =>
      y.NAry? && |es| == |y.es| && forall i :: 0 <= i < |es| ==> (OperandSmaller(es, i); es[i] == y.es[i] || CodeEqual(leaves, es[i], y.es[i]))
    case Number(_) => y.Number?
    case _ => (IsToken(x) && IsToken(y)) || (!y.Not? && !y.NAry? && !y.Number? && leaves.alike(x, y))
  }

  lemma {:induction false} OperandSmaller(es: seq<Expr>, i: nat)
    requires i < |es|
    ensures D.ExprSize(es[i]) <= D.SumSizes(es)
    decreases i
  {
    if i > 0 {
      OperandSmaller(es[1..], i - 1);
    }
  }

  function ByCode(leaves: Leaves): Equality {
    (a, b) => CodeEqual(leaves, a, b)
  }

  // ----- What the comparison does not see -----

  function Less(a: Expr, b: Expr): Expr { NAry(SmallerThan, [a, b]) }

  function NotLess(a: Expr, b: Expr): Expr { NAry(GreaterOrEqualTo, [a, b]) }

  /** `a < b` equals `a >= b`. */
  lemma OperatorIgnored(leaves: Leaves, a: Expr, b: Expr)
    ensures CodeEqual(leaves, Less(a, b), NotLess(a, b))
  {
  }

  /** A chain of one operand equals a chain of any other literal or number. */
  lemma SingleOperandIgnored(leaves: Leaves, m: int, n: int)
    ensures CodeEqual(leaves, And([Number(m)]), And([Number(n)]))
    ensures CodeEqual(leaves, And([True]), And([False]))
  {
    UnwrapSingle(Number(m));
    UnwrapSingle(Number(n));
    UnwrapSingle(True);
    UnwrapSingle(False);
  }

  lemma UnwrapSingle(e: Expr)
    requires !e.NAry?
    ensures Unwrapped(And([e])) == e
  {
    assert [e][0] == e && Unwrapped(e) == e;
  }

  /** So it identifies conditions of different truth value. */
  lemma NotSound(leaves: Leaves)
    ensures !Sound(ByCode(leaves))
  {
    var v := Valuation(_ => 0, (_, _) => 0);
    var same := ByCode(leaves);
    OperatorIgnored(leaves, Number(0), Number(1));
    assert same(Less(Number(0), Number(1)), NotLess(Number(0), Number(1)));
    LessValue(0, 1, v);
  }

  lemma LessValue(m: int, n: int, v: Valuation)
    ensures Holds(Less(Number(m), Number(n)), v) <==> m < n
    ensures Holds(NotLess(Number(m), Number(n)), v) <==> m >= n
  {
    var es := [Number(m), Number(n)];
    assert es[0] == Number(m) && es[1] == Number(n);
    assert Eval(es[0], v) == m && Eval(es[1], v) == n;
    assert Eval(NAry(SmallerThan, es), v) == Bit(Compare(SmallerThan, Eval(es[0], v), Eval(es[1], v)));
    assert Eval(NAry(GreaterOrEqualTo, es), v) == Bit(Compare(GreaterOrEqualTo, Eval(es[0], v), Eval(es[1], v)));
  }

  // ----- What it sees -----

  /** The two are of one kind, with as many operands; numbers, literals and leaves are equal. */
  predicate NodesAlike(leaves: Leaves, x: Expr, y: Expr) {
    if x.Not? || y.Not? then x.Not? && y.Not?
    else if x.NAry? || y.NAry? then x.NAry? && y.NAry? && |x.es| == |y.es|
    else if x.Number? || y.Number? then x == y
    else if IsToken(x) && IsToken(y) then x == y
    else leaves.equal(x, y)
  }

  /** Wherever one has a part, the other has one like it. */
  ghost predicate AlikeThroughout(leaves: Leaves, a: Expr, b: Expr) {
    forall path :: Part(a, path).Some? ==>
      Part(b, path).Some? && NodesAlike(leaves, Part(a, path).value, Part(b, path).value)
  }

  /** No part is a chain of one operand. */
  ghost predicate NoSingles(e: Expr) {
    forall path :: Part(e, path).Some? ==> !(Part(e, path).value.NAry? && |Part(e, path).value.es| == 1)
  }

  ghost predicate Reflexive(leaves: Leaves) {
    forall e :: leaves.equal(e, e)
  }

  predicate IsOperand(e: Expr, k: nat, x: Expr) {
    (e.Not? && k == 0 && x == e.e) || (e.NAry? && k < |e.es| && x == e.es[k])
  }

  lemma PartOfOperand(e: Expr, k: nat, x: Expr, path: seq<nat>)
    requires IsOperand(e, k, x)
    ensures Part(e, [k] + path) == Part(x, path)
  {
    assert ([k] + path)[1..] == path;
  }

  lemma SinglesInOperand(e: Expr, k: nat, x: Expr)
    requires NoSingles(e) && IsOperand(e, k, x)
    ensures NoSingles(x)
  {
    forall path | Part(x, path).Some? ensures !(Part(x, path).value.NAry? && |Part(x, path).value.es| == 1) {
      PartOfOperand(e, k, x, path);
    }
  }

  lemma AlikeInOperand(leaves: Leaves, a: Expr, b: Expr, k: nat, x: Expr, y: Expr)
    requires AlikeThroughout(leaves, a, b) && IsOperand(a, k, x) && IsOperand(b, k, y)
    ensures AlikeThroughout(leaves, x, y)
  {
    forall path | Part(x, path).Some?
      ensures Part(y, path).Some? && NodesAlike(leaves, Part(x, path).value, Part(y, path).value)
    {
      PartOfOperand(a, k, x, path);
      PartOfOperand(b, k, y, path);
    }
  }

  lemma AlikeFromOperands(leaves: Leaves, a: Expr, b: Expr)
    requires NodesAlike(leaves, a, b)
    requires forall k: nat, x, y :: IsOperand(a, k, x) && IsOperand(b, k, y) ==> AlikeThroughout(leaves, x, y)
    ensures AlikeThroughout(leaves, a, b)
  {
    forall path | Part(a, path).Some?
      ensures Part(b, path).Some? && NodesAlike(leaves, Part(a, path).value, Part(b, path).value)
    {
      if path != [] {
        var k := path[0];
        var x, y := if a.Not? then a.e else a.es[k], if b.Not? then b.e else b.es[k];
        assert IsOperand(a, k, x) && IsOperand(b, k, y);
        assert Part(a, path) == Part(x, path[1..]) && Part(b, path) == Part(y, path[1..]);
      }
    }
  }

  lemma {:induction false} AlikeSelf(leaves: Leaves, e: Expr)
    requires Reflexive(leaves)
    ensures AlikeThroughout(leaves, e, e)
  {
  }

  lemma AlikeNodes(leaves: Leaves, a: Expr, b: Expr)
    requires AlikeThroughout(leaves, a, b)
    ensures NodesAlike(leaves, a, b)
  {
    assert Part(a, []) == Some(a) && Part(b, []) == Some(b);
  }

  lemma NoSingleNode(e: Expr)
    requires NoSingles(e)
    ensures !(e.NAry? && |e.es| == 1) && Unwrapped(e) == e
  {
    assert Part(e, []) == Some(e);
  }

  lemma EqualNodes(leaves: Leaves, a: Expr, b: Expr)
    requires NoSingles(a) && NoSingles(b) && CodeEqual(leaves, a, b)
    ensures NodesAlike(leaves, a, b)
  {
    NoSingleNode(a);
    NoSingleNode(b);
    match a {
      case Not(_) =>
      case NAry(_, _) => assert DefaultEqual(leaves, a, b);
      case Number(_) =>
      case _ =>
    }
  }

  lemma LeavesEqual(leaves: Leaves, a: Expr, b: Expr)
    requires NodesAlike(leaves, a, b) && !a.Not? && !a.NAry?
    ensures CodeEqual(leaves, a, b)
  {
  }

  lemma OperandsEqual(leaves: Leaves, a: Expr, b: Expr, i: nat)
    requires NoSingles(a) && NoSingles(b) && a.NAry? && b.NAry? && |a.es| == |b.es| && i < |a.es| && CodeEqual(leaves, a, b)
    ensures a.es[i] == b.es[i] || CodeEqual(leaves, a.es[i], b.es[i])
  {
    NoSingleNode(a);
    NoSingleNode(b);
    assert DefaultEqual(leaves, a, b);
  }

  /** Without chains of one operand, two expressions are equal exactly if they differ in nothing but operators of chains. */
  lemma {:induction false} EqualExact(leaves: Leaves, a: Expr, b: Expr)
    requires Reflexive(leaves) && NoSingles(a) && NoSingles(b)
    ensures CodeEqual(leaves, a, b) <==> AlikeThroughout(leaves, a, b)
    decreases D.ExprSize(a)
  {
    NoSingleNode(a);
    NoSingleNode(b);
    if AlikeThroughout(leaves, a, b) {
      AlikeNodes(leaves, a, b);
    }
    if a.Not? && b.Not? {
      NotExact(leaves, a, b);
    } else if a.NAry? && b.NAry? && |a.es| == |b.es| {
      ChainExact(leaves, a, b);
    } else if CodeEqual(leaves, a, b) {
      EqualNodes(leaves, a, b);
      AlikeFromOperands(leaves, a, b);
    } else if AlikeThroughout(leaves, a, b) {
      LeavesEqual(leaves, a, b);
    }
  }

  lemma {:induction false} NotExact(leaves: Leaves, a: Expr, b: Expr)
    requires Reflexive(leaves) && NoSingles(a) && NoSingles(b) && a.Not? && b.Not?
    ensures CodeEqual(leaves, a, b) <==> AlikeThroughout(leaves, a, b)
    decreases D.ExprSize(a), 0
  {
    SinglesInOperand(a, 0, a.e);
    SinglesInOperand(b, 0, b.e);
    EqualExact(leaves, a.e, b.e);
    if AlikeThroughout(leaves, a, b) {
      AlikeInOperand(leaves, a, b, 0, a.e, b.e);
    }
    if CodeEqual(leaves, a, b) {
      AlikeFromOperands(leaves, a, b);
    }
  }

  lemma {:induction false} ChainExact(leaves: Leaves, a: Expr, b: Expr)
    requires Reflexive(leaves) && NoSingles(a) && NoSingles(b) && a.NAry? && b.NAry? && |a.es| == |b.es|
    ensures CodeEqual(leaves, a, b) <==> AlikeThroughout(leaves, a, b)
    decreases D.ExprSize(a), 0
  {
    NoSingleNode(a);
    NoSingleNode(b);
    forall i: nat | i < |a.es|
      ensures CodeEqual(leaves, a.es[i], b.es[i]) <==> AlikeThroughout(leaves, a.es[i], b.es[i])
      ensures AlikeThroughout(leaves, a.es[i], a.es[i])
    {
      OperandSmaller(a.es, i);
      SinglesInOperand(a, i, a.es[i]);
      SinglesInOperand(b, i, b.es[i]);
      EqualExact(leaves, a.es[i], b.es[i]);
      AlikeSelf(leaves, a.es[i]);
    }
    if AlikeThroughout(leaves, a, b) {
      forall i: nat | i < |a.es| ensures AlikeThroughout(leaves, a.es[i], b.es[i]) {
        AlikeInOperand(leaves, a, b, i, a.es[i], b.es[i]);
      }
    }
    if CodeEqual(leaves, a, b) {
      forall k: nat, x, y | IsOperand(a, k, x) && IsOperand(b, k, y) ensures AlikeThroughout(leaves, x, y) {
        OperandsEqual(leaves, a, b, k);
      }
      AlikeFromOperands(leaves, a, b);
    }
  }

  // ----- Where it is right -----

  /** The same operators in the same places, and no chains of one operand. */
  predicate SameOperators(a: Expr, b: Expr)
    decreases D.ExprSize(a)
  {
    match a
    case Not(x) => b.Not? && SameOperators(x, b.e)
    case NAry(op, es) =>
      && b.NAry? && b.op == op && |es| == |b.es| != 1
      && forall i :: 0 <= i < |es| ==> (OperandSmaller(es, i); SameOperators(es[i], b.es[i]))
    case _ => !b.Not? && !b.NAry?
  }

  ghost predicate SoundLeaves(leaves: Leaves) {
    forall a, b, v :: leaves.equal(a, b) ==> Eval(a, v) == Eval(b, v)
  }

  /** On such expressions equality means equal values. */
  lemma {:induction false} SameOperatorsSound(leaves: Leaves, a: Expr, b: Expr, v: Valuation)
    requires SoundLeaves(leaves) && SameOperators(a, b) && CodeEqual(leaves, a, b)
    ensures Eval(a, v) == Eval(b, v)
    decreases D.ExprSize(a)
  {
    match a {
      case Not(x) => SameOperatorsSound(leaves, x, b.e, v);
      case NAry(op, es) =>
        forall i | 0 <= i < |es| ensures Eval(es[i], v) == Eval(b.es[i], v) {
          OperandSmaller(es, i);
          if es[i] != b.es[i] {
            SameOperatorsSound(leaves, es[i], b.es[i], v);
          }
        }
        assert seq(|es|, i requires 0 <= i < |es| => Eval(es[i], v)) == seq(|b.es|, i requires 0 <= i < |b.es| => Eval(b.es[i], v));
      case _ =>
    }
  }

  // ----- Exactly when two neighbouring ifs may be merged -----

  /** What merging `next` into `last` makes. */
  function MergedIf(same: Equality, last: Stmt, next: Stmt): Stmt
    requires last.IfElse? && next.IfElse? && Merged(same, last, next).Some?
  {
    var m := Merged(same, last, next).value;
    IfElse(last.cond, m.0, m.1)
  }

  /** The branch of `next` that the merged statement runs after the branch of `last` for this truth of its condition. */
  function Followed(same: Equality, last: Stmt, next: Stmt, holds: bool): seq<Stmt>
    requires last.IfElse? && next.IfElse?
  {
    if same(next.cond, last.cond) == holds then next.ifBody else next.elseBody
  }

  /** Where `last` falls through, the condition of `next` chooses that branch, or one that does the same there. */
  ghost predicate ChoosesAs<S(!new)>(env: Env<S>, same: Equality, last: Stmt, next: Stmt, s: S)
    requires last.IfElse? && next.IfElse?
  {
    var r := Meaning(env, [last], s);
    r.Done? && r.out.Normal? ==>
      Meaning(env, if IsTrue(env, next.cond, r.s) then next.ifBody else next.elseBody, r.s)
      == Meaning(env, Followed(same, last, next, IsTrue(env, last.cond, s)), r.s)
  }

  lemma MergedAt<S(!new)>(env: Env<S>, same: Equality, last: Stmt, next: Stmt, s: S)
    requires last.IfElse? && next.IfElse? && Merged(same, last, next).Some?
    ensures Meaning(env, [MergedIf(same, last, next)], s) == Meaning(env, [last, next], s) <==> ChoosesAs(env, same, last, next, s)
  {
    var m := MergedIf(same, last, next);
    var holds := IsTrue(env, last.cond, s);
    var branch, follow := if holds then last.ifBody else last.elseBody, Followed(same, last, next, holds);
    assert (if holds then m.ifBody else m.elseBody) == branch + follow;
    MeaningIf(env, m.cond, m.ifBody, m.elseBody, s);
    MeaningConcat(env, branch, follow, s);
    MeaningIf(env, last.cond, last.ifBody, last.elseBody, s);
    assert [last, next] == [last] + [next];
    MeaningConcat(env, [last], [next], s);
    var r := Meaning(env, [last], s);
    if r.Done? && r.out.Normal? {
      MeaningIf(env, next.cond, next.ifBody, next.elseBody, r.s);
    }
  }

  /**
   Merging two neighbouring `if`s, by whatever comparison, is right exactly if after the first one the condition of the
   second still chooses the branch that was merged, or another with the same meaning there.
   */
  lemma MergeExact<S(!new)>(env: Env<S>, same: Equality, last: Stmt, next: Stmt)
    requires last.IfElse? && next.IfElse? && Merged(same, last, next).Some?
    ensures Equivalent(env, [last, next], [MergedIf(same, last, next)]) <==> forall s :: ChoosesAs(env, same, last, next, s)
  {
    forall s ensures Meaning(env, [MergedIf(same, last, next)], s) == Meaning(env, [last, next], s) <==> ChoosesAs(env, same, last, next, s) {
      MergedAt(env, same, last, next, s);
    }
    if Equivalent(env, [last, next], [MergedIf(same, last, next)]) {
      forall s ensures ChoosesAs(env, same, last, next, s) {
        assert Meaning(env, [last, next], s) == Meaning(env, [MergedIf(same, last, next)], s);
      }
    }
  }

  /** Under their negations the conditions have the same operators in the same places. */
  predicate SameShape(a: Expr, b: Expr) {
    SameOperators(CountNegationDepth(a).0, CountNegationDepth(b).0)
  }

  lemma {:induction false} SameShapeSound(leaves: Leaves, a: Expr, b: Expr, v: Valuation)
    requires SoundLeaves(leaves) && SameShape(a, b) && CodeEqual(leaves, a, b)
    ensures Holds(a, v) <==> Holds(b, v)
    decreases a
  {
    if a.Not? {
      SameShapeSound(leaves, a.e, b.e, v);
    } else {
      SameOperatorsSound(leaves, a, b, v);
    }
  }

  /**
   What can be seen before the merge: the branches of the first `if` write nothing that the condition of the second reads,
   and the two conditions have the same operators.
   */
  predicate MergeVisiblyRight(fp: Footprint, last: Stmt, next: Stmt)
    requires last.IfElse? && next.IfElse?
  {
    && SameShape(next.cond, last.cond)
    && Writes(fp, last.ifBody) !! Reads(fp, next.cond) && Writes(fp, last.elseBody) !! Reads(fp, next.cond)
  }

  /** Then the merge by the code's comparison keeps the meaning, in every environment with these reads and writes. */
  lemma MergeByCode<S(!new)>(env: Env<S>, fp: Footprint, leaves: Leaves, last: Stmt, next: Stmt)
    requires last.IfElse? && next.IfElse? && Merged(ByCode(leaves), last, next).Some?
    requires Respects(env, fp) && SoundLeaves(leaves) && MergeVisiblyRight(fp, last, next)
    ensures Equivalent(env, [last, next], [MergedIf(ByCode(leaves), last, next)])
  {
    forall s ensures ChoosesAs(env, ByCode(leaves), last, next, s) {
      var b := IsTrue(env, next.cond, s);
      MeaningIf(env, last.cond, last.ifBody, last.elseBody, s);
      KeepsUnwritten(env, fp, next.cond, b, if IsTrue(env, last.cond, s) then last.ifBody else last.elseBody);
      CodeChooses(leaves, last, next, env.valuation(s));
    }
    MergeExact(env, ByCode(leaves), last, next);
  }

  lemma CodeChooses(leaves: Leaves, last: Stmt, next: Stmt, v: Valuation)
    requires last.IfElse? && next.IfElse? && Merged(ByCode(leaves), last, next).Some?
    requires SoundLeaves(leaves) && SameShape(next.cond, last.cond)
    ensures Holds(next.cond, v) <==> (ByCode(leaves)(next.cond, last.cond) == Holds(last.cond, v))
  {
    if CodeEqual(leaves, next.cond, last.cond) {
      SameShapeSound(leaves, next.cond, last.cond, v);
    } else {
      SameOperatorsSound(leaves, CountNegationDepth(next.cond).0, CountNegationDepth(last.cond).0, v);
    }
  }

  // ----- Two programs that change -----

  /** A state that logs the statements it has seen, and makes leaf 0 hold until the first of them. */
  ghost function Logging(): Env<seq<nat>> {
    Env((log: seq<nat>) => Valuation(_ => Bit(log == []), (_, _) => 0), (id: nat, log: seq<nat>) => log + [id])
  }

  lemma LoggedMeaning(log: seq<nat>, id: nat)
    ensures Meaning(Logging(), [Effect(id)], log) == Done(Normal, log + [id])
  {
    ExecSingle(Logging(), 0, Effect(id), log);
    MeaningIs(Logging(), 0, [Effect(id)], log);
  }

  /** `if (0 < 1) A; if (0 >= 1) B` is merged by the code's comparison and then runs both. */
  lemma OperatorsMergeWrongly(leaves: Leaves)
    ensures var last, next := IfElse(Less(Number(0), Number(1)), [Effect(0)], []), IfElse(NotLess(Number(0), Number(1)), [Effect(1)], []);
      Merged(ByCode(leaves), last, next).Some? && !Equivalent(Logging(), [last, next], [MergedIf(ByCode(leaves), last, next)])
  {
    var same := ByCode(leaves);
    var last, next := IfElse(Less(Number(0), Number(1)), [Effect(0)], []), IfElse(NotLess(Number(0), Number(1)), [Effect(1)], []);
    assert CodeEqual(leaves, NotLess(Number(0), Number(1)), Less(Number(0), Number(1)));
    var env, log: seq<nat> := Logging(), [];
    LessValue(0, 1, env.valuation(log));
    LessValue(0, 1, env.valuation([0]));
    MeaningIf(env, last.cond, last.ifBody, last.elseBody, log);
    LoggedMeaning(log, 0);
    assert log + [0] == [0];
    LoggedMeaning([0], 1);
    MeaningEmpty(env, [0]);
    assert !ChoosesAs(env, same, last, next, log);
    MergeExact(env, same, last, next);
  }

  /** `if (c) A; if (c) B`, where A makes c false, is merged by any comparison and then runs B. */
  lemma ChangedConditionMergesWrongly(same: Equality, c: Expr)
    requires c == Leaf(0, true, false) && same(c, c)
    ensures var last, next := IfElse(c, [Effect(0)], []), IfElse(c, [Effect(1)], []);
      Merged(same, last, next).Some? && !Equivalent(Logging(), [last, next], [MergedIf(same, last, next)])
  {
    var last, next := IfElse(c, [Effect(0)], []), IfElse(c, [Effect(1)], []);
    var env, log: seq<nat> := Logging(), [];
    MeaningIf(env, last.cond, last.ifBody, last.elseBody, log);
    LoggedMeaning(log, 0);
    assert log + [0] == [0];
    LoggedMeaning([0], 1);
    MeaningEmpty(env, [0]);
    assert !ChoosesAs(env, same, last, next, log);
    MergeExact(env, same, last, next);
  }
}
