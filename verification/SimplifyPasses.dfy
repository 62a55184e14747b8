/**
 SimplifyPasses: the simplifier over statement trees, and runs of it among the two combiners, as the program orders them.
 */
module SimplifyPasses {
  import opened Expressions
  import opened Statements
  import opened C = ConsecutiveCombiner
  import opened NestedCombiner
  import opened CombinerPipeline
  import opened SimplifyExpressions
  import opened X = SimplifyExact
  import opened SimplifyForm

  // ----- The visitor of statements -----

  /** The simplifier replaces conditions and the operands of returns; None where it fails on one of them. */
  function SimplifyStmt(same: Equality, p: Stmt): Option<Stmt>
    decreases p, 0
  {
    match p
    case IfElse(c, a, b) =>
      var c', a', b' := Simplify(same, c), SimplifyTree(same, a), SimplifyTree(same, b);
      if c'.None? || a'.None? || b'.None? then None else Some(IfElse(c'.value, a'.value, b'.value))
    case Loop(c, position, body) =>
      var c', body' := Simplify(same, c), SimplifyTree(same, body);
      if c'.None? || body'.None? then None else Some(Loop(c'.value, position, body'.value))
    case Return(Some(e)) => var e' := Simplify(same, e); if e'.None? then None else Some(Return(e'))
    case _ => Some(p)
  }

  function SimplifyTree(same: Equality, list: seq<Stmt>): Option<seq<Stmt>>
    decreases list, 1
  {
    if list == [] then Some([]) else
      var first, rest := SimplifyStmt(same, list[0]), SimplifyTree(same, list[1..]);
      if first.None? || rest.None? then None else Some([first.value] + rest.value)
  }

  ghost predicate EveryConditionOne(p: Stmt, holds: Expr -> bool)
    decreases p, 0
  {
    match p
    case IfElse(c, a, b) => holds(c) && EveryCondition(a, holds) && EveryCondition(b, holds)
    case Loop(c, _, body) => holds(c) && EveryCondition(body, holds)
    case Return(Some(e)) => holds(e)
    case _ => true
  }

  /** It holds of every condition in the tree, and of what is returned. */
  ghost predicate EveryCondition(list: seq<Stmt>, holds: Expr -> bool)
    decreases list, 1
  {
    forall i :: 0 <= i < |list| ==> EveryConditionOne(list[i], holds)
  }

  ghost function Placed(same: Equality): Expr -> bool { e => InPlace(same, e, false) }

  ghost function CanSimplify(same: Equality): Expr -> bool { e => Simplifiable(same, e) }

  lemma {:induction false} SimplifyStmtExact(same: Equality, p: Stmt)
    requires ByAddress(same) && EveryConditionOne(p, Placed(same))
    ensures SimplifyStmt(same, p).Some? <==> EveryConditionOne(p, CanSimplify(same))
    decreases p, 0
  {
    match p {
      case IfElse(c, a, b) =>
        X.SimplifyExact(same, c, false);
        SimplifyTreeExact(same, a);
        SimplifyTreeExact(same, b);
      case Loop(c, _, body) =>
        X.SimplifyExact(same, c, false);
        SimplifyTreeExact(same, body);
      case Return(Some(e)) => X.SimplifyExact(same, e, false);
      case _ =>
    }
  }

  /** A tree can be simplified exactly if every condition in it can. */
  lemma {:induction false} SimplifyTreeExact(same: Equality, list: seq<Stmt>)
    requires ByAddress(same) && EveryCondition(list, Placed(same))
    ensures SimplifyTree(same, list).Some? <==> EveryCondition(list, CanSimplify(same))
    decreases list, 1
  {
    if list != [] {
      SimplifyStmtExact(same, list[0]);
      SimplifyTreeExact(same, list[1..]);
      var f := CanSimplify(same);
      assert EveryCondition(list, f) <==> EveryConditionOne(list[0], f) && EveryCondition(list[1..], f);
    }
  }

  // ----- The simplified tree -----

  function ConditionsOne(p: Stmt): seq<Expr>
    decreases p, 0
  {
    match p
    case IfElse(c, a, b) => [c] + Conditions(a) + Conditions(b)
    case Loop(c, _, body) => [c] + Conditions(body)
    case Return(Some(e)) => [e]
    case _ => []
  }

  /** All conditions of a tree, and what is returned, in the order they are written in. */
  function Conditions(list: seq<Stmt>): seq<Expr>
    decreases list, 1
  {
    if list == [] then [] else ConditionsOne(list[0]) + Conditions(list[1..])
  }

  function BlankOne(p: Stmt): Stmt
    decreases p, 0
  {
    match p
    case IfElse(c, a, b) => IfElse(True, Blank(a), Blank(b))
    case Loop(c, position, body) => Loop(True, position, Blank(body))
    case Return(Some(e)) => Return(Some(True))
    case _ => p
  }

  /** The tree without its conditions. */
  function Blank(list: seq<Stmt>): seq<Stmt>
    decreases list, 1
  {
    if list == [] then [] else [BlankOne(list[0])] + Blank(list[1..])
  }

  /** Each expression is the other one simplified, and no negation in it could be taken away. */
  ghost predicate AllSimplified(same: Equality, before: seq<Expr>, after: seq<Expr>) {
    && |before| == |after|
    && forall i :: 0 <= i < |before| ==> Simplify(same, before[i]) == Some(after[i]) && NoneRemovable(after[i])
  }

  lemma AllSimplifiedConcat(same: Equality, a: seq<Expr>, a': seq<Expr>, b: seq<Expr>, b': seq<Expr>)
    requires AllSimplified(same, a, a') && AllSimplified(same, b, b')
    ensures AllSimplified(same, a + b, a' + b')
  {
  }

  lemma {:induction false} SimplifyStmtForm(same: Equality, p: Stmt)
    requires SimplifyStmt(same, p).Some?
    ensures BlankOne(SimplifyStmt(same, p).value) == BlankOne(p)
    ensures AllSimplified(same, ConditionsOne(p), ConditionsOne(SimplifyStmt(same, p).value))
    decreases p, 0
  {
    match p {
      case IfElse(c, a, b) =>
        var c', a', b' := Simplify(same, c).value, SimplifyTree(same, a).value, SimplifyTree(same, b).value;
        SimplifiedForm(same, c);
        SimplifyTreeForm(same, a);
        SimplifyTreeForm(same, b);
        AllSimplifiedConcat(same, [c], [c'], Conditions(a), Conditions(a'));
        AllSimplifiedConcat(same, [c] + Conditions(a), [c'] + Conditions(a'), Conditions(b), Conditions(b'));
      case Loop(c, _, body) =>
        var c', body' := Simplify(same, c).value, SimplifyTree(same, body).value;
        SimplifiedForm(same, c);
        SimplifyTreeForm(same, body);
        AllSimplifiedConcat(same, [c], [c'], Conditions(body), Conditions(body'));
      case Return(Some(e)) => SimplifiedForm(same, e);
      case _ =>
    }
  }

  /** The simplifier simplifies every condition in its place, and changes nothing else. */
  lemma {:induction false} SimplifyTreeForm(same: Equality, list: seq<Stmt>)
    requires SimplifyTree(same, list).Some?
    ensures Blank(SimplifyTree(same, list).value) == Blank(list)
    ensures AllSimplified(same, Conditions(list), Conditions(SimplifyTree(same, list).value))
    decreases list, 1
  {
    if list != [] {
      var first, rest := SimplifyStmt(same, list[0]).value, SimplifyTree(same, list[1..]).value;
      SimplifyStmtForm(same, list[0]);
      SimplifyTreeForm(same, list[1..]);
      AllSimplifiedConcat(same, ConditionsOne(list[0]), ConditionsOne(first), Conditions(list[1..]), Conditions(rest));
    }
  }

  // ----- Conditions that may be negated -----

  predicate FitOne(p: Stmt)
    decreases p, 0
  {
    match p
    case IfElse(c, a, b) => Negatable(c) && Fit(a) && Fit(b)
    case Loop(c, _, body) => Negatable(c) && Fit(body)
    case Return(Some(e)) => Regular(e)
    case _ => true
  }

  /** Every condition is boolean, negates boolean expressions only, and is no bitwise and of two operands. */
  predicate Fit(list: seq<Stmt>)
    decreases list, 1
  {
    forall i :: 0 <= i < |list| ==> FitOne(list[i])
  }

  ghost predicate BitwiseStates<S(!new)>(env: Env<S>) {
    forall s :: Bitwise(env.valuation(s))
  }

  lemma SimplifiedCondition<S(!new)>(env: Env<S>, same: Equality, c: Expr)
    requires ByAddress(same) && BitwiseStates(env) && Negatable(c) && Simplify(same, c).Some?
    ensures Negatable(Simplify(same, c).value) && SameTruth(env, c, Simplify(same, c).value, false)
  {
    var c' := Simplify(same, c).value;
    BitStateBitwise();
    SimplifyKeeps(same, c, BitState());
    forall s ensures IsTrue(env, c, s) == IsTrue(env, c', s) {
      SimplifyKeeps(same, c, env.valuation(s));
    }
  }

  lemma ReturnMeaning<S>(env: Env<S>, e: Expr, s: S)
    ensures Meaning(env, [Return(Some(e))], s) == Done(Returned(Some(Eval(e, env.valuation(s)))), s)
  {
    ExecSingle(env, 0, Return(Some(e)), s);
    MeaningIs(env, 0, [Return(Some(e))], s);
  }

  lemma SimplifiedReturn<S(!new)>(env: Env<S>, same: Equality, e: Expr)
    requires ByAddress(same) && BitwiseStates(env) && Regular(e) && Simplify(same, e).Some?
    ensures Equivalent(env, [Return(Some(e))], [Return(Simplify(same, e))]) && Regular(Simplify(same, e).value)
  {
    var e' := Simplify(same, e).value;
    BitStateBitwise();
    SimplifyKeeps(same, e, BitState());
    forall s ensures Meaning(env, [Return(Some(e))], s) == Meaning(env, [Return(Some(e'))], s) {
      SimplifyKeeps(same, e, env.valuation(s));
      ReturnMeaning(env, e, s);
      ReturnMeaning(env, e', s);
    }
  }

  lemma {:induction false} SimplifyStmtCorrect<S(!new)>(env: Env<S>, same: Equality, p: Stmt)
    requires ByAddress(same) && BitwiseStates(env) && FitOne(p) && StableOne(env, p) && SimplifyStmt(same, p).Some?
    ensures var q := SimplifyStmt(same, p).value; Equivalent(env, [p], [q]) && FitOne(q) && StableOne(env, q)
    decreases p, 0
  {
    match p {
      case IfElse(c, a, b) =>
        var c', a', b' := Simplify(same, c).value, SimplifyTree(same, a).value, SimplifyTree(same, b).value;
        SimplifiedCondition(env, same, c);
        SimplifyTreeCorrect(env, same, a);
        SimplifyTreeCorrect(env, same, b);
        IfCongruence(env, c, c', a, a', b, b');
        KeepsTransfer(env, c, c', false, true, a, a');
        KeepsTransfer(env, c, c', false, false, b, b');
      case Loop(c, position, body) =>
        SimplifiedCondition(env, same, c);
        SimplifyTreeCorrect(env, same, body);
        LoopCongruence(env, c, Simplify(same, c).value, position, body, SimplifyTree(same, body).value);
      case Return(Some(e)) => SimplifiedReturn(env, same, e);
      case _ =>
    }
  }

  /** Simplifying the conditions of a tree keeps its meaning, and keeps it fit for the passes that follow. */
  lemma {:induction false} SimplifyTreeCorrect<S(!new)>(env: Env<S>, same: Equality, list: seq<Stmt>)
    requires ByAddress(same) && BitwiseStates(env) && Fit(list) && Stable(env, list) && SimplifyTree(same, list).Some?
    ensures var r := SimplifyTree(same, list).value; Equivalent(env, list, r) && Fit(r) && Stable(env, r)
    decreases list, 1
  {
    if list != [] {
      var first, rest := SimplifyStmt(same, list[0]).value, SimplifyTree(same, list[1..]).value;
      SimplifyStmtCorrect(env, same, list[0]);
      SimplifyTreeCorrect(env, same, list[1..]);
      ConcatCongruence(env, [list[0]], [first], list[1..], rest);
      assert list == [list[0]] + list[1..];
    }
  }

  // ----- The combiners keep conditions fit -----

  lemma NegateFits(c: Expr)
    requires Negatable(c)
    ensures Negatable(Negate(c)) && Negatable(CountNegationDepth(c).0)
  {
    NegationRegular(c);
  }

  lemma AndFits(c: Expr, d: Expr)
    requires Negatable(c) && Negatable(d)
    ensures Negatable(And([c, d]))
  {
    assert forall e :: e in [c, d] ==> Regular(e);
  }

  lemma FitConcat(p: seq<Stmt>, q: seq<Stmt>)
    requires Fit(p) && Fit(q)
    ensures Fit(p + q)
  {
  }

  lemma FitMerged(same: Equality, last: Stmt, next: Stmt)
    requires last.IfElse? && next.IfElse? && Merged(same, last, next).Some? && FitOne(last) && FitOne(next)
    ensures var m := Merged(same, last, next).value; Fit(m.0) && Fit(m.1)
  {
  }

  lemma {:induction false} AbsorbFit(same: Equality, acc: seq<Stmt>, next: Stmt)
    requires Fit(acc) && FitOne(next)
    ensures Fit(Absorb(same, acc, next))
    decreases Size(acc) + SizeOne(next), 1, 0
  {
    if Mergeable(same, acc, next) {
      var last := acc[|acc| - 1];
      var m := Merged(same, last, next).value;
      MergedSize(same, last, next);
      SizeSnoc(acc);
      FitMerged(same, last, next);
      OptimizeFit(same, m.0);
      OptimizeFit(same, m.1);
    }
  }

  lemma {:induction false} MergeFit(same: Equality, acc: seq<Stmt>, rest: seq<Stmt>)
    requires Fit(acc) && Fit(rest)
    ensures Fit(MergeRuns(same, acc, rest))
    decreases Size(acc) + Size(rest), 2, |rest|
  {
    if rest != [] {
      AbsorbFit(same, acc, rest[0]);
      MergeFit(same, Absorb(same, acc, rest[0]), rest[1..]);
    }
  }

  lemma {:induction false} OptimizeFit(same: Equality, list: seq<Stmt>)
    requires Fit(list)
    ensures Fit(OptimizeSequence(same, list))
    decreases Size(list), 3, 0
  {
    MergeFit(same, [], list);
    VisitAllFit(same, MergeRuns(same, [], list));
  }

  lemma {:induction false} VisitAllFit(same: Equality, list: seq<Stmt>)
    requires Fit(list)
    ensures Fit(C.VisitAll(same, list))
    decreases Size(list), 1, |list|
  {
    if list != [] {
      VisitFit(same, list[0]);
      VisitAllFit(same, list[1..]);
      FitConcat(C.Visit(same, list[0]), C.VisitAll(same, list[1..]));
    }
  }

  lemma {:induction false} VisitFit(same: Equality, p: Stmt)
    requires FitOne(p)
    ensures Fit(C.Visit(same, p))
    decreases SizeOne(p), 0, 0
  {
    match p
    case IfElse(c, a, b) =>
      OptimizeFit(same, a);
      OptimizeFit(same, b);
      RebuildIfFit(c, OptimizeSequence(same, a), OptimizeSequence(same, b));
    case Loop(c, position, body) =>
      OptimizeFit(same, body);
      RebuildLoopFit(same, c, position, OptimizeSequence(same, body));
    case _ =>
  }

  lemma RebuildIfFit(c: Expr, a: seq<Stmt>, b: seq<Stmt>)
    requires Negatable(c) && Fit(a) && Fit(b)
    ensures Fit(RebuildIf(c, a, b))
  {
    NegateFits(c);
    NegateFits(Negate(c));
  }

  lemma RebuildLoopFit(same: Equality, c: Expr, position: Position, body: seq<Stmt>)
    requires Negatable(c) && Fit(body)
    ensures Fit(RebuildLoop(same, c, position, body))
  {
    assert |body| > 0 ==> FitOne(body[0]);
  }

  lemma {:induction false} NestedFitOne(p: Stmt)
    requires FitOne(p)
    ensures FitOne(VisitNested(p))
    decreases p, 0
  {
    match p
    case IfElse(c, a, b) =>
      NestedFit(a);
      NestedFit(b);
      FlattenFit(c, VisitAllNested(a), VisitAllNested(b));
    case Loop(c, position, body) =>
      NestedFit(body);
      StructurizeFit(Loop(c, position, VisitAllNested(body)));
    case _ =>
  }

  lemma {:induction false} NestedFit(list: seq<Stmt>)
    requires Fit(list)
    ensures Fit(VisitAllNested(list))
    decreases list, 1
  {
    if list != [] {
      NestedFitOne(list[0]);
      NestedFit(list[1..]);
      FitConcat([VisitNested(list[0])], VisitAllNested(list[1..]));
    }
  }

  lemma FlattenFit(c: Expr, a: seq<Stmt>, b: seq<Stmt>)
    requires Negatable(c) && Fit(a) && Fit(b)
    ensures FitOne(FlattenIf(c, a, b))
  {
    if FlattenIf(c, a, b) != IfElse(c, a, b) {
      assert FitOne(a[0]);
      AndFits(c, a[0].cond);
    }
  }

  lemma StructurizeFit(loop: Stmt)
    requires loop.Loop? && FitOne(loop)
    ensures FitOne(StructurizeLoop(loop))
  {
    if Restructures(loop) {
      var (k, position) := Eligible(loop.body).value;
      assert FitOne(loop.body[k]);
      var (c, kept) := Continuation(loop.body[k]);
      NegateFits(loop.body[k].cond);
      AndFits(loop.cond, c);
      if position.PreTested? {
        FitConcat(kept, loop.body[1..]);
      } else {
        FitConcat(loop.body[..k], [IfElse(c, kept, [])]);
      }
    }
  }

  // ----- Runs -----

  datatype Step = Combine(pass: Pass) | SimplifyConditions

  /** `same` is the comparison of the combiners, `address` that of the simplifier. */
  function RunStep(same: Equality, address: Equality, step: Step, list: seq<Stmt>): Option<seq<Stmt>> {
    match step
    case Combine(pass) => Some(RunPass(same, pass, list))
    case SimplifyConditions => SimplifyTree(address, list)
  }

  function RunSteps(same: Equality, address: Equality, steps: seq<Step>, list: seq<Stmt>): Option<seq<Stmt>> {
    if steps == [] then Some(list) else
      var next := RunStep(same, address, steps[0], list);
      if next.None? then None else RunSteps(same, address, steps[1..], next.value)
  }

  /** Whenever the nested combiner runs, every loop it restructures keeps its condition in position. */
  predicate LoopsKeptInSteps(same: Equality, address: Equality, steps: seq<Step>, list: seq<Stmt>) {
    steps != [] ==>
      && (steps[0] == Combine(Nested) ==> LoopsKept(list))
      && var next := RunStep(same, address, steps[0], list);
        next.Some? ==> LoopsKeptInSteps(same, address, steps[1..], next.value)
  }

  lemma StepCorrect<S(!new)>(env: Env<S>, same: Equality, address: Equality, step: Step, list: seq<Stmt>)
    requires Sound(same) && ByAddress(address) && BitwiseStates(env)
    requires Fit(list) && Stable(env, list) && (step == Combine(Nested) ==> LoopsKept(list))
    requires RunStep(same, address, step, list).Some?
    ensures var r := RunStep(same, address, step, list).value; Equivalent(env, list, r) && Fit(r) && Stable(env, r)
  {
    match step {
      case Combine(Consecutive) =>
        OptimizeSequenceCorrect(env, same, list);
        OptimizeFit(same, list);
      case Combine(Nested) =>
        NestedCorrect(env, list);
        NestedFit(list);
      case SimplifyConditions => SimplifyTreeCorrect(env, address, list);
    }
  }

  /**
   The two combiners and the simplifier, in any order and number, keep the meaning of stable trees with fit conditions, while
   loops keep their conditions in position.
   */
  lemma {:induction false} StepsPreserveMeaning<S(!new)>(
      env: Env<S>, same: Equality, address: Equality, steps: seq<Step>, list: seq<Stmt>)
    requires Sound(same) && ByAddress(address) && BitwiseStates(env) && Fit(list) && Stable(env, list)
    requires LoopsKeptInSteps(same, address, steps, list) && RunSteps(same, address, steps, list).Some?
    ensures Equivalent(env, list, RunSteps(same, address, steps, list).value)
    decreases |steps|
  {
    if steps != [] {
      StepCorrect(env, same, address, steps[0], list);
      StepsPreserveMeaning(env, same, address, steps[1..], RunStep(same, address, steps[0], list).value);
    }
  }
}
