/**
 The nested combiner: `if (a) { if (b) X }` becomes `if (a && b) X`, and a loop that breaks in its first or last
 `if` takes that condition as its own.
 */
module NestedCombiner {
  import opened Expressions
  import opened Statements
  import opened ConsecutiveCombiner

  /** MemoryOperationVisitor: does the expression read or write memory? */
  predicate HasMemoryOperation(e: Expr) {
    match e
    case Leaf(_, _, memory) => memory
    case Not(x) => HasMemoryOperation(x)
    case NAry(op, es) => op == ASSIGN || exists i :: 0 <= i < |es| && HasMemoryOperation(es[i])
    case _ => false
  }

  predicate IsBreak(list: seq<Stmt>) {
    list == [Break]
  }

  /** Where the conditional that structurizeLoop looks at sits, and the position it would give the loop. */
  function Eligible(body: seq<Stmt>): Option<(nat, Position)> {
    if body != [] && body[0].IfElse? then Some((0, PreTested))
    else if |body| > 1 && body[|body| - 1].IfElse? then Some((|body| - 1, PostTested))
    else None
  }

  predicate Restructures(loop: Stmt)
    requires loop.Loop?
  {
    var eligible := Eligible(loop.body);
    && eligible.Some?
    && var conditional := loop.body[eligible.value.0];
       IsBreak(conditional.ifBody) != IsBreak(conditional.elseBody)
  }

  /** The condition under which the conditional does not break, and what it then runs. */
  function Continuation(conditional: Stmt): (Expr, seq<Stmt>)
    requires conditional.IfElse?
  {
    if IsBreak(conditional.ifBody) then (Negate(conditional.cond), conditional.elseBody)
    else (conditional.cond, conditional.ifBody)
  }

  function StructurizeLoop(loop: Stmt): (r: Stmt)
    requires loop.Loop?
    ensures r.Loop?
  {
    if Restructures(loop) then
      var (k, position) := Eligible(loop.body).value;
      var (c, kept) := Continuation(loop.body[k]);
      var body := if position.PreTested? then kept + loop.body[1..] else loop.body[..k] + [IfElse(c, kept, [])];
      Loop(And([loop.cond, c]), position, body)
    else loop
  }

  /** What visitIfElse makes of an `if` whose branches have been visited. */
  function FlattenIf(c: Expr, a: seq<Stmt>, b: seq<Stmt>): Stmt {
    if b == [] && |a| == 1 && a[0].IfElse? && a[0].elseBody == [] && !HasMemoryOperation(a[0].cond) then
      IfElse(And([c, a[0].cond]), a[0].ifBody, [])
    else IfElse(c, a, b)
  }

  function VisitNested(p: Stmt): Stmt
    decreases p, 0
  {
    match p
    case IfElse(c, a, b) => FlattenIf(c, VisitAllNested(a), VisitAllNested(b))
    case Loop(c, position, body) => StructurizeLoop(Loop(c, position, VisitAllNested(body)))
    case _ => p
  }

  function VisitAllNested(list: seq<Stmt>): (r: seq<Stmt>)
    ensures |r| == |list|
    decreases list, 1
  {
    if list == [] then [] else [VisitNested(list[0])] + VisitAllNested(list[1..])
  }

  /** visitAll as it runs: statements leave the old list at the front and join the new one at the back. */
  method CombineNested(input: seq<Stmt>) returns (result: seq<Stmt>)
    ensures result == VisitAllNested(input)
    decreases input, 1
  {
    result := [];
    for i := 0 to |input|
      invariant result + VisitAllNested(input[i..]) == VisitAllNested(input)
    {
      var visited := CombineNestedNode(input[i]);
      result := result + [visited];
    }
  }

  method CombineNestedNode(p: Stmt) returns (result: Stmt)
    ensures result == VisitNested(p)
    decreases p, 0
  {
    match p
    case IfElse(c, a, b) =>
      var ifBody := CombineNested(a);
      var elseBody := CombineNested(b);
      result := FlattenIf(c, ifBody, elseBody);
    case Loop(c, position, body) =>
      var loopBody := CombineNested(body);
      result := StructurizeLoop(Loop(c, position, loopBody));
    case _ =>
      result := p;
  }

  // ----- What the passes do to statements -----

  predicate IsMemoryOperation(e: Expr) {
    (e.Leaf? && e.memory) || (e.NAry? && e.op == Arithmetic(0))
  }

  ghost predicate LeadsToMemory(e: Expr, path: seq<nat>) {
    Part(e, path).Some? && IsMemoryOperation(Part(e, path).value)
  }

  /** Some part of the expression, however deep, reads or writes memory. */
  ghost predicate TouchesMemory(e: Expr) {
    exists path :: LeadsToMemory(e, path)
  }

  lemma TouchesBelow(e: Expr, k: nat, x: Expr)
    requires (e.Not? && k == 0 && x == e.e) || (e.NAry? && k < |e.es| && x == e.es[k])
    ensures TouchesMemory(x) ==> TouchesMemory(e)
  {
    if TouchesMemory(x) {
      var path :| LeadsToMemory(x, path);
      assert ([k] + path)[1..] == path;
      assert LeadsToMemory(e, [k] + path);
    }
  }

  lemma {:induction false} MemoryFound(e: Expr, path: seq<nat>)
    requires LeadsToMemory(e, path)
    ensures HasMemoryOperation(e)
    decreases |path|
  {
    if path != [] {
      if e.Not? { MemoryFound(e.e, path[1..]); } else { MemoryFound(e.es[path[0]], path[1..]); }
    }
  }

  lemma {:induction false} MemoryThere(e: Expr)
    requires HasMemoryOperation(e)
    ensures TouchesMemory(e)
    decreases e
  {
    if IsMemoryOperation(e) {
      assert LeadsToMemory(e, []);
    } else if e.Not? {
      MemoryThere(e.e);
      TouchesBelow(e, 0, e.e);
    } else {
      var i :| 0 <= i < |e.es| && HasMemoryOperation(e.es[i]);
      MemoryThere(e.es[i]);
      TouchesBelow(e, i, e.es[i]);
    }
  }

  /** The visitor finds memory operations wherever they are, and nothing else. */
  lemma MemoryExact(e: Expr)
    ensures HasMemoryOperation(e) <==> TouchesMemory(e)
  {
    if HasMemoryOperation(e) {
      MemoryThere(e);
    }
    if path :| LeadsToMemory(e, path) {
      MemoryFound(e, path);
    }
  }

  /** The second `if` is all that the first one runs, neither has an else branch, and the inner condition is free of memory. */
  ghost predicate Joins(a: seq<Stmt>, b: seq<Stmt>) {
    b == [] && exists d, x :: a == [IfElse(d, x, [])] && !TouchesMemory(d)
  }

  /** Exactly then two nested `if`s are joined. */
  lemma JoinExact(c: Expr, a: seq<Stmt>, b: seq<Stmt>)
    ensures FlattenIf(c, a, b)
         == if Joins(a, b) then IfElse(And([c, a[0].cond]), a[0].ifBody, []) else IfElse(c, a, b)
  {
    if |a| == 1 && a[0].IfElse? {
      MemoryExact(a[0].cond);
      assert a == [IfElse(a[0].cond, a[0].ifBody, a[0].elseBody)];
    }
  }

  /** Under its negations the condition is no conjunction of two, or one whose second operand is free of memory. */
  ghost predicate Clean(c: Expr) {
    var x := CountNegationDepth(c).0;
    x.NAry? && x.op.ShortCircuitAnd? && |x.es| == 2 ==> !TouchesMemory(x.es[1])
  }

  ghost predicate IfsCleanOne(p: Stmt)
    decreases p, 0
  {
    match p
    case IfElse(c, a, b) => Clean(c) && IfsClean(a) && IfsClean(b)
    case Loop(_, _, body) => IfsClean(body)
    case _ => true
  }

  /** The conditions of all `if`s are. */
  ghost predicate IfsClean(list: seq<Stmt>)
    decreases list, 1
  {
    forall i :: 0 <= i < |list| ==> IfsCleanOne(list[i])
  }

  lemma IfsCleanConcat(a: seq<Stmt>, b: seq<Stmt>)
    ensures IfsClean(a + b) <==> IfsClean(a) && IfsClean(b)
  {
    if IfsClean(a + b) {
      forall i | 0 <= i < |a| ensures IfsCleanOne(a[i]) { assert (a + b)[i] == a[i]; }
      forall i | 0 <= i < |b| ensures IfsCleanOne(b[i]) { assert (a + b)[|a| + i] == b[i]; }
    }
  }

  lemma StructurizeClean(loop: Stmt)
    requires loop.Loop? && IfsClean(loop.body)
    ensures IfsClean(StructurizeLoop(loop).body)
  {
    if Restructures(loop) {
      var (k, position) := Eligible(loop.body).value;
      var conditional := loop.body[k];
      var (c, kept) := Continuation(conditional);
      assert IfsCleanOne(conditional);
      if position.PreTested? {
        IfsCleanConcat(kept, loop.body[1..]);
      } else {
        IfsCleanConcat(loop.body[..k], [IfElse(c, kept, [])]);
      }
    }
  }

  lemma {:induction false} VisitNestedClean(p: Stmt)
    requires IfsCleanOne(p)
    ensures IfsCleanOne(VisitNested(p))
    decreases p, 0
  {
    match p
    case IfElse(c, a, b) =>
      NestedClean(a);
      NestedClean(b);
      var a', b' := VisitAllNested(a), VisitAllNested(b);
      JoinExact(c, a', b');
      if Joins(a', b') {
        assert IfsCleanOne(a'[0]);
      }
    case Loop(c, position, body) =>
      NestedClean(body);
      StructurizeClean(Loop(c, position, VisitAllNested(body)));
    case _ =>
  }

  /** The pass puts no condition that touches memory behind another one. */
  lemma {:induction false} NestedClean(list: seq<Stmt>)
    requires IfsClean(list)
    ensures IfsClean(VisitAllNested(list))
    decreases list, 1
  {
    if list != [] {
      VisitNestedClean(list[0]);
      NestedClean(list[1..]);
      IfsCleanConcat([VisitNested(list[0])], VisitAllNested(list[1..]));
    }
  }

  /** A loop that begins with a conditional break tests its condition before the body. */
  lemma FrontBreak(c: Expr, position: Position, d: Expr, kept: seq<Stmt>, rest: seq<Stmt>)
    requires kept != [Break]
    ensures StructurizeLoop(Loop(c, position, [IfElse(d, [Break], kept)] + rest)) == Loop(And([c, Negate(d)]), PreTested, kept + rest)
    ensures StructurizeLoop(Loop(c, position, [IfElse(d, kept, [Break])] + rest)) == Loop(And([c, d]), PreTested, kept + rest)
  {
    var first, second := [IfElse(d, [Break], kept)] + rest, [IfElse(d, kept, [Break])] + rest;
    assert first[0] == IfElse(d, [Break], kept) && first[1..] == rest;
    assert second[0] == IfElse(d, kept, [Break]) && second[1..] == rest;
  }

  /** One that ends with it, and does not begin with an `if`, tests it after the body, where the `if` stays. */
  lemma BackBreak(c: Expr, position: Position, d: Expr, kept: seq<Stmt>, rest: seq<Stmt>)
    requires kept != [Break] && rest != [] && !rest[0].IfElse?
    ensures StructurizeLoop(Loop(c, position, rest + [IfElse(d, [Break], kept)]))
         == Loop(And([c, Negate(d)]), PostTested, rest + [IfElse(Negate(d), kept, [])])
    ensures StructurizeLoop(Loop(c, position, rest + [IfElse(d, kept, [Break])]))
         == Loop(And([c, d]), PostTested, rest + [IfElse(d, kept, [])])
  {
    var first, second := rest + [IfElse(d, [Break], kept)], rest + [IfElse(d, kept, [Break])];
    assert first[0] == rest[0] && first[|rest|] == IfElse(d, [Break], kept) && first[..|rest|] == rest;
    assert second[0] == rest[0] && second[|rest|] == IfElse(d, kept, [Break]) && second[..|rest|] == rest;
  }

  /** Exactly one branch of the `if` is a break. */
  predicate BreaksOnce(p: Stmt) {
    p.IfElse? && ((p.ifBody == [Break]) != (p.elseBody == [Break]))
  }

  /** All other loops stay as they are. */
  lemma OtherLoops(loop: Stmt)
    requires loop.Loop?
    requires loop.body != [] ==> !BreaksOnce(loop.body[0])
    requires loop.body != [] ==> loop.body[0].IfElse? || !BreaksOnce(loop.body[|loop.body| - 1])
    ensures StructurizeLoop(loop) == loop
  {
  }

  // ----- When restructuring a loop is sound -----

  /** The loop's own condition is still tested where it was, or it is the literal `true` and never fails. */
  predicate PositionKept(loop: Stmt)
    requires loop.Loop?
  {
    Restructures(loop) ==> loop.cond == True || Eligible(loop.body).value.1 == loop.position
  }

  predicate LoopsKeptOne(p: Stmt)
    decreases p, 0
  {
    match p
    case IfElse(_, a, b) => LoopsKept(a) && LoopsKept(b)
    case Loop(c, position, body) => LoopsKept(body) && PositionKept(Loop(c, position, VisitAllNested(body)))
    case _ => true
  }

  /** Every loop the pass restructures keeps its condition in position. */
  predicate LoopsKept(list: seq<Stmt>)
    decreases list, 1
  {
    forall i :: 0 <= i < |list| ==> LoopsKeptOne(list[i])
  }

  lemma ContinuationStable<S(!new)>(env: Env<S>, conditional: Stmt)
    requires conditional.IfElse? && StableOne(env, conditional)
    ensures var (c, kept) := Continuation(conditional); Stable(env, kept) && Keeps(env, c, true, kept)
  {
    if IsBreak(conditional.ifBody) {
      KeepsTransfer(env, conditional.cond, Negate(conditional.cond), true, false, conditional.elseBody, conditional.elseBody);
    }
  }

  /** What the eligible conditional does: run the kept branch, or break. */
  lemma MeaningConditional<S>(env: Env<S>, conditional: Stmt, s: S)
    requires conditional.IfElse? && IsBreak(conditional.ifBody) != IsBreak(conditional.elseBody)
    ensures var (c, kept) := Continuation(conditional);
            Meaning(env, [conditional], s) == if IsTrue(env, c, s) then Meaning(env, kept, s) else Done(Broke, s)
  {
    MeaningIf(env, conditional.cond, conditional.ifBody, conditional.elseBody, s);
    MeaningBreak(env, s);
  }

  lemma MeaningGuard<S>(env: Env<S>, c: Expr, a: seq<Stmt>, s: S)
    ensures Meaning(env, [IfElse(c, a, [])], s) == if IsTrue(env, c, s) then Meaning(env, a, s) else Done(Normal, s)
  {
    MeaningIf(env, c, a, [], s);
    MeaningEmpty(env, s);
  }

  lemma PreIteration<S(!new)>(env: Env<S>, loop: Stmt, s: S)
    requires loop.Loop? && Restructures(loop) && Eligible(loop.body).value.1.PreTested?
    requires loop.position.PreTested? || loop.cond == True
    ensures Iterate(env, loop, s) == Iterate(env, StructurizeLoop(loop), s)
  {
    var conditional, rest := loop.body[0], loop.body[1..];
    var (c, kept) := Continuation(conditional);
    assert loop.body == [conditional] + rest;
    MeaningConcat(env, [conditional], rest, s);
    MeaningConditional(env, conditional, s);
    MeaningConcat(env, kept, rest, s);
    AndPairHolds(loop.cond, c, env.valuation(s));
  }

  lemma PostIteration<S(!new)>(env: Env<S>, loop: Stmt, s: S)
    requires loop.Loop? && Restructures(loop) && Eligible(loop.body).value.1.PostTested?
    requires loop.position.PostTested? || loop.cond == True
    requires Stable(env, loop.body)
    ensures Iterate(env, loop, s) == Iterate(env, StructurizeLoop(loop), s)
  {
    var k := |loop.body| - 1;
    var rest, conditional := loop.body[..k], loop.body[k];
    var (c, kept) := Continuation(conditional);
    assert loop.body == rest + [conditional];
    ContinuationStable(env, conditional);
    MeaningConcat(env, rest, [conditional], s);
    MeaningConcat(env, rest, [IfElse(c, kept, [])], s);
    var r := Meaning(env, rest, s);
    if r.Done? && r.out.Normal? {
      MeaningConditional(env, conditional, r.s);
      MeaningGuard(env, c, kept, r.s);
      var end := Meaning(env, [IfElse(c, kept, [])], r.s);
      if end.Done? && end.out.Normal? {
        AndPairHolds(loop.cond, c, env.valuation(end.s));
      }
    }
  }

  lemma StructurizeStable<S(!new)>(env: Env<S>, loop: Stmt)
    requires loop.Loop? && Stable(env, loop.body)
    ensures Stable(env, StructurizeLoop(loop).body)
  {
    if Restructures(loop) {
      var (k, position) := Eligible(loop.body).value;
      ContinuationStable(env, loop.body[k]);
      var (c, kept) := Continuation(loop.body[k]);
      if position.PostTested? {
        assert Keeps(env, c, false, []) by {
          forall s ensures Meaning(env, [], s) == Done(Normal, s) { MeaningEmpty(env, s); }
        }
        assert StableOne(env, IfElse(c, kept, []));
      }
    }
  }

  lemma StructurizeCorrect<S(!new)>(env: Env<S>, loop: Stmt)
    requires loop.Loop? && Stable(env, loop.body) && PositionKept(loop)
    ensures Equivalent(env, [loop], [StructurizeLoop(loop)])
  {
    if Restructures(loop) {
      forall s
        ensures Iterate(env, loop, s) == Iterate(env, StructurizeLoop(loop), s)
      {
        if Eligible(loop.body).value.1.PreTested? { PreIteration(env, loop, s); } else { PostIteration(env, loop, s); }
      }
      LoopsAgree(env, loop, StructurizeLoop(loop));
    }
  }

  /**
   Exactly when restructuring a loop keeps its meaning: its condition stays in position or is `true`, or else
   entering the post-tested one of the two loops with that condition false does nothing at all.
   */
  lemma StructurizeExact<S(!new)>(env: Env<S>, loop: Stmt)
    requires loop.Loop? && Stable(env, loop.body)
    ensures Equivalent(env, [loop], [StructurizeLoop(loop)]) <==>
            || PositionKept(loop)
            || var post := if loop.position.PostTested? then loop else StructurizeLoop(loop);
               forall s :: !IsTrue(env, loop.cond, s) ==> Meaning(env, [post], s) == Done(Normal, s)
  {
    if PositionKept(loop) {
      StructurizeCorrect(env, loop);
    } else {
      // The same loop with its condition tested in the other place restructures without harm.
      var position := Eligible(loop.body).value.1;
      var moved := Loop(loop.cond, position, loop.body);
      var result := StructurizeLoop(loop);
      assert StructurizeLoop(moved) == result;
      StructurizeCorrect(env, moved);
      forall s
        ensures Meaning(env, [result], s) == Meaning(env, [moved], s)
        ensures position.PostTested? ==>
                  Meaning(env, [loop], s) ==
                  if IsTrue(env, loop.cond, s) then Meaning(env, [moved], s) else Done(Normal, s)
        ensures position.PreTested? ==>
                  Meaning(env, [moved], s) ==
                  if IsTrue(env, loop.cond, s) then Meaning(env, [loop], s) else Done(Normal, s)
      {
        PreIsGuardedPost(env, loop.cond, loop.body, s);
      }
      var post := if loop.position.PostTested? then loop else result;
      if Equivalent(env, [loop], [result]) {
        forall s | !IsTrue(env, loop.cond, s) ensures Meaning(env, [post], s) == Done(Normal, s) {
          assert Meaning(env, [loop], s) == Meaning(env, [result], s);
        }
      }
    }
  }

  // ----- The whole pass -----

  lemma FlattenIfCorrect<S(!new)>(env: Env<S>, c: Expr, a: seq<Stmt>, b: seq<Stmt>)
    requires StableOne(env, IfElse(c, a, b))
    ensures Equivalent(env, [IfElse(c, a, b)], [FlattenIf(c, a, b)])
    ensures StableOne(env, FlattenIf(c, a, b))
  {
    if FlattenIf(c, a, b) != IfElse(c, a, b) {
      var inner := a[0];
      var d, x := inner.cond, inner.ifBody;
      assert a == [inner] && StableOne(env, inner);
      forall s
        ensures Meaning(env, [IfElse(c, a, b)], s) == Meaning(env, [IfElse(And([c, d]), x, [])], s)
        ensures Meaning(env, a, s) == if IsTrue(env, d, s) then Meaning(env, x, s) else Done(Normal, s)
        ensures Meaning(env, [], s) == Done(Normal, s)
        ensures IsTrue(env, And([c, d]), s) <==> IsTrue(env, c, s) && IsTrue(env, d, s)
      {
        MeaningGuard(env, c, a, s);
        MeaningGuard(env, d, x, s);
        MeaningGuard(env, And([c, d]), x, s);
        MeaningEmpty(env, s);
        AndPairHolds(c, d, env.valuation(s));
      }
    }
  }

  lemma {:induction false} VisitNestedCorrect<S(!new)>(env: Env<S>, p: Stmt)
    requires StableOne(env, p) && LoopsKeptOne(p)
    ensures Equivalent(env, [p], [VisitNested(p)]) && StableOne(env, VisitNested(p))
    decreases p, 0
  {
    match p
    case IfElse(c, a, b) =>
      var a', b' := VisitAllNested(a), VisitAllNested(b);
      NestedCorrect(env, a);
      NestedCorrect(env, b);
      IfCongruence(env, c, c, a, a', b, b');
      KeepsTransfer(env, c, c, false, true, a, a');
      KeepsTransfer(env, c, c, false, false, b, b');
      FlattenIfCorrect(env, c, a', b');
    case Loop(c, position, body) =>
      NestedCorrect(env, body);
      var loop := Loop(c, position, VisitAllNested(body));
      LoopCongruence(env, c, c, position, body, loop.body);
      StructurizeStable(env, loop);
      StructurizeCorrect(env, loop);
    case _ =>
  }

  lemma {:induction false} NestedCorrect<S(!new)>(env: Env<S>, list: seq<Stmt>)
    requires Stable(env, list) && LoopsKept(list)
    ensures Equivalent(env, list, VisitAllNested(list)) && Stable(env, VisitAllNested(list))
    decreases list, 1
  {
    if list != [] {
      VisitNestedCorrect(env, list[0]);
      NestedCorrect(env, list[1..]);
      ConcatCongruence(env, [list[0]], [VisitNested(list[0])], list[1..], VisitAllNested(list[1..]));
      assert list == [list[0]] + list[1..];
    }
  }
}
