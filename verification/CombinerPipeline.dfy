/**
 Runs of the two combiners in any order, the syntactic side condition under which they are sound, and what goes
 wrong in the order the program actually uses.
 */
module CombinerPipeline {
  import opened Expressions
  import opened Statements
  import opened ConsecutiveCombiner
  import opened NestedCombiner

  datatype Pass = Consecutive | Nested

  function RunPass(same: Equality, pass: Pass, list: seq<Stmt>): seq<Stmt> {
    match pass
    case Consecutive => OptimizeSequence(same, list)
    case Nested => VisitAllNested(list)
  }

  function RunPasses(same: Equality, passes: seq<Pass>, list: seq<Stmt>): seq<Stmt> {
    if passes == [] then list else RunPasses(same, passes[1..], RunPass(same, passes[0], list))
  }

  /** Whenever the nested combiner runs, every loop it restructures keeps its condition in position. */
  predicate LoopsKeptThroughout(same: Equality, passes: seq<Pass>, list: seq<Stmt>) {
    passes != [] ==>
      && (passes[0].Nested? ==> LoopsKept(list))
      && LoopsKeptThroughout(same, passes[1..], RunPass(same, passes[0], list))
  }

  lemma {:induction false} PassesPreserveMeaning<S(!new)>(env: Env<S>, same: Equality, passes: seq<Pass>, list: seq<Stmt>)
    requires Sound(same) && Stable(env, list) && LoopsKeptThroughout(same, passes, list)
    ensures Equivalent(env, list, RunPasses(same, passes, list))
    decreases |passes|
  {
    if passes != [] {
      if passes[0].Consecutive? { OptimizeSequenceCorrect(env, same, list); } else { NestedCorrect(env, list); }
      PassesPreserveMeaning(env, same, passes[1..], RunPass(same, passes[0], list));
    }
  }

  // ----- Reads and writes -----

  /** The variables each leaf reads and each expression statement writes. */
  datatype Footprint = Footprint(leafReads: nat -> set<nat>, effectWrites: nat -> set<nat>)

  ghost predicate Respects<S(!new)>(env: Env<S>, fp: Footprint) {
    forall id, s ::
      var before, after := env.valuation(s), env.valuation(env.effect(id, s));
      && before.arith == after.arith
      && forall l :: fp.effectWrites(id) !! fp.leafReads(l) ==> after.leaf(l) == before.leaf(l)
  }

  function Reads(fp: Footprint, c: Expr): set<nat> {
    match c
    case Leaf(id, _, _) => fp.leafReads(id)
    case Not(e) => Reads(fp, e)
    case NAry(_, es) => set i, x | 0 <= i < |es| && x in Reads(fp, es[i]) :: x
    case _ => {}
  }

  function WritesOne(fp: Footprint, p: Stmt): set<nat>
    decreases p, 0
  {
    match p
    case Effect(id) => fp.effectWrites(id)
    case IfElse(_, a, b) => Writes(fp, a) + Writes(fp, b)
    case Loop(_, _, body) => Writes(fp, body)
    case _ => {}
  }

  function Writes(fp: Footprint, p: seq<Stmt>): set<nat>
    decreases p, 1
  {
    set i, x | 0 <= i < |p| && x in WritesOne(fp, p[i]) :: x
  }

  predicate NoSelfWriteOne(fp: Footprint, p: Stmt)
    decreases p, 0
  {
    match p
    case IfElse(c, a, b) =>
      && Writes(fp, a) !! Reads(fp, c) && Writes(fp, b) !! Reads(fp, c)
      && NoSelfWrite(fp, a) && NoSelfWrite(fp, b)
    case Loop(_, _, body) => NoSelfWrite(fp, body)
    case _ => true
  }

  /** No `if` writes, in either branch, a variable that its own condition reads. */
  predicate NoSelfWrite(fp: Footprint, p: seq<Stmt>)
    decreases p, 1
  {
    forall i :: 0 <= i < |p| ==> NoSelfWriteOne(fp, p[i])
  }

  function IfsIn(p: Stmt): seq<Stmt>
    decreases p, 0
  {
    match p
    case IfElse(_, a, b) => [p] + Ifs(a) + Ifs(b)
    case Loop(_, _, body) => Ifs(body)
    case _ => []
  }

  /** All `if`s of a tree, however deep. */
  function Ifs(list: seq<Stmt>): (r: seq<Stmt>)
    decreases list, 1
  {
    if list == [] then [] else IfsIn(list[0]) + Ifs(list[1..])
  }

  /** A variable that a leaf of the condition reads, however deep. */
  ghost predicate IsRead(fp: Footprint, c: Expr, x: nat) {
    exists path :: IsReadAt(fp, c, x, path)
  }

  ghost predicate IsReadAt(fp: Footprint, c: Expr, x: nat, path: seq<nat>) {
    Part(c, path).Some? && Part(c, path).value.Leaf? && x in fp.leafReads(Part(c, path).value.id)
  }

  ghost predicate Untouched(fp: Footprint, p: Stmt) {
    p.IfElse? ==> forall x :: IsRead(fp, p.cond, x) ==> x !in Writes(fp, p.ifBody) && x !in Writes(fp, p.elseBody)
  }

  lemma {:induction false} ReadsExact(fp: Footprint, c: Expr, x: nat)
    ensures x in Reads(fp, c) <==> IsRead(fp, c, x)
  {
    if x in Reads(fp, c) {
      var path := ReadHasPath(fp, c, x);
    }
    if path :| IsReadAt(fp, c, x, path) {
      PathIsRead(fp, c, x, path);
    }
  }

  lemma {:induction false} ReadHasPath(fp: Footprint, c: Expr, x: nat) returns (path: seq<nat>)
    requires x in Reads(fp, c)
    ensures IsReadAt(fp, c, x, path)
  {
    match c {
      case Not(e) =>
        var rest := ReadHasPath(fp, e, x);
        path := [0] + rest;
      case NAry(_, es) =>
        var i: nat :| i < |es| && x in Reads(fp, es[i]);
        var rest := ReadHasPath(fp, es[i], x);
        path := [i] + rest;
      case _ => path := [];
    }
  }

  lemma {:induction false} PathIsRead(fp: Footprint, c: Expr, x: nat, path: seq<nat>)
    requires IsReadAt(fp, c, x, path)
    ensures x in Reads(fp, c)
    decreases |path|
  {
    if path != [] {
      PathIsRead(fp, if c.Not? then c.e else c.es[path[0]], x, path[1..]);
    }
  }

  lemma {:induction false} IfsInWrite(fp: Footprint, p: Stmt)
    ensures NoSelfWriteOne(fp, p) <==> forall q :: q in IfsIn(p) ==> Untouched(fp, q)
    decreases p, 0
  {
    match p {
      case IfElse(c, a, b) =>
        NoSelfWriteExact(fp, a);
        NoSelfWriteExact(fp, b);
        forall x ensures x in Reads(fp, c) <==> IsRead(fp, c, x) {
          ReadsExact(fp, c, x);
        }
        assert Untouched(fp, p) <==> Writes(fp, a) !! Reads(fp, c) && Writes(fp, b) !! Reads(fp, c);
        assert p in IfsIn(p);
      case Loop(_, _, body) => NoSelfWriteExact(fp, body);
      case _ =>
    }
  }

  /** The condition on reads and writes, `if` by `if` and leaf by leaf. */
  lemma {:induction false} NoSelfWriteExact(fp: Footprint, list: seq<Stmt>)
    ensures NoSelfWrite(fp, list) <==> forall q :: q in Ifs(list) ==> Untouched(fp, q)
    decreases list, 1
  {
    if list != [] {
      IfsInWrite(fp, list[0]);
      NoSelfWriteExact(fp, list[1..]);
      assert NoSelfWrite(fp, list) <==> NoSelfWriteOne(fp, list[0]) && NoSelfWrite(fp, list[1..]);
    }
  }

  lemma {:induction false} EvalUnwritten(fp: Footprint, c: Expr, w: set<nat>, v: Valuation, v': Valuation)
    requires w !! Reads(fp, c)
    requires v.arith == v'.arith && forall l :: w !! fp.leafReads(l) ==> v'.leaf(l) == v.leaf(l)
    ensures Eval(c, v) == Eval(c, v')
  {
    match c
    case Not(e) => EvalUnwritten(fp, e, w, v, v');
    case NAry(op, es) =>
      forall i | 0 <= i < |es|
        ensures Eval(es[i], v) == Eval(es[i], v')
      {
        EvalUnwritten(fp, es[i], w, v, v');
      }
      assert seq(|es|, i requires 0 <= i < |es| => Eval(es[i], v)) == seq(|es|, i requires 0 <= i < |es| => Eval(es[i], v'));
    case _ =>
  }

  lemma {:induction false} ExecOneUnwritten<S(!new)>(env: Env<S>, fp: Footprint, c: Expr, f: nat, p: Stmt, s: S)
    requires Respects(env, fp) && WritesOne(fp, p) !! Reads(fp, c) && ExecOne(env, f, p, s).Done?
    ensures IsTrue(env, c, ExecOne(env, f, p, s).s) == IsTrue(env, c, s)
    decreases f, p, 0
  {
    match p
    case Effect(id) => EvalUnwritten(fp, c, fp.effectWrites(id), env.valuation(s), env.valuation(env.effect(id, s)));
    case IfElse(d, a, b) => ExecUnwritten(env, fp, c, f, if IsTrue(env, d, s) then a else b, s);
    case Loop(d, position, body) =>
      if !(position.PreTested? && !IsTrue(env, d, s)) {
        ExecUnwritten(env, fp, c, f - 1, body, s);
        var r := Exec(env, f - 1, body, s);
        if r.out.Normal? && !(position.PostTested? && !IsTrue(env, d, r.s)) {
          ExecOneUnwritten(env, fp, c, f - 1, p, r.s);
        }
      }
    case _ =>
  }

  lemma {:induction false} ExecUnwritten<S(!new)>(env: Env<S>, fp: Footprint, c: Expr, f: nat, p: seq<Stmt>, s: S)
    requires Respects(env, fp) && Writes(fp, p) !! Reads(fp, c) && Exec(env, f, p, s).Done?
    ensures IsTrue(env, c, Exec(env, f, p, s).s) == IsTrue(env, c, s)
    decreases f, p, 1
  {
    if p != [] {
      assert WritesOne(fp, p[0]) <= Writes(fp, p);
      assert Writes(fp, p[1..]) <= Writes(fp, p);
      ExecOneUnwritten(env, fp, c, f, p[0], s);
      var r := ExecOne(env, f, p[0], s);
      if r.out.Normal? {
        ExecUnwritten(env, fp, c, f, p[1..], r.s);
      }
    }
  }

  lemma KeepsUnwritten<S(!new)>(env: Env<S>, fp: Footprint, c: Expr, b: bool, p: seq<Stmt>)
    requires Respects(env, fp) && Writes(fp, p) !! Reads(fp, c)
    ensures Keeps(env, c, b, p)
  {
    forall s | IsTrue(env, c, s) == b && Meaning(env, p, s).Done? && Meaning(env, p, s).out.Normal?
      ensures IsTrue(env, c, Meaning(env, p, s).s) == b
    {
      var f := MeaningFuel(env, p, s);
      ExecUnwritten(env, fp, c, f, p, s);
    }
  }

  lemma {:induction false} NoSelfWriteOneStable<S(!new)>(env: Env<S>, fp: Footprint, p: Stmt)
    requires Respects(env, fp) && NoSelfWriteOne(fp, p)
    ensures StableOne(env, p)
    decreases p, 0
  {
    match p
    case IfElse(c, a, b) =>
      KeepsUnwritten(env, fp, c, true, a);
      KeepsUnwritten(env, fp, c, false, b);
      NoSelfWriteStable(env, fp, a);
      NoSelfWriteStable(env, fp, b);
    case Loop(_, _, body) => NoSelfWriteStable(env, fp, body);
    case _ =>
  }

  lemma {:induction false} NoSelfWriteStable<S(!new)>(env: Env<S>, fp: Footprint, p: seq<Stmt>)
    requires Respects(env, fp) && NoSelfWrite(fp, p)
    ensures Stable(env, p)
    decreases p, 1
  {
    forall i | 0 <= i < |p| ensures StableOne(env, p[i]) {
      NoSelfWriteOneStable(env, fp, p[i]);
    }
  }

  /** The combiners in any order keep the meaning of every tree in which no `if` writes what its condition reads. */
  lemma PassesPreserveUnwritten<S(!new)>(env: Env<S>, fp: Footprint, same: Equality, passes: seq<Pass>, list: seq<Stmt>)
    requires Sound(same) && Respects(env, fp) && NoSelfWrite(fp, list) && LoopsKeptThroughout(same, passes, list)
    ensures Equivalent(env, list, RunPasses(same, passes, list))
  {
    NoSelfWriteStable(env, fp, list);
    PassesPreserveMeaning(env, same, passes, list);
  }

  // ----- The program's own order -----

  /** The combiners in the order GeneratePseudocode runs them; the passes between them do not touch statements. */
  const PIPELINE := [Consecutive, Nested, Consecutive, Consecutive, Nested, Consecutive]

  /** `while (true) { if (a) break; X; if (b) break; }` */
  function TwoExits(a: Expr, b: Expr): Stmt {
    Loop(True, PreTested, [IfElse(a, [Break], []), Effect(0), IfElse(b, [Break], [])])
  }

  function StructuralEquality(): Equality {
    (x: Expr, y: Expr) => x == y
  }

  lemma {:induction false} NothingToMerge(same: Equality, acc: seq<Stmt>, rest: seq<Stmt>)
    requires forall i :: 0 < i < |acc + rest| ==> !((acc + rest)[i - 1].IfElse? && (acc + rest)[i].IfElse?)
    ensures MergeRuns(same, acc, rest) == acc + rest
    decreases |rest|
  {
    if rest != [] {
      if acc != [] {
        assert (acc + rest)[|acc| - 1] == acc[|acc| - 1] && (acc + rest)[|acc|] == rest[0];
      }
      assert acc + [rest[0]] + rest[1..] == acc + rest;
      NothingToMerge(same, acc + [rest[0]], rest[1..]);
    } else {
      assert acc + rest == acc;
    }
  }

  lemma {:induction false} NothingToRebuild(same: Equality, list: seq<Stmt>)
    requires forall i :: 0 <= i < |list| ==> Visit(same, list[i]) == [list[i]]
    ensures VisitAll(same, list) == list
    decreases |list|
  {
    if list != [] {
      NothingToRebuild(same, list[1..]);
    }
  }

  lemma VisitAllSingle(same: Equality, p: Stmt)
    ensures VisitAll(same, [p]) == Visit(same, p)
  {
    var rest := [p][1..];
    assert rest == [];
    assert VisitAll(same, rest) == [];
    assert VisitAll(same, [p]) == Visit(same, p) + [];
  }

  lemma OptimizeSingle(same: Equality, p: Stmt)
    ensures OptimizeSequence(same, [p]) == Visit(same, p)
  {
    NothingToMerge(same, [], [p]);
    assert MergeRuns(same, [], [p]) == [p];
    VisitAllSingle(same, p);
  }

  lemma OptimizeEmpty(same: Equality)
    ensures OptimizeSequence(same, []) == []
  {
  }

  /** An `if (e) break` stays as it is, and an `if (!e) {}` goes. */
  lemma OptimizeExit(same: Equality, e: Expr)
    requires e.Leaf?
    ensures Visit(same, IfElse(e, [Break], [])) == [IfElse(e, [Break], [])]
    ensures Visit(same, IfElse(Not(e), [], [])) == []
  {
    OptimizeSingle(same, Break);
    OptimizeEmpty(same);
  }

  function Exit(e: Expr): Stmt { IfElse(e, [Break], []) }

  /** The loop after the first nested pass: `while (!a) { X; if (b) break; }`. */
  function OneExit(a: Expr, b: Expr): Stmt {
    Loop(And([True, Not(a)]), PreTested, [Effect(0), Exit(b)])
  }

  /** The loop after the second nested pass: `do { X; if (!b) {} } while (!a && !b)`. */
  function NoExit(a: Expr, b: Expr, last: seq<Stmt>): Stmt {
    Loop(And([And([True, Not(a)]), Not(b)]), PostTested, [Effect(0)] + last)
  }

  /** A loop whose optimised body is not just an `if` keeps its condition. */
  lemma OptimizeAround(same: Equality, loop: Stmt, body: seq<Stmt>)
    requires loop.Loop? && OptimizeSequence(same, loop.body) == body
    requires |body| > 1 || (body != [] && !body[0].IfElse?)
    ensures OptimizeSequence(same, [loop]) == [Loop(loop.cond, loop.position, body)]
  {
    OptimizeSingle(same, loop);
  }

  /** A loop over a body of more than one statement, with no two neighbouring `if`s and statements that stay. */
  lemma OptimizeLoop(same: Equality, loop: Stmt)
    requires loop.Loop? && (|loop.body| > 1 || (loop.body != [] && !loop.body[0].IfElse?))
    requires forall i :: 0 < i < |loop.body| ==> !(loop.body[i - 1].IfElse? && loop.body[i].IfElse?)
    requires forall i :: 0 <= i < |loop.body| ==> Visit(same, loop.body[i]) == [loop.body[i]]
    ensures OptimizeSequence(same, [loop]) == [loop]
  {
    assert [] + loop.body == loop.body;
    NothingToMerge(same, [], loop.body);
    NothingToRebuild(same, loop.body);
    OptimizeAround(same, loop, loop.body);
  }

  lemma ConsecutiveOnExits(same: Equality, a: Expr, b: Expr)
    requires a.Leaf? && b.Leaf?
    ensures OptimizeSequence(same, [TwoExits(a, b)]) == [TwoExits(a, b)]
    ensures OptimizeSequence(same, [OneExit(a, b)]) == [OneExit(a, b)]
    ensures OptimizeSequence(same, [NoExit(a, b, [])]) == [NoExit(a, b, [])]
  {
    OptimizeExit(same, a);
    OptimizeExit(same, b);
    OptimizeLoop(same, TwoExits(a, b));
    OptimizeLoop(same, OneExit(a, b));
    OptimizeLoop(same, NoExit(a, b, []));
  }

  /** The visitor removes an `if (!b) {}` at the end of a loop body. */
  lemma VisitEmptyIf(same: Equality, b: Expr)
    requires b.Leaf?
    ensures VisitAll(same, [Effect(0), IfElse(Not(b), [], [])]) == [Effect(0)]
  {
    var body := [Effect(0), IfElse(Not(b), [], [])];
    OptimizeExit(same, b);
    VisitAllSingle(same, IfElse(Not(b), [], []));
    assert body[1..] == [IfElse(Not(b), [], [])];
    assert [Effect(0)] + [] == [Effect(0)];
  }

  lemma OptimizeEmptyIf(same: Equality, b: Expr)
    requires b.Leaf?
    ensures OptimizeSequence(same, [Effect(0), IfElse(Not(b), [], [])]) == [Effect(0)]
  {
    var body := [Effect(0), IfElse(Not(b), [], [])];
    assert [] + body == body;
    NothingToMerge(same, [], body);
    VisitEmptyIf(same, b);
  }

  lemma ConsecutiveOnEmptyIf(same: Equality, a: Expr, b: Expr)
    requires a.Leaf? && b.Leaf?
    ensures OptimizeSequence(same, [NoExit(a, b, [IfElse(Not(b), [], [])])]) == [NoExit(a, b, [])]
  {
    var loop := NoExit(a, b, [IfElse(Not(b), [], [])]);
    assert loop.body == [Effect(0), IfElse(Not(b), [], [])];
    OptimizeEmptyIf(same, b);
    OptimizeAround(same, loop, [Effect(0)]);
    assert [Effect(0)] + [] == [Effect(0)];
  }

  lemma NestedSingle(p: Stmt)
    ensures VisitAllNested([p]) == [VisitNested(p)]
  {
    assert [p][1..] == [];
  }

  lemma NestedOnExits(a: Expr, b: Expr)
    requires a.Leaf? && b.Leaf?
    ensures VisitAllNested([TwoExits(a, b)]) == [OneExit(a, b)]
    ensures VisitAllNested([OneExit(a, b)]) == [NoExit(a, b, [IfElse(Not(b), [], [])])]
    ensures !LoopsKept([OneExit(a, b)])
  {
    var two, one := TwoExits(a, b), OneExit(a, b);
    NestedSingle(two);
    NestedSingle(one);
    NestedSingle(Break);
    NestedSingle(Exit(b));
    assert VisitNested(Exit(a)) == Exit(a) && VisitNested(Exit(b)) == Exit(b);
    assert one.body[1..] == [Exit(b)];
    assert VisitAllNested(one.body) == one.body;
    assert two.body[1..] == one.body;
    assert VisitAllNested(two.body) == two.body;
    assert [] + one.body == one.body;
    assert LoopsKeptOne([one][0]) == LoopsKeptOne(one);
  }

  /** The second nested pass turns `while (!a) { X; if (b) break; }` into `do { X } while (!a && !b)`. */
  lemma PipelineOnTwoExits(same: Equality, a: Expr, b: Expr)
    requires a.Leaf? && b.Leaf?
    ensures RunPasses(same, PIPELINE, [TwoExits(a, b)]) == [NoExit(a, b, [])]
    ensures !LoopsKeptThroughout(same, PIPELINE, [TwoExits(a, b)])
  {
    ConsecutiveOnExits(same, a, b);
    ConsecutiveOnEmptyIf(same, a, b);
    NestedOnExits(a, b);
    var p1, p2, p3, p4, p5 := PIPELINE[1..], PIPELINE[2..], PIPELINE[3..], PIPELINE[4..], PIPELINE[5..];
    assert p1[1..] == p2 && p2[1..] == p3 && p3[1..] == p4 && p4[1..] == p5 && p5[1..] == [];
    var done := [NoExit(a, b, [])];
    assert RunPasses(same, p5, [NoExit(a, b, [IfElse(Not(b), [], [])])]) == done;
    assert RunPasses(same, p4, [OneExit(a, b)]) == done && !LoopsKeptThroughout(same, p4, [OneExit(a, b)]);
    assert RunPasses(same, p3, [OneExit(a, b)]) == done && !LoopsKeptThroughout(same, p3, [OneExit(a, b)]);
    assert RunPasses(same, p2, [OneExit(a, b)]) == done && !LoopsKeptThroughout(same, p2, [OneExit(a, b)]);
    assert RunPasses(same, p1, [TwoExits(a, b)]) == done && !LoopsKeptThroughout(same, p1, [TwoExits(a, b)]);
  }

  lemma TwoExitsLeaves<S(!new)>(env: Env<S>, a: Expr, b: Expr, s: S)
    requires IsTrue(env, a, s)
    ensures Meaning(env, [TwoExits(a, b)], s) == Done(Normal, s)
  {
    var two := TwoExits(a, b);
    MeaningLoop(env, two, s);
    assert two.body == [Exit(a)] + two.body[1..];
    MeaningConcat(env, [Exit(a)], two.body[1..], s);
    MeaningIf(env, a, [Break], [], s);
    MeaningBreak(env, s);
  }

  lemma NoExitRunsBody<S(!new)>(env: Env<S>, a: Expr, b: Expr, s: S)
    requires IsTrue(env, a, env.effect(0, s))
    ensures Meaning(env, [NoExit(a, b, [])], s) == Done(Normal, env.effect(0, s))
  {
    var done := NoExit(a, b, []);
    var v := env.valuation(env.effect(0, s));
    MeaningLoop(env, done, s);
    assert [Effect(0)] + [] == [Effect(0)];
    ExecSingle(env, 0, Effect(0), s);
    MeaningIs(env, 0, [Effect(0)], s);
    AndPairHolds(True, Not(a), v);
    AndPairHolds(And([True, Not(a)]), Not(b), v);
  }

  lemma ExitStable<S(!new)>(env: Env<S>, e: Expr)
    ensures StableOne(env, Exit(e))
  {
    assert Keeps(env, e, true, [Break]) by {
      forall s ensures Meaning(env, [Break], s) == Done(Broke, s) { MeaningBreak(env, s); }
    }
    assert Keeps(env, e, false, []) by {
      forall s ensures Meaning(env, [], s) == Done(Normal, s) { MeaningEmpty(env, s); }
    }
    var body, none: seq<Stmt> := [Break], [];
    assert StableOne(env, body[0]);
    assert Stable(env, body) && Stable(env, none);
  }

  lemma TwoExitsStable<S(!new)>(env: Env<S>, a: Expr, b: Expr)
    ensures Stable(env, [TwoExits(a, b)])
  {
    ExitStable(env, a);
    ExitStable(env, b);
    var two := TwoExits(a, b);
    assert StableOne(env, two.body[0]) && StableOne(env, two.body[1]) && StableOne(env, two.body[2]);
    assert Stable(env, two.body);
    assert StableOne(env, two);
  }

  /**
   The pipeline does not preserve meaning: started where `a` holds, the original leaves at once without running X,
   whatever X does, and the result runs X.
   */
  lemma PipelineRunsSkippedStatement<S(!new)>(env: Env<S>, same: Equality, a: Expr, b: Expr, s: S)
    requires a.Leaf? && b.Leaf? && IsTrue(env, a, s) && IsTrue(env, a, env.effect(0, s))
    ensures Stable(env, [TwoExits(a, b)])
    ensures Meaning(env, [TwoExits(a, b)], s) == Done(Normal, s)
    ensures Meaning(env, RunPasses(same, PIPELINE, [TwoExits(a, b)]), s) == Done(Normal, env.effect(0, s))
  {
    PipelineOnTwoExits(same, a, b);
    TwoExitsLeaves(env, a, b, s);
    NoExitRunsBody(env, a, b, s);
    TwoExitsStable(env, a, b);
  }
}
