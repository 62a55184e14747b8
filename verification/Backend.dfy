/**
 Backend: folding a region and running the combiners over what comes out means what walking the graph means.
 */
module Backend {
  import opened Expressions
  import opened Statements
  import opened Regions
  import opened ConsecutiveCombiner
  import opened CombinerPipeline
  import opened ReachingConditions
  import opened PathGuards
  import opened Structurizer
  import opened StructurizerCorrect
  import opened BranchConditions
  import opened TrueLoops
  import opened Disjunction
  import opened DisjunctionExact
  import opened DisjunctionAsWritten

  // ----- Lists that leave a condition alone -----

  /** Running the list leaves the truth of the condition as it was, if it falls through. */
  ghost predicate Leaves<S(!new)>(env: Env<S>, c: Expr, p: seq<Stmt>) {
    forall s :: FallsThrough(env, p, s) ==> IsTrue(env, c, Meaning(env, p, s).s) == IsTrue(env, c, s)
  }

  ghost predicate LeavesAll<S(!new)>(env: Env<S>, conditions: Path, p: seq<Stmt>) {
    forall c :: c in conditions ==> Leaves(env, c, p)
  }

  lemma LeavesIf<S(!new)>(env: Env<S>, c: Expr, d: Expr, p: seq<Stmt>)
    requires Leaves(env, c, p)
    ensures Leaves(env, c, [IfElse(d, p, [])])
  {
    forall s | FallsThrough(env, [IfElse(d, p, [])], s)
      ensures IsTrue(env, c, Meaning(env, [IfElse(d, p, [])], s).s) == IsTrue(env, c, s)
    {
      MeaningIf(env, d, p, [], s);
      MeaningEmpty(env, s);
      assert IsTrue(env, d, s) ==> FallsThrough(env, p, s);
    }
  }

  lemma {:induction false} LeavesNest<S(!new)>(env: Env<S>, c: Expr, conditions: Path, p: seq<Stmt>)
    requires Leaves(env, c, p)
    ensures Leaves(env, c, Nest(conditions, p))
    decreases |conditions|
  {
    if conditions != [] {
      LeavesNest(env, c, conditions[1..], p);
      LeavesIf(env, c, conditions[0], Nest(conditions[1..], p));
    }
  }

  lemma StableIf<S(!new)>(env: Env<S>, c: Expr, p: seq<Stmt>)
    requires Leaves(env, c, p) && Stable(env, p)
    ensures Stable(env, [IfElse(c, p, [])])
  {
    assert Keeps(env, c, true, p) by {
      forall s | IsTrue(env, c, s) && FallsThrough(env, p, s) ensures IsTrue(env, c, Meaning(env, p, s).s) {
      }
    }
    assert Keeps(env, c, false, []) by {
      forall s ensures Meaning(env, [], s) == Done(Normal, s) { MeaningEmpty(env, s); }
    }
    assert StableOne(env, IfElse(c, p, []));
  }

  lemma {:induction false} StableNest<S(!new)>(env: Env<S>, conditions: Path, p: seq<Stmt>)
    requires LeavesAll(env, conditions, p) && Stable(env, p)
    ensures Stable(env, Nest(conditions, p))
    decreases |conditions|
  {
    if conditions != [] {
      StableNest(env, conditions[1..], p);
      LeavesNest(env, conditions[0], conditions[1..], p);
      StableIf(env, conditions[0], Nest(conditions[1..], p));
    }
  }

  lemma StableConcat<S(!new)>(env: Env<S>, p: seq<Stmt>, q: seq<Stmt>)
    requires Stable(env, p) && Stable(env, q)
    ensures Stable(env, p + q)
  {
  }

  // ----- Guards that their blocks leave alone -----

  ghost predicate SameTruths(paths: seq<Path>, v: Valuation, v': Valuation) {
    forall path, i :: path in paths && 0 <= i < |path| ==> (Holds(path[i], v) <==> Holds(path[i], v'))
  }

  lemma TermsSame(paths: seq<Path>, p: nat, q: nat, v: Valuation, v': Valuation)
    requires NoOverlap(paths, p, q) && SameTruths(paths, v, v')
    ensures AnyHolds(Terms(paths, p, q), v) <==> AnyHolds(Terms(paths, p, q), v')
  {
    TermsHold(paths, p, q, v);
    TermsHold(paths, p, q, v');
    forall path | path in paths ensures MiddleHolds(path, p, q, v) <==> MiddleHolds(path, p, q, v') {
      var middle := Middle(path, p, q);
      forall i | 0 <= i < |middle| ensures Holds(middle[i], v) <==> Holds(middle[i], v') {
        assert middle[i] == path[p + i];
      }
    }
  }

  lemma DisjunctionLeft<S(!new)>(env: Env<S>, paths: seq<Path>, p: nat, q: nat, d: Expr, body: seq<Stmt>)
    requires NoOverlap(paths, p, q) && Disjoins(d, Terms(paths, p, q))
    requires forall path :: path in paths ==> LeavesAll(env, path, body)
    ensures Leaves(env, d, body)
  {
    forall s | FallsThrough(env, body, s) ensures IsTrue(env, d, Meaning(env, body, s).s) == IsTrue(env, d, s) {
      var v, v' := env.valuation(s), env.valuation(Meaning(env, body, s).s);
      forall path, i | path in paths && 0 <= i < |path| ensures Holds(path[i], v) <==> Holds(path[i], v') {
        assert Leaves(env, path[i], body);
      }
      TermsSame(paths, p, q, v, v');
    }
  }

  lemma GuardedByStable<S(!new)>(
      env: Env<S>, paths: seq<Path>, p: nat, q: nat, conditions: Path, body: seq<Stmt>, guarded: seq<Stmt>)
    requires NoOverlap(paths, p, q) && GuardedBy(conditions, Terms(paths, p, q), body, guarded) && Stable(env, body)
    requires LeavesAll(env, conditions, body) && forall path :: path in paths ==> LeavesAll(env, path, body)
    ensures Stable(env, guarded)
  {
    if Terms(paths, p, q) == [] {
      StableNest(env, conditions, body);
    } else {
      var d :| Disjoins(d, Terms(paths, p, q)) && guarded == Nest(conditions, [IfElse(d, body, [])]);
      DisjunctionLeft(env, paths, p, q, d, body);
      StableIf(env, d, body);
      forall c | c in conditions ensures Leaves(env, c, [IfElse(d, body, [])]) {
        LeavesIf(env, c, d, body);
      }
      StableNest(env, conditions, [IfElse(d, body, [])]);
    }
  }

  lemma GuardedStable<S(!new)>(env: Env<S>, same: Equality, paths: seq<Path>, body: seq<Stmt>, guarded: seq<Stmt>)
    requires IsGuarded(same, paths, body, guarded) && Stable(env, body)
    requires forall path :: path in paths ==> LeavesAll(env, path, body)
    ensures Stable(env, guarded)
  {
    if paths != [] {
      var p: nat, q: nat :| GuardedWithin(same, paths, p, q, body, guarded);
      var conditions := paths[0][..p] + paths[0][|paths[0]| - q..];
      assert paths[0] in paths && LeavesAll(env, paths[0], body);
      assert forall c :: c in conditions ==> c in paths[0];
      GuardedByStable(env, paths, p, q, conditions, body, guarded);
    }
  }

  // ----- Where the conditions on paths come from -----

  ghost predicate OnEdgeBefore(r: Region, k: int, c: Expr) {
    exists j, e :: 0 <= j < k && j < |r| && e in r[j].succs && e.cond == c
  }

  ghost predicate FromEdges(r: Region, k: int, paths: seq<Path>) {
    forall path, c :: path in paths && c in path ==> OnEdgeBefore(r, k, c)
  }

  lemma ExtendedFrom(r: Region, k: nat, paths: seq<Path>, c: Expr)
    requires FromEdges(r, k, paths) && OnEdgeBefore(r, k, c)
    ensures FromEdges(r, k, Extended(paths, c))
  {
    forall path, x | path in Extended(paths, c) && x in path ensures OnEdgeBefore(r, k, x) {
      if x != c {
        var i :| 0 <= i < |paths| && Extended(paths, c)[i] == path;
        assert x in paths[i] && paths[i] in paths;
      }
    }
  }

  lemma {:induction false} JoinedFrom(r: Region, k: nat, preds: seq<Edge>)
    requires WellShaped(r) && k < |r| && (forall e :: e in preds ==> e in r[k].preds)
    requires forall j :: 0 <= j < k ==> FromEdges(r, k, Table(r, k)[j])
    ensures FromEdges(r, k, Joined(Table(r, k), preds))
    decreases |preds|
  {
    if preds != [] {
      var e := preds[|preds| - 1];
      JoinedFrom(r, k, preds[..|preds| - 1]);
      if Visited(e, k) {
        assert e in preds;
        EdgeLeaves(r, k, e);
        ExtendedFrom(r, k, Table(r, k)[e.from], e.cond);
      }
    }
  }

  /** Every condition on a path to a block is the condition of an edge from a block before it. */
  lemma {:induction false} PathsFrom(r: Region, k: nat)
    requires WellShaped(r) && k < |r|
    ensures FromEdges(r, k, Paths(r, k))
    decreases k
  {
    forall j | 0 <= j < k ensures FromEdges(r, k, Table(r, k)[j]) {
      TableAt(r, k, j);
      PathsFrom(r, j);
      forall path, c | path in Paths(r, j) && c in path ensures OnEdgeBefore(r, k, c) {
        assert OnEdgeBefore(r, j, c);
      }
    }
    JoinedFrom(r, k, r[k].preds);
  }

  ghost predicate BodiesStable<S(!new)>(env: Env<S>, r: Region) {
    forall k :: 0 <= k < |r| ==> Stable(env, r[k].body)
  }

  lemma BlockLeaves<S(!new)>(env: Env<S>, r: Region, k: nat, path: Path)
    requires WellShaped(r) && Undisturbed(env, r) && k < |r| && path in Paths(r, k)
    ensures LeavesAll(env, path, r[k].body)
  {
    PathsFrom(r, k);
    forall c | c in path ensures Leaves(env, c, r[k].body) {
      assert OnEdgeBefore(r, k, c);
    }
  }

  lemma {:induction false} FlattenStable<S(!new)>(env: Env<S>, parts: seq<seq<Stmt>>)
    requires forall k :: 0 <= k < |parts| ==> Stable(env, parts[k])
    ensures Stable(env, Flatten(parts))
    decreases |parts|
  {
    if parts != [] {
      FlattenStable(env, parts[1..]);
      StableConcat(env, parts[0], Flatten(parts[1..]));
    }
  }

  lemma GuardedBlocksStable<S(!new)>(env: Env<S>, same: Equality, r: Region, parts: seq<seq<Stmt>>)
    requires WellShaped(r) && Undisturbed(env, r) && BodiesStable(env, r) && GuardedBlocks(same, r, r, parts)
    ensures Stable(env, Flatten(parts))
  {
    forall k | 0 <= k < |parts| ensures Stable(env, parts[k]) {
      forall path | path in Paths(r, k) ensures LeavesAll(env, path, r[k].body) {
        BlockLeaves(env, r, k, path);
      }
      GuardedStable(env, same, Paths(r, k), r[k].body, parts[k]);
    }
    FlattenStable(env, parts);
  }

  // ----- Loops -----

  lemma BreakIfStable<S(!new)>(env: Env<S>, c: Expr)
    ensures Stable(env, [BreakIf(c)])
  {
    assert Leaves(env, c, [Break]) by {
      forall s ensures !FallsThrough(env, [Break], s) { MeaningBreak(env, s); }
    }
    StableIf(env, c, [Break]);
  }

  lemma {:induction false} AddBreaksStable<S(!new)>(env: Env<S>, r: Region, exits: seq<Edge>)
    requires BodiesStable(env, r)
    ensures BodiesStable(env, AddBreaks(r, exits))
    decreases |exits|
  {
    if exits != [] {
      var e := exits[|exits| - 1];
      AddBreaksStable(env, r, exits[..|exits| - 1]);
      BreakIfStable(env, e.cond);
      var before := AddBreaks(r, exits[..|exits| - 1]);
      if InRegion(r, e.from) {
        StableConcat(env, before[e.from].body, [BreakIf(e.cond)]);
      }
    }
  }

  lemma PreparedStable<S(!new)>(env: Env<S>, same: Equality, r: Region, exits: seq<Edge>, parts: seq<seq<Stmt>>)
    requires WellShaped(r) && Deterministic(env, r) && Undisturbed(env, r) && BodiesStable(env, r)
    requires GuardedBlocks(same, r, AddBreaks(r, exits), parts)
    ensures Stable(env, Flatten(parts))
  {
    var b := AddBreaks(r, exits);
    SameEdgesShape(r, b);
    AddBreaksKeeps(env, r, exits);
    AddBreaksStable(env, r, exits);
    forall k | 0 <= k < |b| ensures Paths(b, k) == Paths(r, k) { SameEdgesTable(r, b, k); }
    GuardedBlocksStable(env, same, b, parts);
  }

  /** No branch of the folded code changes the condition it is under, if that is so in the blocks of the region. */
  lemma FoldStable<S(!new)>(env: Env<S>, same: Equality, r: Region, exits: seq<Edge>, result: seq<Stmt>)
    requires WellShaped(r) && Deterministic(env, r) && Undisturbed(env, r) && BodiesStable(env, r)
    requires IsFold(same, r, exits, result)
    ensures Stable(env, result)
  {
    var parts :| GuardedBlocks(same, r, Prepared(r, exits), parts) && result == Wrap(r, Flatten(parts));
    if Prepared(r, exits) == r {
      GuardedBlocksStable(env, same, r, parts);
    } else {
      PreparedStable(env, same, r, exits, parts);
    }
    assert StableOne(env, Loop(True, PreTested, Flatten(parts)));
  }

  // ----- Conditions that terminators give -----

  /** The edges carry the conditions that EdgeCondition gives for the terminator, and all of them are there. */
  ghost predicate EdgesOf(t: Terminator, succs: seq<Edge>) {
    && (forall e, v :: e in succs ==> (Holds(e.cond, v) <==> Target(t, v) == e.to))
    && (forall v :: LeadsToTarget(t, succs, v))
  }

  ghost predicate LeadsToTarget(t: Terminator, succs: seq<Edge>, v: Valuation) {
    exists e :: e in succs && e.to == Target(t, v)
  }

  lemma NextIsTarget<S>(env: Env<S>, t: Terminator, succs: seq<Edge>, s: S)
    requires EdgesOf(t, succs)
    ensures Next(env, succs, s) == Some(Target(t, env.valuation(s)))
  {
    var v := env.valuation(s);
    NextHolds(env, succs, s);
    assert LeadsToTarget(t, succs, v);
    var e :| e in succs && e.to == Target(t, v);
    assert IsTrue(env, e.cond, s);
    var f :| f in succs && IsTrue(env, f.cond, s) && f.to == Next(env, succs, s).value;
  }

  /** Then one edge is taken, and all edges that could be taken lead to the same block. */
  lemma TerminatorsDecide<S(!new)>(env: Env<S>, r: Region, terminators: seq<Terminator>)
    requires |terminators| == |r| && forall k :: 0 <= k < |r| ==> EdgesOf(terminators[k], r[k].succs)
    ensures Deterministic(env, r)
    ensures forall k, s :: 0 <= k < |r| ==> Next(env, r[k].succs, s) == Some(Target(terminators[k], env.valuation(s)))
  {
    forall k, s | 0 <= k < |r| ensures Next(env, r[k].succs, s) == Some(Target(terminators[k], env.valuation(s))) {
      NextIsTarget(env, terminators[k], r[k].succs, s);
    }
    forall k, s, e, f | 0 <= k < |r| && FallsThrough(env, r[k].body, s) && e in r[k].succs && f in r[k].succs &&
        IsTrue(env, e.cond, Meaning(env, r[k].body, s).s) && IsTrue(env, f.cond, Meaning(env, r[k].body, s).s)
      ensures e.to == f.to
    {
      assert EdgesOf(terminators[k], r[k].succs);
    }
  }

  // ----- From the graph to the final code -----

  /** What folding needs of a region; the last line is for loops. */
  ghost predicate Foldable<S(!new)>(env: Env<S>, same: Equality, r: Region, exits: seq<Edge>) {
    && Sound(same) && WellShaped(r) && (forall k :: 0 <= k < |r| ==> Guardable(same, Paths(r, k)))
    && Deterministic(env, r) && Undisturbed(env, r) && BodiesStable(env, r)
    && (HasBackEdge(r) ==> StaysInGraph(env, r) && ExitsListed(r, exits))
  }

  /**
   Folding a region, with or without a loop, and then running the combiners any number of times in any order gives code
   that means what walking the graph means, as long as no loop loses its condition to the nested combiner.
   */
  lemma BackendCorrect<S(!new)>(env: Env<S>, same: Equality, r: Region, exits: seq<Edge>, result: seq<Stmt>, passes: seq<Pass>, s: S)
    requires Foldable(env, same, r, exits) && IsFold(same, r, exits, result) && LoopsKeptThroughout(same, passes, result)
    ensures Meaning(env, RunPasses(same, passes, result), s) == GraphMeaning(env, r, 0, s)
  {
    FoldStable(env, same, r, exits, result);
    PassesPreserveMeaning(env, same, passes, result);
    if HasBackEdge(r) {
      FoldLoopCorrect(env, same, r, exits, result, s);
    } else {
      FoldAcyclicCorrect(env, same, r, exits, result, s);
    }
  }

  /** The guards of all blocks can be built: see FoldExact. */
  ghost predicate AllBuildable(order: Order, same: Equality, r: Region)
    requires Enumerates(order)
  {
    forall k :: 0 <= k < |r| ==> Buildable(order, same, Paths(r, k))
  }

  /**
   The same for what foldBasicBlocks returns, and without a hypothesis about loops if the nested combiner runs only once,
   as in the first half of the program's own order.
   */
  lemma FirstHalfCorrect<S(!new)>(env: Env<S>, order: Order, same: Equality, r: Region, exits: seq<Edge>, passes: seq<Pass>, s: S)
    requires Foldable(env, same, r, exits) && BodiesOnTrue(r) && NestedPasses(passes) <= 1
    requires Enumerates(order) && AllBuildable(order, same, r)
    ensures var result := Fold(true, order, same, r, exits);
      result.Some? && Meaning(env, RunPasses(same, passes, result.value), s) == GraphMeaning(env, r, 0, s)
  {
    FoldExact(order, same, r, exits);
    var result := Fold(true, order, same, r, exits).value;
    FoldIsFold(order, same, r, exits);
    FoldOnTrue(same, r, exits, result);
    OneNestedPass(same, passes, result);
    BackendCorrect(env, same, r, exits, result, passes, s);
  }

  /** And with createDisjunction as written, where no conjunction shrinks to one conjunct in it. */
  lemma FirstHalfAsWritten<S(!new)>(env: Env<S>, order: Order, same: Equality, r: Region, exits: seq<Edge>, passes: seq<Pass>, s: S)
    requires Foldable(env, same, r, exits) && BodiesOnTrue(r) && NestedPasses(passes) <= 1
    requires Enumerates(order) && AllBuildable(order, same, r)
    requires forall k :: 0 <= k < |r| ==> QuietGuard(order, same, Paths(r, k))
    ensures var result := Fold(false, order, same, r, exits);
      result.Some? && Meaning(env, RunPasses(same, passes, result.value), s) == GraphMeaning(env, r, 0, s)
  {
    FoldAsWritten(order, same, r, exits);
    FirstHalfCorrect(env, order, same, r, exits, passes, s);
  }

  // ----- A loop that meets these conditions -----

  const COUNTED := Leaf(0, true, false)

  /** `while (out < limit) in := in + 1`, where the header starts with `out := in`. */
  function CountingRegion(): Region {
    [Block([Effect(0)], [Edge(1, 0, True)], [Edge(0, 1, COUNTED), Edge(0, 2, Not(COUNTED))]),
     Block([Effect(1)], [Edge(0, 1, COUNTED)], [Edge(1, 0, True)])]
  }

  function CountingExits(): seq<Edge> {
    [Edge(0, 2, Not(COUNTED))]
  }

  ghost function CountingEnv(limit: int): Env<(int, int)> {
    Env((s: (int, int)) => Valuation(_ => Bit(s.1 < limit), (_, _) => 0),
        (id: nat, s: (int, int)) => if id == 0 then (s.0, s.0) else (s.0 + 1, s.1))
  }

  /** What the region says, edge by edge. */
  ghost predicate Counting(r: Region) {
    && |r| == 2 && r[0].body == [Effect(0)] && r[1].body == [Effect(1)]
    && (forall e :: e in r[0].succs <==> e == Edge(0, 1, COUNTED) || e == Edge(0, 2, Not(COUNTED)))
    && (forall e :: e in r[1].succs <==> e == Edge(1, 0, True))
    && r[0].preds == [Edge(1, 0, True)] && r[1].preds == [Edge(0, 1, COUNTED)]
  }

  lemma CountingListed(r: Region)
    requires Counting(r)
    ensures EdgesListed(r) && ExitsListed(r, CountingExits())
  {
    assert Edge(0, 2, Not(COUNTED)) in CountingExits();
  }

  lemma CountingOrdered(r: Region)
    requires Counting(r)
    ensures Ordered(r) && TrueEdgeAlone(r) && HasBackEdge(r)
  {
    assert Visited(r[1].preds[0], 1);
    assert HasForwardPredecessor(r, 1);
    assert Edge(1, 0, True) in r[1].succs;
    var i :| 0 <= i < |r[1].succs| && r[1].succs[i] == Edge(1, 0, True);
    assert IsBackEdge(1, r[1].succs[i]);
  }

  lemma JoinedSingle(t: seq<seq<Path>>, e: Edge)
    ensures Joined(t, [e]) == Contribution(t, e)
  {
    assert [e][..0] == [];
    assert Joined(t, [e][..0]) == [];
  }

  lemma CountingPaths(r: Region)
    requires Counting(r)
    ensures Paths(r, 0) == [] && Paths(r, 1) == [[COUNTED]]
  {
    JoinedSingle(Table(r, 0), Edge(1, 0, True));
    JoinedSingle(Table(r, 1), Edge(0, 1, COUNTED));
    TableAt(r, 1, 0);
  }

  lemma MeaningEffect<S>(env: Env<S>, id: nat, s: S)
    ensures Meaning(env, [Effect(id)], s) == Done(Normal, env.effect(id, s))
  {
    ExecSingle(env, 0, Effect(id), s);
    MeaningIs(env, 0, [Effect(id)], s);
  }

  lemma CountingBlocks(limit: int, s: (int, int))
    ensures var env := CountingEnv(limit);
      && Meaning(env, [Effect(0)], s) == Done(Normal, (s.0, s.0))
      && Meaning(env, [Effect(1)], s) == Done(Normal, (s.0 + 1, s.1))
      && (IsTrue(env, COUNTED, s) <==> s.1 < limit) && (IsTrue(env, Not(COUNTED), s) <==> !(s.1 < limit)) && IsTrue(env, True, s)
  {
    var env := CountingEnv(limit);
    MeaningEffect(env, 0, s);
    MeaningEffect(env, 1, s);
  }

  lemma CountingDeterministic(limit: int, r: Region)
    requires Counting(r)
    ensures Deterministic(CountingEnv(limit), r)
  {
    var env := CountingEnv(limit);
    forall k, s, e, f | 0 <= k < |r| && FallsThrough(env, r[k].body, s) && e in r[k].succs && f in r[k].succs &&
        IsTrue(env, e.cond, Meaning(env, r[k].body, s).s) && IsTrue(env, f.cond, Meaning(env, r[k].body, s).s)
      ensures e.to == f.to
    {
      CountingBlocks(limit, Meaning(env, r[k].body, s).s);
    }
  }

  lemma CountingUndisturbed(limit: int, r: Region)
    requires Counting(r)
    ensures Undisturbed(CountingEnv(limit), r)
  {
    var env := CountingEnv(limit);
    forall j, k, s, e | 0 <= j < k < |r| && FallsThrough(env, r[k].body, s) && e in r[j].succs
      ensures IsTrue(env, e.cond, Meaning(env, r[k].body, s).s) == IsTrue(env, e.cond, s)
    {
      CountingBlocks(limit, s);
      CountingBlocks(limit, (s.0 + 1, s.1));
    }
  }

  lemma CountingStays(limit: int, r: Region)
    requires Counting(r)
    ensures StaysInGraph(CountingEnv(limit), r)
  {
    var env := CountingEnv(limit);
    forall k, s | 0 <= k < |r|
      ensures Meaning(env, r[k].body, s).Done? && !Meaning(env, r[k].body, s).out.Broke?
      ensures Next(env, r[k].succs, s).Some?
    {
      CountingBlocks(limit, s);
      NextHolds(env, r[k].succs, s);
    }
  }

  lemma CountingGuards(same: Equality, r: Region)
    requires Counting(r)
    ensures forall k :: 0 <= k < |r| ==> Guardable(same, Paths(r, k))
  {
    CountingPaths(r);
  }

  lemma CountingStable(env: Env<(int, int)>, r: Region)
    requires Counting(r)
    ensures BodiesStable(env, r)
  {
  }

  /** So BackendCorrect applies to it, whatever it counts to. */
  lemma CountingFoldable(limit: int, r: Region)
    requires r == CountingRegion()
    ensures Foldable(CountingEnv(limit), StructuralEquality(), r, CountingExits())
  {
    assert Counting(r);
    CountingListed(r);
    CountingOrdered(r);
    CountingDeterministic(limit, r);
    CountingUndisturbed(limit, r);
    CountingStays(limit, r);
    CountingGuards(StructuralEquality(), r);
    CountingStable(CountingEnv(limit), r);
  }

  lemma ReversedEmpty(es: Path)
    requires es == []
    ensures Reversed(es) == []
  {
    assert |Reversed(es)| == |es|;
  }

  lemma CountingBuildable(order: Order, same: Equality, r: Region)
    requires Counting(r) && Enumerates(order)
    ensures AllBuildable(order, same, r) && forall k :: 0 <= k < |r| ==> QuietGuard(order, same, Paths(r, k))
  {
    CountingPaths(r);
    assert CommonPrefix(same, [[COUNTED]]) == [COUNTED] && CommonSuffix(same, [[COUNTED]]) == [];
    TermsEmpty([[COUNTED]], 1, 0);
    var terms := Terms([[COUNTED]], 1, 0);
    assert terms == [];
    ReversedEmpty(terms);
  }

  lemma CountingOnTrue(r: Region)
    requires Counting(r)
    ensures BodiesOnTrue(r)
  {
  }

  function Leave(): Stmt { IfElse(Not(COUNTED), [Break], []) }

  lemma CountingPrepared(r: Region)
    requires r == CountingRegion()
    ensures HasBackEdge(r) && Prepared(r, CountingExits())[0].body == [Effect(0), Leave()]
    ensures Prepared(r, CountingExits())[1].body == [Effect(1)]
  {
    CountingOrdered(r);
    assert r[0].succs[1] == Edge(0, 2, Not(COUNTED)) && HasExit(r);
    assert CountingExits()[..0] == [] && AddBreaks(r, CountingExits()[..0]) == r;
    assert [Effect(0)] + [BreakIf(Not(COUNTED))] == [Effect(0), Leave()];
  }

  lemma SequenceOfTwo(a: seq<Stmt>, b: seq<Stmt>)
    ensures Sequence([Some(a), Some(b)]) == Some(a + b)
  {
    var guards := [Some(a), Some(b)];
    assert guards[..1] == [Some(a)] && [Some(a)][..0] == [] && [] + a == a;
    assert Sequence([Some(a)]) == Some([] + a);
  }

  lemma CountingGuarded(captured: bool, order: Order, same: Equality, r: Region, bodies: Region)
    requires same(COUNTED, COUNTED) && |r| == |bodies| == 2 && Paths(r, 0) == [] && Paths(r, 1) == [[COUNTED]]
    requires bodies[0].body == [Effect(0), Leave()] && bodies[1].body == [Effect(1)]
    ensures Guards(captured, order, same, r, bodies) ==
      [Some([Effect(0), Leave()]), Some([IfElse(COUNTED, [Effect(1)], [])])]
  {
    OnePathGuard(captured, order, same, [[COUNTED]], [COUNTED], [Effect(1)]);
    assert [COUNTED][1..] == [] && Nest([COUNTED][1..], [Effect(1)]) == [Effect(1)];
  }

  /** The header with its break comes first, then the other block under the condition that leads to it, all in a loop. */
  lemma CountingCode(captured: bool, order: Order, same: Equality, r: Region)
    requires r == CountingRegion() && same(COUNTED, COUNTED)
    ensures Fold(captured, order, same, r, CountingExits()) ==
      Some([Loop(True, PreTested, [Effect(0), Leave(), IfElse(COUNTED, [Effect(1)], [])])])
  {
    CountingPrepared(r);
    CountingPaths(r);
    CountingGuarded(captured, order, same, r, Prepared(r, CountingExits()));
    var header, rest := [Effect(0), Leave()], [IfElse(COUNTED, [Effect(1)], [])];
    SequenceOfTwo(header, rest);
    assert header + rest == [Effect(0), Leave(), IfElse(COUNTED, [Effect(1)], [])];
  }

  /** The code that comes out for this loop, createDisjunction as written, counts like the graph. */
  lemma CountingCompiled(limit: int, order: Order, r: Region, passes: seq<Pass>, s: (int, int))
    requires r == CountingRegion() && Enumerates(order) && NestedPasses(passes) <= 1
    ensures var result := Fold(false, order, StructuralEquality(), r, CountingExits());
      && result.Some?
      && Meaning(CountingEnv(limit), RunPasses(StructuralEquality(), passes, result.value), s) == GraphMeaning(CountingEnv(limit), r, 0, s)
  {
    CountingFoldable(limit, r);
    CountingBuildable(order, StructuralEquality(), r);
    CountingOnTrue(r);
    FirstHalfAsWritten(CountingEnv(limit), order, StructuralEquality(), r, CountingExits(), passes, s);
  }
}
