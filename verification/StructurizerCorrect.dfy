/**
 Folding a region keeps its meaning: the guarded sequence runs exactly the blocks that walking the graph runs, in that
 order, and a folded loop stops or diverges as the walk does.
 */
module StructurizerCorrect {
  import opened Expressions
  import opened Statements
  import opened Regions
  import opened ConsecutiveCombiner
  import opened ReachingConditions
  import opened PathGuards
  import opened Structurizer

  // ----- Guards -----

  lemma {:induction false} NestMeaning<S>(env: Env<S>, conditions: Path, body: seq<Stmt>, s: S)
    ensures Meaning(env, Nest(conditions, body), s) ==
            if AllHold(conditions, env.valuation(s)) then Meaning(env, body, s) else Done(Normal, s)
    decreases |conditions|
  {
    if conditions != [] {
      var inner := Nest(conditions[1..], body);
      NestMeaning(env, conditions[1..], body, s);
      MeaningIf(env, conditions[0], inner, [], s);
      MeaningEmpty(env, s);
      var v := env.valuation(s);
      assert AllHold(conditions, v) <==> Holds(conditions[0], v) && AllHold(conditions[1..], v) by {
        assert conditions == [conditions[0]] + conditions[1..];
        AllHoldConcat([conditions[0]], conditions[1..], v);
        assert AllHold([conditions[0]], v) <==> Holds(conditions[0], v) by { assert [conditions[0]][0] == conditions[0]; }
      }
    }
  }

  /** The paths to a block can be guarded without loss: see GuardExact. */
  ghost predicate Guardable(same: Equality, paths: seq<Path>) {
    paths != [] ==> forall p: nat, q: nat :: Lengths(same, paths, p, q) ==> AllOrNone(paths, p, q)
  }

  lemma GuardedByMeaning<S>(env: Env<S>, conditions: Path, terms: seq<Expr>, body: seq<Stmt>, guarded: seq<Stmt>, s: S)
    requires GuardedBy(conditions, terms, body, guarded)
    ensures var v := env.valuation(s);
      Meaning(env, guarded, s) ==
      if AllHold(conditions, v) && (terms == [] || AnyHolds(terms, v)) then Meaning(env, body, s) else Done(Normal, s)
  {
    if terms == [] {
      NestMeaning(env, conditions, body, s);
    } else {
      var d :| Disjoins(d, terms) && guarded == Nest(conditions, [IfElse(d, body, [])]);
      NestMeaning(env, conditions, [IfElse(d, body, [])], s);
      MeaningIf(env, d, body, [], s);
      MeaningEmpty(env, s);
    }
  }

  lemma GuardedMeaning<S>(env: Env<S>, same: Equality, paths: seq<Path>, body: seq<Stmt>, guarded: seq<Stmt>, s: S)
    requires Sound(same) && Guardable(same, paths) && IsGuarded(same, paths, body, guarded)
    ensures Meaning(env, guarded, s) ==
            if paths == [] || AnyPath(paths, env.valuation(s)) then Meaning(env, body, s) else Done(Normal, s)
  {
    if paths != [] {
      var p: nat, q: nat :| GuardedWithin(same, paths, p, q, body, guarded);
      var v, prefix, suffix := env.valuation(s), paths[0][..p], paths[0][|paths[0]| - q..];
      GuardExact(same, paths, p, q, v);
      AllHoldConcat(prefix, suffix, v);
      GuardedByMeaning(env, prefix + suffix, Terms(paths, p, q), body, guarded, s);
    }
  }

  // ----- Runs of the blocks of a region -----

  ghost predicate FallsThrough<S>(env: Env<S>, p: seq<Stmt>, s: S) {
    Meaning(env, p, s).Done? && Meaning(env, p, s).out.Normal?
  }

  /** After a block falls through, all its edges whose conditions hold lead to the same block. */
  ghost predicate Deterministic<S(!new)>(env: Env<S>, r: Region) {
    forall k, s, e, f ::
      (0 <= k < |r| && FallsThrough(env, r[k].body, s) && e in r[k].succs && f in r[k].succs &&
       IsTrue(env, e.cond, Meaning(env, r[k].body, s).s) && IsTrue(env, f.cond, Meaning(env, r[k].body, s).s)) ==>
        e.to == f.to
  }

  /** Running a block leaves the conditions on the edges of the blocks before it as they were. */
  ghost predicate Undisturbed<S(!new)>(env: Env<S>, r: Region) {
    forall j, k, s, e ::
      (0 <= j < k < |r| && FallsThrough(env, r[k].body, s) && e in r[j].succs) ==>
        IsTrue(env, e.cond, Meaning(env, r[k].body, s).s) == IsTrue(env, e.cond, s)
  }

  lemma {:induction false} NextHolds<S>(env: Env<S>, succs: seq<Edge>, s: S)
    ensures Next(env, succs, s).Some? ==> exists e :: e in succs && IsTrue(env, e.cond, s) && e.to == Next(env, succs, s).value
    ensures Next(env, succs, s).None? ==> forall e :: e in succs ==> !IsTrue(env, e.cond, s)
    decreases |succs|
  {
    if succs != [] {
      NextHolds(env, succs[1..], s);
      assert forall e :: e in succs <==> e == succs[0] || e in succs[1..];
    }
  }

  /** The next block inside the region in order, if block `k` leads to one when its statements come to `m`. */
  ghost function NextForward<S>(env: Env<S>, r: Region, k: nat, m: Result<S>): (next: Option<nat>)
    requires k < |r|
    ensures next.Some? ==> m.Done? && m.out.Normal? && k < next.value < |r|
  {
    var next := Onward(env, r, k, m);
    if next.Some? && next.value > k then next else None
  }

  /** One trip through the region, without edges back. */
  ghost function Trip<S>(env: Env<S>, r: Region, k: nat, s: S): Result<S>
    requires k < |r|
    decreases |r| - k
  {
    var m := Meaning(env, r[k].body, s);
    var next := NextForward(env, r, k, m);
    if next.Some? then Trip(env, r, next.value, m.s) else m
  }

  // ----- The state part way through the guarded sequence -----

  /** `run` are exactly the blocks before `k` whose guards hold. */
  ghost predicate RunReached<S>(env: Env<S>, r: Region, k: nat, s: S, run: set<nat>)
    requires k <= |r|
  {
    && (forall j :: j in run ==> j < k)
    && (forall j :: 0 <= j < k ==> (Reached(r, j, env.valuation(s)) <==> j in run))
  }

  ghost predicate LeadsOn<S>(env: Env<S>, r: Region, j: nat, e: Edge, s: S) {
    j < |r| && e in r[j].succs && IsTrue(env, e.cond, s) && j < e.to < |r|
  }

  /** The edges taken from the blocks that ran lead to blocks that ran, or to the pending one. */
  ghost predicate RunLeads<S>(env: Env<S>, r: Region, s: S, run: set<nat>, pending: Option<nat>) {
    forall j, e :: j in run && LeadsOn(env, r, j, e, s) ==> e.to in run || pending == Some(e.to)
  }

  ghost predicate Enters<S>(env: Env<S>, r: Region, k: nat, e: Edge, s: S, run: set<nat>) {
    k < |r| && e in r[k].preds && 0 <= e.from && e.from in run && IsTrue(env, e.cond, s)
  }

  /** The pending block is the entry or is entered from a block that ran. */
  ghost predicate PendingEntered<S>(env: Env<S>, r: Region, k: nat, s: S, run: set<nat>, pending: Option<nat>) {
    pending.Some? ==> k <= pending.value < |r| && (pending.value == 0 || exists e :: Enters(env, r, pending.value, e, s, run))
  }

  /**
   With the guards before block `k` passed: `run` are the blocks that ran and `pending` is the one to run next, if any.
   */
  ghost predicate Halfway<S>(env: Env<S>, r: Region, k: nat, s: S, run: set<nat>, pending: Option<nat>) {
    && k <= |r| && (k == 0 ==> pending == Some(0))
    && RunReached(env, r, k, s, run) && RunLeads(env, r, s, run, pending) && PendingEntered(env, r, k, s, run, pending)
  }

  lemma PendingIsReached<S>(env: Env<S>, r: Region, k: nat, s: S, run: set<nat>)
    requires WellShaped(r) && k < |r| && RunReached(env, r, k, s, run) && PendingEntered(env, r, k, s, run, Some(k))
    ensures Reached(r, k, env.valuation(s))
  {
    ReachedStep(r, k, env.valuation(s));
    if k > 0 {
      var e :| Enters(env, r, k, e, s, run);
      assert TakenInto(r, k, e, env.valuation(s));
    }
  }

  lemma EdgeLeaves(r: Region, k: nat, e: Edge)
    requires WellShaped(r) && k < |r| && e in r[k].preds && Visited(e, k)
    ensures e.to == k && e in r[e.from].succs
  {
  }

  lemma EdgeEnters(r: Region, j: nat, e: Edge)
    requires WellShaped(r) && j < |r| && e in r[j].succs && InRegion(r, e.to)
    ensures e.from == j && e in r[e.to].preds
  {
  }

  lemma ReachedIsPending<S>(env: Env<S>, r: Region, k: nat, s: S, run: set<nat>, pending: Option<nat>)
    requires WellShaped(r) && 0 < k < |r| && RunReached(env, r, k, s, run) && RunLeads(env, r, s, run, pending)
    requires Reached(r, k, env.valuation(s))
    ensures pending == Some(k)
  {
    var e := ReachedFrom(r, k, env.valuation(s));
    EdgeLeaves(r, k, e);
    assert LeadsOn(env, r, e.from, e, s);
  }

  /** The guard of a block holds exactly if the block is the pending one. */
  lemma GuardIsPending<S>(env: Env<S>, r: Region, k: nat, s: S, run: set<nat>, pending: Option<nat>)
    requires WellShaped(r) && Halfway(env, r, k, s, run, pending) && k < |r|
    ensures Reached(r, k, env.valuation(s)) <==> pending == Some(k)
  {
    if pending == Some(k) {
      PendingIsReached(env, r, k, s, run);
    } else if Reached(r, k, env.valuation(s)) {
      ReachedIsPending(env, r, k, s, run, pending);
    }
  }

  /** Conditions that keep their truth keep the blocks they reach. */
  lemma {:induction false} ReachedUndisturbed(r: Region, k: nat, v: Valuation, v': Valuation)
    requires WellShaped(r) && k < |r|
    requires forall j, e :: 0 <= j < k && e in r[j].succs ==> (Holds(e.cond, v) <==> Holds(e.cond, v'))
    ensures Reached(r, k, v) <==> Reached(r, k, v')
    decreases k
  {
    ReachedStep(r, k, v);
    ReachedStep(r, k, v');
    forall e | e in r[k].preds && Visited(e, k) ensures TakenInto(r, k, e, v) <==> TakenInto(r, k, e, v') {
      ReachedUndisturbed(r, e.from, v, v');
    }
  }

  lemma RunReachedNext<S(!new)>(env: Env<S>, r: Region, k: nat, s: S, run: set<nat>, s': S)
    requires WellShaped(r) && Undisturbed(env, r) && k < |r|
    requires Meaning(env, r[k].body, s) == Done(Normal, s')
    requires RunReached(env, r, k, s, run) && Reached(r, k, env.valuation(s))
    ensures RunReached(env, r, k + 1, s', run + {k})
  {
    assert FallsThrough(env, r[k].body, s);
    forall j | 0 <= j < k + 1 ensures Reached(r, j, env.valuation(s')) <==> j in run + {k} {
      ReachedUndisturbed(r, j, env.valuation(s), env.valuation(s'));
    }
  }

  lemma RunLeadsNext<S(!new)>(env: Env<S>, r: Region, k: nat, s: S, run: set<nat>, s': S)
    requires Deterministic(env, r) && Undisturbed(env, r) && k < |r| && forall j :: j in run ==> j < k
    requires Meaning(env, r[k].body, s) == Done(Normal, s') && RunLeads(env, r, s, run, Some(k))
    ensures RunLeads(env, r, s', run + {k}, NextForward(env, r, k, Done(Normal, s')))
  {
    assert FallsThrough(env, r[k].body, s);
    var next := NextForward(env, r, k, Done(Normal, s'));
    NextHolds(env, r[k].succs, s');
    forall j, e | j in run + {k} && LeadsOn(env, r, j, e, s') ensures e.to in run + {k} || next == Some(e.to) {
      if j in run {
        assert LeadsOn(env, r, j, e, s);
      } else {
        var f :| f in r[k].succs && IsTrue(env, f.cond, s') && f.to == Next(env, r[k].succs, s').value;
        assert e.to == f.to;
      }
    }
  }

  lemma PendingEnteredNext<S(!new)>(env: Env<S>, r: Region, k: nat, run: set<nat>, s': S)
    requires WellShaped(r) && k < |r| && k in run
    ensures PendingEntered(env, r, k + 1, s', run, NextForward(env, r, k, Done(Normal, s')))
  {
    var next := NextForward(env, r, k, Done(Normal, s'));
    NextHolds(env, r[k].succs, s');
    if next.Some? {
      var e :| e in r[k].succs && IsTrue(env, e.cond, s') && e.to == next.value;
      EdgeEnters(r, k, e);
      assert Enters(env, r, next.value, e, s', run);
    }
  }

  /** Running the pending block leads to the state part way before the next one. */
  lemma HalfwayRun<S(!new)>(env: Env<S>, r: Region, k: nat, s: S, run: set<nat>, s': S)
    requires WellShaped(r) && Deterministic(env, r) && Undisturbed(env, r)
    requires k < |r| && Halfway(env, r, k, s, run, Some(k))
    requires Meaning(env, r[k].body, s) == Done(Normal, s')
    ensures Halfway(env, r, k + 1, s', run + {k}, NextForward(env, r, k, Done(Normal, s')))
  {
    GuardIsPending(env, r, k, s, run, Some(k));
    RunReachedNext(env, r, k, s, run, s');
    RunLeadsNext(env, r, k, s, run, s');
    PendingEnteredNext(env, r, k, run + {k}, s');
  }

  lemma HalfwaySkip<S>(env: Env<S>, r: Region, k: nat, s: S, run: set<nat>, pending: Option<nat>)
    requires WellShaped(r) && Halfway(env, r, k, s, run, pending) && k < |r| && pending != Some(k)
    ensures Halfway(env, r, k + 1, s, run, pending)
  {
    GuardIsPending(env, r, k, s, run, pending);
  }

  ghost function TripOrNothing<S>(env: Env<S>, r: Region, pending: Option<nat>, s: S): Result<S>
    requires pending.Some? ==> pending.value < |r|
  {
    if pending.Some? then Trip(env, r, pending.value, s) else Done(Normal, s)
  }

  /** Part `k` runs its block if the block is reached, and does nothing otherwise. */
  ghost predicate PartRuns<S>(env: Env<S>, r: Region, k: nat, part: seq<Stmt>, s: S)
    requires k < |r|
  {
    Meaning(env, part, s) == if Reached(r, k, env.valuation(s)) then Meaning(env, r[k].body, s) else Done(Normal, s)
  }

  ghost predicate PartsRun<S(!new)>(env: Env<S>, r: Region, parts: seq<seq<Stmt>>) {
    |parts| == |r| && forall k, s :: 0 <= k < |r| ==> PartRuns(env, r, k, parts[k], s)
  }

  lemma GuardedPartsRun<S(!new)>(env: Env<S>, same: Equality, r: Region, parts: seq<seq<Stmt>>)
    requires Sound(same) && GuardedBlocks(same, r, r, parts) && forall k :: 0 <= k < |r| ==> Guardable(same, Paths(r, k))
    ensures PartsRun(env, r, parts)
  {
    forall k, s | 0 <= k < |r| ensures PartRuns(env, r, k, parts[k], s) {
      GuardedMeaning(env, same, Paths(r, k), r[k].body, parts[k], s);
    }
  }

  /** The first of the parts runs if its block is the pending one and does nothing otherwise. */
  lemma FirstPart<S(!new)>(env: Env<S>, r: Region, parts: seq<seq<Stmt>>, k: nat, s: S, run: set<nat>, pending: Option<nat>)
    requires WellShaped(r) && PartsRun(env, r, parts) && k < |r| && Halfway(env, r, k, s, run, pending)
    ensures Meaning(env, Flatten(parts[k..]), s) ==
            if pending == Some(k) then Then(env, Meaning(env, r[k].body, s), Flatten(parts[k + 1..]))
            else Meaning(env, Flatten(parts[k + 1..]), s)
  {
    assert parts[k..][0] == parts[k] && parts[k..][1..] == parts[k + 1..];
    MeaningConcat(env, parts[k], Flatten(parts[k + 1..]), s);
    GuardIsPending(env, r, k, s, run, pending);
    assert PartRuns(env, r, k, parts[k], s);
  }

  /** Past the guard of block `k`, unless that block runs and does not fall through. */
  lemma NextPart<S(!new)>(env: Env<S>, r: Region, parts: seq<seq<Stmt>>, k: nat, s: S, run: set<nat>, pending: Option<nat>)
    returns (s': S, run': set<nat>, pending': Option<nat>)
    requires WellShaped(r) && Deterministic(env, r) && Undisturbed(env, r)
    requires PartsRun(env, r, parts) && k < |r| && Halfway(env, r, k, s, run, pending)
    requires pending == Some(k) ==> FallsThrough(env, r[k].body, s)
    ensures Halfway(env, r, k + 1, s', run', pending')
    ensures Meaning(env, Flatten(parts[k..]), s) == Meaning(env, Flatten(parts[k + 1..]), s')
    ensures TripOrNothing(env, r, pending, s) == TripOrNothing(env, r, pending', s')
  {
    FirstPart(env, r, parts, k, s, run, pending);
    if pending == Some(k) {
      var m := Meaning(env, r[k].body, s);
      s', run', pending' := m.s, run + {k}, NextForward(env, r, k, m);
      HalfwayRun(env, r, k, s, run, s');
    } else {
      s', run', pending' := s, run, pending;
      HalfwaySkip(env, r, k, s, run, pending);
    }
  }

  /** No parts are left, or the block that is to run does not fall through. */
  lemma LastPart<S(!new)>(env: Env<S>, r: Region, parts: seq<seq<Stmt>>, k: nat, s: S, run: set<nat>, pending: Option<nat>)
    requires WellShaped(r) && PartsRun(env, r, parts) && Halfway(env, r, k, s, run, pending)
    requires k == |r| || (pending == Some(k) && !FallsThrough(env, r[k].body, s))
    ensures Meaning(env, Flatten(parts[k..]), s) == TripOrNothing(env, r, pending, s)
  {
    if k == |r| {
      MeaningEmpty(env, s);
    } else {
      FirstPart(env, r, parts, k, s, run, pending);
    }
  }

  /** The parts from `k` on run as the trip from the pending block does, or do nothing if there is none. */
  lemma {:induction false} PartsMeaning<S(!new)>(env: Env<S>, r: Region, parts: seq<seq<Stmt>>, k: nat, s: S, run: set<nat>, pending: Option<nat>)
    requires WellShaped(r) && Deterministic(env, r) && Undisturbed(env, r)
    requires PartsRun(env, r, parts) && Halfway(env, r, k, s, run, pending)
    ensures Meaning(env, Flatten(parts[k..]), s) == TripOrNothing(env, r, pending, s)
    decreases |r| - k
  {
    if k == |r| || (pending == Some(k) && !FallsThrough(env, r[k].body, s)) {
      LastPart(env, r, parts, k, s, run, pending);
    } else {
      var s', run', pending' := NextPart(env, r, parts, k, s, run, pending);
      PartsMeaning(env, r, parts, k + 1, s', run', pending');
    }
  }

  /** The guarded sequence makes one trip through the region. */
  lemma SequenceMeaning<S(!new)>(env: Env<S>, r: Region, parts: seq<seq<Stmt>>, s: S)
    requires WellShaped(r) && Deterministic(env, r) && Undisturbed(env, r) && PartsRun(env, r, parts)
    ensures Meaning(env, Flatten(parts), s) == Trip(env, r, 0, s)
  {
    assert parts[0..] == parts;
    PartsMeaning(env, r, parts, 0, s, {}, Some(0));
  }

  // ----- Regions without back edges -----

  lemma {:induction false} TripIsWalk<S>(env: Env<S>, r: Region, k: nat, s: S)
    requires WellShaped(r) && !HasBackEdge(r) && k < |r|
    ensures Trip(env, r, k, s) == GraphMeaning(env, r, k, s)
    decreases |r| - k
  {
    GraphMeaningStep(env, r, k, s);
    var m := Meaning(env, r[k].body, s);
    var next := Onward(env, r, k, m);
    if next.Some? {
      NextHolds(env, r[k].succs, m.s);
      var e :| e in r[k].succs && e.to == next.value;
      var i :| 0 <= i < |r[k].succs| && r[k].succs[i] == e;
      assert !IsBackEdge(k, r[k].succs[i]);
      TripIsWalk(env, r, next.value, m.s);
    }
  }

  /**
   Folding a region without back edges: if all its guards can be built without loss, the sequence means what the graph
   means, for every interpretation under which the graph is deterministic and blocks leave earlier conditions alone.
   */
  lemma FoldAcyclicCorrect<S(!new)>(env: Env<S>, same: Equality, r: Region, exits: seq<Edge>, result: seq<Stmt>, s: S)
    requires Sound(same) && WellShaped(r) && !HasBackEdge(r) && forall k :: 0 <= k < |r| ==> Guardable(same, Paths(r, k))
    requires Deterministic(env, r) && Undisturbed(env, r)
    requires IsFold(same, r, exits, result)
    ensures Meaning(env, result, s) == GraphMeaning(env, r, 0, s)
  {
    var parts :| GuardedBlocks(same, r, Prepared(r, exits), parts) && result == Wrap(r, Flatten(parts));
    GuardedPartsRun(env, same, r, parts);
    SequenceMeaning(env, r, parts, s);
    TripIsWalk(env, r, 0, s);
  }

  // ----- Loops -----

  /** `exits` are exactly the edges out of the region; they all lead to the loop's exit, whose predecessors they are. */
  ghost predicate ExitsListed(r: Region, exits: seq<Edge>) {
    && (forall e :: e in exits && InRegion(r, e.from) ==> e in r[e.from].succs && !InRegion(r, e.to))
    && (forall k, e :: 0 <= k < |r| && e in r[k].succs && !InRegion(r, e.to) ==> e.from == k && e in exits)
  }

  /** Blocks of a loop do not break out of it themselves, and when one falls through, one of its edges is taken. */
  ghost predicate StaysInGraph<S(!new)>(env: Env<S>, r: Region) {
    forall k, s :: 0 <= k < |r| ==>
      && !(Meaning(env, r[k].body, s).Done? && Meaning(env, r[k].body, s).out.Broke?)
      && (FallsThrough(env, r[k].body, s) ==> Next(env, r[k].succs, Meaning(env, r[k].body, s).s).Some?)
  }

  lemma MeaningBreakIf<S>(env: Env<S>, c: Expr, s: S)
    ensures Meaning(env, [BreakIf(c)], s) == if IsTrue(env, c, s) then Done(Broke, s) else Done(Normal, s)
  {
    MeaningBreak(env, s);
    MeaningIf(env, c, [Break], [], s);
    MeaningEmpty(env, s);
  }

  ghost predicate ExitTaken<S>(env: Env<S>, exits: seq<Edge>, k: nat, s: S) {
    exists e :: e in exits && e.from == k && IsTrue(env, e.cond, s)
  }

  /** A block with its breaks: it breaks if it falls through to a state in which one of its exit edges is taken. */
  lemma {:induction false} AddBreaksMeaning<S>(env: Env<S>, r: Region, exits: seq<Edge>, k: nat, s: S)
    requires k < |r|
    ensures var m := Meaning(env, r[k].body, s);
            Meaning(env, AddBreaks(r, exits)[k].body, s) ==
            if m.Done? && m.out.Normal? && ExitTaken(env, exits, k, m.s) then Done(Broke, m.s) else m
    decreases |exits|
  {
    if exits != [] {
      var init, e := exits[..|exits| - 1], exits[|exits| - 1];
      assert exits == init + [e];
      AddBreaksMeaning(env, r, init, k, s);
      var before := AddBreaks(r, init)[k].body;
      var m := Meaning(env, r[k].body, s);
      MeaningConcat(env, before, [BreakIf(e.cond)], s);
      if m.Done? {
        MeaningBreakIf(env, e.cond, m.s);
        assert ExitTaken(env, exits, k, m.s) <==> ExitTaken(env, init, k, m.s) || (e.from == k && IsTrue(env, e.cond, m.s));
      }
    }
  }

  /** One iteration of the graph's loop from block `k` on: it stops, or goes around to the entry again. */
  ghost function Round<S>(env: Env<S>, r: Region, k: nat, s: S): Iteration<S>
    requires k < |r|
    decreases |r| - k
  {
    var m := Meaning(env, r[k].body, s);
    var next := Onward(env, r, k, m);
    if next.None? then Stop(m)
    else if next.value > k then Round(env, r, next.value, m.s)
    else Again(m.s)
  }

  /** What a trip over the blocks with their breaks makes of a round: leaving the loop shows as a break. */
  ghost function AsTrip<S>(round: Iteration<S>): Result<S> {
    match round
    case Again(s) => Done(Normal, s)
    case Stop(m) => if m.Done? && m.out.Normal? then Done(Broke, m.s) else m
  }

  lemma ExitIsTaken<S(!new)>(env: Env<S>, r: Region, exits: seq<Edge>, k: nat, s: S)
    requires WellShaped(r) && Deterministic(env, r) && StaysInGraph(env, r) && ExitsListed(r, exits)
    requires k < |r| && FallsThrough(env, r[k].body, s)
    ensures var m := Meaning(env, r[k].body, s);
            ExitTaken(env, exits, k, m.s) <==> Onward(env, r, k, m).None?
  {
    var m := Meaning(env, r[k].body, s);
    NextHolds(env, r[k].succs, m.s);
    var f :| f in r[k].succs && IsTrue(env, f.cond, m.s) && f.to == Next(env, r[k].succs, m.s).value;
    if e :| e in exits && e.from == k && IsTrue(env, e.cond, m.s) {
      assert e in r[k].succs && e.to == f.to;
    }
    if !InRegion(r, f.to) {
      assert f.from == k && f in exits;
    }
  }

  lemma {:induction false} TripWithBreaks<S(!new)>(env: Env<S>, r: Region, exits: seq<Edge>, k: nat, s: S)
    requires WellShaped(r) && Deterministic(env, r) && StaysInGraph(env, r) && ExitsListed(r, exits) && k < |r|
    ensures Trip(env, AddBreaks(r, exits), k, s) == AsTrip(Round(env, r, k, s))
    decreases |r| - k
  {
    var b := AddBreaks(r, exits);
    var m := Meaning(env, r[k].body, s);
    AddBreaksMeaning(env, r, exits, k, s);
    if FallsThrough(env, r[k].body, s) {
      ExitIsTaken(env, r, exits, k, s);
      var next := Onward(env, r, k, m);
      if next.Some? {
        assert Onward(env, b, k, m) == next;
        if next.value > k {
          TripWithBreaks(env, r, exits, next.value, m.s);
        }
      }
    }
  }

  ghost predicate SameEdges(r: Region, b: Region) {
    |b| == |r| && forall k :: 0 <= k < |r| ==> b[k].preds == r[k].preds && b[k].succs == r[k].succs
  }

  lemma SameEdgesShape(r: Region, b: Region)
    requires SameEdges(r, b) && WellShaped(r)
    ensures WellShaped(b)
  {
    forall k | 0 < k < |b| ensures HasForwardPredecessor(b, k) {
      assert HasForwardPredecessor(r, k);
    }
  }

  lemma {:induction false} SameEdgesTable(r: Region, b: Region, n: nat)
    requires SameEdges(r, b) && n <= |r|
    ensures Table(r, n) == Table(b, n)
    decreases n
  {
    if n > 0 {
      SameEdgesTable(r, b, n - 1);
    }
  }

  lemma AddBreaksFallsThrough<S>(env: Env<S>, r: Region, exits: seq<Edge>, k: nat, s: S)
    requires k < |r| && FallsThrough(env, AddBreaks(r, exits)[k].body, s)
    ensures FallsThrough(env, r[k].body, s) && Meaning(env, AddBreaks(r, exits)[k].body, s) == Meaning(env, r[k].body, s)
  {
    AddBreaksMeaning(env, r, exits, k, s);
  }

  /** Breaks only turn falling through into breaking, so the region with breaks satisfies the same conditions. */
  lemma AddBreaksKeeps<S(!new)>(env: Env<S>, r: Region, exits: seq<Edge>)
    requires Deterministic(env, r) && Undisturbed(env, r)
    ensures Deterministic(env, AddBreaks(r, exits)) && Undisturbed(env, AddBreaks(r, exits))
  {
    var b := AddBreaks(r, exits);
    forall k, s | 0 <= k < |r| && FallsThrough(env, b[k].body, s)
      ensures FallsThrough(env, r[k].body, s) && Meaning(env, b[k].body, s) == Meaning(env, r[k].body, s)
    {
      AddBreaksFallsThrough(env, r, exits, k, s);
    }
  }

  /** One iteration of the folded loop is one round of the graph. */
  lemma IterationIsRound<S(!new)>(env: Env<S>, same: Equality, r: Region, exits: seq<Edge>, parts: seq<seq<Stmt>>, s: S)
    requires Sound(same) && WellShaped(r) && forall k :: 0 <= k < |r| ==> Guardable(same, Paths(r, k))
    requires Deterministic(env, r) && Undisturbed(env, r) && StaysInGraph(env, r) && ExitsListed(r, exits)
    requires GuardedBlocks(same, r, AddBreaks(r, exits), parts)
    ensures Iterate(env, Loop(True, PreTested, Flatten(parts)), s) == Round(env, r, 0, s)
  {
    var b := AddBreaks(r, exits);
    SameEdgesShape(r, b);
    AddBreaksKeeps(env, r, exits);
    forall k | 0 <= k < |b| ensures Paths(b, k) == Paths(r, k) { SameEdgesTable(r, b, k); }
    GuardedPartsRun(env, same, b, parts);
    SequenceMeaning(env, b, parts, s);
    TripWithBreaks(env, r, exits, 0, s);
    RoundNeverBreaks(env, r, 0, s);
  }

  lemma {:induction false} RoundNeverBreaks<S(!new)>(env: Env<S>, r: Region, k: nat, s: S)
    requires StaysInGraph(env, r) && k < |r|
    ensures var round := Round(env, r, k, s); round.Stop? && round.r.Done? ==> !round.r.out.Broke?
    decreases |r| - k
  {
    var m := Meaning(env, r[k].body, s);
    var next := Onward(env, r, k, m);
    if next.Some? && next.value > k {
      RoundNeverBreaks(env, r, next.value, m.s);
    }
  }

  /** A walk is its first round and, if that goes around, the walk from the entry again. */
  lemma {:induction false} WalkByRounds<S>(env: Env<S>, r: Region, k: nat, s: S)
    requires WellShaped(r) && k < |r|
    ensures var round := Round(env, r, k, s);
            GraphMeaning(env, r, k, s) == if round.Stop? then round.r else GraphMeaning(env, r, 0, round.s)
    decreases |r| - k
  {
    GraphMeaningStep(env, r, k, s);
    var m := Meaning(env, r[k].body, s);
    var next := Onward(env, r, k, m);
    if next.Some? {
      if next.value > k {
        WalkByRounds(env, r, next.value, m.s);
      } else {
        BackToEntry(env, r, k, m);
      }
    }
  }

  lemma BackToEntry<S>(env: Env<S>, r: Region, k: nat, m: Result<S>)
    requires WellShaped(r) && k < |r| && Onward(env, r, k, m).Some? && Onward(env, r, k, m).value <= k
    ensures Onward(env, r, k, m).value == 0
  {
    NextHolds(env, r[k].succs, m.s);
    var e :| e in r[k].succs && e.to == Onward(env, r, k, m).value;
  }

  /** A walk that goes around spends fuel on it. */
  lemma {:induction false} RoundTakesFuel<S>(env: Env<S>, r: Region, f: nat, k: nat, s: S) returns (g: nat)
    requires WellShaped(r) && k < |r| && Walk(env, r, f, k, s).Done? && Round(env, r, k, s).Again?
    ensures g < f && Walk(env, r, g, 0, Round(env, r, k, s).s) == Walk(env, r, f, k, s)
    decreases |r| - k
  {
    var m := Meaning(env, r[k].body, s);
    var next := Onward(env, r, k, m);
    if next.value > k {
      g := RoundTakesFuel(env, r, f - 1, next.value, m.s);
    } else {
      BackToEntry(env, r, k, m);
      g := f - 1;
    }
  }

  lemma {:induction false} LoopToWalk<S(!new)>(env: Env<S>, r: Region, loop: Stmt, f: nat, s: S)
    requires WellShaped(r) && loop.Loop? && loop.cond == True && loop.position.PreTested?
    requires forall s :: Iterate(env, loop, s) == Round(env, r, 0, s)
    requires ExecOne(env, f, loop, s).Done?
    ensures GraphMeaning(env, r, 0, s) == ExecOne(env, f, loop, s)
    decreases f
  {
    WalkByRounds(env, r, 0, s);
    MeaningIs(env, f - 1, loop.body, s);
    assert Iterate(env, loop, s) == Round(env, r, 0, s);
    var round := Round(env, r, 0, s);
    if round.Again? {
      LoopToWalk(env, r, loop, f - 1, round.s);
    }
  }

  lemma {:induction false} WalkToLoop<S(!new)>(env: Env<S>, r: Region, loop: Stmt, f: nat, s: S)
    requires WellShaped(r) && loop.Loop?
    requires forall s :: Iterate(env, loop, s) == Round(env, r, 0, s)
    requires Walk(env, r, f, 0, s).Done?
    ensures Meaning(env, [loop], s) == Walk(env, r, f, 0, s)
    decreases f
  {
    MeaningLoop(env, loop, s);
    var round := Round(env, r, 0, s);
    assert Iterate(env, loop, s) == round;
    WalkByRounds(env, r, 0, s);
    GraphMeaningIs(env, r, f, 0, s);
    if round.Again? {
      var g := RoundTakesFuel(env, r, f, 0, s);
      WalkToLoop(env, r, loop, g, round.s);
    }
  }

  /**
   Folding a loop with one entry and one exit: the loop statement means what walking the graph with its back edges
   means, and one diverges exactly if the other does.
   */
  lemma FoldLoopCorrect<S(!new)>(env: Env<S>, same: Equality, r: Region, exits: seq<Edge>, result: seq<Stmt>, s: S)
    requires Sound(same) && WellShaped(r) && HasBackEdge(r) && forall k :: 0 <= k < |r| ==> Guardable(same, Paths(r, k))
    requires Deterministic(env, r) && Undisturbed(env, r) && StaysInGraph(env, r) && ExitsListed(r, exits)
    requires IsFold(same, r, exits, result)
    ensures Meaning(env, result, s) == GraphMeaning(env, r, 0, s)
  {
    var parts :| GuardedBlocks(same, r, Prepared(r, exits), parts) && result == Wrap(r, Flatten(parts));
    var loop := Loop(True, PreTested, Flatten(parts));
    PreparedIsAddBreaks(r, exits);
    forall s ensures Iterate(env, loop, s) == Round(env, r, 0, s) {
      IterationIsRound(env, same, r, exits, parts, s);
    }
    var f := MeaningFuel(env, [loop], s);
    ExecSingle(env, f, loop, s);
    var g := GraphMeaningFuel(env, r, 0, s);
    if Meaning(env, [loop], s).Done? {
      LoopToWalk(env, r, loop, f, s);
    } else if Walk(env, r, g, 0, s).Done? {
      WalkToLoop(env, r, loop, g, s);
    }
  }

  lemma {:induction false} AddBreaksOutside(r: Region, exits: seq<Edge>)
    requires forall e :: e in exits ==> !InRegion(r, e.from)
    ensures AddBreaks(r, exits) == r
    decreases |exits|
  {
    if exits != [] {
      AddBreaksOutside(r, exits[..|exits| - 1]);
    }
  }

  lemma ListedExit(r: Region, exits: seq<Edge>, e: Edge)
    requires ExitsListed(r, exits) && e in exits && InRegion(r, e.from)
    ensures HasExit(r)
  {
    var i :| 0 <= i < |r[e.from].succs| && r[e.from].succs[i] == e;
  }

  lemma PreparedIsAddBreaks(r: Region, exits: seq<Edge>)
    requires HasBackEdge(r) && ExitsListed(r, exits)
    ensures Prepared(r, exits) == AddBreaks(r, exits)
  {
    if e :| e in exits && InRegion(r, e.from) {
      ListedExit(r, exits, e);
    } else {
      AddBreaksOutside(r, exits);
    }
  }
}
