/**
 Regions of the control-flow graph: blocks in reverse post order, the entry first, with conditions on edges, and
 what walking such a graph means.
 */
module Regions {
  import opened Expressions
  import opened Statements

  /** Blocks are numbered by their position in the region; any other number stands for a block outside it. */
  datatype Edge = Edge(from: int, to: int, cond: Expr)

  datatype Block = Block(body: seq<Stmt>, preds: seq<Edge>, succs: seq<Edge>)

  type Region = seq<Block>

  predicate InRegion(r: Region, k: int) {
    0 <= k < |r|
  }

  // ----- The reference semantics: walk the graph block by block -----

  /** The target of the first outgoing edge whose condition holds. */
  ghost function Next<S>(env: Env<S>, succs: seq<Edge>, s: S): Option<int> {
    if succs == [] then None
    else if IsTrue(env, succs[0].cond, s) then Some(succs[0].to)
    else Next(env, succs[1..], s)
  }

  /** The block that follows block `k` when its statements came to `m`; None if the walk ends there. */
  ghost function Onward<S>(env: Env<S>, r: Region, k: nat, m: Result<S>): (next: Option<nat>)
    requires k < |r|
    ensures next.Some? ==> m.Done? && m.out.Normal? && next.value < |r|
  {
    if m.Done? && m.out.Normal? then
      var next := Next(env, r[k].succs, m.s);
      if next.Some? && InRegion(r, next.value) then Some(next.value) else None
    else None
  }

  /** Runs at most `fuel` blocks from block `k` on; leaving the region, or a block with no way on, ends the walk. */
  ghost function Walk<S>(env: Env<S>, r: Region, fuel: nat, k: nat, s: S): Result<S>
    requires k < |r|
    decreases fuel
  {
    if fuel == 0 then Diverges
    else
      var m := Meaning(env, r[k].body, s);
      var next := Onward(env, r, k, m);
      if next.Some? then Walk(env, r, fuel - 1, next.value, m.s) else m
  }

  ghost function GraphMeaning<S>(env: Env<S>, r: Region, k: nat, s: S): Result<S>
    requires k < |r|
  {
    if f: nat :| Walk(env, r, f, k, s).Done? then Walk(env, r, f, k, s) else Diverges
  }

  lemma {:induction false} WalkMonotonic<S>(env: Env<S>, r: Region, f: nat, g: nat, k: nat, s: S)
    requires k < |r| && f <= g && Walk(env, r, f, k, s).Done?
    ensures Walk(env, r, g, k, s) == Walk(env, r, f, k, s)
    decreases f
  {
    var m := Meaning(env, r[k].body, s);
    var next := Onward(env, r, k, m);
    if next.Some? {
      WalkMonotonic(env, r, f - 1, g - 1, next.value, m.s);
    }
  }

  lemma GraphMeaningIs<S>(env: Env<S>, r: Region, f: nat, k: nat, s: S)
    requires k < |r| && Walk(env, r, f, k, s).Done?
    ensures GraphMeaning(env, r, k, s) == Walk(env, r, f, k, s)
  {
    var g: nat :| Walk(env, r, g, k, s).Done? && GraphMeaning(env, r, k, s) == Walk(env, r, g, k, s);
    if f <= g { WalkMonotonic(env, r, f, g, k, s); } else { WalkMonotonic(env, r, g, f, k, s); }
  }

  lemma GraphMeaningFuel<S>(env: Env<S>, r: Region, k: nat, s: S) returns (f: nat)
    requires k < |r|
    ensures Walk(env, r, f, k, s) == GraphMeaning(env, r, k, s)
  {
    if f': nat :| Walk(env, r, f', k, s).Done? {
      f := f';
      GraphMeaningIs(env, r, f, k, s);
    } else {
      f := 0;
    }
  }

  /** One block of the walk, without the fuel. */
  lemma GraphMeaningStep<S>(env: Env<S>, r: Region, k: nat, s: S)
    requires k < |r|
    ensures var m := Meaning(env, r[k].body, s);
            var next := Onward(env, r, k, m);
            GraphMeaning(env, r, k, s) == if next.Some? then GraphMeaning(env, r, next.value, m.s) else m
  {
    var m := Meaning(env, r[k].body, s);
    var next := Onward(env, r, k, m);
    var f := GraphMeaningFuel(env, r, k, s);
    var g := 0;
    if next.Some? {
      g := GraphMeaningFuel(env, r, next.value, m.s);
      if f > 0 && Walk(env, r, f - 1, next.value, m.s).Done? {
        GraphMeaningIs(env, r, f - 1, next.value, m.s);
      }
    }
    if Walk(env, r, g + 1, k, s).Done? {
      GraphMeaningIs(env, r, g + 1, k, s);
    }
  }
}
