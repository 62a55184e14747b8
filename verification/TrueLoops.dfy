/**
 TrueLoops: folding makes loops whose condition is the literal `true`. The consecutive combiner keeps them so, and one
 pass of the nested combiner over them is always right; it is the second pass over the same loops that may not be.
 */
module TrueLoops {
  import opened Expressions
  import opened Statements
  import opened Regions
  import opened ConsecutiveCombiner
  import opened NestedCombiner
  import opened CombinerPipeline
  import opened ReachingConditions
  import opened PathGuards
  import opened Structurizer

  predicate LoopsOnTrueOne(p: Stmt)
    decreases p, 0
  {
    match p
    case IfElse(_, a, b) => LoopsOnTrue(a) && LoopsOnTrue(b)
    case Loop(c, _, body) => c == True && LoopsOnTrue(body)
    case _ => true
  }

  /** Every loop in the tree has the literal condition `true`. */
  predicate LoopsOnTrue(list: seq<Stmt>)
    decreases list, 1
  {
    forall i :: 0 <= i < |list| ==> LoopsOnTrueOne(list[i])
  }

  lemma {:induction false} LoopsKeptOnTrueOne(p: Stmt)
    requires LoopsOnTrueOne(p)
    ensures LoopsKeptOne(p)
    decreases p, 0
  {
    match p
    case IfElse(_, a, b) => LoopsKeptOnTrue(a); LoopsKeptOnTrue(b);
    case Loop(_, _, body) => LoopsKeptOnTrue(body);
    case _ =>
  }

  /** The nested combiner is right on such trees. */
  lemma {:induction false} LoopsKeptOnTrue(list: seq<Stmt>)
    requires LoopsOnTrue(list)
    ensures LoopsKept(list)
    decreases list, 1
  {
    forall i | 0 <= i < |list| ensures LoopsKeptOne(list[i]) {
      LoopsKeptOnTrueOne(list[i]);
    }
  }

  // ----- The consecutive combiner -----

  lemma OnTrueConcat(p: seq<Stmt>, q: seq<Stmt>)
    requires LoopsOnTrue(p) && LoopsOnTrue(q)
    ensures LoopsOnTrue(p + q)
  {
  }

  lemma OnTrueMerged(same: Equality, last: Stmt, next: Stmt)
    requires last.IfElse? && next.IfElse? && Merged(same, last, next).Some? && LoopsOnTrueOne(last) && LoopsOnTrueOne(next)
    ensures var m := Merged(same, last, next).value; LoopsOnTrue(m.0) && LoopsOnTrue(m.1)
  {
  }

  lemma {:induction false} AbsorbOnTrue(same: Equality, acc: seq<Stmt>, next: Stmt)
    requires LoopsOnTrue(acc) && LoopsOnTrueOne(next)
    ensures LoopsOnTrue(Absorb(same, acc, next))
    decreases Size(acc) + SizeOne(next), 1, 0
  {
    if Mergeable(same, acc, next) {
      var last := acc[|acc| - 1];
      var m := Merged(same, last, next).value;
      MergedSize(same, last, next);
      SizeSnoc(acc);
      OnTrueMerged(same, last, next);
      OptimizeOnTrue(same, m.0);
      OptimizeOnTrue(same, m.1);
    }
  }

  lemma {:induction false} MergeOnTrue(same: Equality, acc: seq<Stmt>, rest: seq<Stmt>)
    requires LoopsOnTrue(acc) && LoopsOnTrue(rest)
    ensures LoopsOnTrue(MergeRuns(same, acc, rest))
    decreases Size(acc) + Size(rest), 2, |rest|
  {
    if rest != [] {
      AbsorbOnTrue(same, acc, rest[0]);
      MergeOnTrue(same, Absorb(same, acc, rest[0]), rest[1..]);
    }
  }

  /** No condition of a loop changes. */
  lemma {:induction false} OptimizeOnTrue(same: Equality, list: seq<Stmt>)
    requires LoopsOnTrue(list)
    ensures LoopsOnTrue(OptimizeSequence(same, list))
    decreases Size(list), 3, 0
  {
    MergeOnTrue(same, [], list);
    VisitAllOnTrue(same, MergeRuns(same, [], list));
  }

  lemma {:induction false} VisitAllOnTrue(same: Equality, list: seq<Stmt>)
    requires LoopsOnTrue(list)
    ensures LoopsOnTrue(VisitAll(same, list))
    decreases Size(list), 1, |list|
  {
    if list != [] {
      VisitOnTrue(same, list[0]);
      VisitAllOnTrue(same, list[1..]);
      OnTrueConcat(Visit(same, list[0]), VisitAll(same, list[1..]));
    }
  }

  lemma {:induction false} VisitOnTrue(same: Equality, p: Stmt)
    requires LoopsOnTrueOne(p)
    ensures LoopsOnTrue(Visit(same, p))
    decreases SizeOne(p), 0, 0
  {
    match p
    case IfElse(c, a, b) => OptimizeOnTrue(same, a); OptimizeOnTrue(same, b);
    case Loop(c, position, body) =>
      OptimizeOnTrue(same, body);
      RebuildLoopOnTrue(same, c, position, OptimizeSequence(same, body));
    case _ =>
  }

  lemma RebuildLoopOnTrue(same: Equality, c: Expr, position: Position, body: seq<Stmt>)
    requires c == True && LoopsOnTrue(body)
    ensures LoopsOnTrue(RebuildLoop(same, c, position, body))
  {
    assert |body| > 0 ==> LoopsOnTrueOne(body[0]);
  }

  // ----- Runs of the passes -----

  function NestedPasses(passes: seq<Pass>): nat {
    if passes == [] then 0 else (if passes[0].Nested? then 1 else 0) + NestedPasses(passes[1..])
  }

  lemma {:induction false} NoNestedPass(same: Equality, passes: seq<Pass>, list: seq<Stmt>)
    requires NestedPasses(passes) == 0
    ensures LoopsKeptThroughout(same, passes, list)
    decreases |passes|
  {
    if passes != [] {
      NoNestedPass(same, passes[1..], RunPass(same, passes[0], list));
    }
  }

  /** With one nested pass among any number of consecutive ones no loop loses its condition's position. */
  lemma {:induction false} OneNestedPass(same: Equality, passes: seq<Pass>, list: seq<Stmt>)
    requires LoopsOnTrue(list) && NestedPasses(passes) <= 1
    ensures LoopsKeptThroughout(same, passes, list)
    decreases |passes|
  {
    if passes != [] {
      if passes[0].Nested? {
        LoopsKeptOnTrue(list);
        NoNestedPass(same, passes[1..], RunPass(same, passes[0], list));
      } else {
        OptimizeOnTrue(same, list);
        OneNestedPass(same, passes[1..], RunPass(same, passes[0], list));
      }
    }
  }

  // ----- What folding makes -----

  lemma {:induction false} NestOnTrue(conditions: Path, body: seq<Stmt>)
    requires LoopsOnTrue(body)
    ensures LoopsOnTrue(Nest(conditions, body))
    decreases |conditions|
  {
    if conditions != [] {
      NestOnTrue(conditions[1..], body);
    }
  }

  lemma GuardedOnTrue(same: Equality, paths: seq<Path>, body: seq<Stmt>, guarded: seq<Stmt>)
    requires IsGuarded(same, paths, body, guarded) && LoopsOnTrue(body)
    ensures LoopsOnTrue(guarded)
  {
    if paths != [] {
      var p: nat, q: nat :| GuardedWithin(same, paths, p, q, body, guarded);
      var conditions, terms := paths[0][..p] + paths[0][|paths[0]| - q..], Terms(paths, p, q);
      if terms == [] {
        NestOnTrue(conditions, body);
      } else {
        var d :| Disjoins(d, terms) && guarded == Nest(conditions, [IfElse(d, body, [])]);
        NestOnTrue(conditions, [IfElse(d, body, [])]);
      }
    }
  }

  predicate BodiesOnTrue(r: Region) {
    forall k :: 0 <= k < |r| ==> LoopsOnTrue(r[k].body)
  }

  lemma {:induction false} AddBreaksOnTrue(r: Region, exits: seq<Edge>)
    requires BodiesOnTrue(r)
    ensures BodiesOnTrue(AddBreaks(r, exits))
    decreases |exits|
  {
    if exits != [] {
      var e := exits[|exits| - 1];
      AddBreaksOnTrue(r, exits[..|exits| - 1]);
      if InRegion(r, e.from) {
        OnTrueConcat(AddBreaks(r, exits[..|exits| - 1])[e.from].body, [BreakIf(e.cond)]);
      }
    }
  }

  lemma {:induction false} FlattenOnTrue(parts: seq<seq<Stmt>>)
    requires forall k :: 0 <= k < |parts| ==> LoopsOnTrue(parts[k])
    ensures LoopsOnTrue(Flatten(parts))
    decreases |parts|
  {
    if parts != [] {
      FlattenOnTrue(parts[1..]);
      OnTrueConcat(parts[0], Flatten(parts[1..]));
    }
  }

  /** Folding regions of such blocks makes such code, so that it can be folded again. */
  lemma FoldOnTrue(same: Equality, r: Region, exits: seq<Edge>, result: seq<Stmt>)
    requires BodiesOnTrue(r) && IsFold(same, r, exits, result)
    ensures LoopsOnTrue(result)
  {
    var bodies := Prepared(r, exits);
    var parts :| GuardedBlocks(same, r, bodies, parts) && result == Wrap(r, Flatten(parts));
    AddBreaksOnTrue(r, exits);
    forall k | 0 <= k < |r| ensures LoopsOnTrue(parts[k]) {
      GuardedOnTrue(same, Paths(r, k), bodies[k].body, parts[k]);
    }
    FlattenOnTrue(parts);
  }
}
