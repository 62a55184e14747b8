/**
 RegionReduction: once an inner region has been folded, its entry block holds the folded code and leads to the region's exit
 by one edge; the other blocks are gone. Walking the smaller graph means what walking the larger one means, so that folding
 region after region, from the inside to the whole function, keeps the function's meaning.
 */
module RegionReduction {
  import opened Expressions
  import opened Statements
  import opened Regions
  import opened ConsecutiveCombiner
  import opened CombinerPipeline
  import opened ReachingConditions
  import opened Structurizer
  import opened StructurizerCorrect
  import opened TrueLoops
  import opened Backend
  import opened Disjunction

  /** The blocks from `at` on, `size` of them; control leaves them for block `exit` only. */
  datatype Span = Span(at: nat, size: nat, exit: int)

  predicate Inside(m: Span, k: int) {
    m.at <= k < m.at + m.size
  }

  /** The number of an outside block, or of the entry, in the graph in which the span is one block. */
  function Outer(m: Span, k: int): int {
    if k < m.at + m.size then k else k - m.size + 1
  }

  function ToOuter(m: Span): int -> int { t => Outer(m, t) }

  function ToInner(m: Span): int -> int { t => t - m.at }

  function Renumber(f: int -> int, es: seq<Edge>): (r: seq<Edge>)
    ensures |r| == |es| && forall i :: 0 <= i < |es| ==> r[i] == Edge(f(es[i].from), f(es[i].to), es[i].cond)
  {
    seq(|es|, i requires 0 <= i < |es| => Edge(f(es[i].from), f(es[i].to), es[i].cond))
  }

  /** The span as a region of its own. */
  function Cut(r: Region, m: Span): (c: Region)
    requires m.at + m.size <= |r|
    ensures |c| == m.size
  {
    seq(m.size, i requires 0 <= i < m.size =>
      Block(r[m.at + i].body, Renumber(ToInner(m), r[m.at + i].preds), Renumber(ToInner(m), r[m.at + i].succs)))
  }

  function Entering(m: Span, preds: seq<Edge>): seq<Edge> {
    if preds == [] then [] else (if Inside(m, preds[0].from) then [] else [preds[0]]) + Entering(m, preds[1..])
  }

  /** The predecessors of an outside block, or of the entry, after the span has been folded. */
  function NewPreds(r: Region, m: Span, k: nat): seq<Edge>
    requires k < |r|
  {
    Renumber(ToOuter(m), Entering(m, r[k].preds) + if k == m.exit then [Edge(m.at, m.exit, True)] else [])
  }

  /** The graph with `code` in place of the span. */
  function Collapse(r: Region, m: Span, code: seq<Stmt>): (c: Region)
    requires 0 < m.size && m.at + m.size <= |r|
    ensures |c| == |r| - m.size + 1
  {
    seq(|r| - m.size + 1, j requires 0 <= j < |r| - m.size + 1 =>
      if j == m.at then Block(code, NewPreds(r, m, j), [Edge(m.at, Outer(m, m.exit), True)])
      else
        var k := if j < m.at then j else j + m.size - 1;
        Block(r[k].body, NewPreds(r, m, k), Renumber(ToOuter(m), r[k].succs)))
  }

  /** One way in and one way out. */
  ghost predicate Separate(r: Region, m: Span) {
    && 0 < m.size && m.at + m.size <= |r| && !Inside(m, m.exit)
    && (forall k, e :: 0 <= k < |r| && Inside(m, k) && e in r[k].succs ==> Inside(m, e.to) || e.to == m.exit)
    && (forall k, e :: 0 <= k < |r| && !Inside(m, k) && e in r[k].succs && Inside(m, e.to) ==> e.to == m.at)
  }

  /** A block of the span that falls through takes one of its edges. */
  ghost predicate GoesOn<S(!new)>(env: Env<S>, r: Region, m: Span)
    requires m.at + m.size <= |r|
  {
    forall k, s :: Inside(m, k) && FallsThrough(env, r[k].body, s) ==> Next(env, r[k].succs, Meaning(env, r[k].body, s).s).Some?
  }

  lemma {:induction false} NextRenumbered<S>(env: Env<S>, f: int -> int, es: seq<Edge>, s: S)
    ensures Next(env, Renumber(f, es), s) == if Next(env, es, s).None? then None else Some(f(Next(env, es, s).value))
    decreases |es|
  {
    if es != [] {
      NextRenumbered(env, f, es[1..], s);
      assert Renumber(f, es)[1..] == Renumber(f, es[1..]);
    }
  }

  // ----- Walking through the span -----

  /** The result after leaving the span with `q`. */
  ghost function Leaving<S>(env: Env<S>, r: Region, m: Span, q: Result<S>): Result<S> {
    if q.Done? && q.out.Normal? && InRegion(r, m.exit) then GraphMeaning(env, r, m.exit, q.s) else q
  }

  /** A block of `c` runs as the one in the span, and goes on as it does, or leaves. */
  ghost predicate StepsAlike<S>(env: Env<S>, r: Region, m: Span, c: Region, i: nat, s: S)
    requires m.at + m.size <= |r| && |c| == m.size && i < m.size
  {
    var q := Meaning(env, r[m.at + i].body, s);
    var next, next' := Onward(env, r, m.at + i, q), Onward(env, c, i, q);
    && Meaning(env, c[i].body, s) == q
    && if next'.Some? then next == Some(m.at + next'.value)
       else next == if q.Done? && q.out.Normal? && InRegion(r, m.exit) then Some(m.exit) else None
  }

  ghost predicate Mirrors<S(!new)>(env: Env<S>, r: Region, m: Span, c: Region) {
    && m.at + m.size <= |r| && |c| == m.size
    && forall i: nat, s {:trigger StepsAlike(env, r, m, c, i, s)} :: i < m.size ==> StepsAlike(env, r, m, c, i, s)
  }

  /** Where a block of the span goes on to. */
  lemma NextInSpan<S(!new)>(env: Env<S>, r: Region, m: Span, k: nat, s: S)
    requires Separate(r, m) && GoesOn(env, r, m) && Inside(m, k) && FallsThrough(env, r[k].body, s)
    ensures var next := Next(env, r[k].succs, Meaning(env, r[k].body, s).s);
      next.Some? && (Inside(m, next.value) || next.value == m.exit)
  {
    NextHolds(env, r[k].succs, Meaning(env, r[k].body, s).s);
  }

  lemma CutStepsAlike<S(!new)>(env: Env<S>, r: Region, m: Span, i: nat, s: S)
    requires Separate(r, m) && GoesOn(env, r, m) && i < m.size
    ensures StepsAlike(env, r, m, Cut(r, m), i, s)
  {
    var q := Meaning(env, r[m.at + i].body, s);
    if q.Done? && q.out.Normal? {
      NextInSpan(env, r, m, m.at + i, s);
      NextRenumbered(env, ToInner(m), r[m.at + i].succs, q.s);
    }
  }

  lemma CutMirrors<S(!new)>(env: Env<S>, r: Region, m: Span)
    requires Separate(r, m) && GoesOn(env, r, m)
    ensures Mirrors(env, r, m, Cut(r, m))
  {
    forall i: nat, s | i < m.size ensures StepsAlike(env, r, m, Cut(r, m), i, s) {
      CutStepsAlike(env, r, m, i, s);
    }
  }

  /** If the walk through the span ends, the walk of the graph is that and what comes after it. */
  lemma {:induction false} ThroughCut<S(!new)>(env: Env<S>, r: Region, m: Span, c: Region, f: nat, i: nat, s: S)
    requires Mirrors(env, r, m, c) && i < m.size && Walk(env, c, f, i, s).Done?
    ensures GraphMeaning(env, r, m.at + i, s) == Leaving(env, r, m, Walk(env, c, f, i, s))
    decreases f
  {
    assert StepsAlike(env, r, m, c, i, s);
    var q := Meaning(env, r[m.at + i].body, s);
    GraphMeaningStep(env, r, m.at + i, s);
    var next' := Onward(env, c, i, q);
    if next'.Some? {
      ThroughCut(env, r, m, c, f - 1, next'.value, q.s);
    }
  }

  /** If the walk of the graph ends, so does its part in the span, and some of the bound is left after it. */
  lemma {:induction false} CutEnds<S(!new)>(env: Env<S>, r: Region, m: Span, c: Region, f: nat, i: nat, s: S) returns (g: nat)
    requires Mirrors(env, r, m, c) && i < m.size && Walk(env, r, f, m.at + i, s).Done?
    ensures Walk(env, c, f, i, s).Done? && g < f
    ensures var q := Walk(env, c, f, i, s);
      Walk(env, r, f, m.at + i, s) == if q.out.Normal? && InRegion(r, m.exit) then Walk(env, r, g, m.exit, q.s) else q
    decreases f
  {
    assert StepsAlike(env, r, m, c, i, s);
    var q := Meaning(env, r[m.at + i].body, s);
    var next' := Onward(env, c, i, q);
    g := f - 1;
    if next'.Some? {
      g := CutEnds(env, r, m, c, f - 1, next'.value, q.s);
    }
  }

  // ----- The collapsed graph -----

  /** The code that takes the place of the span means what walking the span means. */
  ghost predicate Folds<S(!new)>(env: Env<S>, r: Region, m: Span, code: seq<Stmt>)
    requires 0 < m.size && m.at + m.size <= |r|
  {
    forall s :: Meaning(env, code, s) == GraphMeaning(env, Cut(r, m), 0, s)
  }

  /** A block that is left in the collapsed graph, by its old number. */
  predicate Left(r: Region, m: Span, k: nat) {
    k < |r| && (Inside(m, k) ==> k == m.at)
  }

  lemma CollapsedBlock(r: Region, m: Span, code: seq<Stmt>, k: nat)
    requires 0 < m.size && m.at + m.size <= |r| && Left(r, m, k)
    ensures 0 <= Outer(m, k) < |Collapse(r, m, code)|
    ensures var b := Collapse(r, m, code)[Outer(m, k)];
      if k == m.at then b.body == code && b.succs == [Edge(m.at, Outer(m, m.exit), True)]
      else b.body == r[k].body && b.succs == Renumber(ToOuter(m), r[k].succs)
  {
  }

  lemma OuterInRegion(r: Region, m: Span, code: seq<Stmt>, t: int)
    requires 0 < m.size && m.at + m.size <= |r| && (Inside(m, t) ==> t == m.at)
    ensures InRegion(Collapse(r, m, code), Outer(m, t)) <==> InRegion(r, t)
  {
  }

  /** Outside the span the two graphs take the same steps. */
  lemma OnwardOutside<S(!new)>(env: Env<S>, r: Region, m: Span, code: seq<Stmt>, k: nat, q: Result<S>)
    requires Separate(r, m) && Left(r, m, k) && k != m.at
    ensures Outer(m, k) >= 0
    ensures var next, next' := Onward(env, r, k, q), Onward(env, Collapse(r, m, code), Outer(m, k), q);
      if next.None? then next'.None? else Left(r, m, next.value) && next' == Some(Outer(m, next.value))
  {
    CollapsedBlock(r, m, code, k);
    if q.Done? && q.out.Normal? {
      NextRenumbered(env, ToOuter(m), r[k].succs, q.s);
      NextHolds(env, r[k].succs, q.s);
      var next := Next(env, r[k].succs, q.s);
      if next.Some? {
        OuterInRegion(r, m, code, next.value);
      }
    }
  }

  /** From the folded block the collapsed graph goes to the exit. */
  lemma OnwardFolded<S(!new)>(env: Env<S>, r: Region, m: Span, code: seq<Stmt>, q: Result<S>)
    requires Separate(r, m)
    ensures Onward(env, Collapse(r, m, code), m.at, q)
         == if q.Done? && q.out.Normal? && InRegion(r, m.exit) then Some(Outer(m, m.exit)) else None
  {
    CollapsedBlock(r, m, code, m.at);
    OuterInRegion(r, m, code, m.exit);
    if q.Done? && q.out.Normal? {
      var succs := [Edge(m.at, Outer(m, m.exit), True)];
      assert IsTrue(env, succs[0].cond, q.s);
      assert Next(env, succs, q.s) == Some(Outer(m, m.exit));
    }
  }

  /** An outside block runs and goes on as before. */
  ghost predicate OutsideAlike<S>(env: Env<S>, r: Region, m: Span, c: Region, k: nat, s: S)
    requires k < |r|
  {
    var q := Meaning(env, r[k].body, s);
    && InRegion(c, Outer(m, k)) && Meaning(env, c[Outer(m, k)].body, s) == q
    && var next, next' := Onward(env, r, k, q), Onward(env, c, Outer(m, k), q);
      if next.None? then next'.None? else Left(r, m, next.value) && next' == Some(Outer(m, next.value))
  }

  /** The folded block runs the code and goes to the exit. */
  ghost predicate FoldedAlike<S>(env: Env<S>, r: Region, m: Span, code: seq<Stmt>, c: Region, s: S) {
    var q := Meaning(env, code, s);
    && m.at < |c| && Meaning(env, c[m.at].body, s) == q
    && Onward(env, c, m.at, q) == if q.Done? && q.out.Normal? && InRegion(r, m.exit) then Some(Outer(m, m.exit)) else None
  }

  ghost predicate Shrinks<S(!new)>(env: Env<S>, r: Region, m: Span, code: seq<Stmt>, c: Region) {
    && (forall k: nat, s {:trigger OutsideAlike(env, r, m, c, k, s)} :: Left(r, m, k) && k != m.at ==> OutsideAlike(env, r, m, c, k, s))
    && (forall s {:trigger FoldedAlike(env, r, m, code, c, s)} :: FoldedAlike(env, r, m, code, c, s))
  }

  lemma CollapseShrinks<S(!new)>(env: Env<S>, r: Region, m: Span, code: seq<Stmt>)
    requires Separate(r, m)
    ensures Shrinks(env, r, m, code, Collapse(r, m, code))
  {
    forall k: nat, s | Left(r, m, k) && k != m.at ensures OutsideAlike(env, r, m, Collapse(r, m, code), k, s) {
      CollapsedBlock(r, m, code, k);
      OnwardOutside(env, r, m, code, k, Meaning(env, r[k].body, s));
    }
    forall s ensures FoldedAlike(env, r, m, code, Collapse(r, m, code), s) {
      CollapsedBlock(r, m, code, m.at);
      OnwardFolded(env, r, m, code, Meaning(env, code, s));
    }
  }

  lemma CodeThenRest<S(!new)>(env: Env<S>, r: Region, m: Span, code: seq<Stmt>, s: S)
    requires Separate(r, m) && GoesOn(env, r, m) && Folds(env, r, m, code) && Meaning(env, code, s).Done?
    ensures GraphMeaning(env, r, m.at, s) == Leaving(env, r, m, Meaning(env, code, s))
  {
    var g := GraphMeaningFuel(env, Cut(r, m), 0, s);
    CutMirrors(env, r, m);
    ThroughCut(env, r, m, Cut(r, m), g, 0, s);
  }

  /** If the walk of the graph ends, the code does, and some of the bound is left after it. */
  lemma CodeEnds<S(!new)>(env: Env<S>, r: Region, m: Span, code: seq<Stmt>, f: nat, s: S) returns (g: nat)
    requires Separate(r, m) && GoesOn(env, r, m) && Folds(env, r, m, code) && Walk(env, r, f, m.at, s).Done?
    ensures Meaning(env, code, s).Done? && g < f
    ensures var q := Meaning(env, code, s);
      Walk(env, r, f, m.at, s) == if q.out.Normal? && InRegion(r, m.exit) then Walk(env, r, g, m.exit, q.s) else q
  {
    CutMirrors(env, r, m);
    g := CutEnds(env, r, m, Cut(r, m), f, 0, s);
    GraphMeaningIs(env, Cut(r, m), f, 0, s);
  }

  lemma {:induction false} WalkCollapsed<S(!new)>(env: Env<S>, r: Region, m: Span, code: seq<Stmt>, c: Region, f: nat, k: nat, s: S)
    requires Separate(r, m) && GoesOn(env, r, m) && Folds(env, r, m, code) && Shrinks(env, r, m, code, c)
    requires Left(r, m, k) && Walk(env, r, f, k, s).Done?
    ensures InRegion(c, Outer(m, k)) && GraphMeaning(env, c, Outer(m, k), s) == Walk(env, r, f, k, s)
    decreases f
  {
    if k == m.at {
      assert FoldedAlike(env, r, m, code, c, s);
      GraphMeaningStep(env, c, m.at, s);
      var g := CodeEnds(env, r, m, code, f, s);
      var q := Meaning(env, code, s);
      if q.out.Normal? && InRegion(r, m.exit) {
        WalkCollapsed(env, r, m, code, c, g, m.exit, q.s);
      }
    } else {
      assert OutsideAlike(env, r, m, c, k, s);
      GraphMeaningStep(env, c, Outer(m, k), s);
      var q := Meaning(env, r[k].body, s);
      var next := Onward(env, r, k, q);
      if next.Some? {
        WalkCollapsed(env, r, m, code, c, f - 1, next.value, q.s);
      }
    }
  }

  lemma {:induction false} WalkExpanded<S(!new)>(env: Env<S>, r: Region, m: Span, code: seq<Stmt>, c: Region, f: nat, k: nat, s: S)
    requires Separate(r, m) && GoesOn(env, r, m) && Folds(env, r, m, code) && Shrinks(env, r, m, code, c)
    requires Left(r, m, k) && InRegion(c, Outer(m, k)) && Walk(env, c, f, Outer(m, k), s).Done?
    ensures GraphMeaning(env, r, k, s) == Walk(env, c, f, Outer(m, k), s)
    decreases f
  {
    if k == m.at {
      assert FoldedAlike(env, r, m, code, c, s);
      CodeThenRest(env, r, m, code, s);
      var q := Meaning(env, code, s);
      if q.out.Normal? && InRegion(r, m.exit) {
        WalkExpanded(env, r, m, code, c, f - 1, m.exit, q.s);
      }
    } else {
      assert OutsideAlike(env, r, m, c, k, s);
      GraphMeaningStep(env, r, k, s);
      var q := Meaning(env, r[k].body, s);
      var next := Onward(env, r, k, q);
      if next.Some? {
        WalkExpanded(env, r, m, code, c, f - 1, next.value, q.s);
      }
    }
  }

  /** Walking the collapsed graph means what walking the graph means, from the entry and from every block outside. */
  lemma CollapseCorrect<S(!new)>(env: Env<S>, r: Region, m: Span, code: seq<Stmt>, k: nat, s: S)
    requires Separate(r, m) && GoesOn(env, r, m) && Folds(env, r, m, code) && Left(r, m, k)
    ensures 0 <= Outer(m, k) < |Collapse(r, m, code)|
    ensures GraphMeaning(env, Collapse(r, m, code), Outer(m, k), s) == GraphMeaning(env, r, k, s)
  {
    var c := Collapse(r, m, code);
    CollapsedBlock(r, m, code, k);
    CollapseShrinks(env, r, m, code);
    var f := GraphMeaningFuel(env, r, k, s);
    var g := GraphMeaningFuel(env, c, Outer(m, k), s);
    if Walk(env, r, f, k, s).Done? {
      WalkCollapsed(env, r, m, code, c, f, k, s);
    } else if Walk(env, c, g, Outer(m, k), s).Done? {
      WalkExpanded(env, r, m, code, c, g, k, s);
    }
  }

  // ----- What the collapsed graph keeps -----

  /** What programs in SSA form satisfy: see the predicates. */
  ghost predicate Sane<S(!new)>(env: Env<S>, r: Region) {
    Deterministic(env, r) && Undisturbed(env, r) && BodiesStable(env, r) && StaysInGraph(env, r)
  }

  lemma SaneGoesOn<S(!new)>(env: Env<S>, r: Region, m: Span)
    requires Sane(env, r) && m.at + m.size <= |r|
    ensures GoesOn(env, r, m)
  {
  }

  lemma RenumberedEdge(f: int -> int, es: seq<Edge>, e: Edge) returns (d: Edge)
    requires e in Renumber(f, es)
    ensures d in es && e == Edge(f(d.from), f(d.to), d.cond)
  {
    var fs := Renumber(f, es);
    var j :| 0 <= j < |fs| && fs[j] == e;
    d := es[j];
  }

  lemma CutBlock(r: Region, m: Span, i: nat)
    requires m.at + m.size <= |r| && i < m.size
    ensures Cut(r, m)[i].body == r[m.at + i].body
    ensures forall e :: e in Cut(r, m)[i].succs ==> Edge(e.from + m.at, e.to + m.at, e.cond) in r[m.at + i].succs
  {
    forall e | e in Cut(r, m)[i].succs ensures Edge(e.from + m.at, e.to + m.at, e.cond) in r[m.at + i].succs {
      var d := RenumberedEdge(ToInner(m), r[m.at + i].succs, e);
      assert d == Edge(e.from + m.at, e.to + m.at, e.cond);
    }
  }

  /** A span of such a graph is such a graph. */
  lemma CutSane<S(!new)>(env: Env<S>, r: Region, m: Span)
    requires Sane(env, r) && m.at + m.size <= |r|
    ensures Sane(env, Cut(r, m))
  {
    var c := Cut(r, m);
    forall k | 0 <= k < |c| ensures Stable(env, c[k].body) {
      CutBlock(r, m, k);
    }
    CutDeterministic(env, r, m);
    CutUndisturbed(env, r, m);
    CutStays(env, r, m);
  }

  lemma CutStays<S(!new)>(env: Env<S>, r: Region, m: Span)
    requires StaysInGraph(env, r) && m.at + m.size <= |r|
    ensures StaysInGraph(env, Cut(r, m))
  {
    var c := Cut(r, m);
    forall k, s | 0 <= k < |c|
      ensures !(Meaning(env, c[k].body, s).Done? && Meaning(env, c[k].body, s).out.Broke?)
      ensures FallsThrough(env, c[k].body, s) ==> Next(env, c[k].succs, Meaning(env, c[k].body, s).s).Some?
    {
      CutBlock(r, m, k);
      if FallsThrough(env, c[k].body, s) {
        NextRenumbered(env, ToInner(m), r[m.at + k].succs, Meaning(env, c[k].body, s).s);
      }
    }
  }

  lemma CutDeterministic<S(!new)>(env: Env<S>, r: Region, m: Span)
    requires Deterministic(env, r) && m.at + m.size <= |r|
    ensures Deterministic(env, Cut(r, m))
  {
    var c := Cut(r, m);
    forall k, s, e, f | 0 <= k < |c| && FallsThrough(env, c[k].body, s) && e in c[k].succs && f in c[k].succs &&
        IsTrue(env, e.cond, Meaning(env, c[k].body, s).s) && IsTrue(env, f.cond, Meaning(env, c[k].body, s).s)
      ensures e.to == f.to
    {
      CutBlock(r, m, k);
      assert Edge(e.from + m.at, e.to + m.at, e.cond).to == Edge(f.from + m.at, f.to + m.at, f.cond).to;
    }
  }

  lemma CutUndisturbed<S(!new)>(env: Env<S>, r: Region, m: Span)
    requires Undisturbed(env, r) && m.at + m.size <= |r|
    ensures Undisturbed(env, Cut(r, m))
  {
    var c := Cut(r, m);
    forall j, k, s, e | 0 <= j < k < |c| && FallsThrough(env, c[k].body, s) && e in c[j].succs
      ensures IsTrue(env, e.cond, Meaning(env, c[k].body, s).s) == IsTrue(env, e.cond, s)
    {
      CutBlock(r, m, j);
      CutBlock(r, m, k);
      var e' := Edge(e.from + m.at, e.to + m.at, e.cond);
      assert e' in r[m.at + j].succs;
      assert IsTrue(env, e'.cond, Meaning(env, r[m.at + k].body, s).s) == IsTrue(env, e'.cond, s);
    }
  }

  /** The blocks of the region do not change the condition, so walking it does not. */
  lemma {:induction false} WalkLeaves<S(!new)>(env: Env<S>, c: Region, cond: Expr, f: nat, i: nat, s: S)
    requires i < |c| && Walk(env, c, f, i, s).Done? && Walk(env, c, f, i, s).out.Normal?
    requires forall k, s :: 0 <= k < |c| && FallsThrough(env, c[k].body, s) ==> IsTrue(env, cond, Meaning(env, c[k].body, s).s) == IsTrue(env, cond, s)
    ensures IsTrue(env, cond, Walk(env, c, f, i, s).s) == IsTrue(env, cond, s)
    decreases f
  {
    var q := Meaning(env, c[i].body, s);
    assert FallsThrough(env, c[i].body, s);
    var next := Onward(env, c, i, q);
    if next.Some? {
      WalkLeaves(env, c, cond, f - 1, next.value, q.s);
    }
  }

  lemma {:induction false} WalkStays<S(!new)>(env: Env<S>, c: Region, f: nat, i: nat, s: S)
    requires i < |c| && StaysInGraph(env, c) && Walk(env, c, f, i, s).Done?
    ensures !Walk(env, c, f, i, s).out.Broke?
    decreases f
  {
    var q := Meaning(env, c[i].body, s);
    var next := Onward(env, c, i, q);
    if next.Some? {
      WalkStays(env, c, f - 1, next.value, q.s);
    }
  }

  /** The old number of a block of the collapsed graph. */
  function Old(m: Span, j: nat): nat
    requires 0 < m.size
  {
    if j <= m.at then j else j + m.size - 1
  }

  lemma OldBlock(r: Region, m: Span, code: seq<Stmt>, j: nat)
    requires 0 < m.size && m.at + m.size <= |r| && j < |Collapse(r, m, code)|
    ensures Old(m, j) < |r| && Left(r, m, Old(m, j)) && Outer(m, Old(m, j)) == j
    ensures var b := Collapse(r, m, code)[j];
      if j == m.at then b.body == code && b.succs == [Edge(m.at, Outer(m, m.exit), True)]
      else b.body == r[Old(m, j)].body && b.succs == Renumber(ToOuter(m), r[Old(m, j)].succs)
  {
  }

  lemma CollapseDeterministic<S(!new)>(env: Env<S>, r: Region, m: Span, code: seq<Stmt>)
    requires Deterministic(env, r) && 0 < m.size && m.at + m.size <= |r|
    ensures Deterministic(env, Collapse(r, m, code))
  {
    var c := Collapse(r, m, code);
    forall k, s, e, f | 0 <= k < |c| && FallsThrough(env, c[k].body, s) && e in c[k].succs && f in c[k].succs &&
        IsTrue(env, e.cond, Meaning(env, c[k].body, s).s) && IsTrue(env, f.cond, Meaning(env, c[k].body, s).s)
      ensures e.to == f.to
    {
      OldBlock(r, m, code, k);
      if k != m.at {
        var d := RenumberedEdge(ToOuter(m), r[Old(m, k)].succs, e);
        var g := RenumberedEdge(ToOuter(m), r[Old(m, k)].succs, f);
        assert d.to == g.to;
      }
    }
  }

  lemma CollapseUndisturbed<S(!new)>(env: Env<S>, r: Region, m: Span, code: seq<Stmt>)
    requires Undisturbed(env, r) && 0 < m.size && m.at + m.size <= |r| && Folds(env, r, m, code)
    ensures Undisturbed(env, Collapse(r, m, code))
  {
    var c := Collapse(r, m, code);
    forall j, k, s, e | 0 <= j < k < |c| && FallsThrough(env, c[k].body, s) && e in c[j].succs
      ensures IsTrue(env, e.cond, Meaning(env, c[k].body, s).s) == IsTrue(env, e.cond, s)
    {
      OldBlock(r, m, code, j);
      OldBlock(r, m, code, k);
      if j != m.at {
        var d := RenumberedEdge(ToOuter(m), r[Old(m, j)].succs, e);
        if k == m.at {
          CodeLeaves(env, r, m, code, j, d, s);
        } else {
          assert d.cond == e.cond && Old(m, j) < Old(m, k);
          assert IsTrue(env, d.cond, Meaning(env, r[Old(m, k)].body, s).s) == IsTrue(env, d.cond, s);
        }
      }
    }
  }

  /** The folded code leaves the conditions of the blocks before it alone. */
  lemma CodeLeaves<S(!new)>(env: Env<S>, r: Region, m: Span, code: seq<Stmt>, j: nat, d: Edge, s: S)
    requires Undisturbed(env, r) && 0 < m.size && m.at + m.size <= |r| && Folds(env, r, m, code)
    requires j < m.at && d in r[j].succs && FallsThrough(env, code, s)
    ensures IsTrue(env, d.cond, Meaning(env, code, s).s) == IsTrue(env, d.cond, s)
  {
    var c := Cut(r, m);
    forall k, s | 0 <= k < |c| && FallsThrough(env, c[k].body, s)
      ensures IsTrue(env, d.cond, Meaning(env, c[k].body, s).s) == IsTrue(env, d.cond, s)
    {
      CutBlock(r, m, k);
      assert IsTrue(env, d.cond, Meaning(env, r[m.at + k].body, s).s) == IsTrue(env, d.cond, s);
    }
    var f := GraphMeaningFuel(env, c, 0, s);
    WalkLeaves(env, c, d.cond, f, 0, s);
  }

  lemma CollapseStays<S(!new)>(env: Env<S>, r: Region, m: Span, code: seq<Stmt>)
    requires 0 < m.size && m.at + m.size <= |r| && StaysInGraph(env, r) && StaysInGraph(env, Cut(r, m)) && Folds(env, r, m, code)
    ensures StaysInGraph(env, Collapse(r, m, code))
  {
    var c := Collapse(r, m, code);
    forall k, s | 0 <= k < |c|
      ensures !(Meaning(env, c[k].body, s).Done? && Meaning(env, c[k].body, s).out.Broke?)
      ensures FallsThrough(env, c[k].body, s) ==> Next(env, c[k].succs, Meaning(env, c[k].body, s).s).Some?
    {
      OldBlock(r, m, code, k);
      if k == m.at {
        var f := GraphMeaningFuel(env, Cut(r, m), 0, s);
        if Meaning(env, code, s).Done? {
          WalkStays(env, Cut(r, m), f, 0, s);
          var succs := [Edge(m.at, Outer(m, m.exit), True)];
          assert IsTrue(env, succs[0].cond, Meaning(env, code, s).s);
        }
      } else if FallsThrough(env, c[k].body, s) {
        NextRenumbered(env, ToOuter(m), r[Old(m, k)].succs, Meaning(env, c[k].body, s).s);
      }
    }
  }

  /** Folding a span keeps the graph what it was. */
  lemma CollapseSane<S(!new)>(env: Env<S>, r: Region, m: Span, code: seq<Stmt>)
    requires Sane(env, r) && 0 < m.size && m.at + m.size <= |r| && Folds(env, r, m, code) && Stable(env, code)
    ensures Sane(env, Collapse(r, m, code))
  {
    CutSane(env, r, m);
    CollapseDeterministic(env, r, m, code);
    CollapseUndisturbed(env, r, m, code);
    CollapseStays(env, r, m, code);
    var c := Collapse(r, m, code);
    forall k | 0 <= k < |c| ensures Stable(env, c[k].body) {
      OldBlock(r, m, code, k);
    }
  }

  // ----- Region after region -----

  /** A span, the edges into its exit, and the code that foldBasicBlocks makes of it. */
  datatype Reduction = Reduction(span: Span, exits: seq<Edge>, code: seq<Stmt>)

  /** What folding needs to know of the shape of a region: nothing about states. */
  ghost predicate Shapely(same: Equality, r: Region, exits: seq<Edge>) {
    && Sound(same) && WellShaped(r) && (forall k :: 0 <= k < |r| ==> Guardable(same, Paths(r, k)))
    && (HasBackEdge(r) ==> ExitsListed(r, exits))
  }

  ghost predicate CanReduce(same: Equality, r: Region, step: Reduction) {
    && Separate(r, step.span) && Shapely(same, Cut(r, step.span), step.exits)
    && IsFold(same, Cut(r, step.span), step.exits, step.code)
  }

  /** Every region in turn is folded in the graph that folding the ones before has left. */
  ghost predicate Reduces(same: Equality, r: Region, steps: seq<Reduction>)
    decreases |steps|
  {
    steps != [] ==> CanReduce(same, r, steps[0]) && Reduces(same, Collapse(r, steps[0].span, steps[0].code), steps[1..])
  }

  ghost function Reduced(same: Equality, r: Region, steps: seq<Reduction>): Region
    requires Reduces(same, r, steps)
    decreases |steps|
  {
    if steps == [] then r else Reduced(same, Collapse(r, steps[0].span, steps[0].code), steps[1..])
  }

  lemma ReductionFolds<S(!new)>(env: Env<S>, same: Equality, r: Region, step: Reduction)
    requires Sane(env, r) && CanReduce(same, r, step)
    ensures Folds(env, r, step.span, step.code) && Stable(env, step.code)
  {
    var c := Cut(r, step.span);
    CutSane(env, r, step.span);
    FoldStable(env, same, c, step.exits, step.code);
    forall s ensures Meaning(env, step.code, s) == GraphMeaning(env, c, 0, s) {
      BackendCorrect(env, same, c, step.exits, step.code, [], s);
    }
  }

  /** Folding any regions one after the other keeps what walking the graph means. */
  lemma {:induction false} ReducedCorrect<S(!new)>(env: Env<S>, same: Equality, r: Region, steps: seq<Reduction>, s: S)
    requires r != [] && Sane(env, r) && Reduces(same, r, steps)
    ensures var last := Reduced(same, r, steps);
      last != [] && Sane(env, last) && GraphMeaning(env, last, 0, s) == GraphMeaning(env, r, 0, s)
    decreases |steps|
  {
    if steps != [] {
      var m, code := steps[0].span, steps[0].code;
      ReductionFolds(env, same, r, steps[0]);
      SaneGoesOn(env, r, m);
      CollapseCorrect(env, r, m, code, 0, s);
      CollapseSane(env, r, m, code);
      ReducedCorrect(env, same, Collapse(r, m, code), steps[1..], s);
    }
  }

  /**
   From the graph of a function to its final code: folding its regions from the inside out, then what is left of it, and
   running the combiners, gives code that means what walking the graph means. The graph is only supposed to be that of a
   program at the start; of the regions only their shape is.
   */
  lemma FunctionCorrect<S(!new)>(
      env: Env<S>, same: Equality, r: Region, steps: seq<Reduction>, exits: seq<Edge>, result: seq<Stmt>, passes: seq<Pass>, s: S)
    requires r != [] && Sane(env, r) && Reduces(same, r, steps)
    requires Shapely(same, Reduced(same, r, steps), exits) && IsFold(same, Reduced(same, r, steps), exits, result)
    requires LoopsKeptThroughout(same, passes, result)
    ensures Meaning(env, RunPasses(same, passes, result), s) == GraphMeaning(env, r, 0, s)
  {
    ReducedCorrect(env, same, r, steps, s);
    BackendCorrect(env, same, Reduced(same, r, steps), exits, result, passes, s);
  }

  lemma CollapseOnTrue(r: Region, m: Span, code: seq<Stmt>)
    requires BodiesOnTrue(r) && LoopsOnTrue(code) && 0 < m.size && m.at + m.size <= |r|
    ensures BodiesOnTrue(Collapse(r, m, code))
  {
    forall j | 0 <= j < |Collapse(r, m, code)| ensures LoopsOnTrue(Collapse(r, m, code)[j].body) {
      OldBlock(r, m, code, j);
    }
  }

  lemma {:induction false} ReducedOnTrue(same: Equality, r: Region, steps: seq<Reduction>)
    requires BodiesOnTrue(r) && Reduces(same, r, steps)
    ensures BodiesOnTrue(Reduced(same, r, steps))
    decreases |steps|
  {
    if steps != [] {
      var m, code := steps[0].span, steps[0].code;
      forall k | 0 <= k < m.size ensures LoopsOnTrue(Cut(r, m)[k].body) {
        CutBlock(r, m, k);
      }
      FoldOnTrue(same, Cut(r, m), steps[0].exits, code);
      CollapseOnTrue(r, m, code);
      ReducedOnTrue(same, Collapse(r, m, code), steps[1..]);
    }
  }

  /** With one nested pass, as in the first half of the program's order, no hypothesis about loops is left. */
  lemma FunctionFirstHalf<S(!new)>(
      env: Env<S>, same: Equality, r: Region, steps: seq<Reduction>, exits: seq<Edge>, result: seq<Stmt>, passes: seq<Pass>, s: S)
    requires r != [] && Sane(env, r) && BodiesOnTrue(r) && Reduces(same, r, steps) && NestedPasses(passes) <= 1
    requires Shapely(same, Reduced(same, r, steps), exits) && IsFold(same, Reduced(same, r, steps), exits, result)
    ensures Meaning(env, RunPasses(same, passes, result), s) == GraphMeaning(env, r, 0, s)
  {
    ReducedOnTrue(same, r, steps);
    FoldOnTrue(same, Reduced(same, r, steps), exits, result);
    OneNestedPass(same, passes, result);
    FunctionCorrect(env, same, r, steps, exits, result, passes, s);
  }

  // ----- A function with a loop -----

  /** The counting loop, and a return after it. */
  function CountingFunction(): Region {
    [Block([Effect(0)], [Edge(1, 0, True)], [Edge(0, 1, COUNTED), Edge(0, 2, Not(COUNTED))]),
     Block([Effect(1)], [Edge(0, 1, COUNTED)], [Edge(1, 0, True)]),
     Block([Return(None)], [Edge(0, 2, Not(COUNTED))], [])]
  }

  const LOOP_SPAN := Span(0, 2, 2)

  lemma RenumberedSame(f: int -> int, es: seq<Edge>)
    requires forall e :: e in es ==> f(e.from) == e.from && f(e.to) == e.to
    ensures Renumber(f, es) == es
  {
    assert forall i :: 0 <= i < |es| ==> es[i] in es;
  }

  lemma CountingCut()
    ensures Cut(CountingFunction(), LOOP_SPAN) == CountingRegion() && Separate(CountingFunction(), LOOP_SPAN)
  {
    var r := CountingFunction();
    forall k | 0 <= k < 2 ensures Cut(r, LOOP_SPAN)[k] == CountingRegion()[k] {
      RenumberedSame(ToInner(LOOP_SPAN), r[k].preds);
      RenumberedSame(ToInner(LOOP_SPAN), r[k].succs);
    }
  }

  lemma MeaningReturn<S>(env: Env<S>, s: S)
    ensures Meaning(env, [Return(None)], s) == Done(Returned(None), s)
  {
    ExecSingle(env, 0, Return(None), s);
    MeaningIs(env, 0, [Return(None)], s);
  }

  /** `c` with a block after it that returns. */
  ghost predicate ThenReturns(r: Region, c: Region) {
    |r| == |c| + 1 && r[..|c|] == c && r[|c|].body == [Return(None)] && r[|c|].succs == []
  }

  lemma ThenReturnsStays<S(!new)>(env: Env<S>, r: Region, c: Region)
    requires ThenReturns(r, c) && StaysInGraph(env, c)
    ensures StaysInGraph(env, r)
  {
    forall k, s | 0 <= k < |r|
      ensures !(Meaning(env, r[k].body, s).Done? && Meaning(env, r[k].body, s).out.Broke?)
      ensures FallsThrough(env, r[k].body, s) ==> Next(env, r[k].succs, Meaning(env, r[k].body, s).s).Some?
    {
      if k == |c| { MeaningReturn(env, s); } else { assert r[k] == c[k]; }
    }
  }

  lemma ThenReturnsDeterministic<S(!new)>(env: Env<S>, r: Region, c: Region)
    requires ThenReturns(r, c) && Deterministic(env, c)
    ensures Deterministic(env, r)
  {
    forall k, s, e, f | 0 <= k < |r| && FallsThrough(env, r[k].body, s) && e in r[k].succs && f in r[k].succs &&
        IsTrue(env, e.cond, Meaning(env, r[k].body, s).s) && IsTrue(env, f.cond, Meaning(env, r[k].body, s).s)
      ensures e.to == f.to
    {
      assert k < |c| ==> r[k] == c[k];
    }
  }

  lemma ThenReturnsUndisturbed<S(!new)>(env: Env<S>, r: Region, c: Region)
    requires ThenReturns(r, c) && Undisturbed(env, c)
    ensures Undisturbed(env, r)
  {
    forall j, k, s, e | 0 <= j < k < |r| && FallsThrough(env, r[k].body, s) && e in r[j].succs
      ensures IsTrue(env, e.cond, Meaning(env, r[k].body, s).s) == IsTrue(env, e.cond, s)
    {
      assert r[j] == c[j];
      if k == |c| { MeaningReturn(env, s); } else { assert r[k] == c[k]; }
    }
  }

  lemma ThenReturnsSane<S(!new)>(env: Env<S>, r: Region, c: Region)
    requires ThenReturns(r, c) && Sane(env, c)
    ensures Sane(env, r)
  {
    ThenReturnsStays(env, r, c);
    ThenReturnsDeterministic(env, r, c);
    ThenReturnsUndisturbed(env, r, c);
    forall k | 0 <= k < |r| ensures Stable(env, r[k].body) {
      assert k < |c| ==> r[k] == c[k];
    }
  }

  lemma CountingSane(limit: int, c: Region)
    requires Counting(c)
    ensures Sane(CountingEnv(limit), c)
  {
    CountingDeterministic(limit, c);
    CountingUndisturbed(limit, c);
    CountingStays(limit, c);
    CountingStable(CountingEnv(limit), c);
  }

  /** Two blocks, the first leading to the second without a condition. */
  ghost predicate Straight(r: Region) {
    && |r| == 2 && r[0].preds == [] && r[0].succs == [Edge(0, 1, True)] && r[1].preds == [Edge(0, 1, True)] && r[1].succs == []
  }

  lemma StraightShapely(order: Order, same: Equality, r: Region)
    requires Straight(r) && Sound(same) && Enumerates(order)
    ensures Shapely(same, r, []) && AllBuildable(order, same, r)
  {
    assert Visited(r[1].preds[0], 1) && HasForwardPredecessor(r, 1);
    JoinedSingle(Table(r, 1), Edge(0, 1, True));
    TableAt(r, 1, 0);
    assert Paths(r, 0) == [] && Paths(r, 1) == [];
  }

  lemma CountingCollapsed(code: seq<Stmt>)
    ensures Straight(Collapse(CountingFunction(), LOOP_SPAN, code))
  {
    var r, m := CountingFunction(), LOOP_SPAN;
    var c := Collapse(r, m, code);
    assert Entering(m, [Edge(1, 0, True)]) == [] && Entering(m, [Edge(0, 2, Not(COUNTED))]) == [];
    assert c[1] == Block(r[2].body, NewPreds(r, m, 2), Renumber(ToOuter(m), r[2].succs));
    assert [] + [Edge(0, 2, True)] == [Edge(0, 2, True)];
    assert Renumber(ToOuter(m), [Edge(0, 2, True)]) == [Edge(0, 1, True)];
  }

  lemma FoldExists(order: Order, same: Equality, r: Region, exits: seq<Edge>) returns (code: seq<Stmt>)
    requires Enumerates(order) && AllBuildable(order, same, r)
    ensures IsFold(same, r, exits, code)
  {
    FoldExact(order, same, r, exits);
    FoldIsFold(order, same, r, exits);
    code := Fold(true, order, same, r, exits).value;
  }

  lemma OneReduction(same: Equality, r: Region, step: Reduction)
    requires CanReduce(same, r, step)
    ensures Reduces(same, r, [step]) && Reduced(same, r, [step]) == Collapse(r, step.span, step.code)
  {
    var rest := [step][1..];
    assert rest == [] && Reduces(same, Collapse(r, step.span, step.code), rest);
    assert Reduced(same, Collapse(r, step.span, step.code), rest) == Collapse(r, step.span, step.code);
  }

  lemma CountingReduces(order: Order, same: Equality) returns (code: seq<Stmt>)
    requires Enumerates(order) && Sound(same)
    ensures CanReduce(same, CountingFunction(), Reduction(LOOP_SPAN, CountingExits(), code))
  {
    var c := CountingRegion();
    CountingCut();
    CountingListed(c);
    CountingOrdered(c);
    CountingGuards(same, c);
    CountingBuildable(order, same, c);
    code := FoldExists(order, same, c, CountingExits());
  }

  lemma CountingFunctionSane(limit: int)
    ensures Sane(CountingEnv(limit), CountingFunction()) && BodiesOnTrue(CountingFunction())
  {
    CountingSane(limit, CountingRegion());
    assert CountingFunction()[..2] == CountingRegion();
    ThenReturnsSane(CountingEnv(limit), CountingFunction(), CountingRegion());
  }

  /** Folding the loop and then the rest gives code that counts like the graph. */
  lemma CountingFunctionCompiled(limit: int, order: Order, same: Equality, passes: seq<Pass>, s: (int, int))
    returns (steps: seq<Reduction>, result: seq<Stmt>)
    requires Enumerates(order) && Sound(same) && NestedPasses(passes) <= 1
    ensures |steps| == 1 && Reduces(same, CountingFunction(), steps)
    ensures IsFold(same, Reduced(same, CountingFunction(), steps), [], result)
    ensures Meaning(CountingEnv(limit), RunPasses(same, passes, result), s)
         == GraphMeaning(CountingEnv(limit), CountingFunction(), 0, s)
  {
    var code := CountingReduces(order, same);
    var step := Reduction(LOOP_SPAN, CountingExits(), code);
    steps := [step];
    OneReduction(same, CountingFunction(), step);
    CountingCollapsed(code);
    StraightShapely(order, same, Reduced(same, CountingFunction(), steps));
    result := FoldExists(order, same, Reduced(same, CountingFunction(), steps), []);
    CountingFunctionSane(limit);
    FunctionFirstHalf(CountingEnv(limit), same, CountingFunction(), steps, [], result, passes, s);
  }
}
