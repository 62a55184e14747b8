/**
 foldBasicBlocks: turns the blocks of a region into one sequence of guarded statements, wrapped in a loop with
 conditional breaks if the region has a back edge.
 */
module Structurizer {
  import opened Expressions
  import opened Statements
  import opened Regions
  import opened ConsecutiveCombiner
  import opened ReachingConditions
  import opened PathGuards
  import opened Disjunction
  import opened DisjunctionExact
  import opened DisjunctionAsWritten

  // ----- Guards -----

  /** `if`s nested around a list, the first condition outermost. */
  function Nest(conditions: Path, body: seq<Stmt>): seq<Stmt> {
    if conditions == [] then body else [IfElse(conditions[0], Nest(conditions[1..], body), [])]
  }

  /** `guarded` is `body` under the common front and end of the paths to it, and what lies between if there is anything. */
  ghost predicate IsGuarded(same: Equality, paths: seq<Path>, body: seq<Stmt>, guarded: seq<Stmt>) {
    if paths == [] then guarded == body else exists p: nat, q: nat :: GuardedWithin(same, paths, p, q, body, guarded)
  }

  ghost predicate GuardedWithin(same: Equality, paths: seq<Path>, p: nat, q: nat, body: seq<Stmt>, guarded: seq<Stmt>)
    requires paths != []
  {
    && Lengths(same, paths, p, q) && NoOverlap(paths, p, q)
    && GuardedBy(paths[0][..p] + paths[0][|paths[0]| - q..], Terms(paths, p, q), body, guarded)
  }

  ghost predicate GuardedBy(conditions: Path, terms: seq<Expr>, body: seq<Stmt>, guarded: seq<Stmt>) {
    if terms == [] then guarded == Nest(conditions, body)
    else exists d :: Disjoins(d, terms) && guarded == Nest(conditions, [IfElse(d, body, [])])
  }

  /** The same in terms of what the loops find. */
  lemma GuardedCommon(same: Equality, paths: seq<Path>, body: seq<Stmt>, guarded: seq<Stmt>)
    requires paths != []
    ensures var prefix, suffix := CommonPrefix(same, paths), CommonSuffix(same, paths);
      IsGuarded(same, paths, body, guarded) <==>
      NoOverlap(paths, |prefix|, |suffix|) && GuardedBy(prefix + suffix, Terms(paths, |prefix|, |suffix|), body, guarded)
  {
    var prefix, suffix := CommonPrefix(same, paths), CommonSuffix(same, paths);
    CommonLengths(same, paths);
    OnlyLengths(same, paths);
    if NoOverlap(paths, |prefix|, |suffix|) {
      assert GuardedWithin(same, paths, |prefix|, |suffix|, body, guarded) <==>
             GuardedBy(prefix + suffix, Terms(paths, |prefix|, |suffix|), body, guarded);
    }
    if p: nat, q: nat :| GuardedWithin(same, paths, p, q, body, guarded) {
      assert p == |prefix| && q == |suffix|;
    }
  }

  ghost predicate Disjoins(d: Expr, terms: seq<Expr>) {
    forall v :: Holds(d, v) <==> AnyHolds(terms, v)
  }

  lemma {:induction false} NestSnoc(conditions: Path, c: Expr, body: seq<Stmt>)
    ensures Nest(conditions + [c], body) == Nest(conditions, [IfElse(c, body, [])])
    decreases |conditions|
  {
    if conditions == [] {
      assert [] + [c] == [c] && [c][1..] == [];
    } else {
      assert (conditions + [c])[1..] == conditions[1..] + [c];
      NestSnoc(conditions[1..], c, body);
    }
  }

  /** The loops that wrap a statement, innermost condition first. */
  method WrapInConditions(conditions: Path, body: seq<Stmt>) returns (r: seq<Stmt>)
    ensures r == Nest(conditions, body)
  {
    r := body;
    var k := |conditions|;
    assert conditions[..k] == conditions;
    while k > 0
      invariant 0 <= k <= |conditions|
      invariant Nest(conditions[..k], r) == Nest(conditions, body)
    {
      k := k - 1;
      assert conditions[..k + 1] == conditions[..k] + [conditions[k]];
      NestSnoc(conditions[..k], conditions[k], r);
      r := [IfElse(conditions[k], r, [])];
    }
  }

  /** The length of the common prefix, found by comparing the first path with each of the others in turn. */
  method FindPrefix(same: Equality, paths: seq<Path>) returns (p: Path)
    requires paths != []
    ensures p == CommonPrefix(same, paths)
  {
    p := paths[0];
    for n := 1 to |paths|
      invariant p == Prefix(same, paths, n)
    {
      p := p[..AgreeFront(same, p, paths[n])];
    }
  }

  method CollectTerms(paths: seq<Path>, p: nat, q: nat) returns (terms: Option<seq<Expr>>)
    ensures terms.Some? <==> NoOverlap(paths, p, q)
    ensures terms.Some? ==> terms.value == Terms(paths, p, q)
  {
    var result: seq<Expr> := [];
    for k := 0 to |paths|
      invariant NoOverlap(paths[..k], p, q)
      invariant NoOverlap(paths[k..], p, q) ==> NoOverlap(paths, p, q) && result + Terms(paths[k..], p, q) == Terms(paths, p, q)
    {
      assert paths[k..][0] == paths[k] && paths[k..][1..] == paths[k + 1..];
      assert paths[..k + 1] == paths[..k] + [paths[k]];
      if |paths[k]| < p + q {
        assert paths[k] in paths;
        return None;
      }
      if |paths[k]| != p + q {
        result := result + [And(Middle(paths[k], p, q))];
      }
    }
    terms := Some(result);
  }

  lemma ReversedHolds(es: seq<Expr>, v: Valuation)
    ensures AnyHolds(Reversed(es), v) <==> AnyHolds(es, v)
  {
    if i :| 0 <= i < |es| && Holds(es[i], v) { assert Holds(Reversed(es)[|es| - 1 - i], v); }
  }

  /**
   `body` under its guard; None where the source runs into an undefined range or createDisjunction fails. `captured` says
   which createDisjunction is meant: the intended one, or the one as written.
   */
  function Guard(captured: bool, order: Order, same: Equality, paths: seq<Path>, body: seq<Stmt>): Option<seq<Stmt>> {
    if paths == [] then Some(body)
    else
      var prefix, suffix := CommonPrefix(same, paths), CommonSuffix(same, paths);
      if !NoOverlap(paths, |prefix|, |suffix|) then None
      else
        var terms := Terms(paths, |prefix|, |suffix|);
        if terms == [] then Some(Nest(prefix + suffix, body))
        else
          var d := Create(captured, order, Reversed(terms));
          if d.None? then None else Some(Nest(prefix + suffix, [IfElse(d.value, body, [])]))
  }

  /** For a block that is reached over `a && b && a` and over `a` the source copies a range of negative length. */
  lemma NoGuardForShortPath(captured: bool, order: Order, same: Equality, a: Expr, b: Expr, body: seq<Stmt>)
    requires same(a, a)
    ensures Guard(captured, order, same, [[a, b, a], [a]], body).None?
  {
    ShortPathOverlaps(same, a, b);
  }

  lemma GuardIsGuarded(order: Order, same: Equality, paths: seq<Path>, body: seq<Stmt>)
    requires Guard(true, order, same, paths, body).Some?
    ensures IsGuarded(same, paths, body, Guard(true, order, same, paths, body).value)
  {
    if paths != [] {
      GuardedCommon(same, paths, body, Guard(true, order, same, paths, body).value);
      var terms := Terms(paths, |CommonPrefix(same, paths)|, |CommonSuffix(same, paths)|);
      if terms != [] {
        var d := Create(true, order, Reversed(terms)).value;
        forall v ensures Holds(d, v) <==> AnyHolds(terms, v) {
          CreateCorrect(order, Reversed(terms), v);
          ReversedHolds(terms, v);
        }
        assert Disjoins(d, terms);
      }
    }
  }

  /** No path is too short for what all begin and end with, and the middles can be joined. */
  ghost predicate Buildable(order: Order, same: Equality, paths: seq<Path>)
    requires Enumerates(order)
  {
    paths != [] ==> forall p: nat, q: nat :: Lengths(same, paths, p, q) ==>
      NoOverlap(paths, p, q) && (Terms(paths, p, q) != [] ==> Separable(order, Reversed(Terms(paths, p, q))))
  }

  /** In no call of createDisjunction for the middles does a larger conjunction shrink to one conjunct. */
  ghost predicate QuietGuard(order: Order, same: Equality, paths: seq<Path>) {
    paths != [] ==> forall p: nat, q: nat :: Lengths(same, paths, p, q) && NoOverlap(paths, p, q) ==>
      QuietThroughout(order, Reversed(Terms(paths, p, q)))
  }

  lemma GuardBuildable(order: Order, same: Equality, paths: seq<Path>, body: seq<Stmt>)
    requires Enumerates(order)
    ensures Guard(true, order, same, paths, body).Some? <==> Buildable(order, same, paths)
  {
    if paths != [] {
      var p, q := |CommonPrefix(same, paths)|, |CommonSuffix(same, paths)|;
      OnlyLengths(same, paths);
      if NoOverlap(paths, p, q) {
        CreateExact(order, Reversed(Terms(paths, p, q)));
      }
    }
  }

  lemma GuardAsWritten(order: Order, same: Equality, paths: seq<Path>, body: seq<Stmt>)
    requires QuietGuard(order, same, paths)
    ensures Guard(false, order, same, paths, body) == Guard(true, order, same, paths, body)
  {
    if paths != [] {
      var p, q := |CommonPrefix(same, paths)|, |CommonSuffix(same, paths)|;
      OnlyLengths(same, paths);
      if NoOverlap(paths, p, q) {
        AsWrittenSame(order, Reversed(Terms(paths, p, q)));
      }
    }
  }

  /** If all paths to a block are one and the same, its conditions are nested around the block, each once. */
  lemma OnePathGuard(captured: bool, order: Order, same: Equality, paths: seq<Path>, path: Path, body: seq<Stmt>)
    requires paths != [] && (forall j :: 0 <= j < |paths| ==> paths[j] == path) && forall c :: c in path ==> same(c, c)
    ensures Guard(captured, order, same, paths, body) == Some(Nest(path, body))
  {
    assert forall j :: 0 < j < |paths| ==> SameFront(same, paths[0], paths[j], |path|);
    assert Lengths(same, paths, |path|, 0);
    CommonLengths(same, paths);
    LengthsUnique(same, paths, |path|, 0, |CommonPrefix(same, paths)|, |CommonSuffix(same, paths)|);
    assert forall p :: p in paths ==> p == path;
    TermsEmpty(paths, |path|, 0);
    assert path[..|path|] == path && path + [] == path;
  }

  method BuildGuard(order: Order, same: Equality, paths: seq<Path>, body: seq<Stmt>) returns (guarded: Option<seq<Stmt>>)
    ensures guarded == Guard(true, order, same, paths, body)
  {
    if paths == [] {
      return Some(body);
    }
    var prefix := FindPrefix(same, paths);
    var suffix: Path := [];
    if |prefix| != |paths[0]| {
      var reversed := FindPrefix(same, ReversedAll(paths));
      suffix := Reversed(reversed);
    }
    var terms := CollectTerms(paths, |prefix|, |suffix|);
    if terms.None? {
      return None;
    }
    var inner := body;
    if terms.value != [] {
      var d := CreateDisjunction(order, Reversed(terms.value));
      if d.None? {
        return None;
      }
      inner := [IfElse(d.value, body, [])];
    }
    var result := WrapInConditions(prefix + suffix, inner);
    guarded := Some(result);
  }

  // ----- Loops -----

  predicate IsBackEdge(k: nat, e: Edge) {
    0 <= e.to <= k
  }

  predicate HasBackEdge(r: Region) {
    exists k, i :: 0 <= k < |r| && 0 <= i < |r[k].succs| && IsBackEdge(k, r[k].succs[i])
  }

  predicate HasExit(r: Region) {
    exists k, i :: 0 <= k < |r| && 0 <= i < |r[k].succs| && !InRegion(r, r[k].succs[i].to)
  }

  /** AstContext::breakStatement with a condition. */
  function BreakIf(c: Expr): Stmt {
    if c == True then Break else IfElse(c, [Break], [])
  }

  /** Appends a conditional break to the source block of each listed edge. */
  function AddBreaks(r: Region, exits: seq<Edge>): (r': Region)
    ensures |r'| == |r|
    ensures forall k :: 0 <= k < |r| ==> r'[k].preds == r[k].preds && r'[k].succs == r[k].succs
  {
    if exits == [] then r
    else
      var e := exits[|exits| - 1];
      var before := AddBreaks(r, exits[..|exits| - 1]);
      if InRegion(r, e.from) then
        before[e.from := before[e.from].(body := before[e.from].body + [BreakIf(e.cond)])]
      else before
  }

  /** The region as foldBasicBlocks guards it. `exits` are the predecessor edges of the block a loop exits to. */
  function Prepared(r: Region, exits: seq<Edge>): (r': Region)
    ensures |r'| == |r|
    ensures forall k :: 0 <= k < |r| ==> r'[k].preds == r[k].preds && r'[k].succs == r[k].succs
  {
    if HasBackEdge(r) && HasExit(r) then AddBreaks(r, exits) else r
  }

  function Flatten(parts: seq<seq<Stmt>>): seq<Stmt> {
    if parts == [] then [] else parts[0] + Flatten(parts[1..])
  }

  /** `parts` are the guarded blocks of the region, in order. */
  ghost predicate GuardedBlocks(same: Equality, r: Region, bodies: Region, parts: seq<seq<Stmt>>) {
    && |parts| == |r| == |bodies|
    && forall k :: 0 <= k < |r| ==> IsGuarded(same, Paths(r, k), bodies[k].body, parts[k])
  }

  function Wrap(r: Region, sequence: seq<Stmt>): seq<Stmt> {
    if HasBackEdge(r) then [Loop(True, PreTested, sequence)] else sequence
  }

  ghost predicate IsFold(same: Equality, r: Region, exits: seq<Edge>, result: seq<Stmt>) {
    exists parts :: GuardedBlocks(same, r, Prepared(r, exits), parts) && result == Wrap(r, Flatten(parts))
  }

  lemma {:induction false} FlattenSnoc(parts: seq<seq<Stmt>>, last: seq<Stmt>)
    ensures Flatten(parts + [last]) == Flatten(parts) + last
    decreases |parts|
  {
    if parts == [] {
      assert [] + [last] == [last] && [last][1..] == [];
    } else {
      assert (parts + [last])[1..] == parts[1..] + [last];
      FlattenSnoc(parts[1..], last);
    }
  }

  /** The blocks of a region, each under its guard. */
  function Guards(captured: bool, order: Order, same: Equality, r: Region, bodies: Region): (guards: seq<Option<seq<Stmt>>>)
    requires |r| == |bodies|
    ensures |guards| == |r|
    ensures forall k :: 0 <= k < |r| ==> guards[k] == Guard(captured, order, same, Paths(r, k), bodies[k].body)
  {
    seq(|r|, k requires 0 <= k < |r| => Guard(captured, order, same, Paths(r, k), bodies[k].body))
  }

  /** All of them in a row, if all can be built. */
  function Sequence(guards: seq<Option<seq<Stmt>>>): Option<seq<Stmt>> {
    if guards == [] then Some([])
    else
      var n := |guards| - 1;
      var before, last := Sequence(guards[..n]), guards[n];
      if before.None? || last.None? then None else Some(before.value + last.value)
  }

  lemma {:induction false} SequenceFails(guards: seq<Option<seq<Stmt>>>, k: nat)
    requires k < |guards| && guards[k].None?
    ensures Sequence(guards).None?
    decreases |guards|
  {
    if k < |guards| - 1 {
      SequenceFails(guards[..|guards| - 1], k);
    }
  }

  lemma SequenceNext(guards: seq<Option<seq<Stmt>>>, k: nat, result: seq<Stmt>)
    requires k < |guards| && Sequence(guards[..k]) == Some(result) && guards[k].Some?
    ensures Sequence(guards[..k + 1]) == Some(result + guards[k].value)
  {
    assert guards[..k + 1][..k] == guards[..k];
  }

  lemma {:induction false} SequenceParts(guards: seq<Option<seq<Stmt>>>) returns (parts: seq<seq<Stmt>>)
    requires forall k :: 0 <= k < |guards| ==> guards[k].Some?
    ensures |parts| == |guards| && forall k :: 0 <= k < |guards| ==> parts[k] == guards[k].value
    ensures Sequence(guards) == Some(Flatten(parts))
    decreases |guards|
  {
    parts := [];
    if guards != [] {
      var n := |guards| - 1;
      parts := SequenceParts(guards[..n]);
      FlattenSnoc(parts, guards[n].value);
      parts := parts + [guards[n].value];
    }
  }

  /** foldBasicBlocks; None where a guard cannot be built. */
  function Fold(captured: bool, order: Order, same: Equality, r: Region, exits: seq<Edge>): Option<seq<Stmt>> {
    var sequence := Sequence(Guards(captured, order, same, r, Prepared(r, exits)));
    if sequence.None? then None else Some(Wrap(r, sequence.value))
  }

  /** What comes out of folding is a fold in the sense of its meaning. */
  lemma FoldIsFold(order: Order, same: Equality, r: Region, exits: seq<Edge>)
    requires Fold(true, order, same, r, exits).Some?
    ensures IsFold(same, r, exits, Fold(true, order, same, r, exits).value)
  {
    var bodies := Prepared(r, exits);
    var guards := Guards(true, order, same, r, bodies);
    forall k | 0 <= k < |r| ensures guards[k].Some? && IsGuarded(same, Paths(r, k), bodies[k].body, guards[k].value) {
      if guards[k].None? {
        SequenceFails(guards, k);
      }
      GuardIsGuarded(order, same, Paths(r, k), bodies[k].body);
    }
    var parts := SequenceParts(guards);
    assert GuardedBlocks(same, r, bodies, parts);
  }

  /** Folding succeeds exactly if the guards of all blocks can be built. */
  lemma FoldExact(order: Order, same: Equality, r: Region, exits: seq<Edge>)
    requires Enumerates(order)
    ensures Fold(true, order, same, r, exits).Some? <==> forall k :: 0 <= k < |r| ==> Buildable(order, same, Paths(r, k))
  {
    var bodies := Prepared(r, exits);
    var guards := Guards(true, order, same, r, bodies);
    forall k | 0 <= k < |r| ensures guards[k].Some? <==> Buildable(order, same, Paths(r, k)) {
      GuardBuildable(order, same, Paths(r, k), bodies[k].body);
    }
    if forall k :: 0 <= k < |r| ==> guards[k].Some? {
      var parts := SequenceParts(guards);
    } else {
      var k :| 0 <= k < |r| && guards[k].None?;
      SequenceFails(guards, k);
    }
  }

  /** Folding with createDisjunction as written, where nothing shrinks to one conjunct. */
  lemma FoldAsWritten(order: Order, same: Equality, r: Region, exits: seq<Edge>)
    requires forall k :: 0 <= k < |r| ==> QuietGuard(order, same, Paths(r, k))
    ensures Fold(false, order, same, r, exits) == Fold(true, order, same, r, exits)
  {
    var bodies := Prepared(r, exits);
    forall k | 0 <= k < |r|
      ensures Guard(false, order, same, Paths(r, k), bodies[k].body) == Guard(true, order, same, Paths(r, k), bodies[k].body)
    {
      GuardAsWritten(order, same, Paths(r, k), bodies[k].body);
    }
    assert Guards(false, order, same, r, bodies) == Guards(true, order, same, r, bodies);
  }

  /** Whether some block has an edge to itself or to a block before it. */
  method FindBackEdge(r: Region) returns (isLoop: bool)
    ensures isLoop <==> HasBackEdge(r)
  {
    isLoop := false;
    for k := 0 to |r|
      invariant !isLoop ==> forall j, i :: 0 <= j < k && 0 <= i < |r[j].succs| ==> !IsBackEdge(j, r[j].succs[i])
      invariant isLoop ==> HasBackEdge(r)
    {
      if !isLoop {
        for n := 0 to |r[k].succs|
          invariant !isLoop && forall i :: 0 <= i < n ==> !IsBackEdge(k, r[k].succs[i])
        {
          if IsBackEdge(k, r[k].succs[n]) {
            isLoop := true;
            break;
          }
        }
      }
    }
  }

  method FindExit(r: Region) returns (loopExit: Option<int>)
    ensures loopExit.Some? <==> HasExit(r)
  {
    loopExit := None;
    for k := 0 to |r|
      invariant loopExit.None? ==> forall j, i :: 0 <= j < k && 0 <= i < |r[j].succs| ==> InRegion(r, r[j].succs[i].to)
      invariant loopExit.Some? ==> HasExit(r)
    {
      for n := 0 to |r[k].succs|
        invariant loopExit.None? ==> forall j, i :: 0 <= j < k && 0 <= i < |r[j].succs| ==> InRegion(r, r[j].succs[i].to)
        invariant loopExit.None? ==> forall i :: 0 <= i < n ==> InRegion(r, r[k].succs[i].to)
        invariant loopExit.Some? ==> HasExit(r)
      {
        if !InRegion(r, r[k].succs[n].to) {
          loopExit := Some(r[k].succs[n].to);
          break;
        }
      }
    }
  }

  /** Appends a condition to every path from position `start` on. */
  method AppendFrom(paths: seq<Path>, start: nat, c: Expr) returns (r: seq<Path>)
    requires start <= |paths|
    ensures |r| == |paths|
    ensures forall j :: 0 <= j < |paths| ==> r[j] == if j < start then paths[j] else paths[j] + [c]
  {
    r := paths;
    for i := start to |paths|
      invariant |r| == |paths|
      invariant forall j :: 0 <= j < |paths| ==> r[j] == if start <= j < i then paths[j] + [c] else paths[j]
    {
      r := r[i := r[i] + [c]];
    }
  }

  /** What one edge adds: the conditions of the block it leaves, followed by its own. */
  method JoinPredecessor(visited: seq<seq<Path>>, e: Edge, before: seq<Path>) returns (disjunction: seq<Path>)
    ensures disjunction == before + Contribution(visited, e)
  {
    disjunction := before;
    if 0 <= e.from < |visited| {
      var paths := visited[e.from];
      if paths == [] {
        if e.cond != True {
          disjunction := disjunction + [[e.cond]];
        }
      } else {
        var start := |disjunction|;
        disjunction := disjunction + paths;
        if e.cond != True {
          disjunction := AppendFrom(disjunction, start, e.cond);
        }
      }
    }
  }

  /** The paths to a block, from the conditions of the blocks visited before it. */
  method JoinPredecessors(visited: seq<seq<Path>>, preds: seq<Edge>) returns (disjunction: seq<Path>)
    ensures disjunction == Joined(visited, preds)
  {
    disjunction := [];
    for n := 0 to |preds|
      invariant disjunction == Joined(visited, preds[..n])
    {
      assert preds[..n + 1][..n] == preds[..n];
      disjunction := JoinPredecessor(visited, preds[n], disjunction);
    }
    assert preds[..|preds|] == preds;
  }

  /** Appends the break of each exiting edge to the block it leaves. */
  method AppendBreaks(r: Region, exits: seq<Edge>) returns (blocks: Region)
    ensures blocks == AddBreaks(r, exits)
  {
    blocks := r;
    for n := 0 to |exits|
      invariant blocks == AddBreaks(r, exits[..n])
    {
      var e := exits[n];
      assert exits[..n + 1][..n] == exits[..n];
      if InRegion(r, e.from) {
        blocks := blocks[e.from := blocks[e.from].(body := blocks[e.from].body + [BreakIf(e.cond)])];
      }
    }
    assert exits[..|exits|] == exits;
  }

  /** Guards every block by the paths to it, recorded for the blocks that follow. */
  method GuardBlocks(order: Order, same: Equality, r: Region, blocks: Region) returns (sequence: Option<seq<Stmt>>)
    requires |blocks| == |r| && forall k :: 0 <= k < |r| ==> blocks[k].preds == r[k].preds
    ensures sequence == Sequence(Guards(true, order, same, r, blocks))
  {
    var result: seq<Stmt> := [];
    var reachingConditions: seq<seq<Path>> := [];
    ghost var guards := Guards(true, order, same, r, blocks);
    for k := 0 to |r|
      invariant reachingConditions == Table(r, k)
      invariant Sequence(guards[..k]) == Some(result)
    {
      var disjunction := JoinPredecessors(reachingConditions, blocks[k].preds);
      var guarded := BuildGuard(order, same, disjunction, blocks[k].body);
      assert guarded == guards[k];
      if guarded.None? {
        SequenceFails(guards, k);
        return None;
      }
      SequenceNext(guards, k, result);
      reachingConditions := reachingConditions + [disjunction];
      result := result + guarded.value;
    }
    assert guards[..|r|] == guards;
    sequence := Some(result);
  }

  /** foldBasicBlocks as it runs. */
  method FoldBasicBlocks(order: Order, same: Equality, r: Region, exits: seq<Edge>) returns (result: Option<seq<Stmt>>)
    ensures result == Fold(true, order, same, r, exits)
  {
    var isLoop := FindBackEdge(r);
    var blocks := r;
    if isLoop {
      var loopExit := FindExit(r);
      if loopExit.Some? {
        blocks := AppendBreaks(r, exits);
      }
    }
    var sequence := GuardBlocks(order, same, r, blocks);
    if sequence.None? {
      return None;
    }
    if isLoop {
      return Some([Loop(True, PreTested, sequence.value)]);
    }
    return sequence;
  }
}
