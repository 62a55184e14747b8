/**
 FoldForm: what folding a region returns, read off the region: which paths guard a block, when there is a loop, and where
 the breaks go.
 */
module FoldForm {
  import opened Expressions
  import opened Statements
  import opened Regions
  import opened ReachingConditions
  import opened PathGuards
  import opened Structurizer
  import opened C = ConsecutiveCombiner

  // ----- Paths -----

  /**
   A way to a block, from one predecessor visited before it to the next: it starts over a condition at a block to which there
   is no way.
   */
  ghost predicate IsWay(r: Region, k: nat, way: seq<Edge>)
    decreases k
  {
    && k < |r| && way != []
    && var last, before := way[|way| - 1], way[..|way| - 1];
      && last in r[k].preds && 0 <= last.from < k
      && if before == [] then last.cond != True && forall other :: !IsWay(r, last.from, other)
         else IsWay(r, last.from, before)
  }

  ghost predicate HasWay(r: Region, k: nat) {
    exists way :: IsWay(r, k, way)
  }

  /** The conditions along a way; edges that are always taken have none. */
  function ConditionsAlong(way: seq<Edge>): Path {
    if way == [] then []
    else
      var last := way[|way| - 1];
      ConditionsAlong(way[..|way| - 1]) + if last.cond == True then [] else [last.cond]
  }

  ghost predicate IsPathOf(r: Region, k: nat, path: Path, way: seq<Edge>) {
    IsWay(r, k, way) && path == ConditionsAlong(way)
  }

  lemma {:induction false} JoinedMember(t: seq<seq<Path>>, preds: seq<Edge>, path: Path)
    ensures path in Joined(t, preds) <==> exists e :: e in preds && path in Contribution(t, e)
    decreases |preds|
  {
    if preds != [] {
      var init, last := preds[..|preds| - 1], preds[|preds| - 1];
      JoinedMember(t, init, path);
      assert preds == init + [last];
    }
  }

  lemma FirstStep(e: Edge)
    ensures ConditionsAlong([e]) == if e.cond == True then [] else [e.cond]
  {
    assert [e][..0] == [] && ConditionsAlong([e][..0]) == [];
  }

  lemma NextStep(way: seq<Edge>, e: Edge)
    ensures (way + [e])[..|way|] == way
    ensures ConditionsAlong(way + [e]) == ConditionsAlong(way) + if e.cond == True then [] else [e.cond]
  {
    assert (way + [e])[..|way|] == way;
  }

  /** The path that was extended to `path`. */
  lemma ExtendedFrom(before: seq<Path>, c: Expr, path: Path) returns (shorter: Path)
    requires before != [] && path in Extended(before, c)
    ensures shorter in before && path == shorter + if c == True then [] else [c]
  {
    var i :| 0 <= i < |before| && Extended(before, c)[i] == path;
    shorter := before[i];
  }

  lemma PathHasWay(r: Region, k: nat, path: Path) returns (way: seq<Edge>)
    requires k < |r| && path in Paths(r, k)
    ensures IsPathOf(r, k, path, way)
    decreases k
  {
    JoinedMember(Table(r, k), r[k].preds, path);
    var e :| e in r[k].preds && path in Contribution(Table(r, k), e);
    TableAt(r, k, e.from);
    var before := Paths(r, e.from);
    if before == [] {
      way := [e];
      FirstStep(e);
      forall other ensures !IsWay(r, e.from, other) {
        if IsWay(r, e.from, other) { WayHasPath(r, e.from, other); }
      }
      assert way[..0] == [];
    } else {
      var shorter := ExtendedFrom(before, e.cond, path);
      var init := PathHasWay(r, e.from, shorter);
      way := init + [e];
      NextStep(init, e);
    }
  }

  lemma WayHasPath(r: Region, k: nat, way: seq<Edge>)
    requires IsWay(r, k, way)
    ensures ConditionsAlong(way) in Paths(r, k)
    decreases k
  {
    var e, init := way[|way| - 1], way[..|way| - 1];
    TableAt(r, k, e.from);
    JoinedMember(Table(r, k), r[k].preds, ConditionsAlong(way));
    var before := Paths(r, e.from);
    if init == [] {
      if before != [] {
        var other := PathHasWay(r, e.from, before[0]);
        assert false;
      }
      assert ConditionsAlong(way) == [e.cond];
      assert Contribution(Table(r, k), e)[0] == ConditionsAlong(way);
    } else {
      WayHasPath(r, e.from, init);
      var i :| 0 <= i < |before| && before[i] == ConditionsAlong(init);
      assert Contribution(Table(r, k), e)[i] == ConditionsAlong(way);
    }
  }

  /** The paths to a block are exactly the conditions along the ways to it. */
  lemma PathsExact(r: Region, k: nat, path: Path)
    requires k < |r|
    ensures path in Paths(r, k) <==> exists way :: IsPathOf(r, k, path, way)
  {
    if path in Paths(r, k) {
      var way := PathHasWay(r, k, path);
    }
    if way :| IsPathOf(r, k, path, way) {
      WayHasPath(r, k, way);
    }
  }

  /** A block is unconditional exactly if there is no way to it. */
  lemma NoWay(r: Region, k: nat)
    requires k < |r|
    ensures Paths(r, k) == [] <==> !HasWay(r, k)
  {
    if Paths(r, k) != [] {
      var way := PathHasWay(r, k, Paths(r, k)[0]);
    }
    if way :| IsWay(r, k, way) {
      WayHasPath(r, k, way);
    }
  }

  // ----- Loops -----

  /** An edge between two blocks of the region. */
  ghost predicate Leads(r: Region, from: nat, to: nat) {
    from < |r| && to < |r| && exists e :: e in r[from].succs && e.to == to
  }

  /** Blocks, each with an edge to the next, of which the first is the last. */
  ghost predicate IsCycle(r: Region, blocks: seq<nat>) {
    && |blocks| > 1 && blocks[0] == blocks[|blocks| - 1]
    && forall i :: 0 <= i < |blocks| - 1 ==> Leads(r, blocks[i], blocks[i + 1])
  }

  ghost predicate IsWalk(r: Region, to: nat, blocks: seq<nat>) {
    && blocks != [] && blocks[0] == 0 && blocks[|blocks| - 1] == to
    && forall i :: 0 <= i < |blocks| - 1 ==> Leads(r, blocks[i], blocks[i + 1])
  }

  /** Every block is reached from the entry. */
  lemma {:induction false} WalkTo(r: Region, k: nat) returns (blocks: seq<nat>)
    requires WellShaped(r) && k < |r|
    ensures IsWalk(r, k, blocks)
    decreases k
  {
    if k == 0 {
      blocks := [0];
    } else {
      var i := ForwardPredecessor(r, k);
      var e := r[k].preds[i];
      assert e in r[k].preds && e in r[e.from].succs;
      var before := WalkTo(r, e.from);
      blocks := before + [k];
      assert Leads(r, e.from, k);
    }
  }

  lemma {:induction false} GoingUp(r: Region, blocks: seq<nat>)
    requires !HasBackEdge(r) && |blocks| > 1
    requires forall i :: 0 <= i < |blocks| - 1 ==> Leads(r, blocks[i], blocks[i + 1])
    ensures blocks[0] < blocks[|blocks| - 1]
    decreases |blocks|
  {
    var n := |blocks| - 1;
    assert Leads(r, blocks[n - 1], blocks[n]);
    var e :| e in r[blocks[n - 1]].succs && e.to == blocks[n];
    var i :| 0 <= i < |r[blocks[n - 1]].succs| && r[blocks[n - 1]].succs[i] == e;
    assert !IsBackEdge(blocks[n - 1], e);
    if n > 1 {
      forall i | 0 <= i < n - 1 ensures Leads(r, blocks[..n][i], blocks[..n][i + 1]) {
        assert Leads(r, blocks[i], blocks[i + 1]);
      }
      GoingUp(r, blocks[..n]);
    }
  }

  /** A region is made a loop exactly if its blocks form a cycle. */
  lemma LoopExact(r: Region)
    requires WellShaped(r)
    ensures HasBackEdge(r) <==> exists blocks :: IsCycle(r, blocks)
  {
    if HasBackEdge(r) {
      var k: nat, i :| k < |r| && 0 <= i < |r[k].succs| && IsBackEdge(k, r[k].succs[i]);
      var e := r[k].succs[i];
      var blocks := WalkTo(r, k);
      assert e in r[k].succs && Leads(r, k, 0);
      assert IsCycle(r, blocks + [0]);
    }
    if blocks :| IsCycle(r, blocks) {
      if !HasBackEdge(r) {
        GoingUp(r, blocks);
        assert false;
      }
    }
  }

  // ----- Breaks -----

  /** The breaks for the exits that leave block `k`, in the order of the exits. */
  function BreaksOf(exits: seq<Edge>, k: nat): seq<Stmt> {
    if exits == [] then []
    else
      var rest, c := BreaksOf(exits[1..], k), exits[0].cond;
      if exits[0].from != k then rest
      else if c == True then [Break] + rest
      else [IfElse(c, [Break], [])] + rest
  }

  lemma {:induction false} BreaksSnoc(exits: seq<Edge>, e: Edge, k: nat)
    ensures BreaksOf(exits + [e], k) == BreaksOf(exits, k) + BreaksOf([e], k)
    decreases |exits|
  {
    if exits == [] {
      assert [] + [e] == [e];
    } else {
      assert (exits + [e])[1..] == exits[1..] + [e];
      BreaksSnoc(exits[1..], e, k);
    }
  }

  /** Every block gets the breaks of the exits that leave it, after what it does. */
  lemma {:induction false} BreaksExact(r: Region, exits: seq<Edge>, k: nat)
    requires k < |r|
    ensures AddBreaks(r, exits)[k].body == r[k].body + BreaksOf(exits, k)
    decreases |exits|
  {
    if exits != [] {
      var init, e := exits[..|exits| - 1], exits[|exits| - 1];
      BreaksExact(r, init, k);
      BreaksSnoc(init, e, k);
      assert init + [e] == exits && [e][1..] == [];
    }
  }

  // ----- The whole region -----

  /** An edge of the region to a block outside. */
  ghost predicate IsLeft(r: Region) {
    exists k: nat, e :: k < |r| && e in r[k].succs && !(0 <= e.to < |r|)
  }

  /** Each block under a guard for the ways to it, with its breaks if it is in a loop that is left. */
  ghost predicate GuardedParts(same: Equality, r: Region, exits: seq<Edge>, loop: bool, parts: seq<seq<Stmt>>) {
    && |parts| == |r|
    && forall k :: 0 <= k < |r| ==>
         IsGuarded(same, Paths(r, k), r[k].body + (if loop && IsLeft(r) then BreaksOf(exits, k) else []), parts[k])
  }

  ghost predicate FoldsTo(same: Equality, r: Region, exits: seq<Edge>, result: seq<Stmt>) {
    exists parts ::
      if exists blocks :: IsCycle(r, blocks) then
        GuardedParts(same, r, exits, true, parts) && result == [Loop(True, PreTested, Flatten(parts))]
      else
        GuardedParts(same, r, exits, false, parts) && result == Flatten(parts)
  }

  lemma LeftExact(r: Region)
    ensures HasExit(r) <==> IsLeft(r)
  {
    if k, i :| 0 <= k < |r| && 0 <= i < |r[k].succs| && !InRegion(r, r[k].succs[i].to) {
      assert r[k].succs[i] in r[k].succs;
    }
    if k: nat, e :| k < |r| && e in r[k].succs && !(0 <= e.to < |r|) {
      var i :| 0 <= i < |r[k].succs| && r[k].succs[i] == e;
      assert !InRegion(r, r[k].succs[i].to);
    }
  }

  lemma PreparedExact(r: Region, exits: seq<Edge>, k: nat)
    requires WellShaped(r) && k < |r|
    ensures Prepared(r, exits)[k].body ==
            r[k].body + if (exists blocks :: IsCycle(r, blocks)) && IsLeft(r) then BreaksOf(exits, k) else []
  {
    LoopExact(r);
    LeftExact(r);
    BreaksExact(r, exits, k);
    assert r[k].body + [] == r[k].body;
  }

  /** The blocks come out in their order, each guarded, and in an endless loop exactly if they form a cycle. */
  lemma FoldForm(same: Equality, r: Region, exits: seq<Edge>, result: seq<Stmt>)
    requires WellShaped(r)
    ensures IsFold(same, r, exits, result) <==> FoldsTo(same, r, exits, result)
  {
    var loop := exists blocks :: IsCycle(r, blocks);
    LoopExact(r);
    forall k | 0 <= k < |r|
      ensures Prepared(r, exits)[k].body == r[k].body + if loop && IsLeft(r) then BreaksOf(exits, k) else []
    {
      PreparedExact(r, exits, k);
    }
    forall parts
      ensures GuardedBlocks(same, r, Prepared(r, exits), parts) <==> GuardedParts(same, r, exits, loop, parts)
    {
    }
  }
}
