/**
 Reaching conditions: for each block of a region, the list of condition sequences along the forward paths to it.
 An empty list stands for a block that is reached unconditionally.
 */
module ReachingConditions {
  import opened Expressions
  import opened Regions

  type Path = seq<Expr>

  // ----- The shape of a region -----

  predicate Visited(e: Edge, k: int) {
    0 <= e.from < k
  }

  /** Every edge inside the region is in the list of its source and in the list of its target. */
  ghost predicate EdgesListed(r: Region) {
    && (forall k, e :: 0 <= k < |r| && e in r[k].preds ==> e.to == k && (InRegion(r, e.from) ==> e in r[e.from].succs))
    && (forall k, e :: 0 <= k < |r| && e in r[k].succs ==> e.from == k && (InRegion(r, e.to) ==> e in r[e.to].preds))
  }

  ghost predicate HasForwardPredecessor(r: Region, k: nat)
    requires k < |r|
  {
    exists i :: 0 <= i < |r[k].preds| && Visited(r[k].preds[i], k)
  }

  /** Blocks are in topological order but for edges back to the entry, and every other block has a forward predecessor. */
  ghost predicate Ordered(r: Region) {
    && (forall k, e :: 0 <= k < |r| && e in r[k].succs && InRegion(r, e.to) ==> e.to > k || e.to == 0)
    && (forall k :: 0 < k < |r| ==> HasForwardPredecessor(r, k))
  }

  /** A block that leaves by an edge with the literal condition `true` has no other edge inside the region. */
  ghost predicate TrueEdgeAlone(r: Region) {
    forall k, e, f ::
      (0 <= k < |r| && e in r[k].succs && f in r[k].succs && InRegion(r, e.to) && InRegion(r, f.to) && e.cond == True) ==>
        f == e
  }

  ghost predicate WellShaped(r: Region) {
    r != [] && EdgesListed(r) && Ordered(r) && TrueEdgeAlone(r)
  }

  // ----- Paths -----

  /** The paths over one more edge. */
  function Extended(paths: seq<Path>, c: Expr): seq<Path> {
    if paths == [] then (if c == True then [] else [[c]])
    else if c == True then paths
    else seq(|paths|, i requires 0 <= i < |paths| => paths[i] + [c])
  }

  /** What an edge contributes, given the paths of the blocks visited so far; other blocks do not count. */
  function Contribution(visited: seq<seq<Path>>, e: Edge): seq<Path> {
    if 0 <= e.from < |visited| then Extended(visited[e.from], e.cond) else []
  }

  function Joined(visited: seq<seq<Path>>, preds: seq<Edge>): seq<Path> {
    if preds == [] then []
    else Joined(visited, preds[..|preds| - 1]) + Contribution(visited, preds[|preds| - 1])
  }

  /** The paths of the first `n` blocks, each from those before it. */
  function Table(r: Region, n: nat): (t: seq<seq<Path>>)
    requires n <= |r|
    ensures |t| == n
  {
    if n == 0 then []
    else
      var t := Table(r, n - 1);
      t + [Joined(t, r[n - 1].preds)]
  }

  function Paths(r: Region, k: nat): seq<Path>
    requires k < |r|
  {
    Joined(Table(r, k), r[k].preds)
  }

  lemma {:induction false} TableAt(r: Region, n: nat, k: nat)
    requires k < n <= |r|
    ensures Table(r, n)[k] == Paths(r, k)
    decreases n
  {
    if k < n - 1 {
      TableAt(r, n - 1, k);
    }
  }

  ghost predicate AnyPath(paths: seq<Path>, v: Valuation) {
    exists i :: 0 <= i < |paths| && AllHold(paths[i], v)
  }

  ghost predicate Reached(r: Region, k: nat, v: Valuation)
    requires k < |r|
  {
    Paths(r, k) == [] || AnyPath(Paths(r, k), v)
  }

  lemma ExtendedHolds(paths: seq<Path>, c: Expr, v: Valuation)
    ensures AnyPath(Extended(paths, c), v) <==> if paths == [] then c != True && Holds(c, v) else AnyPath(paths, v) && Holds(c, v)
  {
    var ext := Extended(paths, c);
    if paths == [] {
      if c != True { assert ext[0] == [c]; assert AllHold(ext[0], v) <==> Holds(c, v) by { assert [c][0] == c; } }
    } else if c != True {
      forall i | 0 <= i < |paths| ensures AllHold(ext[i], v) <==> AllHold(paths[i], v) && Holds(c, v) {
        AllHoldConcat(paths[i], [c], v);
        assert AllHold([c], v) <==> Holds(c, v) by { assert [c][0] == c; }
      }
      assert AnyPath(ext, v) ==> AnyPath(paths, v) && Holds(c, v);
    }
  }

  lemma ExtendedEmpty(paths: seq<Path>, c: Expr)
    ensures Extended(paths, c) == [] <==> paths == [] && c == True
  {
  }

  lemma AnyPathConcat(a: seq<Path>, b: seq<Path>, v: Valuation)
    ensures AnyPath(a + b, v) <==> AnyPath(a, v) || AnyPath(b, v)
  {
    if i :| 0 <= i < |b| && AllHold(b[i], v) {
      assert AllHold((a + b)[|a| + i], v);
    }
    if i :| 0 <= i < |a| && AllHold(a[i], v) {
      assert AllHold((a + b)[i], v);
    }
  }

  lemma {:induction false} JoinedHolds(t: seq<seq<Path>>, preds: seq<Edge>, v: Valuation)
    ensures AnyPath(Joined(t, preds), v) <==> exists i :: 0 <= i < |preds| && AnyPath(Contribution(t, preds[i]), v)
    decreases |preds|
  {
    if preds != [] {
      var init, last := preds[..|preds| - 1], preds[|preds| - 1];
      JoinedHolds(t, init, v);
      AnyPathConcat(Joined(t, init), Contribution(t, last), v);
      if i :| 0 <= i < |preds| && AnyPath(Contribution(t, preds[i]), v) {
        assert i < |init| ==> AnyPath(Contribution(t, init[i]), v);
      }
    }
  }

  lemma {:induction false} JoinedEmpty(t: seq<seq<Path>>, preds: seq<Edge>)
    ensures Joined(t, preds) == [] <==> forall e :: e in preds ==> Contribution(t, e) == []
    decreases |preds|
  {
    if preds != [] {
      var init, last := preds[..|preds| - 1], preds[|preds| - 1];
      JoinedEmpty(t, init);
      assert preds == init + [last];
    }
  }

  // ----- Unconditional blocks -----

  lemma ForwardPredecessor(r: Region, k: nat) returns (i: nat)
    requires WellShaped(r) && 0 < k < |r|
    ensures i < |r[k].preds| && Visited(r[k].preds[i], k)
  {
    assert HasForwardPredecessor(r, k);
    i :| 0 <= i < |r[k].preds| && Visited(r[k].preds[i], k);
  }

  lemma NoPaths(r: Region, k: nat)
    requires k < |r|
    ensures Paths(r, k) == [] <==>
            forall e :: e in r[k].preds && Visited(e, k) ==> Paths(r, e.from) == [] && e.cond == True
  {
    JoinedEmpty(Table(r, k), r[k].preds);
    forall e | e in r[k].preds && Visited(e, k)
      ensures Contribution(Table(r, k), e) == [] <==> Paths(r, e.from) == [] && e.cond == True
    {
      TableAt(r, k, e.from);
      ExtendedEmpty(Paths(r, e.from), e.cond);
    }
  }

  /** A `true` edge out of an unconditional block leads to the very next block. */
  lemma {:induction false} TrueEdgeLeadsNext(r: Region, k: nat, e: Edge)
    requires WellShaped(r) && k < |r| && e in r[k].preds && Visited(e, k) && Paths(r, e.from) == [] && e.cond == True
    ensures e.from + 1 == k
    decreases k, 0
  {
    var u := e.from;
    if u + 1 < k {
      // The only edge of u into the region is e, and the blocks before u lead no further than u.
      var i' := ForwardPredecessor(r, u + 1);
      var e' := r[u + 1].preds[i'];
      assert e' in r[u + 1].preds;
      if e'.from < u {
        UnconditionalPrefix(r, u, e'.from);
      }
      assert false;
    }
  }

  /**
   The blocks before an unconditional block are unconditional too, and each has a `true` edge to the next one as its
   only edge into the region.
   */
  lemma {:induction false} UnconditionalPrefix(r: Region, k: nat, j: nat)
    requires WellShaped(r) && j < k < |r| && Paths(r, k) == []
    ensures Paths(r, j) == []
    ensures forall e :: e in r[j].succs && InRegion(r, e.to) ==> e.to == j + 1 && e.cond == True
    decreases k, 1
  {
    NoPaths(r, k);
    var i := ForwardPredecessor(r, k);
    var e := r[k].preds[i];
    TrueEdgeLeadsNext(r, k, e);
    if j < e.from {
      UnconditionalPrefix(r, e.from, j);
    }
  }

  /** The `true` edge of an unconditional block leads to an unconditional block. */
  lemma UnconditionalSuccessor(r: Region, k: nat, e: Edge)
    requires WellShaped(r) && k < |r| && e in r[k].preds && Visited(e, k) && Paths(r, e.from) == [] && e.cond == True
    ensures Paths(r, k) == []
  {
    NoPaths(r, k);
    TrueEdgeLeadsNext(r, k, e);
    forall f | f in r[k].preds && Visited(f, k) ensures f == e {
      if f.from < e.from {
        UnconditionalPrefix(r, e.from, f.from);
      }
    }
  }

  ghost predicate TakenInto(r: Region, k: nat, e: Edge, v: Valuation)
    requires k < |r|
  {
    e in r[k].preds && Visited(e, k) && Reached(r, e.from, v) && Holds(e.cond, v)
  }

  lemma ReachedFrom(r: Region, k: nat, v: Valuation) returns (e: Edge)
    requires WellShaped(r) && 0 < k < |r| && Reached(r, k, v)
    ensures TakenInto(r, k, e, v)
  {
    if Paths(r, k) == [] {
      NoPaths(r, k);
      var i := ForwardPredecessor(r, k);
      e := r[k].preds[i];
      assert e in r[k].preds;
    } else {
      JoinedHolds(Table(r, k), r[k].preds, v);
      var i :| 0 <= i < |r[k].preds| && AnyPath(Contribution(Table(r, k), r[k].preds[i]), v);
      e := r[k].preds[i];
      assert Visited(e, k);
      TableAt(r, k, e.from);
      ExtendedHolds(Paths(r, e.from), e.cond, v);
    }
  }

  lemma ReachedOver(r: Region, k: nat, e: Edge, v: Valuation)
    requires WellShaped(r) && k < |r| && TakenInto(r, k, e, v)
    ensures Reached(r, k, v)
  {
    var i :| 0 <= i < |r[k].preds| && r[k].preds[i] == e;
    if Paths(r, e.from) == [] && e.cond == True {
      UnconditionalSuccessor(r, k, e);
    } else {
      TableAt(r, k, e.from);
      ExtendedHolds(Paths(r, e.from), e.cond, v);
      assert AnyPath(Contribution(Table(r, k), r[k].preds[i]), v);
      JoinedHolds(Table(r, k), r[k].preds, v);
    }
  }

  /** A block is reached exactly if it is the entry or one of its forward edges is taken from a reached block. */
  lemma ReachedStep(r: Region, k: nat, v: Valuation)
    requires WellShaped(r) && k < |r|
    ensures Reached(r, k, v) <==> k == 0 || exists e :: TakenInto(r, k, e, v)
  {
    if k > 0 && Reached(r, k, v) {
      var e := ReachedFrom(r, k, v);
    }
    if e :| TakenInto(r, k, e, v) {
      ReachedOver(r, k, e, v);
    }
    if k == 0 {
      NoPaths(r, k);
    }
  }
}
