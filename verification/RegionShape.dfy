/**
 RegionShape: the graph that is left after a region has been folded lists its edges and orders its blocks as before, so that
 it can be folded in its turn.
 */
module RegionShape {
  import opened Expressions
  import opened Statements
  import opened Regions
  import opened ReachingConditions
  import opened RegionReduction

  /** An edge of the large graph as the small one has it. */
  function Moved(m: Span, e: Edge): Edge {
    Edge(Outer(m, e.from), Outer(m, e.to), e.cond)
  }

  /** The edges that are left: those that do not start in the span, renumbered, and one from the folded block to the exit. */
  ghost predicate IsOuterEdge(m: Span, es: seq<Edge>, e: Edge) {
    exists d :: d in es && !Inside(m, d.from) && e == Moved(m, d)
  }

  lemma {:induction false} EnteringMember(m: Span, preds: seq<Edge>, e: Edge)
    ensures e in Entering(m, preds) <==> e in preds && !Inside(m, e.from)
    decreases |preds|
  {
    if preds != [] {
      EnteringMember(m, preds[1..], e);
    }
  }

  lemma RenumberMember(m: Span, es: seq<Edge>, d: Edge)
    requires d in es
    ensures Moved(m, d) in Renumber(ToOuter(m), es)
  {
    var i :| 0 <= i < |es| && es[i] == d;
    assert Renumber(ToOuter(m), es)[i] == Moved(m, d);
  }

  lemma NewPredsExact(r: Region, m: Span, k: nat, e: Edge)
    requires k < |r|
    ensures e in NewPreds(r, m, k) <==>
            IsOuterEdge(m, r[k].preds, e) || (k == m.exit && e == Moved(m, Edge(m.at, m.exit, True)))
  {
    var last := if k == m.exit then [Edge(m.at, m.exit, True)] else [];
    var es := Entering(m, r[k].preds) + last;
    if e in NewPreds(r, m, k) {
      var d := RenumberedEdge(ToOuter(m), es, e);
      EnteringMember(m, r[k].preds, d);
    }
    if d :| d in r[k].preds && !Inside(m, d.from) && e == Moved(m, d) {
      EnteringMember(m, r[k].preds, d);
      assert d in es;
      RenumberMember(m, es, d);
    }
    if k == m.exit {
      assert Edge(m.at, m.exit, True) in es;
      RenumberMember(m, es, Edge(m.at, m.exit, True));
    }
  }

  lemma OuterSuccs(r: Region, m: Span, k: nat, e: Edge)
    requires EdgesListed(r) && Separate(r, m) && k < |r| && !Inside(m, k)
    ensures e in Renumber(ToOuter(m), r[k].succs) <==> IsOuterEdge(m, r[k].succs, e)
  {
    if e in Renumber(ToOuter(m), r[k].succs) {
      var d := RenumberedEdge(ToOuter(m), r[k].succs, e);
    }
    if d :| d in r[k].succs && !Inside(m, d.from) && e == Moved(m, d) {
      RenumberMember(m, r[k].succs, d);
    }
  }

  /** The lists of a block of the collapsed graph. */
  ghost predicate ListsAt(r: Region, m: Span, c: Region, j: nat)
    requires 0 < m.size && j < |c|
  {
    && Old(m, j) < |r| && c[j].preds == NewPreds(r, m, Old(m, j))
    && c[j].succs == if j == m.at then [Moved(m, Edge(m.at, m.exit, True))] else Renumber(ToOuter(m), r[Old(m, j)].succs)
  }

  ghost predicate Lists(r: Region, m: Span, c: Region) {
    && EdgesListed(r) && Separate(r, m) && |c| == |r| - m.size + 1
    && forall j: nat :: j < |c| ==> ListsAt(r, m, c, j)
  }

  lemma CollapseLists(r: Region, m: Span, code: seq<Stmt>)
    requires EdgesListed(r) && Separate(r, m)
    ensures Lists(r, m, Collapse(r, m, code))
  {
    var c := Collapse(r, m, code);
    forall j: nat | j < |c| ensures ListsAt(r, m, c, j) {
    }
  }

  lemma OuterIn(r: Region, m: Span, c: Region, t: int)
    requires 0 < m.size && m.at + m.size <= |r| && |c| == |r| - m.size + 1 && (Inside(m, t) ==> t == m.at)
    ensures InRegion(c, Outer(m, t)) <==> InRegion(r, t)
    ensures InRegion(r, t) ==> Old(m, Outer(m, t)) == t && (Outer(m, t) == m.at <==> t == m.at)
  {
  }

  lemma FromOuter(r: Region, m: Span, c: Region, j: nat, e: Edge) returns (d: Edge)
    requires Lists(r, m, c) && j < |c| && e in c[j].succs && j != m.at
    ensures Old(m, j) < |r| && d in r[Old(m, j)].succs && !Inside(m, Old(m, j)) && d.from == Old(m, j) && e == Moved(m, d)
    ensures InRegion(r, d.to) <==> InRegion(c, e.to)
    ensures Inside(m, d.to) ==> d.to == m.at
  {
    assert ListsAt(r, m, c, j);
    OuterSuccs(r, m, Old(m, j), e);
    d :| d in r[Old(m, j)].succs && !Inside(m, d.from) && e == Moved(m, d);
    OuterIn(r, m, c, d.to);
  }

  lemma OuterPredListed(r: Region, m: Span, c: Region, d: Edge, k: nat)
    requires Lists(r, m, c) && k < |r| && d in r[k].preds && !Inside(m, d.from) && InRegion(c, Outer(m, d.from))
    ensures Moved(m, d) in c[Outer(m, d.from)].succs
  {
    OuterIn(r, m, c, d.from);
    assert d in r[d.from].succs;
    assert ListsAt(r, m, c, Outer(m, d.from));
    RenumberMember(m, r[d.from].succs, d);
  }

  lemma PredListed(r: Region, m: Span, c: Region, j: nat, e: Edge)
    requires Lists(r, m, c) && j < |c| && e in c[j].preds
    ensures e.to == j && (InRegion(c, e.from) ==> e in c[e.from].succs)
  {
    var k := Old(m, j);
    assert ListsAt(r, m, c, j);
    NewPredsExact(r, m, k, e);
    if d :| d in r[k].preds && !Inside(m, d.from) && e == Moved(m, d) {
      if InRegion(c, e.from) {
        OuterPredListed(r, m, c, d, k);
      }
    } else {
      assert ListsAt(r, m, c, m.at);
    }
  }

  lemma SuccListed(r: Region, m: Span, c: Region, j: nat, e: Edge)
    requires Lists(r, m, c) && j < |c| && e in c[j].succs
    ensures e.from == j && (InRegion(c, e.to) ==> e in c[e.to].preds)
  {
    assert ListsAt(r, m, c, j);
    if j == m.at {
      OuterIn(r, m, c, m.exit);
      if InRegion(c, e.to) {
        assert ListsAt(r, m, c, e.to);
        NewPredsExact(r, m, m.exit, e);
      }
    } else {
      var d := FromOuter(r, m, c, j, e);
      OuterIn(r, m, c, d.to);
      if InRegion(c, e.to) {
        assert ListsAt(r, m, c, e.to) && d in r[d.to].preds;
        NewPredsExact(r, m, d.to, e);
      }
    }
  }

  /** Every edge of the collapsed graph is listed at both its ends. */
  lemma CollapseListed(r: Region, m: Span, code: seq<Stmt>)
    requires EdgesListed(r) && Separate(r, m)
    ensures EdgesListed(Collapse(r, m, code))
  {
    CollapseLists(r, m, code);
    StaysListed(r, m, Collapse(r, m, code));
  }

  lemma StaysListed(r: Region, m: Span, c: Region)
    requires Lists(r, m, c)
    ensures EdgesListed(c)
  {
    forall k, e | 0 <= k < |c| && e in c[k].preds ensures e.to == k && (InRegion(c, e.from) ==> e in c[e.from].succs) {
      PredListed(r, m, c, k, e);
    }
    forall k, e | 0 <= k < |c| && e in c[k].succs ensures e.from == k && (InRegion(c, e.to) ==> e in c[e.to].preds) {
      SuccListed(r, m, c, k, e);
    }
  }

  // ----- The order of the blocks -----

  /** Going from a block to another one goes on in the order of the blocks, or back to the entry. */
  predicate GoesUp(r: Region, from: int, to: int) {
    InRegion(r, to) ==> to > from || to == 0
  }

  /** An edge over which a block outside the span, or its entry, is reached from a block before it. */
  ghost predicate ReachedAround(r: Region, m: Span, k: nat)
    requires k < |r|
  {
    (exists d :: d in r[k].preds && !Inside(m, d.from) && 0 <= d.from < k) || (k == m.exit && m.at < k)
  }

  ghost predicate TrueAlone(r: Region, k: nat)
    requires k < |r|
  {
    forall e, f :: e in r[k].succs && f in r[k].succs && InRegion(r, e.to) && InRegion(r, f.to) && e.cond == True ==> f == e
  }

  /** The blocks are in order, as far as they are not in the span. */
  ghost predicate OrderedAround(r: Region, m: Span) {
    && GoesUp(r, m.at, m.exit)
    && (forall k, e :: 0 <= k < |r| && !Inside(m, k) && e in r[k].succs ==> GoesUp(r, k, e.to))
    && (forall k: nat :: 0 < k < |r| && Left(r, m, k) ==> ReachedAround(r, m, k))
    && (forall k: nat :: k < |r| && !Inside(m, k) ==> TrueAlone(r, k))
  }

  lemma OrderedOuter(r: Region, m: Span, c: Region, j: nat, e: Edge)
    requires Lists(r, m, c) && OrderedAround(r, m) && j < |c| && e in c[j].succs && InRegion(c, e.to)
    ensures e.to > j || e.to == 0
  {
    if j == m.at {
      assert ListsAt(r, m, c, j);
      OuterIn(r, m, c, m.exit);
      assert GoesUp(r, m.at, m.exit);
    } else {
      var d := FromOuter(r, m, c, j, e);
      assert GoesUp(r, Old(m, j), d.to);
    }
  }

  lemma EdgeAround(r: Region, m: Span, k: nat) returns (d: Edge)
    requires k < |r| && ReachedAround(r, m, k)
    ensures (d in r[k].preds && !Inside(m, d.from)) || (k == m.exit && d == Edge(m.at, m.exit, True))
    ensures 0 <= d.from < k && (Inside(m, d.from) ==> d.from == m.at)
  {
    if e :| e in r[k].preds && !Inside(m, e.from) && 0 <= e.from < k {
      d := e;
    } else {
      d := Edge(m.at, m.exit, True);
    }
  }

  lemma ForwardOver(c: Region, j: nat, e: Edge)
    requires j < |c| && e in c[j].preds && 0 <= e.from < j
    ensures HasForwardPredecessor(c, j)
  {
    var i :| 0 <= i < |c[j].preds| && c[j].preds[i] == e;
    assert Visited(c[j].preds[i], j);
  }

  lemma ReachedOuter(r: Region, m: Span, c: Region, j: nat)
    requires Lists(r, m, c) && OrderedAround(r, m) && 0 < j < |c|
    ensures HasForwardPredecessor(c, j)
  {
    var k := Old(m, j);
    assert ListsAt(r, m, c, j);
    var d := EdgeAround(r, m, k);
    NewPredsExact(r, m, k, Moved(m, d));
    ForwardOver(c, j, Moved(m, d));
  }

  lemma AloneOuter(r: Region, m: Span, c: Region, j: nat, e: Edge, f: Edge)
    requires Lists(r, m, c) && OrderedAround(r, m) && j < |c|
    requires e in c[j].succs && f in c[j].succs && e.cond == True && InRegion(c, e.to) && InRegion(c, f.to)
    ensures f == e
  {
    if j == m.at {
      assert ListsAt(r, m, c, j);
    } else {
      var d := FromOuter(r, m, c, j, e);
      var g := FromOuter(r, m, c, j, f);
      assert TrueAlone(r, Old(m, j));
    }
  }

  /** With the span folded, the graph has the shape that folding asks for, if the blocks around the span are in order. */
  lemma CollapseShaped(r: Region, m: Span, code: seq<Stmt>)
    requires EdgesListed(r) && Separate(r, m) && OrderedAround(r, m)
    ensures WellShaped(Collapse(r, m, code))
  {
    CollapseLists(r, m, code);
    StaysShaped(r, m, Collapse(r, m, code));
  }

  lemma StaysShaped(r: Region, m: Span, c: Region)
    requires Lists(r, m, c) && OrderedAround(r, m)
    ensures WellShaped(c)
  {
    StaysListed(r, m, c);
    forall k, e | 0 <= k < |c| && e in c[k].succs && InRegion(c, e.to) ensures e.to > k || e.to == 0 {
      OrderedOuter(r, m, c, k, e);
    }
    forall k | 0 < k < |c| ensures HasForwardPredecessor(c, k) {
      ReachedOuter(r, m, c, k);
    }
    forall k, e, f | (0 <= k < |c| && e in c[k].succs && f in c[k].succs && InRegion(c, e.to) && InRegion(c, f.to)
                      && e.cond == True) ensures f == e
    {
      AloneOuter(r, m, c, k, e, f);
    }
  }
}
