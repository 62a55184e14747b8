/**
 SharedSteps: what one step does to expressions in memory is what the simplifier does to the expressions they stand for. A
 step on a chain is removing its identical terms, a step on a negation is taking it away.
 */
module SharedSteps {
  import opened Expressions
  import opened C = ConsecutiveCombiner
  import opened SimplifyExpressions
  import opened X = SimplifyExact
  import opened SimplifyForm
  import R = SimplifyRuns

  // ----- Expressions by address -----

  ghost predicate IsNamed(g: R.Graph, n: nat) {
    n in g.cells && !g.cells[n].Holder?
  }

  ghost predicate AllNamed(g: R.Graph, ids: seq<nat>) {
    forall i :: 0 <= i < |ids| ==> IsNamed(g, ids[i])
  }

  ghost function Trees(g: R.Graph, ids: seq<nat>): (es: seq<Expr>)
    requires R.Valid(g) && AllNamed(g, ids)
    ensures |es| == |ids| && forall i :: 0 <= i < |ids| ==> es[i] == R.TreeOf(g, ids[i])
  {
    seq(|ids|, i requires 0 <= i < |ids| => assert IsNamed(g, ids[i]); R.TreeOf(g, ids[i]))
  }

  /** Equal expressions have one address. */
  ghost predicate OneAddressEach(g: R.Graph)
    requires R.Valid(g)
  {
    forall a, b :: IsNamed(g, a) && IsNamed(g, b) && R.TreeOf(g, a) == R.TreeOf(g, b) ==> a == b
  }

  ghost predicate TermsNamed(g: R.Graph, t: R.Ids) {
    AllNamed(g, t.plain) && AllNamed(g, t.negated)
  }

  ghost function TermTrees(g: R.Graph, t: R.Ids): Terms
    requires R.Valid(g) && TermsNamed(g, t)
  {
    Terms(Trees(g, t.plain), Trees(g, t.negated))
  }

  lemma KindOfTree(g: R.Graph, n: nat)
    requires R.Valid(g) && IsNamed(g, n)
    ensures R.TreeOf(g, n).Not? <==> g.cells[n].Negation?
    ensures R.TreeOf(g, n).NAry? <==> g.cells[n].Chain?
    ensures g.cells[n].Negation? ==> IsNamed(g, g.cells[n].x) && R.TreeOf(g, n) == Not(R.TreeOf(g, g.cells[n].x))
    ensures g.cells[n].Chain? ==>
      AllNamed(g, g.cells[n].args) && R.TreeOf(g, n) == NAry(g.cells[n].op, Trees(g, g.cells[n].args))
  {
    assert R.CellValid(g, n);
    if g.cells[n].Negation? {
      assert R.Below(g, R.Args(g.cells[n])[0], n);
    }
    if g.cells[n].Chain? {
      var es := R.ChainTree(g, n);
      assert es == Trees(g, g.cells[n].args);
    }
  }

  lemma {:induction false} StripTree(g: R.Graph, n: nat)
    requires R.Valid(g) && IsNamed(g, n)
    ensures IsNamed(g, R.Strip(g, n).0)
    ensures CountNegationDepth(R.TreeOf(g, n)) == (R.TreeOf(g, R.Strip(g, n).0), R.Strip(g, n).1)
    decreases assert R.CellValid(g, n); g.rank[n]
  {
    KindOfTree(g, n);
    if g.cells[n].Negation? {
      assert R.CellValid(g, n) && R.Below(g, R.Args(g.cells[n])[0], n);
      StripTree(g, g.cells[n].x);
    }
  }

  lemma TreeMember(g: R.Graph, ids: seq<nat>, x: nat)
    requires R.Valid(g) && OneAddressEach(g) && AllNamed(g, ids) && IsNamed(g, x)
    ensures R.TreeOf(g, x) in Trees(g, ids) <==> x in ids
  {
    if R.TreeOf(g, x) in Trees(g, ids) {
      var i :| 0 <= i < |ids| && Trees(g, ids)[i] == R.TreeOf(g, x);
      assert IsNamed(g, ids[i]);
    }
    if i :| 0 <= i < |ids| && ids[i] == x {
      assert Trees(g, ids)[i] == R.TreeOf(g, x);
    }
  }

  lemma SharedMember(same: Equality, es: seq<Expr>, e: Expr)
    requires Shared(same)
    ensures Contains(same, es, e) <==> e in es
  {
  }

  lemma TreesSnoc(g: R.Graph, ids: seq<nat>, x: nat)
    requires R.Valid(g) && AllNamed(g, ids) && IsNamed(g, x)
    ensures AllNamed(g, ids + [x]) && Trees(g, ids + [x]) == Trees(g, ids) + [R.TreeOf(g, x)]
  {
  }

  lemma AddTree(g: R.Graph, same: Equality, t: R.Ids, n: nat)
    requires Shared(same) && R.Valid(g) && OneAddressEach(g) && TermsNamed(g, t) && IsNamed(g, n)
    ensures TermsNamed(g, R.AddId(g, t, n))
    ensures TermTrees(g, R.AddId(g, t, n)) == AddTerm(same, TermTrees(g, t), R.TreeOf(g, n))
  {
    StripTree(g, n);
    var c := R.Strip(g, n);
    TreeMember(g, t.plain, c.0);
    TreeMember(g, t.negated, c.0);
    SharedMember(same, Trees(g, t.plain), R.TreeOf(g, c.0));
    SharedMember(same, Trees(g, t.negated), R.TreeOf(g, c.0));
    TreesSnoc(g, t.plain, c.0);
    TreesSnoc(g, t.negated, c.0);
  }

  lemma TreesDrop(g: R.Graph, ids: seq<nat>)
    requires R.Valid(g) && AllNamed(g, ids) && ids != []
    ensures AllNamed(g, ids[1..]) && IsNamed(g, ids[0]) && Trees(g, ids)[1..] == Trees(g, ids[1..])
    ensures Trees(g, ids)[0] == R.TreeOf(g, ids[0])
  {
    forall i | 0 <= i < |ids| - 1 ensures IsNamed(g, ids[1..][i]) {
      assert IsNamed(g, ids[i + 1]);
    }
    assert Trees(g, ids)[1..] == Trees(g, ids[1..]);
  }

  /** Collecting addresses is collecting the expressions that they stand for. */
  lemma {:induction false} CollectTrees(g: R.Graph, same: Equality, op: NAryOp, args: seq<nat>, bound: nat, t: R.Ids)
    requires Shared(same) && R.Valid(g) && OneAddressEach(g) && R.AllBelow(g, args, bound)
    requires AllNamed(g, args) && TermsNamed(g, t)
    ensures TermsNamed(g, R.CollectIds(g, op, args, bound, t))
    ensures TermTrees(g, R.CollectIds(g, op, args, bound, t)) == Collect(same, op, Trees(g, args), TermTrees(g, t))
    decreases bound, |args|
  {
    if args != [] {
      var a := args[0];
      TreesDrop(g, args);
      KindOfTree(g, a);
      R.ArgsBelow(g, a);
      if g.cells[a].Chain? && g.cells[a].op == op {
        CollectTrees(g, same, op, g.cells[a].args, g.rank[a], t);
        CollectTrees(g, same, op, args[1..], bound, R.CollectIds(g, op, g.cells[a].args, g.rank[a], t));
      } else {
        AddTree(g, same, t, a);
        CollectTrees(g, same, op, args[1..], bound, R.AddId(g, t, a));
      }
    }
  }

  lemma LiteralTrees(g: R.Graph, x: nat)
    requires R.Valid(g) && OneAddressEach(g) && IsNamed(g, x)
    ensures IsNamed(g, R.TRUE_ID) && R.TreeOf(g, R.TRUE_ID) == True
    ensures IsNamed(g, R.FALSE_ID) && R.TreeOf(g, R.FALSE_ID) == False
    ensures R.TreeOf(g, x) == True <==> x == R.TRUE_ID
    ensures R.TreeOf(g, x) == False <==> x == R.FALSE_ID
  {
    assert IsNamed(g, R.TRUE_ID) && R.TreeOf(g, R.TRUE_ID) == True;
    assert IsNamed(g, R.FALSE_ID) && R.TreeOf(g, R.FALSE_ID) == False;
  }

  lemma TreesConcat(g: R.Graph, a: seq<nat>, b: seq<nat>)
    requires R.Valid(g) && AllNamed(g, a) && AllNamed(g, b)
    ensures AllNamed(g, a + b) && Trees(g, a + b) == Trees(g, a) + Trees(g, b)
  {
  }

  lemma {:induction false} KeptTrees(g: R.Graph, ids: seq<nat>)
    requires R.Valid(g) && OneAddressEach(g) && AllNamed(g, ids)
    ensures AllNamed(g, R.Others(ids)) && Kept(Trees(g, ids)) == Trees(g, R.Others(ids))
    decreases |ids|
  {
    if ids != [] {
      TreesDrop(g, ids);
      KeptTrees(g, ids[1..]);
      LiteralTrees(g, ids[0]);
      var rest := R.Others(ids[1..]);
      assert R.Others(ids) == if ids[0] == R.TRUE_ID || ids[0] == R.FALSE_ID then rest else [ids[0]] + rest;
      if R.Others(ids) != rest {
        TreesConcat(g, [ids[0]], rest);
        assert Trees(g, [ids[0]]) == [R.TreeOf(g, ids[0])];
      }
    }
  }

  lemma DecidedTrees(g: R.Graph, same: Equality, op: NAryOp, t: R.Ids)
    requires Shared(same) && R.Valid(g) && OneAddressEach(g) && TermsNamed(g, t) && IsLogical(op)
    ensures Decided(same, op, TermTrees(g, t)) <==> R.DecidedIds(op, t)
  {
    LiteralTrees(g, R.TRUE_ID);
    TreeMember(g, t.plain, R.DecidingId(op));
    TreeMember(g, t.negated, R.NeutralId(op));
    var terms := TermTrees(g, t);
    forall i | 0 <= i < |t.negated| ensures Contains(same, terms.plain, terms.negated[i]) <==> t.negated[i] in t.plain {
      assert IsNamed(g, t.negated[i]);
      TreeMember(g, t.plain, t.negated[i]);
      SharedMember(same, terms.plain, terms.negated[i]);
    }
  }

  // ----- Steps on chains -----

  lemma ChainTerms(g: R.Graph, same: Equality, p: nat)
    requires Shared(same) && R.Valid(g) && OneAddressEach(g) && R.IsChain(g, p)
    ensures AllNamed(g, g.cells[p].args) && TermsNamed(g, R.TermsOf(g, p))
    ensures TermTrees(g, R.TermsOf(g, p)) == Collect(same, g.cells[p].op, Trees(g, g.cells[p].args), Terms([], []))
  {
    KindOfTree(g, p);
    R.ArgsBelow(g, p);
    var none: seq<nat> := [];
    assert TermTrees(g, R.Ids(none, none)) == Terms([], []);
    CollectTrees(g, same, g.cells[p].op, g.cells[p].args, g.rank[p], R.Ids(none, none));
  }

  /**
   Where equal expressions have one address, a chain can be replaced by the literal, rebuilt, or fails exactly if the
   simplifier on trees returns the literal, another chain, or nothing.
   */
  lemma ChainExact(s: R.State, same: Equality, p: nat)
    requires Shared(same) && R.Valid(s.g) && OneAddressEach(s.g) && R.IsChain(s.g, p)
    ensures AllNamed(s.g, s.g.cells[p].args)
    ensures var op := s.g.cells[p].op;
      var r := RemoveIdentical(same, op, Trees(s.g, s.g.cells[p].args));
      && (R.Enabled(s, R.Decide(p)) <==> r == Some(Deciding(op)))
      && (R.Enabled(s, R.Rebuild(p)) <==> r.Some? && r.value.NAry?)
      && (R.Fails(s.g, p) <==> r.None?)
  {
    var g, t := s.g, R.TermsOf(s.g, p);
    var op := g.cells[p].op;
    ChainTerms(g, same, p);
    DecidedTrees(g, same, op, t);
    KeptTrees(g, t.plain);
    KeptTrees(g, t.negated);
    NegatedAt(Kept(Trees(g, t.negated)));
  }

  // ----- Expressions stay what they are -----

  ghost predicate Keeps(g: R.Graph, h: R.Graph) {
    forall n :: n in g.cells ==> n in h.cells && h.cells[n] == g.cells[n]
  }

  lemma {:induction false} TreeKept(g: R.Graph, h: R.Graph, n: nat)
    requires R.Valid(g) && R.Valid(h) && Keeps(g, h) && IsNamed(g, n)
    ensures IsNamed(h, n) && R.TreeOf(h, n) == R.TreeOf(g, n)
    decreases assert R.CellValid(g, n); g.rank[n]
  {
    KindOfTree(g, n);
    KindOfTree(h, n);
    if g.cells[n].Negation? {
      assert R.CellValid(g, n) && R.Below(g, R.Args(g.cells[n])[0], n);
      TreeKept(g, h, g.cells[n].x);
    } else if g.cells[n].Chain? {
      var args := g.cells[n].args;
      forall i | 0 <= i < |args| ensures R.TreeOf(h, args[i]) == R.TreeOf(g, args[i]) {
        assert R.CellValid(g, n) && R.Below(g, R.Args(g.cells[n])[i], n);
        TreeKept(g, h, args[i]);
      }
      assert Trees(h, args) == Trees(g, args);
    }
  }

  lemma TreesKept(g: R.Graph, h: R.Graph, ids: seq<nat>)
    requires R.Valid(g) && R.Valid(h) && Keeps(g, h) && AllNamed(g, ids)
    ensures AllNamed(h, ids) && Trees(h, ids) == Trees(g, ids)
  {
    forall i | 0 <= i < |ids| ensures IsNamed(h, ids[i]) && R.TreeOf(h, ids[i]) == R.TreeOf(g, ids[i]) {
      assert IsNamed(g, ids[i]);
      TreeKept(g, h, ids[i]);
    }
  }

  lemma StepValid(s: R.State, run: seq<R.Action>, a: R.Action)
    requires R.Start(s) && R.CanRun(s, run) && R.Enabled(R.After(s, run), a)
    ensures R.Valid(R.Do(R.After(s, run), a).g)
  {
    R.RunsGoOn(s, run, a);
    RunLast(s, run, a);
  }

  lemma {:induction false} RunLast(s: R.State, run: seq<R.Action>, a: R.Action)
    requires R.CanRun(s, run) && R.Enabled(R.After(s, run), a) && R.CanRun(s, run + [a])
    ensures R.Valid(R.Do(R.After(s, run), a).g)
    decreases |run|
  {
    if run == [] {
      assert (run + [a])[0] == a;
      assert R.CanRun(R.Do(s, a), (run + [a])[1..]);
    } else {
      assert (run + [a])[0] == run[0] && (run + [a])[1..] == run[1..] + [a];
      RunLast(R.Do(s, run[0]), run[1..], a);
    }
  }

  // ----- Steps on negations -----

  /** A negation is taken away by a step exactly if the simplifier on trees takes it away. */
  lemma NegationExact(s: R.State, n: nat)
    requires R.Valid(s.g) && IsNamed(s.g, n)
    ensures R.Enabled(s, R.Cancel(n)) || R.Enabled(s, R.Flip(n)) <==> Removable(R.TreeOf(s.g, n))
  {
    KindOfTree(s.g, n);
    if s.g.cells[n].Negation? {
      KindOfTree(s.g, s.g.cells[n].x);
    }
  }

  /** What replaces it is what the simplifier puts in its place. */
  lemma NegationStep(s: R.State, run: seq<R.Action>, n: nat, a: R.Action) returns (r: nat)
    requires R.Start(s) && R.CanRun(s, run) && a in {R.Cancel(n), R.Flip(n)} && R.Enabled(R.After(s, run), a)
    ensures var t := R.After(s, run);
      && R.Valid(R.Do(t, a).g) && IsNamed(t.g, n) && R.TreeOf(t.g, n).Not? && IsNamed(R.Do(t, a).g, r)
      && R.Do(t, a).subst == t.subst + {R.Substitution(n, r)}
      && R.TreeOf(R.Do(t, a).g, r) == NegateVisited(R.TreeOf(t.g, n).e)
  {
    var t := R.After(s, run);
    var g, h := t.g, R.Do(t, a).g;
    StepValid(s, run, a);
    var x := g.cells[n].x;
    KindOfTree(g, n);
    KindOfTree(g, x);
    if a == R.Cancel(n) {
      r := g.cells[x].x;
    } else {
      r := g.next;
      FlippedTree(g, h, x, r);
    }
  }

  lemma FlippedTree(g: R.Graph, h: R.Graph, x: nat, r: nat)
    requires R.Valid(g) && R.Valid(h) && IsNamed(g, x) && g.cells[x].Chain? && Flippable(g.cells[x].op) && |g.cells[x].args| == 2
    requires r == g.next && h.cells == g.cells[r := R.Chain(Flipped(g.cells[x].op), g.cells[x].args)]
    ensures IsNamed(h, r) && R.TreeOf(h, r) == NegateVisited(R.TreeOf(g, x))
  {
    assert Keeps(g, h) by {
      forall m | m in g.cells ensures m in h.cells && h.cells[m] == g.cells[m] {
        assert R.CellValid(g, m);
      }
    }
    KindOfTree(g, x);
    KindOfTree(h, r);
    TreesKept(g, h, g.cells[x].args);
  }

  // ----- Rebuilt chains -----

  lemma NegationTrees(g: R.Graph, h: R.Graph, ids: seq<nat>, from: nat)
    requires R.Valid(g) && R.Valid(h) && OneAddressEach(g) && AllNamed(g, ids) && Keeps(g, h)
    requires forall i :: 0 <= i < |ids| ==> R.NegationAt(g, h, from + i, ids[i])
    requires forall i :: 0 <= i < |ids| ==> !R.TreeOf(g, ids[i]).Not? && !IsLiteral(R.TreeOf(g, ids[i]))
    ensures AllNamed(h, R.Upto(from, |ids|)) && Trees(h, R.Upto(from, |ids|)) == Negated(Trees(g, ids))
  {
    var added := R.Upto(from, |ids|);
    NegatedAt(Trees(g, ids));
    forall i | 0 <= i < |ids| ensures IsNamed(h, added[i]) && R.TreeOf(h, added[i]) == Negated(Trees(g, ids))[i] {
      assert R.NegationAt(g, h, from + i, ids[i]) && IsNamed(g, ids[i]);
      KindOfTree(h, from + i);
      TreeKept(g, h, ids[i]);
    }
  }

  /** The terms that are left of a chain, as addresses and as expressions. */
  lemma LeftTrees(g: R.Graph, same: Equality, p: nat, t: R.Ids, terms: Terms)
    requires Shared(same) && R.Valid(g) && OneAddressEach(g) && R.IsChain(g, p) && t == R.LeftTerms(g, p)
    requires AllNamed(g, g.cells[p].args)
    requires terms == Collect(same, g.cells[p].op, Trees(g, g.cells[p].args), Terms([], []))
    ensures TermsNamed(g, t) && Trees(g, t.plain) == Kept(terms.plain) && Trees(g, t.negated) == Kept(terms.negated)
    ensures forall i :: 0 <= i < |t.negated| ==> !R.TreeOf(g, t.negated[i]).Not? && !IsLiteral(R.TreeOf(g, t.negated[i]))
  {
    ChainTerms(g, same, p);
    KeptTrees(g, R.TermsOf(g, p).plain);
    KeptTrees(g, R.TermsOf(g, p).negated);
    CollectForm(same, g.cells[p].op, Trees(g, g.cells[p].args), Terms([], []));
    forall i | 0 <= i < |t.negated| ensures !R.TreeOf(g, t.negated[i]).Not? && !IsLiteral(R.TreeOf(g, t.negated[i])) {
      assert Trees(g, t.negated)[i] in Kept(terms.negated);
      KeptAt(terms.negated, Trees(g, t.negated)[i]);
    }
  }

  /** `h` has all of `g`, negations of `t.negated`, and in `r` a chain of them and of `t.plain`. */
  ghost predicate IsBuilt(g: R.Graph, h: R.Graph, op: NAryOp, t: R.Ids, r: nat) {
    && R.Valid(g) && R.Valid(h) && Keeps(g, h)
    && (forall i :: 0 <= i < |t.negated| ==> R.NegationAt(g, h, g.next + i, t.negated[i]))
    && r in h.cells && h.cells[r] == R.Chain(op, R.Upto(g.next, |t.negated|) + t.plain)
  }

  lemma BuiltTree(g: R.Graph, h: R.Graph, op: NAryOp, t: R.Ids, r: nat)
    requires IsBuilt(g, h, op, t, r) && OneAddressEach(g) && TermsNamed(g, t)
    requires forall i :: 0 <= i < |t.negated| ==> !R.TreeOf(g, t.negated[i]).Not? && !IsLiteral(R.TreeOf(g, t.negated[i]))
    ensures IsNamed(h, r) && R.TreeOf(h, r) == NAry(op, Negated(Trees(g, t.negated)) + Trees(g, t.plain))
  {
    NegationTrees(g, h, t.negated, g.next);
    TreesKept(g, h, t.plain);
    TreesConcat(h, R.Upto(g.next, |t.negated|), t.plain);
    KindOfTree(h, r);
  }

  lemma RebuiltTrees(g: R.Graph, h: R.Graph, same: Equality, p: nat, t: R.Ids, r: nat)
    requires Shared(same) && R.Valid(g) && OneAddressEach(g) && R.IsChain(g, p) && t == R.LeftTerms(g, p)
    requires IsBuilt(g, h, g.cells[p].op, t, r) && AllNamed(g, g.cells[p].args)
    requires var e := RemoveIdentical(same, g.cells[p].op, Trees(g, g.cells[p].args)); e.Some? && e.value.NAry?
    ensures IsNamed(h, r) && RemoveIdentical(same, g.cells[p].op, Trees(g, g.cells[p].args)) == Some(R.TreeOf(h, r))
  {
    var op := g.cells[p].op;
    LeftTrees(g, same, p, t, Collect(same, op, Trees(g, g.cells[p].args), Terms([], [])));
    BuiltTree(g, h, op, t, r);
  }

  lemma AddedIsBuilt(g: R.Graph, h: R.Graph, p: nat, t: R.Ids, r: nat)
    requires R.Valid(g) && R.Valid(h) && R.IsChain(g, p) && p in g.rank && p in g.origin && AllNamed(g, t.negated)
    requires h == R.AddRebuilt(g, g.cells[p].op, t, g.rank[p], g.origin[p]) && r == g.next + |t.negated|
    ensures IsBuilt(g, h, g.cells[p].op, t, r)
  {
    forall i | 0 <= i < |t.negated| ensures t.negated[i] < g.next {
      assert IsNamed(g, t.negated[i]) && R.CellValid(g, t.negated[i]);
    }
    R.AddRebuiltAt(g, g.cells[p].op, t, g.rank[p], g.origin[p]);
    forall m | m in g.cells ensures m in h.cells && h.cells[m] == g.cells[m] {
      assert R.CellValid(g, m) && R.SameCell(g, h, m);
    }
  }

  lemma DoRebuild(s: R.State, p: nat)
    requires R.Valid(s.g) && R.Enabled(s, R.Rebuild(p))
    ensures R.IsChain(s.g, p) && p in s.g.rank && p in s.g.origin
    ensures var t := R.LeftTerms(s.g, p);
      && R.Do(s, R.Rebuild(p)).g == R.AddRebuilt(s.g, s.g.cells[p].op, t, s.g.rank[p], s.g.origin[p])
      && R.Do(s, R.Rebuild(p)).subst == s.subst + {R.Substitution(p, s.g.next + |t.negated|)}
  {
    assert R.CellValid(s.g, p);
  }

  /** The chain that is built is the one that the simplifier on trees returns. */
  lemma RebuildStep(s: R.State, run: seq<R.Action>, same: Equality, p: nat) returns (r: nat)
    requires R.Start(s) && R.CanRun(s, run) && R.Enabled(R.After(s, run), R.Rebuild(p))
    requires Shared(same) && OneAddressEach(R.After(s, run).g)
    ensures var t := R.After(s, run);
      && R.IsChain(t.g, p) && AllNamed(t.g, t.g.cells[p].args)
      && R.Valid(R.Do(t, R.Rebuild(p)).g) && IsNamed(R.Do(t, R.Rebuild(p)).g, r)
      && R.Do(t, R.Rebuild(p)).subst == t.subst + {R.Substitution(p, r)}
      && RemoveIdentical(same, t.g.cells[p].op, Trees(t.g, t.g.cells[p].args)) == Some(R.TreeOf(R.Do(t, R.Rebuild(p)).g, r))
  {
    var t := R.After(s, run);
    StepValid(s, run, R.Rebuild(p));
    r := StateRebuilt(t, same, p);
  }

  lemma StateRebuilt(s: R.State, same: Equality, p: nat) returns (r: nat)
    requires R.Valid(s.g) && R.Enabled(s, R.Rebuild(p)) && R.Valid(R.Do(s, R.Rebuild(p)).g)
    requires Shared(same) && OneAddressEach(s.g)
    ensures R.IsChain(s.g, p) && AllNamed(s.g, s.g.cells[p].args) && IsNamed(R.Do(s, R.Rebuild(p)).g, r)
    ensures R.Do(s, R.Rebuild(p)).subst == s.subst + {R.Substitution(p, r)}
    ensures RemoveIdentical(same, s.g.cells[p].op, Trees(s.g, s.g.cells[p].args)) == Some(R.TreeOf(R.Do(s, R.Rebuild(p)).g, r))
  {
    DoRebuild(s, p);
    ChainExact(s, same, p);
    r := GraphRebuilt(s.g, R.Do(s, R.Rebuild(p)).g, same, p, R.LeftTerms(s.g, p));
  }

  lemma GraphRebuilt(g: R.Graph, h: R.Graph, same: Equality, p: nat, t: R.Ids) returns (r: nat)
    requires Shared(same) && R.Valid(g) && R.Valid(h) && OneAddressEach(g) && R.IsChain(g, p) && t == R.LeftTerms(g, p)
    requires AllNamed(g, g.cells[p].args) && p in g.rank && p in g.origin
    requires var e := RemoveIdentical(same, g.cells[p].op, Trees(g, g.cells[p].args)); e.Some? && e.value.NAry?
    requires h == R.AddRebuilt(g, g.cells[p].op, t, g.rank[p], g.origin[p])
    ensures r == g.next + |t.negated| && IsNamed(h, r)
    ensures RemoveIdentical(same, g.cells[p].op, Trees(g, g.cells[p].args)) == Some(R.TreeOf(h, r))
  {
    r := g.next + |t.negated|;
    LeftTrees(g, same, p, t, Collect(same, g.cells[p].op, Trees(g, g.cells[p].args), Terms([], [])));
    AddedIsBuilt(g, h, p, t, r);
    RebuiltTrees(g, h, same, p, t, r);
  }

  // ----- Dropping what is unused -----

  /** Somebody refers to the expression, or waits to. */
  ghost predicate IsUsed(s: R.State, n: nat) {
    || (exists u :: u in s.g.cells && n in R.Args(s.g.cells[u]))
    || exists pair :: pair in s.subst && pair.to == n
  }

  /** Every expression is used, but for the two literals. */
  ghost predicate AllUsed(s: R.State) {
    forall n :: IsNamed(s.g, n) && n > 1 ==> IsUsed(s, n)
  }

  predicate OnlyDrops(run: seq<R.Action>) {
    forall i :: 0 <= i < |run| ==> run[i].Drop?
  }

  lemma {:induction false} AfterConcat(s: R.State, run: seq<R.Action>, a: R.Action)
    requires R.CanRun(s, run) && R.CanRun(s, run + [a])
    ensures R.Enabled(R.After(s, run), a) && R.After(s, run + [a]) == R.Do(R.After(s, run), a)
    decreases |run|
  {
    if run == [] {
      assert (run + [a])[1..] == [];
    } else {
      assert (run + [a])[0] == run[0] && (run + [a])[1..] == run[1..] + [a];
      AfterConcat(R.Do(s, run[0]), run[1..], a);
    }
  }

  lemma DropLess(s: R.State, n: nat)
    requires R.Valid(s.g) && R.Enabled(s, R.Drop(n))
    ensures |R.Do(s, R.Drop(n)).g.cells| < |s.g.cells|
  {
    var less := R.Do(s, R.Drop(n)).g.cells;
    assert less.Keys == s.g.cells.Keys - {n};
    assert |less.Keys| < |s.g.cells.Keys|;
  }

  lemma UnusedDroppable(s: R.State) returns (n: nat)
    requires R.Valid(s.g) && !AllUsed(s)
    ensures R.Enabled(s, R.Drop(n))
  {
    n :| IsNamed(s.g, n) && n > 1 && !IsUsed(s, n);
  }

  lemma DropOne(s: R.State, run: seq<R.Action>, n: nat)
    requires R.Start(s) && R.CanRun(s, run) && R.Enabled(R.After(s, run), R.Drop(n))
    ensures R.CanRun(s, run + [R.Drop(n)])
    ensures |R.After(s, run + [R.Drop(n)]).g.cells| < |R.After(s, run).g.cells|
  {
    R.RunsGoOn(s, run, R.Drop(n));
    AfterConcat(s, run, R.Drop(n));
    DropLess(R.After(s, run), n);
  }

  ghost predicate Cleans(s: R.State, run: seq<R.Action>, drops: seq<R.Action>) {
    OnlyDrops(drops) && R.CanRun(s, run + drops) && AllUsed(R.After(s, run + drops))
  }

  lemma CleansFirst(s: R.State, run: seq<R.Action>, n: nat, more: seq<R.Action>)
    requires Cleans(s, run + [R.Drop(n)], more)
    ensures Cleans(s, run, [R.Drop(n)] + more)
  {
    assert run + ([R.Drop(n)] + more) == run + [R.Drop(n)] + more;
  }

  /** After every run the visitor can drop expressions until none is left that is not used. */
  lemma {:induction false} DropsUnused(s: R.State, run: seq<R.Action>) returns (drops: seq<R.Action>)
    requires R.Start(s) && R.CanRun(s, run)
    ensures Cleans(s, run, drops)
    decreases |R.After(s, run).g.cells|
  {
    if AllUsed(R.After(s, run)) {
      drops := [];
      assert run + [] == run;
    } else {
      var n := UnusedDroppable(R.After(s, run));
      DropOne(s, run, n);
      var more := DropsUnused(s, run + [R.Drop(n)]);
      CleansFirst(s, run, n, more);
      drops := [R.Drop(n)] + more;
    }
  }
}
