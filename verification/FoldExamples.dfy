/**
 FoldExamples: small regions folded: two edges over one condition, and a block reached from two sides.
 */
module FoldExamples {
  import opened Expressions
  import opened Statements
  import opened Regions
  import opened ReachingConditions
  import opened PathGuards
  import opened Structurizer
  import opened C = ConsecutiveCombiner
  import opened D = Disjunction
  import opened DisjunctionExact
  import opened DisjunctionForm

  // ----- A block reached twice -----

  /** A switch of which two cases lead to the same block over the same condition, and one elsewhere. */
  function TwoCases(c: Expr, d: Expr): Region {
    var twice := [Edge(0, 1, c), Edge(0, 1, c)];
    [Block([Effect(0)], [], twice + [Edge(0, 2, d)]), Block([Effect(1)], twice, [Edge(1, 2, True)]),
     Block([Effect(2)], [Edge(0, 2, d), Edge(1, 2, True)], [])]
  }

  lemma JoinedPair(t: seq<seq<Path>>, e: Edge, f: Edge)
    ensures Joined(t, [e, f]) == Contribution(t, e) + Contribution(t, f)
  {
    assert [e, f][..1] == [e] && [e][..0] == [];
    assert Joined(t, [e][..0]) == [] && Joined(t, [e]) == [] + Contribution(t, e);
  }

  /** Its conditions are there once for each edge, and before what follows. */
  lemma TwoCasesPaths(c: Expr, d: Expr)
    requires c != True && d != True
    ensures Paths(TwoCases(c, d), 0) == [] && Paths(TwoCases(c, d), 1) == [[c], [c]]
    ensures Paths(TwoCases(c, d), 2) == [[d], [c], [c]]
  {
    var r := TwoCases(c, d);
    assert Paths(r, 0) == Joined(Table(r, 0), []) == [];
    TableAt(r, 1, 0);
    TableAt(r, 2, 0);
    TableAt(r, 2, 1);
    JoinedPair(Table(r, 1), Edge(0, 1, c), Edge(0, 1, c));
    assert Paths(r, 1) == [[c]] + [[c]];
    JoinedPair(Table(r, 2), Edge(0, 2, d), Edge(1, 2, True));
  }

  // ----- A block reached from two sides -----

  lemma TwoPathsLengths(same: Equality, a: Expr, b: Expr)
    requires !same(a, b)
    ensures CommonPrefix(same, [[a], [b]]) == [] && CommonSuffix(same, [[a], [b]]) == []
  {
    var paths := [[a], [b]];
    assert !same(paths[0][0], paths[1][0]) && !same(paths[0][0], paths[1][0 - |paths[0]| + |paths[1]|]);
    assert !SameFront(same, paths[0], paths[1], 1) && !SameEnd(same, paths[0], paths[1], 1);
    assert Lengths(same, paths, 0, 0);
    CommonLengths(same, paths);
    LengthsUnique(same, paths, 0, 0, |CommonPrefix(same, paths)|, |CommonSuffix(same, paths)|);
  }

  lemma TwoPathsTerms(a: Expr, b: Expr)
    ensures NoOverlap([[a], [b]], 0, 0) && Terms([[a], [b]], 0, 0) == [And([a]), And([b])]
    ensures Reversed([And([a]), And([b])]) == [And([b]), And([a])]
  {
    var paths := [[a], [b]];
    assert paths[1..] == [[b]] && [[b]][1..] == [];
    assert Middle([a], 0, 0) == [a] && Middle([b], 0, 0) == [b];
    assert Terms([[b]], 0, 0) == [And([b])] + Terms([[b]][1..], 0, 0);
    assert [And([a])] + [And([b])] == [And([a]), And([b])];
  }

  lemma SingleConjunct(conj: Conjunction, e: Expr)
    requires conj != [] && multiset(conj) <= multiset([e])
    ensures conj == [e]
  {
    assert multiset([e]) == multiset(conj) + (multiset([e]) - multiset(conj));
    assert |conj| == 1 && conj[0] in multiset(conj);
  }

  lemma TwoApart(terms: seq<Expr>, a: Expr, b: Expr)
    requires a != b && |terms| == 2 && SplitConjunction(terms[0]) == [b] && SplitConjunction(terms[1]) == [a]
    ensures Splittable(terms) && SharesNothing(terms) && forall i :: 0 <= i < |terms| ==> Once(SplitConjunction(terms[i]))
  {
    forall i | 0 <= i < |terms| ensures SplitConjunction(terms[i]) == if i == 0 then [b] else [a] {
    }
  }

  lemma TwoAbsorbed(terms: seq<Expr>, conjs: seq<Conjunction>, a: Expr, b: Expr)
    requires |terms| == 2 && SplitConjunction(terms[0]) == [b] && SplitConjunction(terms[1]) == [a] && IsAbsorbed(terms, conjs)
    ensures conjs == [[b], [a]] && !SharesConjunct(conjs)
  {
    SingleConjunct(conjs[0], b);
    SingleConjunct(conjs[1], a);
  }

  lemma TwoDisjuncts(order: Order, terms: seq<Expr>, a: Expr, b: Expr)
    requires Enumerates(order) && a != b
    requires |terms| == 2 && SplitConjunction(terms[0]) == [b] && SplitConjunction(terms[1]) == [a]
    ensures Create(true, order, terms) == Some(Or([b, a]))
  {
    TwoApart(terms, a, b);
    SharesNothingSuffices(order, terms);
    var conjs := CreateForm(order, terms);
    assert |SplitConjunction(terms[0])| == 1 && IsAbsorbed(terms, conjs);
    TwoAbsorbed(terms, conjs, a, b);
    TwoJoined(a, b);
  }

  lemma TwoJoined(a: Expr, b: Expr)
    ensures NaryOrSingle(ShortCircuitOr, Conjoined([[b], [a]])) == Or([b, a])
  {
    assert Conjoined([[b], [a]]) == [b, a];
  }

  /** The disjuncts are the middles of the paths, the last path's first. */
  lemma TwoPathsGuard(order: Order, same: Equality, a: Expr, b: Expr, body: seq<Stmt>)
    requires Enumerates(order) && a.Leaf? && b.Leaf? && a != b && !same(a, b)
    ensures Guard(true, order, same, [[a], [b]], body) == Some([IfElse(Or([b, a]), body, [])])
  {
    TwoPathsLengths(same, a, b);
    TwoPathsTerms(a, b);
    TwoDisjuncts(order, [And([b]), And([a])], a, b);
    var none: Path := [];
    assert none + none == none && Nest(none, [IfElse(Or([b, a]), body, [])]) == [IfElse(Or([b, a]), body, [])];
  }
}
