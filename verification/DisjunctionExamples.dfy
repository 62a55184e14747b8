/**
 DisjunctionExamples: terms for which createDisjunction factors, terms for which an assertion of it fails, and terms for
 which it gives, as written, an expression with another value.
 */
module DisjunctionExamples {
  import opened Expressions
  import opened Disjunction
  import opened DisjunctionExact
  import opened DisjunctionAsWritten

  function Variable(id: nat): Expr { Leaf(id, true, false) }

  /** Conditions that are told apart, and are not negations. */
  ghost predicate FourVariables(a: Expr, b: Expr, c: Expr, d: Expr) {
    a.Leaf? && b.Leaf? && c.Leaf? && d.Leaf? && a != b && a != c && a != d && b != c && b != d && c != d
  }

  lemma SplitOne(t: Expr)
    requires !IsConjunction(t)
    ensures Splittable([t]) && Split([t]) == Work([[t]], [0], [])
  {
    assert [t][..0] == [];
  }

  lemma SplitMore(terms: seq<Expr>, es: Conjunction, w: Work)
    requires Splittable(terms) && Split(terms) == w && |es| > 1
    ensures Splittable(terms + [And(es)])
    ensures Split(terms + [And(es)]) == Work(w.conjs + [es], w.sizeOne, w.larger + [|w.conjs|])
  {
    var more := terms + [And(es)];
    assert more[..|terms|] == terms;
  }

  /** One single conjunct, and two larger conjunctions. */
  lemma SplitThree(t: Expr, es: Conjunction, fs: Conjunction)
    requires !IsConjunction(t) && |es| > 1 && |fs| > 1
    ensures var terms := [t, And(es), And(fs)];
      Splittable(terms) && Split(terms) == Work([[t], es, fs], [0], [1, 2]) && Sane(Split(terms))
  {
    SplitOne(t);
    SplitMore([t], es, Split([t]));
    SplitMore([t] + [And(es)], fs, Split([t] + [And(es)]));
    assert [t] + [And(es)] + [And(fs)] == [t, And(es), And(fs)];
    assert [[t]] + [es] + [fs] == [[t], es, fs];
    var none: seq<nat> := [];
    assert none + [1] + [2] == [1, 2];
    SplitSane([t, And(es), And(fs)]);
  }

  /** The last entry on the single-conjunct list reduces the larger conjunctions, and none of them to one conjunct. */
  lemma AbsorbLast(captured: bool, w: Work, conjs: seq<Conjunction>)
    requires Sane(w) && |w.sizeOne| == 1 && |conjs| == |w.conjs|
    requires NoneShrinks(Popped(w).0, Popped(w).1)
    requires forall i :: 0 <= i < |conjs| ==> conjs[i] == if i in w.larger then Reduced(w.conjs[i], Popped(w).1) else w.conjs[i]
    ensures Absorb(captured, w) == Some(Work(conjs, [], w.larger))
  {
    var (popped, unit) := Popped(w);
    QuietTurn(captured, popped, unit);
    PassSane(captured, popped, unit);
    assert ReduceAll(popped.conjs, popped.larger, unit) == conjs;
  }

  /** The same for two larger conjunctions. */
  lemma AbsorbInTwo(t: Expr, es: Conjunction, fs: Conjunction, es': Conjunction, fs': Conjunction)
    requires |es| > 1 && |fs| > 1 && Reduced(es, t) == es' && Reduced(fs, t) == fs' && |es'| > 1 && |fs'| > 1
    ensures var w := Work([[t], es, fs], [0], [1, 2]);
      Sane(w) && Absorb(true, w) == Some(Work([[t], es', fs'], [], [1, 2])) && Sane(Absorb(true, w).value)
  {
    var w := Work([[t], es, fs], [0], [1, 2]);
    AbsorbLast(true, w, [[t], es', fs']);
  }

  lemma NoOpposites(unit: Expr, conj: Conjunction)
    requires !unit.Not? && forall i :: 0 <= i < |conj| ==> conj[i] != Not(unit)
    ensures Reduced(conj, unit) == conj
  {
  }

  lemma FirstOpposite(unit: Expr, conj: Conjunction)
    requires !unit.Not? && conj != [] && conj[0] == Not(unit)
    ensures Reduced(conj, unit) == conj[1..]
  {
    assert FindOpposite(unit, conj) == Some(0);
  }

  lemma CountedTwo(conjs: seq<Conjunction>, i: nat, j: nat)
    requires i < |conjs| && j < |conjs|
    ensures Counted(conjs, [i, j]) == conjs[i] + conjs[j]
  {
    assert [i, j][..1] == [i] && [i][..0] == [];
    assert Counted(conjs, [i]) == [] + conjs[i];
  }

  // ----- Factoring -----

  lemma OnlyElement(es: seq<Expr>, a: Expr)
    requires Distinct(es) && forall e :: e in es <==> e == a
    ensures es == [a]
  {
    assert a in es;
    assert es[0] in es;
    var rest := es[1..];
    assert forall j :: 0 <= j < |rest| ==> rest[j] != es[0];
    assert forall x :: x in rest ==> x in es;
    NoElements(rest);
  }

  lemma SingleCommon(order: Order, conjs: seq<Conjunction>, a: Expr, b: Expr, c: Expr)
    requires Enumerates(order) && |conjs| == 3 && conjs[1] == [a, b] && conjs[2] == [a, c] && a != b && a != c && b != c
    ensures Commons(order, conjs, [1, 2]) == [a]
  {
    CountedTwo(conjs, 1, 2);
    CommonsExact(order, conjs, [1, 2]);
    var counted := [a, b] + [a, c];
    assert forall e :: multiset(counted)[e] == 2 <==> e == a;
    OnlyElement(Commons(order, conjs, [1, 2]), a);
  }

  lemma RestOfTwo(a: Expr, b: Expr)
    requires a != b
    ensures Rest([a, b], [a]) == Some(b)
  {
    var one: seq<Expr> := [a];
    assert multiset([a, b])[a] == 1;
    assert IndexOf([a, b], a) == 0 && RemoveAt([a, b], 0) == [b] && one[1..] == [];
    assert TakeOut([b], one[1..]) == Some([b]);
  }

  lemma RestsOfTwo(conjs: seq<Conjunction>, a: Expr, b: Expr, c: Expr)
    requires |conjs| == 3 && conjs[1] == [a, b] && conjs[2] == [a, c] && a != b && a != c
    ensures Rests(conjs, [1, 2], [a]) == Some([b, c])
  {
    RestOfTwo(a, b);
    RestOfTwo(a, c);
    var both, first: seq<nat> := [1, 2], [1];
    assert both[..1] == first && first[..0] == [] && both[1] == 2 && first[0] == 1;
    var none: seq<Expr> := [];
    assert Rests(conjs, first[..0], [a]) == Some(none);
    assert none + [b] == [b] && [b] + [c] == [b, c];
    assert Rests(conjs, first, [a]) == Some([b]);
  }

  lemma SplitTwo(b: Expr, c: Expr)
    requires b.Leaf? && c.Leaf?
    ensures Splittable([b, c]) && Split([b, c]) == Work([[b], [c]], [0, 1], []) && Sane(Split([b, c]))
  {
    SplitOne(b);
    assert [b, c][..1] == [b];
    SplitSane([b, c]);
  }

  lemma JoinedTwo(b: Expr, c: Expr)
    ensures Join([], [[b], [c]]) == Or([b, c])
  {
    assert [] + Conjoined([[b], [c]]) == [b, c];
  }

  /** Two single conjuncts are joined as they are. */
  lemma CreateTwo(order: Order, b: Expr, c: Expr)
    requires b.Leaf? && c.Leaf?
    ensures Create(true, order, [b, c]) == Some(Or([b, c]))
  {
    SplitTwo(b, c);
    var w := Work([[b], [c]], [0, 1], []);
    NothingLarger(w);
    CreateWithoutFactors(true, order, [b, c], w, Work(w.conjs, [], []));
    JoinedTwo(b, c);
  }

  lemma {:induction false} NothingLarger(w: Work)
    requires Sane(w) && w.larger == []
    ensures Absorb(true, w) == Some(Work(w.conjs, [], []))
    decreases |w.sizeOne|
  {
    if w.sizeOne != [] {
      var (popped, unit) := Popped(w);
      QuietTurn(true, popped, unit);
      assert ReduceAll(w.conjs, [], unit) == w.conjs;
      NothingLarger(popped);
    }
  }

  lemma FactoredOnce(order: Order, w: Work, a: Expr, inner: Expr, d: Expr)
    requires Sane(w) && |w.conjs| == 3 && w.larger == [1, 2] && w.conjs[0] == [d] && Commons(order, w.conjs, w.larger) == [a]
    ensures Factors(order, w) && Factored(order, w, inner) == Or([And([a, inner]), d])
  {
    var both, first: seq<nat> := [1, 2], [1];
    var two := RemoveAt(w.conjs, 2);
    assert both[..1] == first && first[..0] == [];
    assert EraseIndices(w.conjs, both) == EraseIndices(two, first) == RemoveAt(two, 1) == [[d]];
    assert Conjoined([[d]]) == [d];
    assert [a] + [inner] == [a, inner];
    assert [And([a, inner])] + [d] == [And([a, inner]), d];
  }

  /** `d || (a && b) || (a && c)` becomes `(a && (b || c)) || d`. */
  lemma FactorsShared(order: Order, a: Expr, b: Expr, c: Expr, d: Expr)
    requires Enumerates(order) && FourVariables(a, b, c, d)
    ensures Create(true, order, [d, And([a, b]), And([a, c])]) == Some(Or([And([a, Or([b, c])]), d]))
  {
    SplitThree(d, [a, b], [a, c]);
    NoOpposites(d, [a, b]);
    NoOpposites(d, [a, c]);
    AbsorbInTwo(d, [a, b], [a, c], [a, b], [a, c]);
    var start, w := Work([[d], [a, b], [a, c]], [0], [1, 2]), Work([[d], [a, b], [a, c]], [], [1, 2]);
    SingleCommon(order, w.conjs, a, b, c);
    RestsOfTwo(w.conjs, a, b, c);
    CreateTwo(order, b, c);
    FactoredOnce(order, w, a, Or([b, c]), d);
    CreateWithFactors(true, order, [d, And([a, b]), And([a, c])], start, w, Some([b, c]));
  }

  // ----- A failing assertion -----

  lemma TwoCommons(order: Order, conjs: seq<Conjunction>, b: Expr, c: Expr, d: Expr)
    requires Enumerates(order) && |conjs| == 3 && conjs[1] == [b, c] && conjs[2] == [b, c, d] && b != c && b != d && c != d
    ensures Distinct(Commons(order, conjs, [1, 2])) && |Commons(order, conjs, [1, 2])| > 1
  {
    CountedTwo(conjs, 1, 2);
    CommonsExact(order, conjs, [1, 2]);
    var counted := [b, c] + [b, c, d];
    assert multiset(counted)[b] == 2 && multiset(counted)[c] == 2;
    var commons := Commons(order, conjs, [1, 2]);
    assert b in commons && c in commons;
    var i :| 0 <= i < |commons| && commons[i] == b;
    var j :| 0 <= j < |commons| && commons[j] == c;
  }

  lemma NoRest(order: Order, conjs: seq<Conjunction>, b: Expr, c: Expr, d: Expr)
    requires Enumerates(order) && |conjs| == 3 && conjs[1] == [b, c] && conjs[2] == [b, c, d] && b != c && b != d && c != d
    ensures Commons(order, conjs, [1, 2]) != [] && Rests(conjs, [1, 2], Commons(order, conjs, [1, 2])).None?
  {
    var larger: seq<nat> := [1, 2];
    TwoCommons(order, conjs, b, c, d);
    RestsExact(conjs, larger, Commons(order, conjs, larger));
    assert larger[0] == 1 && !Divisible(conjs[1], Commons(order, conjs, larger));
  }

  lemma ConsumedAbsorbed(a: Expr, b: Expr, c: Expr, d: Expr)
    requires FourVariables(a, b, c, d)
    ensures var w := Work([[a], [Not(a), b, c], [b, c, d]], [0], [1, 2]);
      Sane(w) && Absorb(true, w) == Some(Work([[a], [b, c], [b, c, d]], [], [1, 2])) && Sane(Absorb(true, w).value)
  {
    FirstOpposite(a, [Not(a), b, c]);
    NoOpposites(a, [b, c, d]);
    assert [Not(a), b, c][1..] == [b, c];
    AbsorbInTwo(a, [Not(a), b, c], [b, c, d], [b, c], [b, c, d]);
  }

  /** Of `a || (!a && b && c) || (b && c && d)` the common conjuncts take all of the second term, and an assertion fails. */
  lemma ConsumedFails(order: Order, a: Expr, b: Expr, c: Expr, d: Expr)
    requires Enumerates(order) && FourVariables(a, b, c, d)
    ensures Create(true, order, [a, And([Not(a), b, c]), And([b, c, d])]).None?
  {
    SplitThree(a, [Not(a), b, c], [b, c, d]);
    ConsumedAbsorbed(a, b, c, d);
    var start, w := Work([[a], [Not(a), b, c], [b, c, d]], [0], [1, 2]), Work([[a], [b, c], [b, c, d]], [], [1, 2]);
    NoRest(order, w.conjs, b, c, d);
    CreateWithFactors(true, order, [a, And([Not(a), b, c]), And([b, c, d])], start, w, None);
  }

  // ----- Another value -----

  /** `a || (!a && b) || (c && d) || (!c && e && f)` */
  function FourTerms(a: Expr, b: Expr, c: Expr, d: Expr, e: Expr, f: Expr): seq<Expr> {
    [a, And([Not(a), b]), And([c, d]), And([Not(c), e, f])]
  }

  ghost predicate SixVariables(a: Expr, b: Expr, c: Expr, d: Expr, e: Expr, f: Expr) {
    && a.Leaf? && b.Leaf? && c.Leaf? && d.Leaf? && e.Leaf? && f.Leaf?
    && a != c && c != d && c != e && c != f && d != e && d != f && e != f
  }

  lemma FourTermsSplit(a: Expr, b: Expr, c: Expr, d: Expr, e: Expr, f: Expr)
    requires a.Leaf?
    ensures var terms := FourTerms(a, b, c, d, e, f);
      && Splittable(terms) && Split(terms) == Work([[a], [Not(a), b], [c, d], [Not(c), e, f]], [0], [1, 2, 3])
      && Sane(Split(terms))
  {
    var three := [a, And([Not(a), b]), And([c, d])];
    SplitThree(a, [Not(a), b], [c, d]);
    SplitMore(three, [Not(c), e, f], Split(three));
    assert three + [And([Not(c), e, f])] == FourTerms(a, b, c, d, e, f);
    assert [[a], [Not(a), b], [c, d]] + [[Not(c), e, f]] == [[a], [Not(a), b], [c, d], [Not(c), e, f]];
    SplitSane(FourTerms(a, b, c, d, e, f));
  }

  /** The entry after the erased one is pushed. */
  lemma PushedFollowing(conjs: seq<Conjunction>)
    requires |conjs| == 4 && |conjs[1]| == 1 && |conjs[2]| > 1 && |conjs[3]| > 1
    ensures Pushed(false, conjs, [1, 2, 3]) == Some([2]) && StillLarger(conjs, [1, 2, 3]) == [2, 3]
  {
    var larger, two: seq<nat> := [1, 2, 3], [2, 3];
    assert larger[1..] == two;
    NothingPushed(false, conjs, two);
    assert [2] + [] == [2];
  }

  lemma FirstReduced(conjs: seq<Conjunction>, a: Expr, b: Expr, third: Conjunction, fourth: Conjunction)
    requires conjs == [[a], [Not(a), b], third, fourth] && a.Leaf?
    requires Reduced(third, a) == third && Reduced(fourth, a) == fourth
    ensures ReduceAll(conjs, [1, 2, 3], a) == [[a], [b], third, fourth]
  {
    var larger: seq<nat> := [1, 2, 3];
    FirstOpposite(a, conjs[1]);
    assert conjs[1][1..] == [b];
    assert larger[0] == 1 && larger[1] == 2 && larger[2] == 3;
  }

  lemma FirstTurn(conjs: seq<Conjunction>, a: Expr, b: Expr, third: Conjunction, fourth: Conjunction)
    requires conjs == [[a], [Not(a), b], third, fourth] && a.Leaf? && |third| > 1 && |fourth| > 1
    requires Reduced(third, a) == third && Reduced(fourth, a) == fourth
    ensures Pass(false, Work(conjs, [], [1, 2, 3]), a) == Some(Work([[a], [b], third, fourth], [2], [2, 3]))
  {
    FirstReduced(conjs, a, b, third, fourth);
    var reduced := ReduceAll(conjs, [1, 2, 3], a);
    PushedFollowing(reduced);
    PushedPass(Work(conjs, [], [1, 2, 3]), a, reduced);
  }

  lemma PushedPass(w: Work, unit: Expr, reduced: seq<Conjunction>)
    requires w.sizeOne == [] && ReduceAll(w.conjs, w.larger, unit) == reduced
    requires Pushed(false, reduced, w.larger) == Some([2]) && StillLarger(reduced, w.larger) == [2, 3]
    ensures Pass(false, w, unit) == Some(Work(reduced, [2], [2, 3]))
  {
    assert w.sizeOne + [2] == [2];
  }

  lemma SecondTurn(a: Expr, b: Expr, third: Conjunction, fourth: Conjunction, rest: Conjunction)
    requires third != [] && |third| > 1 && Reduced(third, third[0]) == third
    requires |fourth| > 1 && Reduced(fourth, third[0]) == rest && |rest| > 1
    ensures var w := Work([[a], [b], third, fourth], [2], [2, 3]);
      Sane(w) && Absorb(false, w) == Some(Work([[a], [b], third, rest], [], [2, 3]))
  {
    var w := Work([[a], [b], third, fourth], [2], [2, 3]);
    assert w.larger[0] == 2 && w.larger[1] == 3;
    AbsorbLast(false, w, [[a], [b], third, rest]);
  }

  lemma NoCommons(order: Order, conjs: seq<Conjunction>, c: Expr, d: Expr, e: Expr, f: Expr)
    requires Enumerates(order) && |conjs| == 4 && conjs[2] == [c, d] && conjs[3] == [e, f]
    requires c != d && c != e && c != f && d != e && d != f && e != f
    ensures Commons(order, conjs, [2, 3]) == []
  {
    CountedTwo(conjs, 2, 3);
    CommonsExact(order, conjs, [2, 3]);
    var commons := Commons(order, conjs, [2, 3]);
    assert forall x :: multiset([c, d] + [e, f])[x] <= 1;
    NoElements(commons);
  }

  lemma NoElements(es: seq<Expr>)
    requires forall x :: x !in es
    ensures es == []
  {
    forall x ensures multiset(es)[x] == 0 {
      assert x in multiset(es) <==> x in es;
    }
    assert multiset(es) == multiset{};
  }

  lemma FourTermsFirst(a: Expr, b: Expr, c: Expr, d: Expr, e: Expr, f: Expr)
    requires SixVariables(a, b, c, d, e, f)
    ensures Pass(false, Work([[a], [Not(a), b], [c, d], [Not(c), e, f]], [], [1, 2, 3]), a)
         == Some(Work([[a], [b], [c, d], [Not(c), e, f]], [2], [2, 3]))
  {
    NoOpposites(a, [c, d]);
    NoOpposites(a, [Not(c), e, f]);
    FirstTurn([[a], [Not(a), b], [c, d], [Not(c), e, f]], a, b, [c, d], [Not(c), e, f]);
  }

  lemma FourTermsSecond(a: Expr, b: Expr, c: Expr, d: Expr, e: Expr, f: Expr)
    requires SixVariables(a, b, c, d, e, f)
    ensures var w := Work([[a], [b], [c, d], [Not(c), e, f]], [2], [2, 3]);
      Sane(w) && Absorb(false, w) == Some(Work([[a], [b], [c, d], [e, f]], [], [2, 3]))
  {
    NoOpposites(c, [c, d]);
    FirstOpposite(c, [Not(c), e, f]);
    assert [Not(c), e, f][1..] == [e, f];
    SecondTurn(a, b, [c, d], [Not(c), e, f], [e, f]);
  }

  lemma FourTermsAbsorbed(a: Expr, b: Expr, c: Expr, d: Expr, e: Expr, f: Expr)
    requires SixVariables(a, b, c, d, e, f)
    ensures var w := Work([[a], [Not(a), b], [c, d], [Not(c), e, f]], [0], [1, 2, 3]);
      Sane(w) && Absorb(false, w) == Some(Work([[a], [b], [c, d], [e, f]], [], [2, 3]))
  {
    FourTermsSplit(a, b, c, d, e, f);
    FourTermsFirst(a, b, c, d, e, f);
    FourTermsSecond(a, b, c, d, e, f);
    AbsorbNext(Work([[a], [Not(a), b], [c, d], [Not(c), e, f]], [0], [1, 2, 3]), a,
               Work([[a], [b], [c, d], [Not(c), e, f]], [2], [2, 3]));
  }

  lemma AbsorbNext(w: Work, unit: Expr, next: Work)
    requires Sane(w) && |w.sizeOne| == 1 && Popped(w).1 == unit
    requires Pass(false, Work(w.conjs, [], w.larger), unit) == Some(next)
    ensures Sane(next) && Absorb(false, w) == Absorb(false, next)
  {
    PassSane(false, Popped(w).0, unit);
  }

  lemma JoinedFour(a: Expr, b: Expr, c: Expr, d: Expr, e: Expr, f: Expr)
    ensures Join([], [[a], [b], [c, d], [e, f]]) == Or([a, b, And([c, d]), And([e, f])])
  {
    assert [] + Conjoined([[a], [b], [c, d], [e, f]]) == [a, b, And([c, d]), And([e, f])];
  }

  /** As written, `!c` is lost: the result is `a || b || (c && d) || (e && f)`. */
  lemma AsWrittenLosesConjunct(order: Order, terms: seq<Expr>, a: Expr, b: Expr, c: Expr, d: Expr, e: Expr, f: Expr)
    requires Enumerates(order) && SixVariables(a, b, c, d, e, f) && terms == FourTerms(a, b, c, d, e, f)
    ensures Create(false, order, terms) == Some(Or([a, b, And([c, d]), And([e, f])]))
  {
    FourTermsSplit(a, b, c, d, e, f);
    FourTermsAbsorbed(a, b, c, d, e, f);
    var start := Work([[a], [Not(a), b], [c, d], [Not(c), e, f]], [0], [1, 2, 3]);
    var w := Work([[a], [b], [c, d], [e, f]], [], [2, 3]);
    NoCommons(order, w.conjs, c, d, e, f);
    CreateWithoutFactors(false, order, terms, start, w);
    JoinedFour(a, b, c, d, e, f);
  }

  lemma ValuesDiffer(a: Expr, b: Expr, c: Expr, d: Expr, e: Expr, f: Expr, v: Valuation)
    requires !Holds(a, v) && !Holds(b, v) && Holds(c, v) && !Holds(d, v) && Holds(e, v) && Holds(f, v)
    ensures Holds(Or([a, b, And([c, d]), And([e, f])]), v) && !AnyHolds(FourTerms(a, b, c, d, e, f), v)
  {
    AndPairHolds(Not(a), b, v);
    AndPairHolds(c, d, v);
    AndPairHolds(e, f, v);
    var last := [Not(c), e, f];
    AndOrHold(last, v);
    assert !Holds(last[0], v);
    var result := [a, b, And([c, d]), And([e, f])];
    AndOrHold(result, v);
    assert Holds(result[3], v);
  }

  /** That is not equivalent to the disjunction of the terms: where just c, e and f hold, none of the terms does. */
  lemma AsWrittenDiffers(order: Order) returns (terms: seq<Expr>, v: Valuation)
    requires Enumerates(order)
    ensures Create(false, order, terms).Some? && Holds(Create(false, order, terms).value, v) && !AnyHolds(terms, v)
  {
    v := Valuation(id => if id in {2, 4, 5} then 1 else 0, (_, _) => 0);
    var a, b, c, d, e, f := Variable(0), Variable(1), Variable(2), Variable(3), Variable(4), Variable(5);
    terms := FourTerms(a, b, c, d, e, f);
    ValuesDiffer(a, b, c, d, e, f, v);
    AsWrittenLosesConjunct(order, terms, a, b, c, d, e, f);
  }
}
