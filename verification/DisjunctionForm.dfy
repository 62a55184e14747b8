/**
 DisjunctionForm: what the expression that createDisjunction returns looks like. Conjuncts that a disjunct decides are
 gone, and conjuncts that all larger conjunctions share are factored out of each of them.
 */
module DisjunctionForm {
  import opened Expressions
  import opened Disjunction
  import opened DisjunctionExact
  import opened DisjunctionExamples

  // ----- Conjuncts that a disjunct decides -----

  /** The conjunct that says nothing in a conjunction beside a disjunct `u`. */
  function Opposite(u: Expr): Expr {
    match u
    case Not(x) => x
    case _ => Not(u)
  }

  lemma OppositesExact(a: Expr, b: Expr)
    ensures AreOpposites(a, b) <==> b == Opposite(a)
  {
  }

  ghost predicate Once(es: Conjunction) {
    forall e :: multiset(es)[e] <= 1
  }

  lemma RemovedCount(es: Conjunction, k: nat)
    requires k < |es|
    ensures multiset(es) == multiset(RemoveAt(es, k)) + multiset{es[k]}
  {
    assert es == es[..k] + [es[k]] + es[k + 1..];
  }

  lemma InCount(es: Conjunction, e: Expr)
    ensures e in es <==> multiset(es)[e] > 0
  {
    assert e in es <==> e in multiset(es);
  }

  /** Exactly the opposite of the disjunct goes. */
  lemma ReducedExact(conj: Conjunction, u: Expr)
    requires Once(conj)
    ensures Once(Reduced(conj, u))
    ensures forall e :: e in Reduced(conj, u) <==> e in conj && e != Opposite(u)
  {
    forall e ensures AreOpposites(u, e) <==> e == Opposite(u) {
      OppositesExact(u, e);
    }
    var found := FindOpposite(u, conj);
    if found.Some? {
      RemovedOnly(conj, found.value);
    }
  }

  lemma RemovedOnly(conj: Conjunction, k: nat)
    requires Once(conj) && k < |conj|
    ensures Once(RemoveAt(conj, k)) && forall e :: e in RemoveAt(conj, k) <==> e in conj && e != conj[k]
  {
    RemovedCount(conj, k);
    forall e ensures multiset(RemoveAt(conj, k))[e] == multiset(conj)[e] - multiset{conj[k]}[e] {
    }
    forall e ensures e in RemoveAt(conj, k) <==> e in conj && e != conj[k] {
      InCount(conj, e);
      InCount(RemoveAt(conj, k), e);
    }
  }

  /** The opposite of `u` is in no larger conjunction. */
  ghost predicate Free(conjs: seq<Conjunction>, u: Expr) {
    forall i :: 0 <= i < |conjs| && |conjs[i]| > 1 ==> Opposite(u) !in conjs[i]
  }

  /** Every single-conjunct disjunct is still to be used or has been, but for `unit`, which is being used. */
  ghost predicate Used(w: Work, unit: Option<Expr>) {
    && (forall i :: 0 <= i < |w.conjs| ==> Once(w.conjs[i]))
    && (forall i :: 0 <= i < |w.conjs| && |w.conjs[i]| > 1 ==> i in w.larger)
    && (forall k :: 0 <= k < |w.conjs| && |w.conjs[k]| == 1 ==>
          k in w.sizeOne || unit == Some(w.conjs[k][0]) || Free(w.conjs, w.conjs[k][0]))
  }

  lemma PassUses(w: Work, unit: Expr)
    requires ValidWork(w) && Used(w, Some(unit))
    ensures Used(Pass(true, w, unit).value, None)
  {
    var w' := Pass(true, w, unit).value;
    forall i | 0 <= i < |w.conjs|
      ensures Once(w'.conjs[i]) && (forall e :: e in w'.conjs[i] ==> e in w.conjs[i])
      ensures |w'.conjs[i]| > 1 ==> Opposite(unit) !in w'.conjs[i]
    {
      ReducedExact(w.conjs[i], unit);
    }
    assert Free(w'.conjs, unit);
    forall k | 0 <= k < |w'.conjs| && |w'.conjs[k]| == 1 ensures k in w'.sizeOne || Free(w'.conjs, w'.conjs[k][0]) {
      if k !in w.larger {
        assert w'.conjs[k] == w.conjs[k];
        KeptFree(w.conjs, w'.conjs, w.conjs[k][0]);
      }
    }
  }

  lemma KeptFree(conjs: seq<Conjunction>, conjs': seq<Conjunction>, u: Expr)
    requires |conjs| == |conjs'|
    requires forall i :: 0 <= i < |conjs| ==> |conjs'[i]| <= |conjs[i]| && forall e :: e in conjs'[i] ==> e in conjs[i]
    ensures Free(conjs, u) ==> Free(conjs', u)
  {
  }

  lemma {:induction false} AbsorbUses(w: Work)
    requires Sane(w) && ValidWork(w) && Used(w, None)
    ensures Used(Absorb(true, w).value, None) && Absorb(true, w).value.sizeOne == []
    decreases 2 * |w.larger| + |w.sizeOne|
  {
    if w.sizeOne != [] {
      AbsorbStep(w);
      var (popped, unit) := Popped(w);
      PoppedUses(w);
      PassUses(popped, unit);
      AbsorbUses(Pass(true, popped, unit).value);
    }
  }

  lemma PoppedUses(w: Work)
    requires Sane(w) && ValidWork(w) && w.sizeOne != [] && Used(w, None)
    ensures Used(Popped(w).0, Some(Popped(w).1))
  {
    var n := |w.sizeOne| - 1;
    forall k | k in w.sizeOne ensures k in w.sizeOne[..n] || k == w.sizeOne[n] {
    }
  }

  // ----- Shared conjuncts -----

  ghost predicate InAll(conjs: seq<Conjunction>, indices: seq<nat>, e: Expr)
    requires InRange(indices, |conjs|)
  {
    forall k :: 0 <= k < |indices| ==> e in conjs[indices[k]]
  }

  /** Among conjunctions without repeated conjuncts exactly those in all of them are common. */
  lemma SharedExact(order: Order, conjs: seq<Conjunction>, indices: seq<nat>)
    requires Enumerates(order) && InRange(indices, |conjs|) && indices != []
    requires forall k :: 0 <= k < |indices| ==> Once(conjs[indices[k]])
    ensures forall e :: e in Commons(order, conjs, indices) <==> InAll(conjs, indices, e)
  {
    CommonsExact(order, conjs, indices);
    forall e
      ensures e in Commons(order, conjs, indices) <==> InAll(conjs, indices, e)
    {
      CountedOnce(conjs, indices, e);
      forall k | 0 <= k < |indices| ensures multiset(conjs[indices[k]])[e] == 1 <==> e in conjs[indices[k]] {
        InCount(conjs[indices[k]], e);
      }
    }
  }

  /** There is something to factor exactly if two larger conjunctions or more are left, and all share a conjunct. */
  lemma FactorsExact(order: Order, w: Work)
    requires Enumerates(order) && Sane(w) && forall i :: 0 <= i < |w.conjs| ==> Once(w.conjs[i])
    ensures Factors(order, w) <==> |w.larger| >= 2 && exists e :: InAll(w.conjs, w.larger, e)
  {
    if |w.larger| >= 2 {
      SharedExact(order, w.conjs, w.larger);
      var commons := Commons(order, w.conjs, w.larger);
      if commons != [] {
        assert commons[0] in commons && InAll(w.conjs, w.larger, commons[0]);
      }
      if e :| InAll(w.conjs, w.larger, e) {
        assert e in commons;
      }
    }
  }

  /** What is left of a conjunction is what is not common, each conjunct as often as before. */
  lemma {:induction false} TakeOutLeaves(es: Conjunction, commons: seq<Expr>, e: Expr)
    requires TakeOut(es, commons).Some?
    ensures multiset(TakeOut(es, commons).value)[e] == if e in commons then 0 else multiset(es)[e]
    decreases |commons|
  {
    if commons != [] {
      var k := IndexOf(es, commons[0]);
      RemovedCount(es, k);
      TakeOutLeaves(RemoveAt(es, k), commons[1..], e);
    }
  }

  // ----- The whole expression -----

  /** The conjunctions of one conjunct, in their order. */
  function Singles(conjs: seq<Conjunction>): seq<Conjunction> {
    if conjs == [] then [] else (if |conjs[0]| == 1 then [conjs[0]] else []) + Singles(conjs[1..])
  }

  lemma {:induction false} SinglesConcat(a: seq<Conjunction>, b: seq<Conjunction>)
    ensures Singles(a + b) == Singles(a) + Singles(b)
    decreases |a|
  {
    if a == [] {
      assert a + b == b;
    } else {
      assert (a + b)[1..] == a[1..] + b;
      SinglesConcat(a[1..], b);
    }
  }

  lemma SinglesWithout(conjs: seq<Conjunction>, k: nat)
    requires k < |conjs| && |conjs[k]| > 1
    ensures Singles(RemoveAt(conjs, k)) == Singles(conjs)
  {
    assert conjs == conjs[..k] + [conjs[k]] + conjs[k + 1..];
    SinglesConcat(conjs[..k] + [conjs[k]], conjs[k + 1..]);
    SinglesConcat(conjs[..k], [conjs[k]]);
    SinglesConcat(conjs[..k], conjs[k + 1..]);
    assert Singles([conjs[k]]) == [] + Singles([conjs[k]][1..]);
  }

  lemma {:induction false} AllSingles(conjs: seq<Conjunction>)
    requires forall i :: 0 <= i < |conjs| ==> |conjs[i]| == 1
    ensures Singles(conjs) == conjs
    decreases |conjs|
  {
    if conjs != [] {
      AllSingles(conjs[1..]);
    }
  }

  lemma ErasedAt(indices: seq<nat>, i: nat)
    requires Increasing(indices) && indices != []
    ensures var n := |indices| - 1; if i < indices[n] then i in indices[..n] <==> i in indices else i !in indices[..n] && i + 1 !in indices
  {
    var n := |indices| - 1;
    if i in indices && i < indices[n] {
      var k :| 0 <= k < |indices| && indices[k] == i;
      assert indices[..n][k] == i;
    }
  }

  /** `indices` are those of the larger conjunctions. */
  predicate ListsLarger(conjs: seq<Conjunction>, indices: seq<nat>) {
    && Increasing(indices) && InRange(indices, |conjs|)
    && forall i :: 0 <= i < |conjs| ==> if i in indices then |conjs[i]| > 1 else |conjs[i]| == 1
  }

  lemma ListsWithoutLast(conjs: seq<Conjunction>, indices: seq<nat>)
    requires ListsLarger(conjs, indices) && indices != []
    ensures var n := |indices| - 1; indices[n] < |conjs| && ListsLarger(RemoveAt(conjs, indices[n]), indices[..n])
  {
    var n := |indices| - 1;
    var last, init := indices[n], indices[..n];
    var rest := RemoveAt(conjs, last);
    forall k | 0 <= k < |init| ensures init[k] < |rest| {
      assert indices[k] < indices[n];
    }
    forall i | 0 <= i < |rest| ensures if i in init then |rest[i]| > 1 else |rest[i]| == 1 {
      ErasedAt(indices, i);
      assert rest[i] == if i < last then conjs[i] else conjs[i + 1];
    }
  }

  /** Erasing all larger conjunctions leaves the others. */
  lemma {:induction false} ErasedSingles(conjs: seq<Conjunction>, indices: seq<nat>)
    requires ListsLarger(conjs, indices)
    ensures EraseIndices(conjs, indices) == Singles(conjs)
    decreases |indices|
  {
    if indices == [] {
      AllSingles(conjs);
    } else {
      var n := |indices| - 1;
      assert indices[n] in indices;
      ListsWithoutLast(conjs, indices);
      SinglesWithout(conjs, indices[n]);
      ErasedSingles(RemoveAt(conjs, indices[n]), indices[..n]);
    }
  }

  /** The conjunctions after the work loop: as many as there are terms, each without what the disjuncts decide. */
  ghost predicate IsAbsorbed(terms: seq<Expr>, conjs: seq<Conjunction>) {
    && |conjs| == |terms|
    && (forall i :: 0 <= i < |conjs| ==> conjs[i] != [] && multiset(conjs[i]) <= multiset(SplitConjunction(terms[i])))
    && (forall i :: 0 <= i < |conjs| && |conjs[i]| == 1 ==> Free(conjs, conjs[i][0]))
  }

  /** A conjunct that is in all larger conjunctions. */
  ghost predicate IsSpread(conjs: seq<Conjunction>, e: Expr) {
    forall i :: 0 <= i < |conjs| && |conjs[i]| > 1 ==> e in conjs[i]
  }

  /** Two larger conjunctions or more, that share a conjunct. */
  ghost predicate SharesConjunct(conjs: seq<Conjunction>) {
    (exists i, j :: 0 <= i < j < |conjs| && |conjs[i]| > 1 && |conjs[j]| > 1) && exists e :: IsSpread(conjs, e)
  }

  /** The shared conjuncts come once, with the rests, and then the disjuncts of one conjunct. */
  ghost predicate FactorsTo(order: Order, conjs: seq<Conjunction>, r: Expr) {
    exists commons, inner :: Spreads(conjs, commons) && IsFactored(conjs, commons, inner, r) && IsInner(order, conjs, commons, inner)
  }

  /** `inner` is the disjunction of what is left of the larger conjunctions. */
  ghost predicate IsInner(order: Order, conjs: seq<Conjunction>, commons: seq<Expr>, inner: Expr) {
    exists indices, rests :: IsRest(conjs, indices, commons, rests) && Create(true, order, rests) == Some(inner)
  }

  ghost predicate IsRest(conjs: seq<Conjunction>, indices: seq<nat>, commons: seq<Expr>, rests: seq<Expr>) {
    ListsLarger(conjs, indices) && Rests(conjs, indices, commons) == Some(rests)
  }

  ghost predicate Spreads(conjs: seq<Conjunction>, commons: seq<Expr>) {
    commons != [] && Distinct(commons) && forall e :: e in commons <==> IsSpread(conjs, e)
  }

  ghost predicate IsFactored(conjs: seq<Conjunction>, commons: seq<Expr>, inner: Expr, r: Expr)
    requires commons != []
  {
    SinglesNonempty(conjs);
    r == NaryOrSingle(ShortCircuitOr, [And(commons + [inner])] + Conjoined(Singles(conjs)))
  }

  lemma {:induction false} SinglesNonempty(conjs: seq<Conjunction>)
    ensures forall i :: 0 <= i < |Singles(conjs)| ==> Singles(conjs)[i] != []
    decreases |conjs|
  {
    if conjs != [] {
      SinglesNonempty(conjs[1..]);
    }
  }

  /**
   After the work loop no larger conjunction contains the opposite of a single-conjunct disjunct, those included that the
   loop made itself.
   */
  lemma AbsorbedTerms(terms: seq<Expr>)
    requires Splittable(terms) && forall i :: 0 <= i < |terms| ==> Once(SplitConjunction(terms[i]))
    ensures Sane(Split(terms))
    ensures var w := Absorb(true, Split(terms)).value;
      IsAbsorbed(terms, w.conjs) && Used(w, None) && Sane(w) && |w.conjs| == |terms|
  {
    SplitSane(terms);
    SplitAt(terms);
    AbsorbUses(Split(terms));
    AbsorbShrinks(true, Split(terms), Sizes(terms));
  }

  lemma LargerIndices(w: Work)
    requires Sane(w) && Used(w, None)
    ensures ListsLarger(w.conjs, w.larger)
    ensures forall e :: InAll(w.conjs, w.larger, e) <==> IsSpread(w.conjs, e)
    ensures |w.larger| >= 2 <==> exists i, j :: 0 <= i < j < |w.conjs| && |w.conjs[i]| > 1 && |w.conjs[j]| > 1
  {
    forall i | 0 <= i < |w.conjs| ensures if i in w.larger then |w.conjs[i]| > 1 else |w.conjs[i]| == 1 {
      assert i in w.larger ==> IsLarger(w.conjs, i);
    }
    forall e ensures InAll(w.conjs, w.larger, e) <==> IsSpread(w.conjs, e) {
      if InAll(w.conjs, w.larger, e) {
        forall i | 0 <= i < |w.conjs| && |w.conjs[i]| > 1 ensures e in w.conjs[i] {
          var k :| 0 <= k < |w.larger| && w.larger[k] == i;
        }
      }
      if IsSpread(w.conjs, e) {
        forall k | 0 <= k < |w.larger| ensures e in w.conjs[w.larger[k]] {
          assert w.larger[k] in w.larger;
        }
      }
    }
    if |w.larger| >= 2 {
      assert w.larger[0] in w.larger && w.larger[1] in w.larger && w.larger[0] < w.larger[1];
    }
    if i, j :| 0 <= i < j < |w.conjs| && |w.conjs[i]| > 1 && |w.conjs[j]| > 1 {
      assert i in w.larger && j in w.larger;
    }
  }

  lemma FactorsShares(order: Order, w: Work)
    requires Enumerates(order) && Sane(w) && Used(w, None)
    ensures Factors(order, w) <==> SharesConjunct(w.conjs)
    ensures Factors(order, w) ==> Spreads(w.conjs, Commons(order, w.conjs, w.larger))
  {
    LargerIndices(w);
    FactorsExact(order, w);
    if Factors(order, w) {
      CommonsExact(order, w.conjs, w.larger);
      forall k | 0 <= k < |w.larger| ensures Once(w.conjs[w.larger[k]]) {
        assert w.larger[k] in w.larger;
      }
      SharedExact(order, w.conjs, w.larger);
    }
  }

  lemma FactoredForm(order: Order, w: Work, rests: seq<Expr>, inner: Expr)
    requires Enumerates(order) && Sane(w) && Used(w, None) && Factors(order, w)
    requires Rests(w.conjs, w.larger, Commons(order, w.conjs, w.larger)) == Some(rests) && Create(true, order, rests) == Some(inner)
    ensures FactorsTo(order, w.conjs, Factored(order, w, inner))
  {
    FactorsShares(order, w);
    LargerIndices(w);
    ErasedSingles(w.conjs, w.larger);
    var commons := Commons(order, w.conjs, w.larger);
    SinglesNonempty(w.conjs);
    assert IsFactored(w.conjs, commons, inner, Factored(order, w, inner));
    assert IsRest(w.conjs, w.larger, commons, rests);
  }

  /**
   The disjunction of terms without repeated conjuncts: as it is if no term is a single conjunct; otherwise each disjunct
   without what the others decide, and if all larger ones then share a conjunct, with that factored out of them.
   */
  lemma CreateForm(order: Order, terms: seq<Expr>) returns (conjs: seq<Conjunction>)
    requires Enumerates(order) && Create(true, order, terms).Some?
    requires forall i :: 0 <= i < |terms| ==> Once(SplitConjunction(terms[i]))
    ensures |conjs| == |terms| > 0 && forall i :: 0 <= i < |conjs| ==> conjs[i] != []
    ensures var r := Create(true, order, terms).value;
      if forall i :: 0 <= i < |terms| ==> |SplitConjunction(terms[i])| != 1 then
        r == NaryOrSingle(ShortCircuitOr, Conjoined(conjs)) && forall i :: 0 <= i < |terms| ==> conjs[i] == SplitConjunction(terms[i])
      else
        IsAbsorbed(terms, conjs) &&
        if SharesConjunct(conjs) then FactorsTo(order, conjs, r) else r == NaryOrSingle(ShortCircuitOr, Conjoined(conjs))
  {
    var start := Split(terms);
    SplitSane(terms);
    SplitAt(terms);
    if start.sizeOne == [] {
      conjs := start.conjs;
      assert [] + Conjoined(conjs) == Conjoined(conjs);
    } else {
      assert start.sizeOne[0] in start.sizeOne;
      AbsorbedTerms(terms);
      var w := Absorb(true, start).value;
      conjs := w.conjs;
      FactorsShares(order, w);
      if Factors(order, w) {
        var remaining := Rests(w.conjs, w.larger, Commons(order, w.conjs, w.larger));
        CreateWithFactors(true, order, terms, start, w, remaining);
        AbsorbShrinks(true, start, Sizes(terms));
        RestsSmaller(terms, w, Commons(order, w.conjs, w.larger));
        FactoredForm(order, w, remaining.value, Create(true, order, remaining.value).value);
      } else {
        CreateWithoutFactors(true, order, terms, start, w);
        assert [] + Conjoined(conjs) == Conjoined(conjs);
      }
    }
  }

  // ----- Example -----

  /** `!a || (a && b)` becomes `!a || b`. */
  lemma DecidedDropped(order: Order, a: Expr, b: Expr)
    requires a.Leaf? && b.Leaf? && a != b
    ensures Create(true, order, [Not(a), And([a, b])]) == Some(Or([Not(a), b]))
  {
    var w := Work([[Not(a)], [b]], [], []);
    DecidedSplit(a, b);
    DecidedAbsorbed(a, b, Split([Not(a), And([a, b])]));
    CreateWithoutFactors(true, order, [Not(a), And([a, b])], Split([Not(a), And([a, b])]), w);
    assert [] + Conjoined(w.conjs) == [Not(a), b];
  }

  lemma DecidedSplit(a: Expr, b: Expr)
    requires a.Leaf? && b.Leaf?
    ensures var terms := [Not(a), And([a, b])];
      Splittable(terms) && Split(terms) == Work([[Not(a)], [a, b]], [0], [1]) && Sane(Split(terms))
  {
    SplitOne(Not(a));
    SplitMore([Not(a)], [a, b], Split([Not(a)]));
    assert [Not(a)] + [And([a, b])] == [Not(a), And([a, b])];
    assert [[Not(a)]] + [[a, b]] == [[Not(a)], [a, b]];
    var none: seq<nat> := [];
    assert none + [1] == [1];
    SplitSane([Not(a), And([a, b])]);
  }

  lemma DecidedAbsorbed(a: Expr, b: Expr, start: Work)
    requires a != b && start == Work([[Not(a)], [a, b]], [0], [1]) && Sane(start)
    ensures Absorb(true, start) == Some(Work([[Not(a)], [b]], [], []))
  {
    var (popped, unit) := Popped(start);
    PassSane(true, popped, unit);
    assert FindOpposite(unit, [a, b]) == Some(0) && Reduced([a, b], unit) == [b];
    var next := Pass(true, popped, unit).value;
    assert next.conjs == [[Not(a)], [b]];
    PushedOne(next.conjs, 1);
    NothingLarger(next);
  }

  lemma PushedOne(conjs: seq<Conjunction>, k: nat)
    requires !IsLarger(conjs, k)
    ensures Pushed(true, conjs, [k]) == Some([k]) && StillLarger(conjs, [k]) == []
  {
    var one, none: seq<nat> := [k], [];
    assert one[1..] == none && Pushed(true, conjs, none) == Some(none) && StillLarger(conjs, none) == none;
    assert [k] + none == one;
  }
}
