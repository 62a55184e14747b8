/**
 DisjunctionExact: when createDisjunction gives an expression at all, and when reading an index after it was erased, as the
 source does, makes no difference.
 */
module DisjunctionExact {
  import opened Expressions
  import opened Disjunction

  // ----- When factoring succeeds -----

  /** Each common conjunct occurs exactly once, and something is left without them. */
  predicate Divisible(conj: Conjunction, commons: seq<Expr>) {
    |conj| > |commons| && forall i :: 0 <= i < |commons| ==> multiset(conj)[commons[i]] == 1
  }

  lemma RemovedOnce(es: Conjunction, e: Expr)
    requires e in es
    ensures multiset(RemoveAt(es, IndexOf(es, e))) == multiset(es) - multiset{e}
  {
    var k := IndexOf(es, e);
    assert es == es[..k] + [es[k]] + es[k + 1..];
  }

  lemma {:induction false} TakeOutExact(es: Conjunction, commons: seq<Expr>)
    requires Distinct(commons)
    ensures TakeOut(es, commons).Some? <==> forall i :: 0 <= i < |commons| ==> multiset(es)[commons[i]] == 1
    ensures TakeOut(es, commons).Some? ==> |TakeOut(es, commons).value| == |es| - |commons|
    ensures TakeOut(es, commons).Some? ==> multiset(TakeOut(es, commons).value) <= multiset(es)
    decreases |commons|
  {
    if commons != [] {
      var c, rest := commons[0], commons[1..];
      if multiset(es)[c] == 1 {
        assert c in multiset(es) && c in es;
        RemovedOnce(es, c);
        var fewer := RemoveAt(es, IndexOf(es, c));
        TakeOutExact(fewer, rest);
        forall i | 0 <= i < |rest| ensures multiset(fewer)[rest[i]] == multiset(es)[rest[i]] {
          assert rest[i] == commons[i + 1] != commons[0];
        }
        assert forall i :: 0 <= i < |commons| ==> commons[i] == if i == 0 then c else rest[i - 1];
      }
    }
  }

  lemma RestExact(conj: Conjunction, commons: seq<Expr>)
    requires Distinct(commons)
    ensures Rest(conj, commons).Some? <==> Divisible(conj, commons)
  {
    TakeOutExact(conj, commons);
  }

  ghost predicate AllDivisible(conjs: seq<Conjunction>, indices: seq<nat>, commons: seq<Expr>)
    requires InRange(indices, |conjs|)
  {
    forall k :: 0 <= k < |indices| ==> Divisible(conjs[indices[k]], commons)
  }

  lemma RestsExact(conjs: seq<Conjunction>, indices: seq<nat>, commons: seq<Expr>)
    requires InRange(indices, |conjs|) && Distinct(commons)
    ensures Rests(conjs, indices, commons).Some? <==> AllDivisible(conjs, indices, commons)
  {
    RestsAt(conjs, indices, commons);
    forall k | 0 <= k < |indices| ensures Rest(conjs[indices[k]], commons).Some? <==> Divisible(conjs[indices[k]], commons) {
      RestExact(conjs[indices[k]], commons);
    }
  }

  /** The larger conjunctions once the single-conjunct disjuncts are absorbed, if there is something to factor. */
  ghost predicate Factoring(order: Order, terms: seq<Expr>)
    requires Splittable(terms)
  {
    SplitSane(terms);
    Split(terms).sizeOne != [] && Factors(order, Absorb(true, Split(terms)).value)
  }

  ghost predicate FactorsApart(order: Order, terms: seq<Expr>)
    requires Splittable(terms) && Factoring(order, terms)
  {
    SplitSane(terms);
    var w := Absorb(true, Split(terms)).value;
    AllDivisible(w.conjs, w.larger, Commons(order, w.conjs, w.larger))
  }

  /** What is left of the larger conjunctions without their common conjuncts. */
  ghost function Remaining(order: Order, terms: seq<Expr>): (remaining: seq<Expr>)
    requires Enumerates(order) && Splittable(terms) && Factoring(order, terms) && FactorsApart(order, terms)
    ensures SumSizes(remaining) < SumSizes(terms)
  {
    SplitSane(terms);
    var w := Absorb(true, Split(terms)).value;
    var commons := Commons(order, w.conjs, w.larger);
    CommonsExact(order, w.conjs, w.larger);
    RestsExact(w.conjs, w.larger, commons);
    AbsorbShrinks(true, Split(terms), Sizes(terms));
    RestsSmaller(terms, w, commons);
    Rests(w.conjs, w.larger, commons).value
  }

  /**
   There are terms, none of them empty, and wherever larger conjunctions are factored, at any depth, their common conjuncts
   occur exactly once in each and are not all of it.
   */
  ghost predicate Separable(order: Order, terms: seq<Expr>)
    requires Enumerates(order)
    decreases SumSizes(terms)
  {
    && terms != [] && Splittable(terms)
    && (Factoring(order, terms) ==> FactorsApart(order, terms) && Separable(order, Remaining(order, terms)))
  }

  /** That is exactly when no assertion fails. */
  lemma {:induction false} CreateExact(order: Order, terms: seq<Expr>)
    requires Enumerates(order)
    ensures Create(true, order, terms).Some? <==> Separable(order, terms)
    decreases SumSizes(terms)
  {
    if terms != [] && Splittable(terms) && Factoring(order, terms) {
      SplitSane(terms);
      var w := Absorb(true, Split(terms)).value;
      var commons := Commons(order, w.conjs, w.larger);
      CommonsExact(order, w.conjs, w.larger);
      RestsExact(w.conjs, w.larger, commons);
      if FactorsApart(order, terms) {
        CreateExact(order, Remaining(order, terms));
      }
    }
  }

  // ----- Terms without repeated conjuncts -----

  lemma {:induction false} CountedOnce(conjs: seq<Conjunction>, indices: seq<nat>, e: Expr)
    requires InRange(indices, |conjs|) && forall k :: 0 <= k < |indices| ==> multiset(conjs[indices[k]])[e] <= 1
    ensures multiset(Counted(conjs, indices))[e] <= |indices|
    ensures multiset(Counted(conjs, indices))[e] == |indices| <==>
              forall k :: 0 <= k < |indices| ==> multiset(conjs[indices[k]])[e] == 1
    decreases |indices|
  {
    if indices != [] {
      CountedOnce(conjs, indices[..|indices| - 1], e);
    }
  }

  predicate IsConjunction(e: Expr) {
    e.NAry? && e.op.ShortCircuitAnd?
  }

  /** No conjunct is repeated, or is a conjunction itself. */
  ghost predicate PlainConjunction(conj: Conjunction) {
    (forall e :: multiset(conj)[e] <= 1) && forall i :: 0 <= i < |conj| ==> !IsConjunction(conj[i])
  }

  ghost predicate Plain(terms: seq<Expr>) {
    forall i :: 0 <= i < |terms| ==> SplitConjunction(terms[i]) != [] && PlainConjunction(SplitConjunction(terms[i]))
  }

  lemma PlainSubset(es: Conjunction, conj: Conjunction)
    requires PlainConjunction(conj) && multiset(es) <= multiset(conj)
    ensures PlainConjunction(es)
  {
    forall i | 0 <= i < |es| ensures !IsConjunction(es[i]) {
      assert es[i] in multiset(es) && es[i] in multiset(conj);
      assert es[i] in conj;
    }
  }

  lemma PlainAbsorbed(terms: seq<Expr>)
    requires Splittable(terms) && Plain(terms)
    ensures Sane(Split(terms))
    ensures forall i :: 0 <= i < |terms| ==> PlainConjunction(Absorb(true, Split(terms)).value.conjs[i])
  {
    SplitSane(terms);
    SplitAt(terms);
    AbsorbShrinks(true, Split(terms), Sizes(terms));
    forall i | 0 <= i < |terms| ensures PlainConjunction(Absorb(true, Split(terms)).value.conjs[i]) {
      PlainSubset(Absorb(true, Split(terms)).value.conjs[i], SplitConjunction(terms[i]));
    }
  }

  /** No larger conjunction consists of common conjuncts only. */
  ghost predicate SomethingLeft(order: Order, terms: seq<Expr>)
    requires Splittable(terms) && Factoring(order, terms)
  {
    SplitSane(terms);
    var w := Absorb(true, Split(terms)).value;
    forall i :: i in w.larger ==> i < |w.conjs| && |w.conjs[i]| > |Commons(order, w.conjs, w.larger)|
  }

  lemma PlainApart(order: Order, terms: seq<Expr>)
    requires Enumerates(order) && Splittable(terms) && Plain(terms) && Factoring(order, terms)
    ensures FactorsApart(order, terms) <==> SomethingLeft(order, terms)
  {
    PlainAbsorbed(terms);
    var w := Absorb(true, Split(terms)).value;
    var commons := Commons(order, w.conjs, w.larger);
    CommonsExact(order, w.conjs, w.larger);
    forall c | c in commons
      ensures forall k :: 0 <= k < |w.larger| ==> multiset(w.conjs[w.larger[k]])[c] == 1
    {
      CountedOnce(w.conjs, w.larger, c);
    }
    forall k | 0 <= k < |w.larger|
      ensures Divisible(w.conjs[w.larger[k]], commons) <==> |w.conjs[w.larger[k]]| > |commons|
    {
      assert forall i :: 0 <= i < |commons| ==> commons[i] in commons;
    }
    assert forall k :: 0 <= k < |w.larger| ==> w.larger[k] in w.larger;
  }

  lemma PlainRest(conj: Conjunction, commons: seq<Expr>)
    requires PlainConjunction(conj) && Distinct(commons) && Rest(conj, commons).Some?
    ensures var split := SplitConjunction(Rest(conj, commons).value); split != [] && PlainConjunction(split)
  {
    TakeOutExact(conj, commons);
    var es := TakeOut(conj, commons).value;
    PlainSubset(es, conj);
    if |es| == 1 {
      assert !IsConjunction(es[0]) && [es[0]] == es;
    }
  }

  lemma PlainRemaining(order: Order, terms: seq<Expr>)
    requires Enumerates(order) && Splittable(terms) && Plain(terms) && Factoring(order, terms) && FactorsApart(order, terms)
    ensures Plain(Remaining(order, terms)) && Splittable(Remaining(order, terms)) && Remaining(order, terms) != []
  {
    PlainAbsorbed(terms);
    var w := Absorb(true, Split(terms)).value;
    var commons := Commons(order, w.conjs, w.larger);
    CommonsExact(order, w.conjs, w.larger);
    RestsExact(w.conjs, w.larger, commons);
    RestsAt(w.conjs, w.larger, commons);
    forall k | 0 <= k < |w.larger|
      ensures var split := SplitConjunction(Rests(w.conjs, w.larger, commons).value[k]); split != [] && PlainConjunction(split)
    {
      PlainRest(w.conjs[w.larger[k]], commons);
    }
  }

  /** At no depth is a larger conjunction all common conjuncts. */
  ghost predicate NothingConsumed(order: Order, terms: seq<Expr>)
    requires Enumerates(order) && Splittable(terms) && Plain(terms)
    decreases SumSizes(terms)
  {
    Factoring(order, terms) ==>
      && SomethingLeft(order, terms)
      && (PlainApart(order, terms); PlainRemaining(order, terms); NothingConsumed(order, Remaining(order, terms)))
  }

  /** Without repeated conjuncts that is all that can go wrong. */
  lemma {:induction false} PlainExact(order: Order, terms: seq<Expr>)
    requires Enumerates(order) && terms != [] && Splittable(terms) && Plain(terms)
    ensures Create(true, order, terms).Some? <==> NothingConsumed(order, terms)
    decreases SumSizes(terms)
  {
    CreateExact(order, terms);
    if Factoring(order, terms) {
      PlainApart(order, terms);
      if FactorsApart(order, terms) {
        PlainRemaining(order, terms);
        PlainExact(order, Remaining(order, terms));
        CreateExact(order, Remaining(order, terms));
      }
    }
  }

  // ----- Terms that share nothing -----

  ghost predicate SharesNothing(terms: seq<Expr>) {
    && (forall i, e :: 0 <= i < |terms| ==> multiset(SplitConjunction(terms[i]))[e] <= 1)
    && (forall i, j, e :: 0 <= i < j < |terms| && e in SplitConjunction(terms[i]) ==> e !in SplitConjunction(terms[j]))
  }

  /** Without sharing no conjunct occurs twice, so nothing is common to two conjunctions. */
  lemma {:induction false} OccursOnce(terms: seq<Expr>, conjs: seq<Conjunction>, indices: seq<nat>, e: Expr)
    requires SharesNothing(terms) && Increasing(indices) && |conjs| == |terms|
    requires forall i :: 0 <= i < |conjs| ==> multiset(conjs[i]) <= multiset(SplitConjunction(terms[i]))
    requires InRange(indices, |conjs|)
    ensures multiset(Counted(conjs, indices))[e] <= 1
    ensures multiset(Counted(conjs, indices))[e] > 0 ==>
              exists k :: 0 <= k < |indices| && e in SplitConjunction(terms[indices[k]])
    decreases |indices|
  {
    if indices != [] {
      var n := |indices| - 1;
      OccursOnce(terms, conjs, indices[..n], e);
      if multiset(conjs[indices[n]])[e] > 0 {
        assert e in multiset(SplitConjunction(terms[indices[n]]));
        assert e in SplitConjunction(terms[indices[n]]);
      }
    }
  }

  lemma SharesNothingSuffices(order: Order, terms: seq<Expr>)
    requires Enumerates(order) && terms != [] && Splittable(terms) && SharesNothing(terms)
    ensures Create(true, order, terms).Some?
  {
    CreateExact(order, terms);
    if Factoring(order, terms) {
      SplitSane(terms);
      SplitAt(terms);
      AbsorbShrinks(true, Split(terms), Sizes(terms));
      var w := Absorb(true, Split(terms)).value;
      CommonsExact(order, w.conjs, w.larger);
      OccursOnce(terms, w.conjs, w.larger, Commons(order, w.conjs, w.larger)[0]);
      assert false;
    }
  }
}
