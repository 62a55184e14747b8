/**
 DisjunctionAsWritten: what reading an index after it was erased does to createDisjunction as a whole.
 */
module DisjunctionAsWritten {
  import opened Expressions
  import opened Disjunction
  import opened DisjunctionExact

  // ----- The work loop, turn by turn -----

  /** The work lists before each turn of the loop, and after the last; None where it reads past the end of a list. */
  ghost function Trace(captured: bool, w: Work): (t: seq<Option<Work>>)
    requires Sane(w)
    ensures t != [] && t[0] == Some(w)
    decreases 2 * |w.larger| + |w.sizeOne|
  {
    if w.sizeOne == [] then [Some(w)]
    else
      var (popped, unit) := Popped(w);
      var next := Pass(captured, popped, unit);
      if next.None? then [Some(w), None]
      else
        PassSane(captured, popped, unit);
        [Some(w)] + Trace(captured, next.value)
  }

  lemma {:induction false} TraceEnds(captured: bool, w: Work)
    requires Sane(w)
    ensures Trace(captured, w)[|Trace(captured, w)| - 1] == Absorb(captured, w)
    decreases 2 * |w.larger| + |w.sizeOne|
  {
    if w.sizeOne != [] {
      var (popped, unit) := Popped(w);
      var next := Pass(captured, popped, unit);
      if next.Some? {
        PassSane(captured, popped, unit);
        TraceEnds(captured, next.value);
      }
    }
  }

  /** What the disjuncts on the list, the last one first, leave of a conjunction. */
  function Drained(conjs: seq<Conjunction>, sizeOne: seq<nat>, conj: Conjunction): (r: Conjunction)
    requires InRange(sizeOne, |conjs|) && forall i :: 0 <= i < |conjs| ==> conjs[i] != []
    ensures |r| <= |conj|
  {
    if sizeOne == [] then conj
    else
      var n := |sizeOne| - 1;
      Drained(conjs, sizeOne[..n], Reduced(conj, conjs[sizeOne[n]][0]))
  }

  /** The single-conjunct disjuncts leave more than one conjunct of every larger conjunction. */
  ghost predicate Quiet(w: Work)
    requires Sane(w)
  {
    forall i :: i in w.larger ==> i < |w.conjs| && |Drained(w.conjs, w.sizeOne, w.conjs[i])| > 1
  }

  ghost predicate NoneShrinks(w: Work, unit: Expr)
    requires Sane(w)
  {
    forall i :: i in w.larger ==> i < |w.conjs| && |Reduced(w.conjs[i], unit)| > 1
  }

  lemma {:induction false} DrainedSame(conjs: seq<Conjunction>, conjs': seq<Conjunction>, sizeOne: seq<nat>, conj: Conjunction)
    requires |conjs| == |conjs'| && InRange(sizeOne, |conjs|)
    requires forall i :: 0 <= i < |conjs| ==> conjs[i] != [] && conjs'[i] != []
    requires forall k :: 0 <= k < |sizeOne| ==> conjs[sizeOne[k]] == conjs'[sizeOne[k]]
    ensures Drained(conjs, sizeOne, conj) == Drained(conjs', sizeOne, conj)
    decreases |sizeOne|
  {
    if sizeOne != [] {
      var n := |sizeOne| - 1;
      DrainedSame(conjs, conjs', sizeOne[..n], Reduced(conj, conjs[sizeOne[n]][0]));
    }
  }

  lemma {:induction false} NothingPushed(captured: bool, conjs: seq<Conjunction>, larger: seq<nat>)
    requires forall i :: i in larger ==> IsLarger(conjs, i)
    ensures Pushed(captured, conjs, larger) == Some([]) && StillLarger(conjs, larger) == larger
    decreases |larger|
  {
    if larger != [] {
      NothingPushed(captured, conjs, larger[1..]);
      assert larger == [larger[0]] + larger[1..];
    }
  }

  /** A turn in which nothing shrinks to one conjunct pushes nothing, however the index is read. */
  lemma QuietTurn(captured: bool, w: Work, unit: Expr)
    requires Sane(w) && NoneShrinks(w, unit)
    ensures Pass(captured, w, unit) == Some(Work(ReduceAll(w.conjs, w.larger, unit), w.sizeOne, w.larger))
  {
    NothingPushed(captured, ReduceAll(w.conjs, w.larger, unit), w.larger);
    assert w.sizeOne + [] == w.sizeOne;
  }

  lemma QuietStep(w: Work)
    requires Sane(w) && ValidWork(w) && w.sizeOne != []
    ensures var (popped, unit) := Popped(w);
      && (Quiet(w) ==> NoneShrinks(popped, unit))
      && (NoneShrinks(popped, unit) ==> var next := Pass(true, popped, unit).value; Sane(next) && (Quiet(next) <==> Quiet(w)))
  {
    var (popped, unit) := Popped(w);
    if NoneShrinks(popped, unit) {
      QuietTurn(true, popped, unit);
      PassSane(true, popped, unit);
      var next := Pass(true, popped, unit).value;
      forall k | 0 <= k < |popped.sizeOne| ensures next.conjs[popped.sizeOne[k]] == w.conjs[popped.sizeOne[k]] {
        assert popped.sizeOne[k] == w.sizeOne[k] && w.sizeOne[k] in w.sizeOne && IsUnit(w.conjs, w.sizeOne[k]);
        assert !IsLarger(w.conjs, w.sizeOne[k]);
      }
      QuietSame(w, next);
    }
  }

  lemma QuietSame(w: Work, next: Work)
    requires Sane(w) && Sane(next) && w.sizeOne != [] && |next.conjs| == |w.conjs|
    requires next.sizeOne == w.sizeOne[..|w.sizeOne| - 1] && next.larger == w.larger
    requires forall k :: 0 <= k < |next.sizeOne| ==> next.conjs[next.sizeOne[k]] == w.conjs[next.sizeOne[k]]
    requires forall i :: i in w.larger && i < |w.conjs| ==> next.conjs[i] == Reduced(w.conjs[i], Popped(w).1)
    ensures Quiet(next) <==> Quiet(w)
  {
    forall i | i in w.larger && i < |w.conjs|
      ensures Drained(next.conjs, next.sizeOne, next.conjs[i]) == Drained(w.conjs, w.sizeOne, w.conjs[i])
    {
      DrainedSame(w.conjs, next.conjs, next.sizeOne, next.conjs[i]);
    }
  }

  /** The loop as written goes through the same work lists as intended exactly if nothing shrinks to one conjunct. */
  lemma {:induction false} TraceExact(w: Work)
    requires Sane(w) && ValidWork(w)
    ensures Trace(false, w) == Trace(true, w) <==> Quiet(w)
    decreases 2 * |w.larger| + |w.sizeOne|
  {
    if w.sizeOne != [] {
      var (popped, unit) := Popped(w);
      AbsorbStep(w);
      QuietStep(w);
      PassAsWrittenExact(popped, unit);
      var next := Pass(true, popped, unit).value;
      assert Trace(true, w)[1..] == Trace(true, next);
      if NoneShrinks(popped, unit) {
        QuietTurn(true, popped, unit);
        QuietTurn(false, popped, unit);
        TraceExact(next);
        assert Trace(false, w)[1..] == Trace(false, next);
      } else {
        assert Trace(true, w)[1] == Some(next);
        if Pass(false, popped, unit).Some? {
          PassSane(false, popped, unit);
        }
        assert Trace(false, w)[1] == Pass(false, popped, unit);
      }
    } else {
      AllLarger(w);
    }
  }

  lemma AllLarger(w: Work)
    requires Sane(w) && w.sizeOne == []
    ensures Quiet(w)
  {
    forall i | i in w.larger ensures i < |w.conjs| && |Drained(w.conjs, w.sizeOne, w.conjs[i])| > 1 {
      assert IsLarger(w.conjs, i);
    }
  }

  // ----- All of createDisjunction -----

  /** The terms that the recursive call gets, if there is one. */
  ghost function Inner(captured: bool, order: Order, terms: seq<Expr>): (inner: Option<seq<Expr>>)
    requires Splittable(terms)
    ensures inner.Some? ==> SumSizes(inner.value) < SumSizes(terms)
  {
    var start := Split(terms);
    SplitSane(terms);
    var absorbed := Absorb(captured, start);
    if start.sizeOne == [] || absorbed.None? || !Factors(order, absorbed.value) then None
    else
      var w := absorbed.value;
      var commons := Commons(order, w.conjs, w.larger);
      var remaining := Rests(w.conjs, w.larger, commons);
      if remaining.Some? then
        AbsorbShrinks(captured, start, Sizes(terms));
        RestsSmaller(terms, w, commons);
        remaining
      else None
  }

  /** The turns of the work loop in the call and in the calls it makes. */
  ghost function Levels(captured: bool, order: Order, terms: seq<Expr>): seq<seq<Option<Work>>>
    decreases SumSizes(terms)
  {
    if terms == [] || !Splittable(terms) then []
    else
      SplitSane(terms);
      var inner := Inner(captured, order, terms);
      [Trace(captured, Split(terms))] + (if inner.Some? then Levels(captured, order, inner.value) else [])
  }

  /** In no call do the single-conjunct disjuncts leave just one conjunct of a larger conjunction. */
  ghost predicate QuietThroughout(order: Order, terms: seq<Expr>)
    decreases SumSizes(terms)
  {
    terms != [] && Splittable(terms) ==>
      && (SplitSane(terms); Quiet(Split(terms)))
      && var inner := Inner(true, order, terms);
         (inner.Some? ==> QuietThroughout(order, inner.value))
  }

  /** As written createDisjunction does what is intended, turn by turn, exactly then. */
  lemma {:induction false} AsWrittenExact(order: Order, terms: seq<Expr>)
    ensures Levels(false, order, terms) == Levels(true, order, terms) <==> QuietThroughout(order, terms)
    decreases SumSizes(terms)
  {
    if terms != [] && Splittable(terms) {
      SplitSane(terms);
      TraceExact(Split(terms));
      var a, b := Levels(false, order, terms), Levels(true, order, terms);
      TraceEnds(false, Split(terms));
      TraceEnds(true, Split(terms));
      if Quiet(Split(terms)) {
        assert Absorb(false, Split(terms)) == Absorb(true, Split(terms));
        var inner := Inner(true, order, terms);
        assert Inner(false, order, terms) == inner;
        if inner.Some? {
          AsWrittenExact(order, inner.value);
          assert a[1..] == Levels(false, order, inner.value) && b[1..] == Levels(true, order, inner.value);
        }
      } else {
        assert a[0] != b[0];
      }
    }
  }

  /** Then it gives the same expression. */
  lemma {:induction false} AsWrittenSame(order: Order, terms: seq<Expr>)
    requires QuietThroughout(order, terms)
    ensures Create(false, order, terms) == Create(true, order, terms)
    decreases SumSizes(terms)
  {
    if terms != [] && Splittable(terms) {
      SplitSane(terms);
      TraceExact(Split(terms));
      TraceEnds(false, Split(terms));
      TraceEnds(true, Split(terms));
      assert Absorb(false, Split(terms)) == Absorb(true, Split(terms));
      var inner := Inner(true, order, terms);
      if inner.Some? {
        AsWrittenSame(order, inner.value);
      }
    }
  }

  /** And so it is equivalent to the disjunction of the terms, wherever no assertion fails. */
  lemma AsWrittenCorrect(order: Order, terms: seq<Expr>, v: Valuation)
    requires Enumerates(order) && QuietThroughout(order, terms) && Separable(order, terms)
    ensures Create(false, order, terms).Some? && (Holds(Create(false, order, terms).value, v) <==> AnyHolds(terms, v))
  {
    AsWrittenSame(order, terms);
    CreateExact(order, terms);
    CreateCorrect(order, terms, v);
  }
}
