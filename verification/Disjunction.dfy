/**
 createDisjunction: joins path conditions with `||`, dropping conjuncts that an earlier disjunct already decides
 (`A || (!A && B)` is `A || B`) and factoring out conjuncts that all remaining conjunctions share.
 */
module Disjunction {
  import opened Expressions

  type Conjunction = seq<Expr>

  // ----- Small list operations -----

  function RemoveAt<T>(s: seq<T>, k: nat): (r: seq<T>)
    requires k < |s|
    ensures |r| == |s| - 1
    ensures forall i :: 0 <= i < k ==> r[i] == s[i]
    ensures forall i :: k <= i < |r| ==> r[i] == s[i + 1]
  {
    s[..k] + s[k + 1..]
  }

  /** areOpposites, which only looks under one of the two negations. */
  predicate AreOpposites(a: Expr, b: Expr) {
    if a.Not? then a.e == b
    else b.Not? && b.e == a
  }

  function FindOpposite(unit: Expr, es: Conjunction): (r: Option<nat>)
    ensures r.Some? ==> r.value < |es| && AreOpposites(unit, es[r.value])
    ensures r.None? ==> forall i :: 0 <= i < |es| ==> !AreOpposites(unit, es[i])
  {
    if es == [] then None
    else if AreOpposites(unit, es[0]) then Some(0)
    else
      match FindOpposite(unit, es[1..])
      case None => None
      case Some(k) => Some(k + 1)
  }

  function SplitConjunction(e: Expr): Conjunction {
    if e.NAry? && e.op.ShortCircuitAnd? then e.es else [e]
  }

  lemma SplitHolds(e: Expr, v: Valuation)
    ensures AllHold(SplitConjunction(e), v) <==> Holds(e, v)
  {
    if e.NAry? && e.op.ShortCircuitAnd? {
      AndOrHold(e.es, v);
    } else {
      assert [e][0] == e;
    }
  }

  // ----- Values -----

  ghost predicate AnyConjunction(conjs: seq<Conjunction>, v: Valuation) {
    exists i :: 0 <= i < |conjs| && AllHold(conjs[i], v)
  }

  ghost predicate SameValue(a: seq<Conjunction>, b: seq<Conjunction>) {
    forall v :: AnyConjunction(a, v) <==> AnyConjunction(b, v)
  }

  lemma RemoveAtHolds(es: Conjunction, k: nat, v: Valuation)
    requires k < |es|
    ensures AllHold(es, v) <==> Holds(es[k], v) && AllHold(RemoveAt(es, k), v)
  {
    assert es == es[..k] + ([es[k]] + es[k + 1..]);
    AllHoldConcat(es[..k], [es[k]] + es[k + 1..], v);
    AllHoldConcat([es[k]], es[k + 1..], v);
    AllHoldConcat(es[..k], es[k + 1..], v);
    assert AllHold([es[k]], v) <==> Holds(es[k], v);
  }

  // ----- Sizes, which bound the recursion -----

  function ExprSize(e: Expr): (n: nat)
    ensures n > 0
  {
    match e
    case Not(x) => 1 + ExprSize(x)
    case NAry(_, es) => 1 + SumSizes(es)
    case _ => 1
  }

  function SumSizes(es: seq<Expr>): nat {
    if es == [] then 0 else ExprSize(es[0]) + SumSizes(es[1..])
  }

  lemma {:induction false} SumSizesConcat(a: seq<Expr>, b: seq<Expr>)
    ensures SumSizes(a + b) == SumSizes(a) + SumSizes(b)
    decreases |a|
  {
    if a == [] {
      assert a + b == b;
    } else {
      assert (a + b)[1..] == a[1..] + b;
      SumSizesConcat(a[1..], b);
    }
  }

  lemma SumSizesSingle(e: Expr)
    ensures SumSizes([e]) == ExprSize(e) > 0
  {
    assert [e][1..] == [];
  }

  lemma {:induction false} SumSizesRemove(es: seq<Expr>, k: nat)
    requires k < |es|
    ensures SumSizes(RemoveAt(es, k)) < SumSizes(es)
    decreases |es|
  {
    if k == 0 {
      assert RemoveAt(es, 0) == es[1..];
    } else {
      assert RemoveAt(es, k)[1..] == RemoveAt(es[1..], k - 1);
      SumSizesRemove(es[1..], k - 1);
    }
  }

  lemma RemoveAtMultiset<T>(s: seq<T>, k: nat)
    requires k < |s|
    ensures multiset(RemoveAt(s, k)) <= multiset(s)
  {
    assert s == s[..k] + [s[k]] + s[k + 1..];
  }

  // ----- The work lists -----

  /** `sizeOne` and `larger` hold indices into `conjs`. */
  datatype Work = Work(conjs: seq<Conjunction>, sizeOne: seq<nat>, larger: seq<nat>)

  predicate Increasing(s: seq<nat>) {
    forall i, j :: 0 <= i < j < |s| ==> s[i] < s[j]
  }

  predicate InRange(s: seq<nat>, n: nat) {
    forall k :: 0 <= k < |s| ==> s[k] < n
  }

  predicate IsUnit(conjs: seq<Conjunction>, i: nat) { i < |conjs| && |conjs[i]| == 1 }

  predicate IsLarger(conjs: seq<Conjunction>, i: nat) { i < |conjs| && |conjs[i]| > 1 }

  predicate ValidWork(w: Work) {
    && (forall i :: 0 <= i < |w.conjs| ==> w.conjs[i] != [])
    && (forall i :: i in w.sizeOne ==> IsUnit(w.conjs, i))
    && (forall i :: i in w.larger ==> IsLarger(w.conjs, i))
    && InRange(w.larger, |w.conjs|) && Increasing(w.larger)
  }

  /** A conjunction without the first conjunct opposite to `unit`, if it has one. */
  function Reduced(conj: Conjunction, unit: Expr): (r: Conjunction)
    ensures |conj| - 1 <= |r| <= |conj|
  {
    match FindOpposite(unit, conj)
    case None => conj
    case Some(k) => RemoveAt(conj, k)
  }

  lemma ReducedSmaller(conj: Conjunction, unit: Expr)
    ensures multiset(Reduced(conj, unit)) <= multiset(conj)
    ensures SumSizes(Reduced(conj, unit)) <= SumSizes(conj)
  {
    var found := FindOpposite(unit, conj);
    if found.Some? {
      SumSizesRemove(conj, found.value);
      RemoveAtMultiset(conj, found.value);
    }
  }

  function ReduceAll(conjs: seq<Conjunction>, larger: seq<nat>, unit: Expr): (r: seq<Conjunction>)
    ensures |r| == |conjs|
    ensures forall i :: 0 <= i < |conjs| ==> r[i] == if i in larger then Reduced(conjs[i], unit) else conjs[i]
  {
    seq(|conjs|, i requires 0 <= i < |conjs| => if i in larger then Reduced(conjs[i], unit) else conjs[i])
  }

  /** The listed conjunctions that are still larger than one conjunct. */
  function StillLarger(conjs: seq<Conjunction>, larger: seq<nat>): (r: seq<nat>)
    ensures forall i :: i in r <==> i in larger && IsLarger(conjs, i)
  {
    if larger == [] then []
    else
      var r := StillLarger(conjs, larger[1..]);
      if IsLarger(conjs, larger[0]) then [larger[0]] + r else r
  }

  /**
   What the pass appends to the single-conjunct work list: an entry for each listed conjunction that shrank.
   `captured` says whether the index of the shrunken conjunction is read before its list entry is erased. The source
   reads it afterwards, through an iterator that by then stands on the following entry; None is a read past the end.
   */
  function Pushed(captured: bool, conjs: seq<Conjunction>, larger: seq<nat>): (r: Option<seq<nat>>)
    ensures captured ==> r.Some?
    ensures r.Some? ==> |r.value| + |StillLarger(conjs, larger)| == |larger|
    ensures captured ==> forall i :: i in r.value <==> i in larger && !IsLarger(conjs, i)
  {
    if larger == [] then Some([])
    else
      var r := Pushed(captured, conjs, larger[1..]);
      if r.None? || IsLarger(conjs, larger[0]) then r
      else if captured then Some([larger[0]] + r.value)
      else if |larger| == 1 then None
      else Some([larger[1]] + r.value)
  }

  /** One pass of a single-conjunct disjunct over the larger conjunctions. */
  function Pass(captured: bool, w: Work, unit: Expr): Option<Work> {
    var conjs := ReduceAll(w.conjs, w.larger, unit);
    match Pushed(captured, conjs, w.larger)
    case None => None
    case Some(pushed) => Some(Work(conjs, w.sizeOne + pushed, StillLarger(conjs, w.larger)))
  }

  lemma {:induction false} StillLargerIncreasing(conjs: seq<Conjunction>, larger: seq<nat>)
    requires Increasing(larger)
    ensures Increasing(StillLarger(conjs, larger))
    decreases |larger|
  {
    if larger != [] {
      var r := StillLarger(conjs, larger[1..]);
      StillLargerIncreasing(conjs, larger[1..]);
      forall k | 0 <= k < |r| ensures larger[0] < r[k] { assert r[k] in larger[1..]; }
    }
  }

  lemma {:induction false} PushedAsWrittenExact(conjs: seq<Conjunction>, larger: seq<nat>)
    requires Increasing(larger)
    ensures Pushed(true, conjs, larger) == Pushed(false, conjs, larger) <==> StillLarger(conjs, larger) == larger
    decreases |larger|
  {
    if larger != [] {
      PushedAsWrittenExact(conjs, larger[1..]);
      assert |StillLarger(conjs, larger[1..])| <= |larger[1..]| by { assert Pushed(true, conjs, larger[1..]).Some?; }
      if IsLarger(conjs, larger[0]) {
        assert larger == [larger[0]] + larger[1..];
      } else if Pushed(false, conjs, larger).Some? {
        assert Pushed(true, conjs, larger).value[0] == larger[0] < larger[1] == Pushed(false, conjs, larger).value[0];
      }
    }
  }

  /** The pass as written does what is intended exactly when no conjunction shrinks to one conjunct. */
  lemma PassAsWrittenExact(w: Work, unit: Expr)
    requires ValidWork(w)
    ensures Pass(true, w, unit) == Pass(false, w, unit) <==>
            forall i :: i in w.larger ==> |Reduced(w.conjs[i], unit)| > 1
  {
    var conjs := ReduceAll(w.conjs, w.larger, unit);
    PushedAsWrittenExact(conjs, w.larger);
    var a, b := Pushed(true, conjs, w.larger), Pushed(false, conjs, w.larger);
    assert a.Some? && b.Some? && a != b ==> w.sizeOne + a.value != w.sizeOne + b.value by {
      if a.Some? && b.Some? && w.sizeOne + a.value == w.sizeOne + b.value {
        assert (w.sizeOne + a.value)[|w.sizeOne|..] == a.value && (w.sizeOne + b.value)[|w.sizeOne|..] == b.value;
      }
    }
    if forall i :: i in w.larger ==> |Reduced(w.conjs[i], unit)| > 1 {
      AllStillLarger(conjs, w.larger);
    }
  }

  lemma {:induction false} AllStillLarger(conjs: seq<Conjunction>, larger: seq<nat>)
    requires forall i :: i in larger ==> IsLarger(conjs, i)
    ensures StillLarger(conjs, larger) == larger
    decreases |larger|
  {
    if larger != [] {
      AllStillLarger(conjs, larger[1..]);
      assert larger == [larger[0]] + larger[1..];
    }
  }

  // ----- The intended pass keeps the value of the disjunction -----

  ghost predicate Subsets(a: seq<Conjunction>, b: seq<Conjunction>) {
    |a| == |b| && forall i :: 0 <= i < |a| ==> multiset(a[i]) <= multiset(b[i])
  }

  /** A conjunction never outgrows the term it was split from. */
  ghost predicate Within(w: Work, sizes: seq<nat>) {
    && |sizes| == |w.conjs|
    && forall i :: i in w.larger && i < |sizes| ==> SumSizes(w.conjs[i]) < sizes[i]
  }

  lemma ReducedHolds(conj: Conjunction, unit: Expr, v: Valuation)
    requires !Holds(unit, v)
    ensures AllHold(conj, v) <==> AllHold(Reduced(conj, unit), v)
  {
    var found := FindOpposite(unit, conj);
    if found.Some? {
      RemoveAtHolds(conj, found.value, v);
    }
  }

  lemma ReduceAllValue(conjs: seq<Conjunction>, larger: seq<nat>, unit: Expr, u: nat)
    requires u < |conjs| && conjs[u] == [unit] && u !in larger
    ensures SameValue(conjs, ReduceAll(conjs, larger, unit))
  {
    var conjs' := ReduceAll(conjs, larger, unit);
    forall v
      ensures AnyConjunction(conjs, v) <==> AnyConjunction(conjs', v)
    {
      if Holds(unit, v) {
        assert AllHold(conjs[u], v) && AllHold(conjs'[u], v);
      } else {
        forall i | 0 <= i < |conjs| ensures AllHold(conjs[i], v) <==> AllHold(conjs'[i], v) {
          ReducedHolds(conjs[i], unit, v);
        }
      }
    }
  }

  lemma PassCorrect(w: Work, unit: Expr, u: nat, sizes: seq<nat>)
    requires ValidWork(w) && Within(w, sizes) && u < |w.conjs| && w.conjs[u] == [unit]
    ensures var w' := Pass(true, w, unit).value;
            && ValidWork(w') && Within(w', sizes)
            && SameValue(w.conjs, w'.conjs) && Subsets(w'.conjs, w.conjs)
            && 2 * |w'.larger| + |w'.sizeOne| <= 2 * |w.larger| + |w.sizeOne|
  {
    assert u !in w.larger by { assert !IsLarger(w.conjs, u); }
    ReduceAllValue(w.conjs, w.larger, unit, u);
    forall i | 0 <= i < |w.conjs|
      ensures multiset(Reduced(w.conjs[i], unit)) <= multiset(w.conjs[i])
      ensures SumSizes(Reduced(w.conjs[i], unit)) <= SumSizes(w.conjs[i])
    {
      ReducedSmaller(w.conjs[i], unit);
    }
    var w' := Pass(true, w, unit).value;
    StillLargerIncreasing(w'.conjs, w.larger);
    forall k | 0 <= k < |w'.larger| ensures w'.larger[k] < |w'.conjs| { assert w'.larger[k] in w'.larger; }
    forall i | i in w'.sizeOne ensures IsUnit(w'.conjs, i) {
      if i in w.sizeOne { assert i !in w.larger by { assert IsUnit(w.conjs, i); } }
    }
  }

  /** Part way through a pass, with the entries `rest` still to visit: those conjunctions are untouched. */
  ghost predicate PartlyReduced(w: Work, final: seq<Conjunction>, conjs: seq<Conjunction>, rest: seq<nat>) {
    && Increasing(rest) && InRange(rest, |w.conjs|) && |conjs| == |w.conjs| == |final|
    && (forall i :: i in rest ==> i in w.larger)
    && forall i :: 0 <= i < |conjs| ==> conjs[i] == if i in rest then w.conjs[i] else final[i]
  }

  lemma PartlyReducedStep(w: Work, unit: Expr, conjs: seq<Conjunction>, rest: seq<nat>)
    requires PartlyReduced(w, ReduceAll(w.conjs, w.larger, unit), conjs, rest) && rest != []
    ensures rest[0] < |conjs|
    ensures var final := ReduceAll(w.conjs, w.larger, unit);
            && Reduced(conjs[rest[0]], unit) == final[rest[0]]
            && PartlyReduced(w, final, conjs[rest[0] := final[rest[0]]], rest[1..])
  {
    var index, tail := rest[0], rest[1..];
    assert index in rest && rest == [index] + tail;
    assert index !in tail by {
      forall k | 0 <= k < |tail| ensures tail[k] != index { assert tail[k] == rest[k + 1]; }
    }
  }

  /** The entries that stay and the entries that move, split at the same point. */
  ghost predicate PartlyListed(w: Work, final: seq<Conjunction>, sizeOne: seq<nat>, kept: seq<nat>, rest: seq<nat>) {
    && kept + StillLarger(final, rest) == StillLarger(final, w.larger)
    && sizeOne + Pushed(true, final, rest).value == w.sizeOne + Pushed(true, final, w.larger).value
  }

  lemma PartlyListedStep(w: Work, final: seq<Conjunction>, sizeOne: seq<nat>, kept: seq<nat>, rest: seq<nat>)
    requires PartlyListed(w, final, sizeOne, kept, rest) && rest != []
    ensures if IsLarger(final, rest[0]) then PartlyListed(w, final, sizeOne, kept + [rest[0]], rest[1..])
            else PartlyListed(w, final, sizeOne + [rest[0]], kept, rest[1..])
  {
    var l, p := StillLarger(final, rest[1..]), Pushed(true, final, rest[1..]).value;
    assert (kept + [rest[0]]) + l == kept + ([rest[0]] + l);
    assert (sizeOne + [rest[0]]) + p == sizeOne + ([rest[0]] + p);
  }

  /**
   The loop over the larger conjunctions. The list of their indices is `kept + rest`, with the iterator on the first
   entry of `rest`; erasing an entry drops it from the front of `rest`.
   */
  method RunPass(w: Work, unit: Expr) returns (r: Work)
    requires ValidWork(w)
    ensures r == Pass(true, w, unit).value
  {
    var conjs := w.conjs;
    var sizeOne: seq<nat> := w.sizeOne;
    var kept: seq<nat> := [];
    var rest: seq<nat> := w.larger;
    ghost var final := ReduceAll(w.conjs, w.larger, unit);
    while rest != []
      invariant PartlyReduced(w, final, conjs, rest) && PartlyListed(w, final, sizeOne, kept, rest)
      decreases |rest|
    {
      PartlyReducedStep(w, unit, conjs, rest);
      PartlyListedStep(w, final, sizeOne, kept, rest);
      var index := rest[0];
      conjs := conjs[index := Reduced(conjs[index], unit)];
      if |conjs[index]| > 1 {
        kept := kept + [index];
      } else {
        sizeOne := sizeOne + [index];
      }
      rest := rest[1..];
    }
    assert conjs == final;
    r := Work(conjs, sizeOne, kept);
  }

  // ----- The work loop -----

  /** What holds of the work lists as written, too: an entry on the single-conjunct list need not stand for one conjunct. */
  predicate Sane(w: Work) {
    && (forall i :: 0 <= i < |w.conjs| ==> w.conjs[i] != [])
    && (forall i :: i in w.larger ==> IsLarger(w.conjs, i))
    && InRange(w.sizeOne, |w.conjs|) && InRange(w.larger, |w.conjs|) && Increasing(w.larger)
  }

  lemma ValidIsSane(w: Work)
    requires ValidWork(w)
    ensures Sane(w)
  {
    forall k | 0 <= k < |w.sizeOne| ensures w.sizeOne[k] < |w.conjs| {
      assert w.sizeOne[k] in w.sizeOne && IsUnit(w.conjs, w.sizeOne[k]);
    }
  }

  lemma {:induction false} PushedInRange(captured: bool, conjs: seq<Conjunction>, larger: seq<nat>, n: nat)
    requires InRange(larger, n) && Pushed(captured, conjs, larger).Some?
    ensures InRange(Pushed(captured, conjs, larger).value, n)
    decreases |larger|
  {
    if larger != [] {
      PushedInRange(captured, conjs, larger[1..], n);
    }
  }

  lemma PassSane(captured: bool, w: Work, unit: Expr)
    requires Sane(w) && Pass(captured, w, unit).Some?
    ensures var w' := Pass(captured, w, unit).value;
      Sane(w') && |w'.conjs| == |w.conjs| && 2 * |w'.larger| + |w'.sizeOne| <= 2 * |w.larger| + |w.sizeOne|
  {
    var w' := Pass(captured, w, unit).value;
    PushedInRange(captured, w'.conjs, w.larger, |w.conjs|);
    StillLargerIncreasing(w'.conjs, w.larger);
    forall k | 0 <= k < |w'.larger| ensures w'.larger[k] < |w'.conjs| { assert w'.larger[k] in w'.larger; }
    forall i | 0 <= i < |w.conjs| ensures w'.conjs[i] != [] {
      assert i in w.larger ==> IsLarger(w.conjs, i);
    }
  }

  /** The last entry on the single-conjunct list is used and goes. */
  function Popped(w: Work): (r: (Work, Expr))
    requires Sane(w) && w.sizeOne != []
    ensures Sane(r.0)
  {
    var n := |w.sizeOne| - 1;
    (w.(sizeOne := w.sizeOne[..n]), w.conjs[w.sizeOne[n]][0])
  }

  /** The work loop. None stands for a read past the end of the list, which only the loop as written can come to. */
  function Absorb(captured: bool, w: Work): (r: Option<Work>)
    requires Sane(w)
    ensures captured ==> r.Some?
    ensures r.Some? ==> Sane(r.value) && |r.value.conjs| == |w.conjs|
    decreases 2 * |w.larger| + |w.sizeOne|
  {
    if w.sizeOne == [] then Some(w) else
      var (popped, unit) := Popped(w);
      var next := Pass(captured, popped, unit);
      if next.None? then None else
        PassSane(captured, popped, unit);
        Absorb(captured, next.value)
  }

  lemma PassShrinks(captured: bool, w: Work, unit: Expr, sizes: seq<nat>)
    requires Sane(w) && Within(w, sizes) && Pass(captured, w, unit).Some?
    ensures var w' := Pass(captured, w, unit).value; Within(w', sizes) && Subsets(w'.conjs, w.conjs)
  {
    forall i | 0 <= i < |w.conjs|
      ensures multiset(Reduced(w.conjs[i], unit)) <= multiset(w.conjs[i])
      ensures SumSizes(Reduced(w.conjs[i], unit)) <= SumSizes(w.conjs[i])
    {
      ReducedSmaller(w.conjs[i], unit);
    }
  }

  lemma {:induction false} AbsorbShrinks(captured: bool, w: Work, sizes: seq<nat>)
    requires Sane(w) && Within(w, sizes) && Absorb(captured, w).Some?
    ensures var w' := Absorb(captured, w).value; Within(w', sizes) && Subsets(w'.conjs, w.conjs)
    decreases 2 * |w.larger| + |w.sizeOne|
  {
    if w.sizeOne != [] {
      var (popped, unit) := Popped(w);
      PassSane(captured, popped, unit);
      PassShrinks(captured, popped, unit, sizes);
      AbsorbShrinks(captured, Pass(captured, popped, unit).value, sizes);
    }
  }

  /** Every single-conjunct disjunct is used once, including those the loop produces itself, and the value stays. */
  lemma {:induction false} AbsorbCorrect(w: Work, sizes: seq<nat>)
    requires Sane(w) && ValidWork(w) && Within(w, sizes)
    ensures var w' := Absorb(true, w).value; ValidWork(w') && SameValue(w.conjs, w'.conjs)
    decreases 2 * |w.larger| + |w.sizeOne|
  {
    if w.sizeOne != [] {
      var (popped, unit) := Popped(w);
      var last := w.sizeOne[|w.sizeOne| - 1];
      assert last in w.sizeOne && IsUnit(w.conjs, last);
      PassSane(true, popped, unit);
      PassCorrect(popped, unit, last, sizes);
      AbsorbCorrect(Pass(true, popped, unit).value, sizes);
    }
  }

  ghost function LooseSizes(conjs: seq<Conjunction>): (sizes: seq<nat>)
    ensures |sizes| == |conjs| && forall i :: 0 <= i < |conjs| ==> SumSizes(conjs[i]) < sizes[i]
  {
    seq(|conjs|, i requires 0 <= i < |conjs| => SumSizes(conjs[i]) + 1)
  }

  lemma PoppedValid(w: Work)
    requires Sane(w) && ValidWork(w) && w.sizeOne != []
    ensures var (popped, unit) := Popped(w);
      ValidWork(popped) && var last := w.sizeOne[|w.sizeOne| - 1]; last < |w.conjs| && popped.conjs[last] == [unit]
  {
    var last := w.sizeOne[|w.sizeOne| - 1];
    assert last in w.sizeOne && IsUnit(w.conjs, last);
  }

  /** One turn of the work loop. */
  lemma AbsorbStep(w: Work)
    requires Sane(w) && ValidWork(w) && w.sizeOne != []
    ensures var (popped, unit) := Popped(w);
      && ValidWork(popped)
      && var next := Pass(true, popped, unit).value;
         && Sane(next) && ValidWork(next) && Absorb(true, next) == Absorb(true, w)
         && 2 * |next.larger| + |next.sizeOne| < 2 * |w.larger| + |w.sizeOne|
  {
    var (popped, unit) := Popped(w);
    PoppedValid(w);
    PassSane(true, popped, unit);
    PassCorrect(popped, unit, w.sizeOne[|w.sizeOne| - 1], LooseSizes(w.conjs));
  }

  method AbsorbUnits(start: Work) returns (w: Work)
    requires Sane(start) && ValidWork(start)
    ensures w == Absorb(true, start).value
  {
    w := start;
    while w.sizeOne != []
      invariant Sane(w) && ValidWork(w) && Absorb(true, w) == Absorb(true, start)
      decreases 2 * |w.larger| + |w.sizeOne|
    {
      AbsorbStep(w);
      var (popped, unit) := Popped(w);
      w := RunPass(popped, unit);
    }
  }

  // ----- Factoring -----

  /** The conjuncts of the listed conjunctions, in the order in which the source counts them. */
  function Counted(conjs: seq<Conjunction>, indices: seq<nat>): seq<Expr>
    requires InRange(indices, |conjs|)
  {
    if indices == [] then []
    else Counted(conjs, indices[..|indices| - 1]) + conjs[indices[|indices| - 1]]
  }

  /**
   The order in which an unordered map lists its keys, given what was put into it; the source walks such a map to find
   the common conjuncts.
   */
  type Order = seq<Expr> -> seq<Expr>

  ghost predicate Distinct(es: seq<Expr>) {
    forall i, j :: 0 <= i < j < |es| ==> es[i] != es[j]
  }

  ghost predicate Enumerates(order: Order) {
    forall es :: Distinct(order(es)) && forall e :: e in order(es) <==> e in es
  }

  /** The keys that were counted `n` times. */
  function Frequent(keys: seq<Expr>, counted: seq<Expr>, n: nat): (r: seq<Expr>)
    ensures forall e :: e in r <==> e in keys && multiset(counted)[e] == n
  {
    if keys == [] then []
    else
      var rest := Frequent(keys[1..], counted, n);
      if multiset(counted)[keys[0]] == n then [keys[0]] + rest else rest
  }

  /** The conjuncts that occur as often as there are conjunctions. */
  function Commons(order: Order, conjs: seq<Conjunction>, indices: seq<nat>): seq<Expr>
    requires InRange(indices, |conjs|)
  {
    Frequent(order(Counted(conjs, indices)), Counted(conjs, indices), |indices|)
  }

  lemma {:induction false} FrequentDistinct(keys: seq<Expr>, counted: seq<Expr>, n: nat)
    requires Distinct(keys)
    ensures Distinct(Frequent(keys, counted, n))
    decreases |keys|
  {
    if keys != [] {
      FrequentDistinct(keys[1..], counted, n);
    }
  }

  lemma CommonsExact(order: Order, conjs: seq<Conjunction>, indices: seq<nat>)
    requires Enumerates(order) && InRange(indices, |conjs|) && indices != []
    ensures Distinct(Commons(order, conjs, indices))
    ensures forall e :: e in Commons(order, conjs, indices) <==> multiset(Counted(conjs, indices))[e] == |indices|
  {
    FrequentDistinct(order(Counted(conjs, indices)), Counted(conjs, indices), |indices|);
    forall e ensures multiset(Counted(conjs, indices))[e] == |indices| ==> e in Counted(conjs, indices) {
      assert e in Counted(conjs, indices) <==> e in multiset(Counted(conjs, indices));
    }
  }

  function Lookup(occurrences: map<Expr, nat>, e: Expr): nat {
    if e in occurrences then occurrences[e] else 0
  }

  function Occurrences(counted: seq<Expr>): map<Expr, nat> {
    if counted == [] then map[]
    else
      var n := |counted| - 1;
      var before := Occurrences(counted[..n]);
      before[counted[n] := Lookup(before, counted[n]) + 1]
  }

  lemma {:induction false} OccurrencesCount(counted: seq<Expr>, e: Expr)
    ensures Lookup(Occurrences(counted), e) == multiset(counted)[e]
    decreases |counted|
  {
    if counted != [] {
      var n := |counted| - 1;
      OccurrencesCount(counted[..n], e);
      assert counted == counted[..n] + [counted[n]];
    }
  }

  method CountConjunction(occurrences: map<Expr, nat>, counted: seq<Expr>, conj: Conjunction)
    returns (occurrences': map<Expr, nat>, counted': seq<Expr>)
    requires occurrences == Occurrences(counted)
    ensures counted' == counted + conj && occurrences' == Occurrences(counted')
  {
    occurrences', counted' := occurrences, counted;
    for i := 0 to |conj|
      invariant counted' == counted + conj[..i] && occurrences' == Occurrences(counted')
    {
      ghost var before := counted';
      occurrences', counted' := occurrences'[conj[i] := Lookup(occurrences', conj[i]) + 1], counted' + [conj[i]];
      assert counted'[..|counted'| - 1] == before;
      assert conj[..i + 1] == conj[..i] + [conj[i]];
    }
  }

  /** The loops that count conjuncts and collect those that are common. */
  method CommonConjuncts(order: Order, conjs: seq<Conjunction>, indices: seq<nat>) returns (commons: seq<Expr>)
    requires InRange(indices, |conjs|)
    ensures commons == Commons(order, conjs, indices)
  {
    var occurrences: map<Expr, nat> := map[];
    var counted: seq<Expr> := [];
    for k := 0 to |indices|
      invariant counted == Counted(conjs, indices[..k]) && occurrences == Occurrences(counted)
    {
      assert indices[..k + 1][..k] == indices[..k];
      occurrences, counted := CountConjunction(occurrences, counted, conjs[indices[k]]);
    }
    assert indices[..|indices|] == indices;
    commons := CollectFrequent(order(counted), occurrences, counted, |indices|);
  }

  method CollectFrequent(keys: seq<Expr>, occurrences: map<Expr, nat>, ghost counted: seq<Expr>, n: nat) returns (r: seq<Expr>)
    requires occurrences == Occurrences(counted)
    ensures r == Frequent(keys, counted, n)
  {
    r := [];
    for k := 0 to |keys|
      invariant r + Frequent(keys[k..], counted, n) == Frequent(keys, counted, n)
    {
      assert keys[k..][1..] == keys[k + 1..];
      OccurrencesCount(counted, keys[k]);
      if Lookup(occurrences, keys[k]) == n {
        r := r + [keys[k]];
      }
    }
  }

  function IndexOf(es: Conjunction, e: Expr): (k: nat)
    requires e in es
    ensures k < |es| && es[k] == e
  {
    if es[0] == e then 0 else 1 + IndexOf(es[1..], e)
  }

  /** Erases each of `commons` once. None stands for an erase that does not hit exactly one conjunct. */
  function TakeOut(es: Conjunction, commons: seq<Expr>): Option<Conjunction> {
    if commons == [] then Some(es)
    else if multiset(es)[commons[0]] != 1 then None
    else TakeOut(RemoveAt(es, IndexOf(es, commons[0])), commons[1..])
  }

  lemma {:induction false} TakeOutSplits(es: Conjunction, commons: seq<Expr>)
    requires TakeOut(es, commons).Some?
    ensures forall v :: AllHold(es, v) <==> AllHold(commons, v) && AllHold(TakeOut(es, commons).value, v)
    ensures SumSizes(TakeOut(es, commons).value) + |commons| <= SumSizes(es)
    decreases |commons|
  {
    if commons != [] {
      var k := IndexOf(es, commons[0]);
      TakeOutSplits(RemoveAt(es, k), commons[1..]);
      SumSizesRemove(es, k);
      forall v
        ensures AllHold(es, v) <==> AllHold(commons, v) && AllHold(TakeOut(es, commons).value, v)
      {
        RemoveAtHolds(es, k, v);
        RemoveAtHolds(commons, 0, v);
        assert RemoveAt(commons, 0) == commons[1..];
      }
    }
  }

  lemma {:induction false} SubsequenceSizes(terms: seq<Expr>, indices: seq<nat>, chosen: seq<Expr>, bound: nat)
    requires |chosen| == |indices| && Increasing(indices) && bound <= |terms|
    requires forall k :: 0 <= k < |indices| ==> indices[k] < bound && ExprSize(chosen[k]) < ExprSize(terms[indices[k]])
    ensures SumSizes(chosen) + |chosen| <= SumSizes(terms[..bound])
    decreases |indices|
  {
    if indices != [] {
      var n := |indices| - 1;
      var last := indices[n];
      SubsequenceSizes(terms, indices[..n], chosen[..n], last);
      assert chosen == chosen[..n] + [chosen[n]];
      SumSizesConcat(chosen[..n], [chosen[n]]);
      assert terms[..bound] == terms[..last] + ([terms[last]] + terms[last + 1..bound]);
      SumSizesConcat(terms[..last], [terms[last]] + terms[last + 1..bound]);
      assert [chosen[n]][1..] == [] && ([terms[last]] + terms[last + 1..bound])[1..] == terms[last + 1..bound];
    }
  }

  /** Erases the conjunctions that were factored, from the last index to the first. */
  function EraseIndices(conjs: seq<Conjunction>, indices: seq<nat>): (r: seq<Conjunction>)
    requires Increasing(indices) && InRange(indices, |conjs|)
    decreases |indices|
  {
    if indices == [] then conjs
    else
      var n := |indices| - 1;
      EraseIndices(RemoveAt(conjs, indices[n]), indices[..n])
  }

  lemma {:induction false} EraseIndicesValue(conjs: seq<Conjunction>, indices: seq<nat>, v: Valuation)
    requires Increasing(indices) && InRange(indices, |conjs|)
    ensures AnyConjunction(conjs, v) <==>
            || AnyConjunction(EraseIndices(conjs, indices), v)
            || exists k :: 0 <= k < |indices| && AllHold(conjs[indices[k]], v)
    decreases |indices|
  {
    if indices != [] {
      var n := |indices| - 1;
      var last := indices[n];
      var fewer := RemoveAt(conjs, last);
      EraseIndicesValue(fewer, indices[..n], v);
      assert AnyConjunction(conjs, v) <==> AnyConjunction(fewer, v) || AllHold(conjs[last], v) by {
        if i :| 0 <= i < |conjs| && AllHold(conjs[i], v) {
          if i < last { assert AllHold(fewer[i], v); } else if i > last { assert AllHold(fewer[i - 1], v); }
        }
      }
    }
  }

  lemma {:induction false} EraseIndicesNonempty(conjs: seq<Conjunction>, indices: seq<nat>)
    requires Increasing(indices) && InRange(indices, |conjs|)
    requires forall i :: 0 <= i < |conjs| ==> conjs[i] != []
    ensures forall i :: 0 <= i < |EraseIndices(conjs, indices)| ==> EraseIndices(conjs, indices)[i] != []
    decreases |indices|
  {
    if indices != [] {
      EraseIndicesNonempty(RemoveAt(conjs, indices[|indices| - 1]), indices[..|indices| - 1]);
    }
  }

  // ----- createDisjunction -----

  /** Each conjunction as one expression. */
  function Conjoined(conjs: seq<Conjunction>): (r: seq<Expr>)
    requires forall i :: 0 <= i < |conjs| ==> conjs[i] != []
    ensures |r| == |conjs|
  {
    seq(|conjs|, i requires 0 <= i < |conjs| => NaryOrSingle(ShortCircuitAnd, conjs[i]))
  }

  function Join(first: seq<Expr>, conjs: seq<Conjunction>): Expr
    requires |first| + |conjs| > 0 && forall i :: 0 <= i < |conjs| ==> conjs[i] != []
  {
    NaryOrSingle(ShortCircuitOr, first + Conjoined(conjs))
  }

  lemma JoinHolds(first: seq<Expr>, conjs: seq<Conjunction>, v: Valuation)
    requires |first| + |conjs| > 0 && forall i :: 0 <= i < |conjs| ==> conjs[i] != []
    ensures Holds(Join(first, conjs), v) <==> AnyHolds(first, v) || AnyConjunction(conjs, v)
  {
    var joined := Conjoined(conjs);
    forall i | 0 <= i < |conjs| ensures Holds(joined[i], v) <==> AllHold(conjs[i], v) { AndOrHold(conjs[i], v); }
    AndOrHold(first + joined, v);
    AnyHoldsConcat(first, joined, v);
    assert AnyHolds(joined, v) <==> AnyConjunction(conjs, v) by {
      if i :| 0 <= i < |conjs| && AllHold(conjs[i], v) { assert Holds(joined[i], v); }
    }
  }

  method JoinConjunctions(first: seq<Expr>, conjs: seq<Conjunction>) returns (r: Expr)
    requires |first| + |conjs| > 0 && forall i :: 0 <= i < |conjs| ==> conjs[i] != []
    ensures r == Join(first, conjs)
  {
    var results := first;
    for k := 0 to |conjs|
      invariant results == first + Conjoined(conjs)[..k]
    {
      results := results + [NaryOrSingle(ShortCircuitAnd, conjs[k])];
    }
    assert Conjoined(conjs)[..|conjs|] == Conjoined(conjs);
    r := NaryOrSingle(ShortCircuitOr, results);
  }

  function AddConjunction(w: Work, conj: Conjunction): (r: Work)
    requires ValidWork(w) && conj != []
    ensures ValidWork(r) && r.conjs == w.conjs + [conj]
  {
    assert forall i :: IsUnit(w.conjs, i) ==> IsUnit(w.conjs + [conj], i);
    assert forall i :: IsLarger(w.conjs, i) ==> IsLarger(w.conjs + [conj], i);
    if |conj| == 1 then Work(w.conjs + [conj], w.sizeOne + [|w.conjs|], w.larger)
    else
      assert forall k :: 0 <= k < |w.larger| ==> w.larger[k] in w.larger && IsLarger(w.conjs, w.larger[k]);
      Work(w.conjs + [conj], w.sizeOne, w.larger + [|w.conjs|])
  }

  /** No term is an empty conjunction. */
  predicate Splittable(terms: seq<Expr>) {
    forall i :: 0 <= i < |terms| ==> SplitConjunction(terms[i]) != []
  }

  /** The work lists for `terms` before anything is absorbed. */
  function Split(terms: seq<Expr>): (w: Work)
    requires Splittable(terms)
    ensures ValidWork(w) && |w.conjs| == |terms|
  {
    if terms == [] then Work([], [], [])
    else
      var n := |terms| - 1;
      AddConjunction(Split(terms[..n]), SplitConjunction(terms[n]))
  }

  ghost function Sizes(terms: seq<Expr>): (sizes: seq<nat>)
    ensures |sizes| == |terms|
  {
    seq(|terms|, i requires 0 <= i < |terms| => ExprSize(terms[i]))
  }

  lemma {:induction false} SplitAt(terms: seq<Expr>)
    requires Splittable(terms)
    ensures forall i :: 0 <= i < |terms| ==> Split(terms).conjs[i] == SplitConjunction(terms[i])
    ensures forall i :: i in Split(terms).sizeOne <==> 0 <= i < |terms| && |SplitConjunction(terms[i])| == 1
    ensures forall i :: i in Split(terms).larger <==> 0 <= i < |terms| && |SplitConjunction(terms[i])| > 1
    decreases |terms|
  {
    if terms != [] {
      SplitAt(terms[..|terms| - 1]);
    }
  }

  lemma SplitSane(terms: seq<Expr>)
    requires Splittable(terms)
    ensures Sane(Split(terms)) && Within(Split(terms), Sizes(terms))
  {
    ValidIsSane(Split(terms));
    SplitAt(terms);
  }

  method SplitTerms(terms: seq<Expr>) returns (w: Work)
    requires Splittable(terms)
    ensures w == Split(terms)
  {
    w := Work([], [], []);
    for i := 0 to |terms|
      invariant w == Split(terms[..i])
    {
      assert terms[..i + 1][..i] == terms[..i];
      w := AddConjunction(w, SplitConjunction(terms[i]));
    }
    assert terms[..|terms|] == terms;
  }

  /** What is left of a conjunction without the common conjuncts; an empty rest trips an assertion. */
  function Rest(conj: Conjunction, commons: seq<Expr>): Option<Expr> {
    match TakeOut(conj, commons)
    case Some(es) => if es == [] then None else Some(NaryOrSingle(ShortCircuitAnd, es))
    case None => None
  }

  lemma RestSplits(conj: Conjunction, commons: seq<Expr>)
    requires commons != [] && Rest(conj, commons).Some?
    ensures forall v :: AllHold(conj, v) <==> AllHold(commons, v) && Holds(Rest(conj, commons).value, v)
    ensures ExprSize(Rest(conj, commons).value) <= SumSizes(conj)
  {
    var es := TakeOut(conj, commons).value;
    TakeOutSplits(conj, commons);
    forall v ensures Holds(Rest(conj, commons).value, v) <==> AllHold(es, v) { AndOrHold(es, v); }
    assert |es| == 1 ==> es[1..] == [];
  }

  /** What is left of each listed conjunction. */
  function Rests(conjs: seq<Conjunction>, indices: seq<nat>, commons: seq<Expr>): (r: Option<seq<Expr>>)
    requires InRange(indices, |conjs|)
    ensures r.Some? ==> |r.value| == |indices|
  {
    if indices == [] then Some([])
    else
      var n := |indices| - 1;
      var before, last := Rests(conjs, indices[..n], commons), Rest(conjs[indices[n]], commons);
      if before.None? || last.None? then None else Some(before.value + [last.value])
  }

  lemma {:induction false} RestsAt(conjs: seq<Conjunction>, indices: seq<nat>, commons: seq<Expr>)
    requires InRange(indices, |conjs|)
    ensures Rests(conjs, indices, commons).Some? <==> forall k :: 0 <= k < |indices| ==> Rest(conjs[indices[k]], commons).Some?
    ensures Rests(conjs, indices, commons).Some? ==>
              forall k :: 0 <= k < |indices| ==> Rest(conjs[indices[k]], commons) == Some(Rests(conjs, indices, commons).value[k])
    decreases |indices|
  {
    if indices != [] {
      RestsAt(conjs, indices[..|indices| - 1], commons);
    }
  }

  /** Factoring leaves smaller terms. */
  lemma RestsSmaller(terms: seq<Expr>, w: Work, commons: seq<Expr>)
    requires Sane(w) && Within(w, Sizes(terms)) && commons != [] && w.larger != [] && Rests(w.conjs, w.larger, commons).Some?
    ensures SumSizes(Rests(w.conjs, w.larger, commons).value) < SumSizes(terms)
  {
    var rests := Rests(w.conjs, w.larger, commons).value;
    RestsAt(w.conjs, w.larger, commons);
    forall k | 0 <= k < |w.larger| ensures ExprSize(rests[k]) < ExprSize(terms[w.larger[k]]) {
      assert w.larger[k] in w.larger;
      RestSplits(w.conjs[w.larger[k]], commons);
    }
    SubsequenceSizes(terms, w.larger, rests, |terms|);
    assert terms[..|terms|] == terms;
  }

  /** The loop that takes the common conjuncts out of each larger conjunction. */
  method TakeOutOfAll(conjs: seq<Conjunction>, indices: seq<nat>, commons: seq<Expr>) returns (r: Option<seq<Expr>>)
    requires InRange(indices, |conjs|)
    ensures r == Rests(conjs, indices, commons)
  {
    var rests: seq<Expr> := [];
    RestsAt(conjs, indices, commons);
    for k := 0 to |indices|
      invariant Rests(conjs, indices[..k], commons) == Some(rests)
    {
      assert indices[..k + 1][..k] == indices[..k];
      var rest := Rest(conjs[indices[k]], commons);
      if rest.None? {
        return None;
      }
      rests := rests + [rest.value];
    }
    assert indices[..|indices|] == indices;
    r := Some(rests);
  }

  lemma SplitTermsValue(terms: seq<Expr>, v: Valuation)
    requires Splittable(terms)
    ensures AnyConjunction(Split(terms).conjs, v) <==> AnyHolds(terms, v)
  {
    SplitAt(terms);
    forall i | 0 <= i < |terms| ensures AllHold(Split(terms).conjs[i], v) <==> Holds(terms[i], v) { SplitHolds(terms[i], v); }
  }

  /** Factoring: the larger conjunctions together are the common conjuncts and the disjunction of what is left. */
  lemma FactoredValue(w: Work, commons: seq<Expr>, inner: Expr, product: Expr, v: Valuation)
    requires Sane(w) && commons != [] && Rests(w.conjs, w.larger, commons).Some?
    requires Holds(inner, v) <==> AnyHolds(Rests(w.conjs, w.larger, commons).value, v)
    requires Holds(product, v) <==> Holds(And(commons + [inner]), v)
    ensures AnyConjunction(w.conjs, v) <==> AnyHolds([product], v) || AnyConjunction(EraseIndices(w.conjs, w.larger), v)
  {
    var remaining := Rests(w.conjs, w.larger, commons).value;
    EraseIndicesValue(w.conjs, w.larger, v);
    AndOrHold(commons + [inner], v);
    AllHoldConcat(commons, [inner], v);
    assert AllHold([inner], v) <==> Holds(inner, v) by { assert [inner][0] == inner; }
    assert AnyHolds([product], v) <==> Holds(product, v) by { assert [product][0] == product; }
    RestsAt(w.conjs, w.larger, commons);
    forall k | 0 <= k < |w.larger|
      ensures AllHold(w.conjs[w.larger[k]], v) <==> AllHold(commons, v) && Holds(remaining[k], v)
    {
      RestSplits(w.conjs[w.larger[k]], commons);
    }
  }

  // ----- createDisjunction -----

  /** What is left to factor once single-conjunct disjuncts are absorbed; nothing if there were none to begin with. */
  predicate Factors(order: Order, w: Work)
    requires Sane(w)
  {
    |w.larger| > 1 && Commons(order, w.conjs, w.larger) != []
  }

  /** The product that replaces the larger conjunctions. */
  function Factored(order: Order, w: Work, inner: Expr): Expr
    requires Sane(w) && Factors(order, w)
  {
    EraseIndicesNonempty(w.conjs, w.larger);
    Join([NaryOrSingle(ShortCircuitAnd, Commons(order, w.conjs, w.larger) + [inner])], EraseIndices(w.conjs, w.larger))
  }

  /**
   The disjunction of `terms`, or None where an assertion of the source fails or it leaves a list: no terms, an empty
   conjunction, a common conjunct that does not occur exactly once, a conjunction that consists of common conjuncts only,
   or, if indices are read after they are erased, a read past the end.
   */
  function Create(captured: bool, order: Order, terms: seq<Expr>): Option<Expr>
    decreases SumSizes(terms)
  {
    if terms == [] || !Splittable(terms) then None
    else
      var start := Split(terms);
      SplitSane(terms);
      if start.sizeOne == [] then Some(Join([], start.conjs))
      else
        var absorbed := Absorb(captured, start);
        if absorbed.None? then None
        else
          var w := absorbed.value;
          if !Factors(order, w) then Some(Join([], w.conjs))
          else
            var remaining := Rests(w.conjs, w.larger, Commons(order, w.conjs, w.larger));
            if remaining.None? then None
            else
              AbsorbShrinks(captured, start, Sizes(terms));
              RestsSmaller(terms, w, Commons(order, w.conjs, w.larger));
              var inner := Create(captured, order, remaining.value);
              if inner.None? then None else Some(Factored(order, w, inner.value))
  }

  lemma CreateWithoutFactors(captured: bool, order: Order, terms: seq<Expr>, start: Work, w: Work)
    requires terms != [] && Splittable(terms) && Split(terms) == start && start.sizeOne != [] && Sane(start)
    requires Absorb(captured, start) == Some(w) && !Factors(order, w)
    ensures |w.conjs| > 0 && Create(captured, order, terms) == Some(Join([], w.conjs))
  {
  }

  lemma CreateWithFactors(captured: bool, order: Order, terms: seq<Expr>, start: Work, w: Work, remaining: Option<seq<Expr>>)
    requires terms != [] && Splittable(terms) && Split(terms) == start && start.sizeOne != [] && Sane(start)
    requires Absorb(captured, start) == Some(w) && Factors(order, w)
    requires Rests(w.conjs, w.larger, Commons(order, w.conjs, w.larger)) == remaining
    ensures remaining.None? ==> Create(captured, order, terms).None?
    ensures remaining.Some? && Create(captured, order, remaining.value).Some? ==>
      Create(captured, order, terms) == Some(Factored(order, w, Create(captured, order, remaining.value).value))
  {
  }

  /** With the index captured, the result is equivalent to the disjunction of the terms. */
  lemma {:induction false} CreateCorrect(order: Order, terms: seq<Expr>, v: Valuation)
    requires Create(true, order, terms).Some?
    ensures Holds(Create(true, order, terms).value, v) <==> AnyHolds(terms, v)
    decreases SumSizes(terms)
  {
    var start := Split(terms);
    SplitSane(terms);
    SplitTermsValue(terms, v);
    if start.sizeOne == [] {
      JoinHolds([], start.conjs, v);
    } else {
      var w := Absorb(true, start).value;
      AbsorbCorrect(start, Sizes(terms));
      if !Factors(order, w) {
        JoinHolds([], w.conjs, v);
      } else {
        var commons := Commons(order, w.conjs, w.larger);
        var remaining := Rests(w.conjs, w.larger, commons).value;
        AbsorbShrinks(true, start, Sizes(terms));
        RestsSmaller(terms, w, commons);
        CreateCorrect(order, remaining, v);
        FactoredHolds(order, w, Create(true, order, remaining).value, v);
      }
    }
  }

  lemma FactoredHolds(order: Order, w: Work, inner: Expr, v: Valuation)
    requires Sane(w) && Factors(order, w) && Rests(w.conjs, w.larger, Commons(order, w.conjs, w.larger)).Some?
    requires Holds(inner, v) <==> AnyHolds(Rests(w.conjs, w.larger, Commons(order, w.conjs, w.larger)).value, v)
    ensures Holds(Factored(order, w, inner), v) <==> AnyConjunction(w.conjs, v)
  {
    var commons := Commons(order, w.conjs, w.larger);
    var product := NaryOrSingle(ShortCircuitAnd, commons + [inner]);
    EraseIndicesNonempty(w.conjs, w.larger);
    FactoredValue(w, commons, inner, product, v);
    JoinHolds([product], EraseIndices(w.conjs, w.larger), v);
  }

  /** createDisjunction as it runs, with the index captured. */
  method CreateDisjunction(order: Order, terms: seq<Expr>) returns (r: Option<Expr>)
    ensures r == Create(true, order, terms)
    decreases SumSizes(terms)
  {
    if terms == [] || !Splittable(terms) {
      return None;
    }
    var w := SplitTerms(terms);
    SplitSane(terms);
    ghost var start := w;
    var factored: seq<Expr> := [];
    var conjs := w.conjs;
    if w.sizeOne != [] {
      w := AbsorbUnits(w);
      conjs := w.conjs;
      if |w.larger| > 1 {
        var commons := CommonConjuncts(order, w.conjs, w.larger);
        if commons != [] {
          var remaining := TakeOutOfAll(w.conjs, w.larger, commons);
          if remaining.None? {
            return None;
          }
          AbsorbShrinks(true, start, Sizes(terms));
          RestsSmaller(terms, w, commons);
          var inner := CreateDisjunction(order, remaining.value);
          if inner.None? {
            return None;
          }
          factored := [NaryOrSingle(ShortCircuitAnd, commons + [inner.value])];
          conjs := EraseIndices(w.conjs, w.larger);
          EraseIndicesNonempty(w.conjs, w.larger);
        }
      }
    }
    var joined := JoinConjunctions(factored, conjs);
    r := Some(joined);
  }
}
