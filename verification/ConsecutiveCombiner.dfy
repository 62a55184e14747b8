/**
 The consecutive combiner: merges neighbouring `if`s on the same or opposite conditions, removes `if`s that do
 nothing, and turns `do { if (c) A } while (c)` into `while (c) A`.

 The equality test on conditions is a parameter: the results hold for any test that only identifies conditions
 of equal truth value.
 */
module ConsecutiveCombiner {
  import opened Expressions
  import opened Statements

  type Equality = (Expr, Expr) -> bool

  ghost predicate Sound(same: Equality) {
    forall a, b, v :: same(a, b) ==> (Holds(a, v) <==> Holds(b, v))
  }

  /** countNegationDepth: the expression under all leading negations, and whether their number is odd. */
  function CountNegationDepth(e: Expr): (r: (Expr, bool))
    ensures forall v :: Holds(e, v) <==> (Holds(r.0, v) != r.1)
    ensures !r.0.Not?
  {
    if e.Not? then
      var r := CountNegationDepth(e.e);
      (r.0, !r.1)
    else (e, false)
  }

  predicate LogicallyOpposite(same: Equality, a: Expr, b: Expr) {
    var x, y := CountNegationDepth(a), CountNegationDepth(b);
    x.1 != y.1 && same(x.0, y.0)
  }

  // ----- The number of statements in a tree, which bounds the recursion -----

  function SizeOne(p: Stmt): nat
    decreases p, 0
  {
    match p
    case IfElse(_, a, b) => 1 + Size(a) + Size(b)
    case Loop(_, _, body) => 1 + Size(body)
    case _ => 1
  }

  function Size(p: seq<Stmt>): nat
    decreases p, 1
  {
    if p == [] then 0 else SizeOne(p[0]) + Size(p[1..])
  }

  lemma {:induction false} SizeConcat(p: seq<Stmt>, q: seq<Stmt>)
    ensures Size(p + q) == Size(p) + Size(q)
    decreases |p|
  {
    if p == [] {
      assert p + q == q;
    } else {
      assert (p + q)[1..] == p[1..] + q;
      SizeConcat(p[1..], q);
    }
  }

  lemma SizeSingle(p: Stmt)
    ensures Size([p]) == SizeOne(p)
  {
    assert [p][1..] == [];
  }

  lemma SizeSnoc(p: seq<Stmt>)
    requires p != []
    ensures Size(p) == Size(p[..|p| - 1]) + SizeOne(p[|p| - 1])
  {
    assert p == p[..|p| - 1] + [p[|p| - 1]];
    SizeConcat(p[..|p| - 1], [p[|p| - 1]]);
    SizeSingle(p[|p| - 1]);
  }

  // ----- The pass -----

  /** The pair of branch bodies that merging `next` into `last` gives, or None if they do not merge. */
  function Merged(same: Equality, last: Stmt, next: Stmt): Option<(seq<Stmt>, seq<Stmt>)>
    requires last.IfElse? && next.IfElse?
  {
    if same(next.cond, last.cond) then Some((last.ifBody + next.ifBody, last.elseBody + next.elseBody))
    else if LogicallyOpposite(same, next.cond, last.cond) then
      Some((last.ifBody + next.elseBody, last.elseBody + next.ifBody))
    else None
  }

  lemma MergedSize(same: Equality, last: Stmt, next: Stmt)
    requires last.IfElse? && next.IfElse? && Merged(same, last, next).Some?
    ensures var m := Merged(same, last, next).value;
            Size(m.0) + Size(m.1) + 2 == SizeOne(last) + SizeOne(next)
  {
    SizeConcat(last.ifBody, next.ifBody);
    SizeConcat(last.ifBody, next.elseBody);
    SizeConcat(last.elseBody, next.ifBody);
    SizeConcat(last.elseBody, next.elseBody);
  }

  predicate Mergeable(same: Equality, acc: seq<Stmt>, next: Stmt) {
    acc != [] && acc[|acc| - 1].IfElse? && next.IfElse? && Merged(same, acc[|acc| - 1], next).Some?
  }

  /** The loop of optimizeSequence: `acc` is the new sequence so far, `rest` what is left of the list. */
  function MergeRuns(same: Equality, acc: seq<Stmt>, rest: seq<Stmt>): (r: seq<Stmt>)
    ensures Size(r) <= Size(acc) + Size(rest)
    decreases Size(acc) + Size(rest), 2, |rest|
  {
    if rest == [] then acc
    else MergeRuns(same, Absorb(same, acc, rest[0]), rest[1..])
  }

  /** One turn of that loop. */
  function Absorb(same: Equality, acc: seq<Stmt>, next: Stmt): (r: seq<Stmt>)
    ensures Size(r) <= Size(acc) + SizeOne(next)
    decreases Size(acc) + SizeOne(next), 1, 0
  {
    if Mergeable(same, acc, next) then
      var last := acc[|acc| - 1];
      var m := Merged(same, last, next).value;
      MergedSize(same, last, next); SizeSnoc(acc);
      var merged := IfElse(last.cond, OptimizeSequence(same, m.0), OptimizeSequence(same, m.1));
      SizeConcat(acc[..|acc| - 1], [merged]); SizeSingle(merged);
      acc[..|acc| - 1] + [merged]
    else
      SizeConcat(acc, [next]); SizeSingle(next);
      acc + [next]
  }

  function OptimizeSequence(same: Equality, list: seq<Stmt>): (r: seq<Stmt>)
    ensures Size(r) <= Size(list)
    decreases Size(list), 3, 0
  {
    VisitAll(same, MergeRuns(same, [], list))
  }

  function VisitAll(same: Equality, list: seq<Stmt>): (r: seq<Stmt>)
    ensures Size(r) <= Size(list)
    decreases Size(list), 1, |list|
  {
    if list == [] then []
    else
      var first, others := Visit(same, list[0]), VisitAll(same, list[1..]);
      SizeConcat(first, others);
      first + others
  }

  function Visit(same: Equality, p: Stmt): (r: seq<Stmt>)
    ensures Size(r) <= SizeOne(p)
    decreases SizeOne(p), 0, 0
  {
    match p
    case IfElse(c, a, b) =>
      RebuildIf(c, OptimizeSequence(same, a), OptimizeSequence(same, b))
    case Loop(c, position, body) =>
      RebuildLoop(same, c, position, OptimizeSequence(same, body))
    case _ => SizeSingle(p); [p]
  }

  /** What visitIfElse makes of an `if` whose branches are already optimised. */
  function RebuildIf(c: Expr, a: seq<Stmt>, b: seq<Stmt>): (r: seq<Stmt>)
    ensures Size(r) <= 1 + Size(a) + Size(b)
  {
    if a == [] && b == [] then []
    else
      var (c, a, b) := if a == [] then (Negate(c), b, a) else (c, a, b);
      if c == True then a
      else if c == False then b
      else
        var n := CountNegationDepth(c);
        var p := if a != [] && b != [] && n.1 then IfElse(n.0, b, a) else IfElse(c, a, b);
        SizeSingle(p);
        [p]
  }

  /** What visitLoop makes of a loop whose body is already optimised. */
  function RebuildLoop(same: Equality, c: Expr, position: Position, body: seq<Stmt>): (r: seq<Stmt>)
    ensures Size(r) <= 1 + Size(body)
  {
    var p := if position.PostTested? && |body| == 1 && body[0].IfElse? && body[0].elseBody == [] && same(body[0].cond, c)
             then Loop(c, PreTested, body[0].ifBody)
             else Loop(c, position, body);
    SizeSingle(p);
    if |body| == 1 then SizeSingle(body[0]); [p] else [p]
  }

  /** optimizeSequence as it runs: the list is consumed from the front while the new sequence grows at the back. */
  method CombineSequence(same: Equality, input: seq<Stmt>) returns (newSequence: seq<Stmt>)
    ensures newSequence == OptimizeSequence(same, input)
    decreases Size(input), 3, 0
  {
    var list := input;
    newSequence := [];
    while list != []
      invariant Size(newSequence) + Size(list) <= Size(input)
      invariant MergeRuns(same, newSequence, list) == MergeRuns(same, [], input)
      decreases |list|
    {
      var stmt := list[0];
      if Mergeable(same, newSequence, stmt) {
        var last := newSequence[|newSequence| - 1];
        var m := Merged(same, last, stmt).value;
        MergedSize(same, last, stmt);
        SizeSnoc(newSequence);
        var ifBody := CombineSequence(same, m.0);
        var elseBody := CombineSequence(same, m.1);
        newSequence := newSequence[..|newSequence| - 1] + [IfElse(last.cond, ifBody, elseBody)];
        assert newSequence == Absorb(same, newSequence[..|newSequence| - 1] + [last], stmt);
      } else {
        SizeConcat(newSequence, [stmt]);
        SizeSingle(stmt);
        newSequence := newSequence + [stmt];
      }
      list := list[1..];
    }
    newSequence := VisitEach(same, newSequence);
  }

  lemma ConcatAssociative<T>(a: seq<T>, b: seq<T>, c: seq<T>)
    ensures (a + b) + c == a + (b + c)
  {
  }

  /** visitAll: pops every statement and appends what visiting it returns. */
  method VisitEach(same: Equality, input: seq<Stmt>) returns (result: seq<Stmt>)
    ensures result == VisitAll(same, input)
    decreases Size(input), 1, 0
  {
    var list := input;
    result := [];
    while list != []
      invariant Size(list) <= Size(input)
      invariant result + VisitAll(same, list) == VisitAll(same, input)
      decreases |list|
    {
      var visited := VisitNode(same, list[0]);
      ConcatAssociative(result, visited, VisitAll(same, list[1..]));
      result, list := result + visited, list[1..];
    }
  }

  method VisitNode(same: Equality, p: Stmt) returns (result: seq<Stmt>)
    ensures result == Visit(same, p)
    decreases SizeOne(p), 0, 0
  {
    match p
    case IfElse(c, a, b) =>
      var ifBody := CombineSequence(same, a);
      var elseBody := CombineSequence(same, b);
      result := RebuildIf(c, ifBody, elseBody);
    case Loop(c, position, body) =>
      var loopBody := CombineSequence(same, body);
      result := RebuildLoop(same, c, position, loopBody);
    case _ =>
      result := [p];
  }

  // ----- What the pass does to statements -----

  function Negations(n: nat, e: Expr): Expr {
    if n == 0 then e else Not(Negations(n - 1, e))
  }

  /** Under their negations, the numbers of which add up to an odd one, the test finds the conditions equal. */
  ghost predicate Opposite(same: Equality, a: Expr, b: Expr) {
    exists m: nat, n: nat, x, y ::
      a == Negations(m, x) && b == Negations(n, y) && !x.Not? && !y.Not? && (m + n) % 2 == 1 && same(x, y)
  }

  lemma {:induction false} NegationsCounted(n: nat, e: Expr)
    requires !e.Not?
    ensures CountNegationDepth(Negations(n, e)) == (e, n % 2 == 1)
    decreases n
  {
    if n > 0 {
      NegationsCounted(n - 1, e);
    }
  }

  lemma {:induction false} CountedNegations(e: Expr) returns (n: nat)
    ensures e == Negations(n, CountNegationDepth(e).0) && CountNegationDepth(e).1 == (n % 2 == 1)
    decreases e
  {
    n := 0;
    if e.Not? {
      n := CountedNegations(e.e);
      n := n + 1;
    }
  }

  lemma OppositeExact(same: Equality, a: Expr, b: Expr)
    ensures LogicallyOpposite(same, a, b) <==> Opposite(same, a, b)
  {
    if LogicallyOpposite(same, a, b) {
      var m := CountedNegations(a);
      var n := CountedNegations(b);
      assert a == Negations(m, CountNegationDepth(a).0) && b == Negations(n, CountNegationDepth(b).0) && (m + n) % 2 == 1;
    }
    if m: nat, n: nat, x, y :|
        a == Negations(m, x) && b == Negations(n, y) && !x.Not? && !y.Not? && (m + n) % 2 == 1 && same(x, y) {
      NegationsCounted(m, x);
      NegationsCounted(n, y);
    }
  }

  /** Two neighbours that the pass is there to merge. */
  ghost predicate Neighbours(same: Equality, last: Stmt, next: Stmt) {
    last.IfElse? && next.IfElse? && (same(next.cond, last.cond) || Opposite(same, next.cond, last.cond))
  }

  ghost predicate NoNeighbours(same: Equality, list: seq<Stmt>) {
    forall i :: 0 < i < |list| ==> !Neighbours(same, list[i - 1], list[i])
  }

  lemma AbsorbLeavesNone(same: Equality, acc: seq<Stmt>, next: Stmt)
    requires NoNeighbours(same, acc)
    ensures NoNeighbours(same, Absorb(same, acc, next))
  {
    var r := Absorb(same, acc, next);
    if acc != [] && acc[|acc| - 1].IfElse? && next.IfElse? {
      OppositeExact(same, next.cond, acc[|acc| - 1].cond);
    }
    forall i | 0 < i < |r| ensures !Neighbours(same, r[i - 1], r[i]) {
      if i < |acc| {
        assert !Neighbours(same, acc[i - 1], acc[i]);
      }
    }
  }

  /** Merging leaves no two neighbouring `if`s on equal or opposite conditions. */
  lemma {:induction false} MergeLeavesNone(same: Equality, acc: seq<Stmt>, rest: seq<Stmt>)
    requires NoNeighbours(same, acc)
    ensures NoNeighbours(same, MergeRuns(same, acc, rest))
    decreases |rest|
  {
    if rest != [] {
      AbsorbLeavesNone(same, acc, rest[0]);
      MergeLeavesNone(same, Absorb(same, acc, rest[0]), rest[1..]);
    }
  }

  /**
   An `if` that the pass leaves does something if its condition holds, and either tests no literal or has two branches, which
   are in the order in which its condition needs no negation; a loop does not begin by testing in an `if` what it tests at its end.
   */
  ghost predicate TidyOne(same: Equality, p: Stmt)
    decreases p, 0
  {
    match p
    case IfElse(c, a, b) =>
      && a != []
      && (if b == [] then c != True && c != False else forall n: nat, x :: c == Negations(n, x) && !x.Not? ==> n % 2 == 0)
      && Tidy(same, a) && Tidy(same, b)
    case Loop(c, position, body) =>
      && (position.PostTested? ==> forall d, x :: body == [IfElse(d, x, [])] ==> !same(d, c))
      && Tidy(same, body)
    case _ => true
  }

  ghost predicate Tidy(same: Equality, list: seq<Stmt>)
    decreases list, 1
  {
    forall i :: 0 <= i < |list| ==> TidyOne(same, list[i])
  }

  lemma RebuildIfTidy(same: Equality, c: Expr, a: seq<Stmt>, b: seq<Stmt>)
    requires Tidy(same, a) && Tidy(same, b)
    ensures Tidy(same, RebuildIf(c, a, b))
  {
    EvenlyNegated(c);
    EvenlyNegated(CountNegationDepth(c).0);
    EvenlyNegated(Negate(c));
  }

  lemma EvenlyNegated(c: Expr)
    ensures !CountNegationDepth(c).1 ==> forall n: nat, x :: c == Negations(n, x) && !x.Not? ==> n % 2 == 0
  {
    forall n: nat, x | c == Negations(n, x) && !x.Not? ensures CountNegationDepth(c).1 == (n % 2 == 1) {
      NegationsCounted(n, x);
    }
  }

  lemma OneStatement(same: Equality, p: Stmt)
    ensures OptimizeSequence(same, [p]) == Visit(same, p)
  {
    assert [p][1..] == [] && [] + [p] == [p];
    assert MergeRuns(same, [], [p]) == MergeRuns(same, Absorb(same, [], p), [p][1..]) == [p];
    assert VisitAll(same, [p]) == Visit(same, p) + VisitAll(same, [p][1..]);
  }

  /** What is inside an `if` or a loop is combined as it would be alone. */
  lemma CombinedInside(same: Equality, c: Expr, a: seq<Stmt>, b: seq<Stmt>)
    requires OptimizeSequence(same, a) != []
    ensures c.Leaf? ==>
      OptimizeSequence(same, [IfElse(c, a, b)]) == [IfElse(c, OptimizeSequence(same, a), OptimizeSequence(same, b))]
    ensures OptimizeSequence(same, [Loop(c, PreTested, a)]) == [Loop(c, PreTested, OptimizeSequence(same, a))]
  {
    OneStatement(same, IfElse(c, a, b));
    OneStatement(same, Loop(c, PreTested, a));
  }

  /** A literal condition chooses its branch. */
  lemma LiteralIf(a: seq<Stmt>, b: seq<Stmt>)
    ensures RebuildIf(True, a, b) == a && RebuildIf(False, a, b) == b
  {
  }

  lemma RebuildLoopTidy(same: Equality, c: Expr, position: Position, body: seq<Stmt>)
    requires Tidy(same, body)
    ensures Tidy(same, RebuildLoop(same, c, position, body))
  {
    assert body != [] ==> TidyOne(same, body[0]);
  }

  lemma {:induction false} VisitTidy(same: Equality, p: Stmt)
    ensures Tidy(same, Visit(same, p))
    decreases SizeOne(p), 0, 0
  {
    match p
    case IfElse(c, a, b) =>
      OptimizeTidy(same, a);
      OptimizeTidy(same, b);
      RebuildIfTidy(same, c, OptimizeSequence(same, a), OptimizeSequence(same, b));
    case Loop(c, position, body) =>
      OptimizeTidy(same, body);
      RebuildLoopTidy(same, c, position, OptimizeSequence(same, body));
    case _ =>
  }

  lemma {:induction false} VisitAllTidy(same: Equality, list: seq<Stmt>)
    ensures Tidy(same, VisitAll(same, list))
    decreases Size(list), 1, |list|
  {
    if list != [] {
      VisitTidy(same, list[0]);
      VisitAllTidy(same, list[1..]);
    }
  }

  /** Whatever the input, the pass leaves a tidy tree. */
  lemma {:induction false} OptimizeTidy(same: Equality, list: seq<Stmt>)
    ensures Tidy(same, OptimizeSequence(same, list))
    decreases Size(list), 3, 0
  {
    VisitAllTidy(same, MergeRuns(same, [], list));
  }

  // ----- Branches that keep the value of their condition -----

  /** Entered with the condition being `b`, the list leaves it so if it falls through. */
  ghost predicate Keeps<S(!new)>(env: Env<S>, c: Expr, b: bool, p: seq<Stmt>) {
    forall s :: IsTrue(env, c, s) == b && Meaning(env, p, s).Done? && Meaning(env, p, s).out.Normal? ==>
      IsTrue(env, c, Meaning(env, p, s).s) == b
  }

  ghost predicate StableOne<S(!new)>(env: Env<S>, p: Stmt)
    decreases p, 0
  {
    match p
    case IfElse(c, a, b) => Keeps(env, c, true, a) && Keeps(env, c, false, b) && Stable(env, a) && Stable(env, b)
    case Loop(_, _, body) => Stable(env, body)
    case _ => true
  }

  /** No branch of any `if` in the tree changes the value of the condition it is under. */
  ghost predicate Stable<S(!new)>(env: Env<S>, p: seq<Stmt>)
    decreases p, 1
  {
    forall i :: 0 <= i < |p| ==> StableOne(env, p[i])
  }

  ghost predicate SameTruth<S(!new)>(env: Env<S>, c: Expr, d: Expr, flipped: bool) {
    forall s :: IsTrue(env, c, s) == (IsTrue(env, d, s) != flipped)
  }

  lemma KeepsTransfer<S(!new)>(env: Env<S>, c: Expr, d: Expr, flipped: bool, b: bool, p: seq<Stmt>, q: seq<Stmt>)
    requires Keeps(env, c, b, p) && Equivalent(env, p, q) && SameTruth(env, c, d, flipped)
    ensures Keeps(env, d, b != flipped, q)
  {
    forall s | IsTrue(env, d, s) == (b != flipped) && Meaning(env, q, s).Done? && Meaning(env, q, s).out.Normal?
      ensures IsTrue(env, d, Meaning(env, q, s).s) == (b != flipped)
    {
      assert Meaning(env, p, s) == Meaning(env, q, s);
      assert IsTrue(env, c, s) == b;
      assert IsTrue(env, c, Meaning(env, p, s).s) == b;
    }
  }

  lemma KeepsConcat<S(!new)>(env: Env<S>, c: Expr, b: bool, p: seq<Stmt>, q: seq<Stmt>)
    requires Keeps(env, c, b, p) && Keeps(env, c, b, q)
    ensures Keeps(env, c, b, p + q)
  {
    forall s | IsTrue(env, c, s) == b && Meaning(env, p + q, s).Done? && Meaning(env, p + q, s).out.Normal?
      ensures IsTrue(env, c, Meaning(env, p + q, s).s) == b
    {
      MeaningConcat(env, p, q, s);
      assert Meaning(env, p, s).Done? && Meaning(env, p, s).out.Normal?;
    }
  }

  // ----- Two neighbouring ifs -----

  /** The truth of the second condition in terms of the first one, when they merge. */
  lemma MergedConditions<S(!new)>(env: Env<S>, same: Equality, last: Stmt, next: Stmt)
    requires Sound(same) && last.IfElse? && next.IfElse? && Merged(same, last, next).Some?
    ensures SameTruth(env, next.cond, last.cond, !same(next.cond, last.cond))
  {
  }

  lemma MergeTwo<S(!new)>(env: Env<S>, same: Equality, last: Stmt, next: Stmt)
    requires Sound(same) && last.IfElse? && next.IfElse? && Merged(same, last, next).Some?
    requires StableOne(env, last) && StableOne(env, next)
    ensures var m := Merged(same, last, next).value;
            && Equivalent(env, [last, next], [IfElse(last.cond, m.0, m.1)])
            && StableOne(env, IfElse(last.cond, m.0, m.1))
  {
    var m := Merged(same, last, next).value;
    var flipped := !same(next.cond, last.cond);
    var (x, y) := if flipped then (next.elseBody, next.ifBody) else (next.ifBody, next.elseBody);
    MergedConditions(env, same, last, next);
    assert m == (last.ifBody + x, last.elseBody + y);
    KeepsTransfer(env, next.cond, last.cond, flipped, true, next.ifBody, next.ifBody);
    KeepsTransfer(env, next.cond, last.cond, flipped, false, next.elseBody, next.elseBody);
    KeepsConcat(env, last.cond, true, last.ifBody, x);
    KeepsConcat(env, last.cond, false, last.elseBody, y);
    forall s
      ensures Meaning(env, [last, next], s) == Meaning(env, [IfElse(last.cond, m.0, m.1)], s)
    {
      assert [last, next] == [last] + [next];
      MeaningConcat(env, [last], [next], s);
      MeaningIf(env, last.cond, last.ifBody, last.elseBody, s);
      MeaningIf(env, last.cond, m.0, m.1, s);
      MeaningConcat(env, last.ifBody, x, s);
      MeaningConcat(env, last.elseBody, y, s);
      var r := Meaning(env, [last], s);
      if r.Done? && r.out.Normal? {
        assert IsTrue(env, last.cond, r.s) == IsTrue(env, last.cond, s);
        MeaningIf(env, next.cond, next.ifBody, next.elseBody, r.s);
      }
    }
  }

  // ----- The pass preserves meaning -----

  lemma AbsorbMeaning<S(!new)>(env: Env<S>, same: Equality, acc: seq<Stmt>, next: Stmt, a: seq<Stmt>, b: seq<Stmt>)
    requires Sound(same) && Stable(env, acc) && StableOne(env, next) && Mergeable(same, acc, next)
    requires var m := Merged(same, acc[|acc| - 1], next).value;
             Equivalent(env, m.0, a) && Equivalent(env, m.1, b) && Stable(env, a) && Stable(env, b)
    ensures var merged := acc[..|acc| - 1] + [IfElse(acc[|acc| - 1].cond, a, b)];
            Equivalent(env, acc + [next], merged) && Stable(env, merged)
  {
    var init, last := acc[..|acc| - 1], acc[|acc| - 1];
    var m := Merged(same, last, next).value;
    MergeTwo(env, same, last, next);
    KeepsTransfer(env, last.cond, last.cond, false, true, m.0, a);
    KeepsTransfer(env, last.cond, last.cond, false, false, m.1, b);
    IfCongruence(env, last.cond, last.cond, m.0, a, m.1, b);
    ConcatCongruence(env, init, init, [last, next], [IfElse(last.cond, a, b)]);
    assert acc + [next] == init + [last, next];
  }

  lemma {:induction false} AbsorbCorrect<S(!new)>(env: Env<S>, same: Equality, acc: seq<Stmt>, next: Stmt)
    requires Sound(same) && Stable(env, acc) && StableOne(env, next)
    ensures Equivalent(env, acc + [next], Absorb(same, acc, next))
    ensures Stable(env, Absorb(same, acc, next))
    decreases Size(acc) + SizeOne(next), 1, 0
  {
    if Mergeable(same, acc, next) {
      var last := acc[|acc| - 1];
      var m := Merged(same, last, next).value;
      MergedSize(same, last, next);
      SizeSnoc(acc);
      StableMerged(env, same, last, next);
      OptimizeSequenceCorrect(env, same, m.0);
      OptimizeSequenceCorrect(env, same, m.1);
      AbsorbMeaning(env, same, acc, next, OptimizeSequence(same, m.0), OptimizeSequence(same, m.1));
    }
  }

  lemma StableMerged<S(!new)>(env: Env<S>, same: Equality, last: Stmt, next: Stmt)
    requires last.IfElse? && next.IfElse? && Merged(same, last, next).Some?
    requires StableOne(env, last) && StableOne(env, next)
    ensures var m := Merged(same, last, next).value; Stable(env, m.0) && Stable(env, m.1)
  {
  }

  lemma {:induction false} MergeRunsCorrect<S(!new)>(env: Env<S>, same: Equality, acc: seq<Stmt>, rest: seq<Stmt>)
    requires Sound(same) && Stable(env, acc) && Stable(env, rest)
    ensures Equivalent(env, acc + rest, MergeRuns(same, acc, rest))
    ensures Stable(env, MergeRuns(same, acc, rest))
    decreases Size(acc) + Size(rest), 2, |rest|
  {
    if rest == [] {
      assert acc + rest == acc;
    } else {
      var acc' := Absorb(same, acc, rest[0]);
      AbsorbCorrect(env, same, acc, rest[0]);
      MergeRunsCorrect(env, same, acc', rest[1..]);
      ConcatCongruence(env, acc + [rest[0]], acc', rest[1..], rest[1..]);
      assert acc + rest == acc + [rest[0]] + rest[1..];
    }
  }

  lemma {:induction false} OptimizeSequenceCorrect<S(!new)>(env: Env<S>, same: Equality, list: seq<Stmt>)
    requires Sound(same) && Stable(env, list)
    ensures Equivalent(env, list, OptimizeSequence(same, list))
    ensures Stable(env, OptimizeSequence(same, list))
    decreases Size(list), 3, 0
  {
    MergeRunsCorrect(env, same, [], list);
    assert [] + list == list;
    VisitAllCorrect(env, same, MergeRuns(same, [], list));
  }

  lemma {:induction false} VisitAllCorrect<S(!new)>(env: Env<S>, same: Equality, list: seq<Stmt>)
    requires Sound(same) && Stable(env, list)
    ensures Equivalent(env, list, VisitAll(same, list))
    ensures Stable(env, VisitAll(same, list))
    decreases Size(list), 1, |list|
  {
    if list != [] {
      VisitCorrect(env, same, list[0]);
      VisitAllCorrect(env, same, list[1..]);
      ConcatCongruence(env, [list[0]], Visit(same, list[0]), list[1..], VisitAll(same, list[1..]));
      assert list == [list[0]] + list[1..];
    }
  }

  lemma {:induction false} VisitCorrect<S(!new)>(env: Env<S>, same: Equality, p: Stmt)
    requires Sound(same) && StableOne(env, p)
    ensures Equivalent(env, [p], Visit(same, p))
    ensures Stable(env, Visit(same, p))
    decreases SizeOne(p), 0, 0
  {
    match p
    case IfElse(c, a, b) =>
      var a', b' := OptimizeSequence(same, a), OptimizeSequence(same, b);
      OptimizeSequenceCorrect(env, same, a);
      OptimizeSequenceCorrect(env, same, b);
      IfCongruence(env, c, c, a, a', b, b');
      KeepsTransfer(env, c, c, false, true, a, a');
      KeepsTransfer(env, c, c, false, false, b, b');
      RebuildIfCorrect(env, c, a', b');
    case Loop(c, position, body) =>
      OptimizeSequenceCorrect(env, same, body);
      LoopCongruence(env, c, c, position, body, OptimizeSequence(same, body));
      RebuildLoopCorrect(env, same, c, position, OptimizeSequence(same, body));
    case _ =>
  }

  lemma FlipIf<S(!new)>(env: Env<S>, c: Expr, d: Expr, a: seq<Stmt>, b: seq<Stmt>)
    requires SameTruth(env, c, d, true) && StableOne(env, IfElse(c, a, b))
    ensures Equivalent(env, [IfElse(c, a, b)], [IfElse(d, b, a)]) && StableOne(env, IfElse(d, b, a))
  {
    KeepsTransfer(env, c, d, true, true, a, a);
    KeepsTransfer(env, c, d, true, false, b, b);
    forall s
      ensures Meaning(env, [IfElse(c, a, b)], s) == Meaning(env, [IfElse(d, b, a)], s)
    {
      MeaningIf(env, c, a, b, s);
      MeaningIf(env, d, b, a, s);
    }
  }

  lemma RebuildIfCorrect<S(!new)>(env: Env<S>, c: Expr, a: seq<Stmt>, b: seq<Stmt>)
    requires StableOne(env, IfElse(c, a, b))
    ensures Equivalent(env, [IfElse(c, a, b)], RebuildIf(c, a, b))
    ensures Stable(env, RebuildIf(c, a, b))
  {
    var n, m := CountNegationDepth(c), CountNegationDepth(Negate(c));
    assert SameTruth(env, c, Negate(c), true);
    FlipIf(env, c, Negate(c), a, b);
    if n.1 {
      FlipIf(env, c, n.0, a, b);
    }
    forall s
      ensures Meaning(env, [IfElse(c, a, b)], s) == Meaning(env, RebuildIf(c, a, b), s)
    {
      MeaningIf(env, c, a, b, s);
      MeaningIf(env, Negate(c), b, a, s);
    }
  }

  lemma RebuildLoopCorrect<S(!new)>(env: Env<S>, same: Equality, c: Expr, position: Position, body: seq<Stmt>)
    requires Sound(same) && Stable(env, body)
    ensures Equivalent(env, [Loop(c, position, body)], RebuildLoop(same, c, position, body))
    ensures Stable(env, RebuildLoop(same, c, position, body))
  {
    var p := RebuildLoop(same, c, position, body)[0];
    if p != Loop(c, position, body) {
      var inner := body[0];
      assert body == [inner] && StableOne(env, inner);
      var post, pre := Loop(c, PostTested, body), Loop(c, PreTested, body);
      forall s
        ensures Iterate(env, pre, s) == Iterate(env, p, s)
      {
        MeaningIf(env, inner.cond, inner.ifBody, [], s);
      }
      LoopsAgree(env, pre, p);
      forall s
        ensures Meaning(env, [post], s) == Meaning(env, [p], s)
      {
        PreIsGuardedPost(env, c, body, s);
        if !IsTrue(env, c, s) {
          MeaningLoop(env, post, s);
          MeaningLoop(env, p, s);
          MeaningIf(env, inner.cond, inner.ifBody, [], s);
          MeaningEmpty(env, s);
        }
      }
    }
  }
}
