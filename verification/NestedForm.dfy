/**
 NestedForm: what the nested combiner leaves: nothing to join at any depth, and every loop with a conditional break at
 either end has been given a condition for it.
 */
module NestedForm {
  import opened Expressions
  import opened Statements
  import opened NestedCombiner

  /** Both of two conditions, as the pass writes it. */
  predicate IsPair(c: Expr) {
    c.NAry? && c.op.ShortCircuitAnd? && |c.es| == 2
  }

  /** The list begins with a conditional break, or ends with one and does not begin with an `if`. */
  predicate Breaks(body: seq<Stmt>) {
    body != [] && (BreaksOnce(body[0]) || (!body[0].IfElse? && BreaksOnce(body[|body| - 1])))
  }

  ghost predicate WorkedOne(p: Stmt)
    decreases p, 0
  {
    match p
    case IfElse(_, a, b) => !Joins(a, b) && Worked(a) && Worked(b)
    case Loop(c, position, body) =>
      && (Breaks(body) ==> IsPair(c))
      && (Worked(body) || (position.PostTested? && body != [] && Worked(body[..|body| - 1]) && EndOf(body[|body| - 1])))
    case _ => true
  }

  /** What is left of a break at the end of a loop: an `if` without `else`, on whatever was beside the break. */
  ghost predicate EndOf(p: Stmt)
    decreases p, 1
  {
    p.IfElse? && p.elseBody == [] && Worked(p.ifBody)
  }

  /** At every depth. */
  ghost predicate Worked(list: seq<Stmt>)
    decreases list, 1
  {
    forall i :: 0 <= i < |list| ==> WorkedOne(list[i])
  }

  lemma WorkedConcat(a: seq<Stmt>, b: seq<Stmt>)
    requires Worked(a) && Worked(b)
    ensures Worked(a + b)
  {
  }

  lemma WorkedLoop(loop: Stmt)
    requires loop.Loop? && Worked(loop.body)
    ensures WorkedOne(StructurizeLoop(loop))
  {
    if Restructures(loop) {
      var (k, position) := Eligible(loop.body).value;
      var (c, kept) := Continuation(loop.body[k]);
      assert WorkedOne(loop.body[k]);
      if position.PreTested? {
        WorkedConcat(kept, loop.body[1..]);
      } else {
        var body := loop.body[..k] + [IfElse(c, kept, [])];
        assert body[..|body| - 1] == loop.body[..k] && EndOf(body[|body| - 1]);
      }
    }
  }

  lemma WorkedIf(c: Expr, a: seq<Stmt>, b: seq<Stmt>)
    requires Worked(a) && Worked(b)
    ensures WorkedOne(FlattenIf(c, a, b))
  {
    JoinExact(c, a, b);
    if Joins(a, b) {
      assert WorkedOne(a[0]);
    }
  }

  lemma {:induction false} VisitWorks(p: Stmt)
    ensures WorkedOne(VisitNested(p))
    decreases p, 0
  {
    match p
    case IfElse(c, a, b) =>
      NestedWorks(a);
      NestedWorks(b);
      WorkedIf(c, VisitAllNested(a), VisitAllNested(b));
    case Loop(c, position, body) =>
      NestedWorks(body);
      WorkedLoop(Loop(c, position, VisitAllNested(body)));
    case _ =>
  }

  /** After a run no `if` could be joined with the one in it, and no loop without a pair of conditions has such a break. */
  lemma {:induction false} NestedWorks(list: seq<Stmt>)
    ensures Worked(VisitAllNested(list))
    decreases list, 1
  {
    if list != [] {
      VisitWorks(list[0]);
      NestedWorks(list[1..]);
    }
  }
}
