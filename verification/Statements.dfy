/**
 Statement trees and what they mean.

 A statement list runs from a state to an outcome, or diverges. The interpretation of expression statements and
 of leaves is left open: every theorem about `Meaning` holds for every state type and every interpretation.
 */
module Statements {
  import opened Expressions

  datatype Position = PreTested | PostTested

  datatype Stmt =
    | Effect(id: nat)                                                  // ExpressionStatement
    | Break                                                            // KeywordStatement "break"
    | Return(operand: Option<Expr>)                                    // KeywordStatement "return"
    | IfElse(cond: Expr, ifBody: seq<Stmt>, elseBody: seq<Stmt>)
    | Loop(cond: Expr, position: Position, body: seq<Stmt>)

  datatype Outcome = Normal | Broke | Returned(value: Option<int>)

  datatype Env<!S> = Env(valuation: S -> Valuation, effect: (nat, S) -> S)

  datatype Result<S> = Diverges | Done(out: Outcome, s: S)

  ghost predicate IsTrue<S>(env: Env<S>, c: Expr, s: S) {
    Holds(c, env.valuation(s))
  }

  // ----- Execution with a bound on the number of iterations of each loop -----

  ghost function ExecOne<S>(env: Env<S>, fuel: nat, p: Stmt, s: S): Result<S>
    decreases fuel, p, 0
  {
    match p
    case Effect(id) => Done(Normal, env.effect(id, s))
    case Break => Done(Broke, s)
    case Return(operand) =>
      Done(Returned(if operand.None? then None else Some(Eval(operand.value, env.valuation(s)))), s)
    case IfElse(c, a, b) => if IsTrue(env, c, s) then Exec(env, fuel, a, s) else Exec(env, fuel, b, s)
    case Loop(c, position, body) =>
      if position.PreTested? && !IsTrue(env, c, s) then Done(Normal, s)
      else if fuel == 0 then Diverges
      else
        match Exec(env, fuel - 1, body, s)
        case Done(Normal, s') =>
          if position.PostTested? && !IsTrue(env, c, s') then Done(Normal, s')
          else ExecOne(env, fuel - 1, p, s')
        case Done(Broke, s') => Done(Normal, s')
        case r => r
  }

  ghost function Exec<S>(env: Env<S>, fuel: nat, p: seq<Stmt>, s: S): Result<S>
    decreases fuel, p, 1
  {
    if p == [] then Done(Normal, s)
    else
      match ExecOne(env, fuel, p[0], s)
      case Done(Normal, s') => Exec(env, fuel, p[1..], s')
      case r => r
  }

  lemma {:induction false} ExecOneMonotonic<S>(env: Env<S>, f: nat, g: nat, p: Stmt, s: S)
    requires f <= g && ExecOne(env, f, p, s).Done?
    ensures ExecOne(env, g, p, s) == ExecOne(env, f, p, s)
    decreases f, p, 0
  {
    match p
    case IfElse(c, a, b) => ExecMonotonic(env, f, g, if IsTrue(env, c, s) then a else b, s);
    case Loop(c, position, body) =>
      if !(position.PreTested? && !IsTrue(env, c, s)) {
        ExecMonotonic(env, f - 1, g - 1, body, s);
        var r := Exec(env, f - 1, body, s);
        if r.out.Normal? && !(position.PostTested? && !IsTrue(env, c, r.s)) {
          ExecOneMonotonic(env, f - 1, g - 1, p, r.s);
        }
      }
    case _ =>
  }

  lemma {:induction false} ExecMonotonic<S>(env: Env<S>, f: nat, g: nat, p: seq<Stmt>, s: S)
    requires f <= g && Exec(env, f, p, s).Done?
    ensures Exec(env, g, p, s) == Exec(env, f, p, s)
    decreases f, p, 1
  {
    if p != [] {
      ExecOneMonotonic(env, f, g, p[0], s);
      var r := ExecOne(env, f, p[0], s);
      if r.out.Normal? {
        ExecMonotonic(env, f, g, p[1..], r.s);
      }
    }
  }

  lemma {:induction false} ExecConcat<S>(env: Env<S>, f: nat, p: seq<Stmt>, q: seq<Stmt>, s: S)
    ensures Exec(env, f, p + q, s) ==
            match Exec(env, f, p, s)
            case Done(Normal, s') => Exec(env, f, q, s')
            case r => r
    decreases |p|
  {
    if p == [] {
      assert p + q == q;
    } else {
      assert (p + q)[1..] == p[1..] + q;
      var r := ExecOne(env, f, p[0], s);
      if r.Done? && r.out.Normal? {
        ExecConcat(env, f, p[1..], q, r.s);
      }
    }
  }

  // ----- Meaning: the result under enough fuel -----

  ghost predicate Terminates<S>(env: Env<S>, p: seq<Stmt>, s: S) {
    exists f: nat :: Exec(env, f, p, s).Done?
  }

  ghost function Meaning<S>(env: Env<S>, p: seq<Stmt>, s: S): Result<S> {
    if Terminates(env, p, s) then
      var f: nat :| Exec(env, f, p, s).Done?;
      Exec(env, f, p, s)
    else Diverges
  }

  ghost predicate Equivalent<S(!new)>(env: Env<S>, p: seq<Stmt>, q: seq<Stmt>) {
    forall s :: Meaning(env, p, s) == Meaning(env, q, s)
  }

  lemma MeaningIs<S>(env: Env<S>, f: nat, p: seq<Stmt>, s: S)
    requires Exec(env, f, p, s).Done?
    ensures Meaning(env, p, s) == Exec(env, f, p, s)
  {
    var g: nat :| Exec(env, g, p, s).Done? && Meaning(env, p, s) == Exec(env, g, p, s);
    if f <= g { ExecMonotonic(env, f, g, p, s); } else { ExecMonotonic(env, g, f, p, s); }
  }

  lemma MeaningFuel<S>(env: Env<S>, p: seq<Stmt>, s: S) returns (f: nat)
    ensures Exec(env, f, p, s) == Meaning(env, p, s)
  {
    if Terminates(env, p, s) {
      f :| Exec(env, f, p, s).Done? && Exec(env, f, p, s) == Meaning(env, p, s);
    } else {
      f := 0;
    }
  }

  /** Running one list and then, if it falls through, another. */
  ghost function Then<S>(env: Env<S>, r: Result<S>, q: seq<Stmt>): Result<S> {
    match r
    case Done(Normal, s) => Meaning(env, q, s)
    case _ => r
  }

  lemma MeaningConcat<S>(env: Env<S>, p: seq<Stmt>, q: seq<Stmt>, s: S)
    ensures Meaning(env, p + q, s) == Then(env, Meaning(env, p, s), q)
  {
    var f := MeaningFuel(env, p, s);
    if Meaning(env, p, s).Done? {
      var r := Meaning(env, p, s);
      if r.out.Normal? {
        var g := MeaningFuel(env, q, r.s);
        if Meaning(env, q, r.s).Done? {
          var h := f + g;
          ExecMonotonic(env, f, h, p, s);
          ExecMonotonic(env, g, h, q, r.s);
          ExecConcat(env, h, p, q, s);
          MeaningIs(env, h, p + q, s);
          return;
        }
      } else {
        ExecConcat(env, f, p, q, s);
        MeaningIs(env, f, p + q, s);
        return;
      }
    }
    var h := MeaningFuel(env, p + q, s);
    ExecConcat(env, h, p, q, s);
    if Meaning(env, p + q, s).Done? {
      MeaningIs(env, h, p, s);
      if Exec(env, h, p, s).out.Normal? {
        MeaningIs(env, h, q, Exec(env, h, p, s).s);
      }
    }
  }

  lemma MeaningEmpty<S>(env: Env<S>, s: S)
    ensures Meaning(env, [], s) == Done(Normal, s)
  {
    MeaningIs(env, 0, [], s);
  }

  lemma ExecSingle<S>(env: Env<S>, f: nat, p: Stmt, s: S)
    ensures Exec(env, f, [p], s) == ExecOne(env, f, p, s)
  {
    assert [p][1..] == [];
  }

  lemma MeaningBreak<S>(env: Env<S>, s: S)
    ensures Meaning(env, [Break], s) == Done(Broke, s)
  {
    ExecSingle(env, 0, Break, s);
    MeaningIs(env, 0, [Break], s);
  }

  lemma MeaningIf<S>(env: Env<S>, c: Expr, a: seq<Stmt>, b: seq<Stmt>, s: S)
    ensures Meaning(env, [IfElse(c, a, b)], s) == Meaning(env, if IsTrue(env, c, s) then a else b, s)
  {
    var taken := if IsTrue(env, c, s) then a else b;
    var f := MeaningFuel(env, taken, s);
    var g := MeaningFuel(env, [IfElse(c, a, b)], s);
    ExecSingle(env, f, IfElse(c, a, b), s);
    ExecSingle(env, g, IfElse(c, a, b), s);
    if Exec(env, f, taken, s).Done? {
      MeaningIs(env, f, [IfElse(c, a, b)], s);
    } else if Exec(env, g, [IfElse(c, a, b)], s).Done? {
      MeaningIs(env, g, taken, s);
    }
  }

  // ----- Loops, one iteration at a time -----

  datatype Iteration<S> = Stop(r: Result<S>) | Again(s: S)

  /** What the body's result makes of an iteration of a loop. */
  ghost function AfterBody<S>(env: Env<S>, loop: Stmt, r: Result<S>): Iteration<S>
    requires loop.Loop?
  {
    match r
    case Done(Normal, s) =>
      if loop.position.PostTested? && !IsTrue(env, loop.cond, s) then Stop(Done(Normal, s)) else Again(s)
    case Done(Broke, s) => Stop(Done(Normal, s))
    case _ => Stop(r)
  }

  ghost function Iterate<S>(env: Env<S>, loop: Stmt, s: S): Iteration<S>
    requires loop.Loop?
  {
    if loop.position.PreTested? && !IsTrue(env, loop.cond, s) then Stop(Done(Normal, s))
    else AfterBody(env, loop, Meaning(env, loop.body, s))
  }

  lemma MeaningLoop<S>(env: Env<S>, loop: Stmt, s: S)
    requires loop.Loop?
    ensures Meaning(env, [loop], s) ==
            match Iterate(env, loop, s)
            case Stop(r) => r
            case Again(s') => Meaning(env, [loop], s')
  {
    var it := Iterate(env, loop, s);
    var f := MeaningFuel(env, loop.body, s);
    var g := 0;
    if it.Again? {
      g := MeaningFuel(env, [loop], it.s);
      ExecSingle(env, g, loop, it.s);
    }
    var h := MeaningFuel(env, [loop], s);
    ExecSingle(env, h, loop, s);
    ExecSingle(env, f + g + 1, loop, s);
    if Meaning(env, loop.body, s).Done? {
      ExecMonotonic(env, f, f + g, loop.body, s);
    }
    if it.Again? && ExecOne(env, g, loop, it.s).Done? {
      ExecOneMonotonic(env, g, f + g, loop, it.s);
    }
    if ExecOne(env, f + g + 1, loop, s).Done? {
      MeaningIs(env, f + g + 1, [loop], s);
    }
    if ExecOne(env, h, loop, s).Done? && !(loop.position.PreTested? && !IsTrue(env, loop.cond, s)) {
      MeaningIs(env, h - 1, loop.body, s);
      if it.Again? {
        ExecSingle(env, h - 1, loop, it.s);
        MeaningIs(env, h - 1, [loop], it.s);
      }
    }
  }

  lemma {:induction false} LoopTransfer<S(!new)>(env: Env<S>, f: nat, a: Stmt, b: Stmt, s: S)
    requires a.Loop? && b.Loop?
    requires forall s :: Iterate(env, a, s) == Iterate(env, b, s)
    requires ExecOne(env, f, a, s).Done?
    ensures Meaning(env, [b], s) == ExecOne(env, f, a, s)
    decreases f
  {
    MeaningLoop(env, b, s);
    if !(a.position.PreTested? && !IsTrue(env, a.cond, s)) {
      MeaningIs(env, f - 1, a.body, s);
      var it := Iterate(env, a, s);
      if it.Again? {
        LoopTransfer(env, f - 1, a, b, it.s);
      }
    }
  }

  /** Two loops whose single iterations agree from every state mean the same, divergence included. */
  lemma LoopsAgree<S(!new)>(env: Env<S>, a: Stmt, b: Stmt)
    requires a.Loop? && b.Loop?
    requires forall s :: Iterate(env, a, s) == Iterate(env, b, s)
    ensures Equivalent(env, [a], [b])
  {
    forall s
      ensures Meaning(env, [a], s) == Meaning(env, [b], s)
    {
      var f := MeaningFuel(env, [a], s);
      var g := MeaningFuel(env, [b], s);
      ExecSingle(env, f, a, s);
      ExecSingle(env, g, b, s);
      if ExecOne(env, f, a, s).Done? {
        LoopTransfer(env, f, a, b, s);
      } else if ExecOne(env, g, b, s).Done? {
        LoopTransfer(env, g, b, a, s);
      }
    }
  }

  // ----- Congruence -----

  lemma ConcatCongruence<S(!new)>(env: Env<S>, p: seq<Stmt>, p': seq<Stmt>, q: seq<Stmt>, q': seq<Stmt>)
    requires Equivalent(env, p, p') && Equivalent(env, q, q')
    ensures Equivalent(env, p + q, p' + q')
  {
    forall s
      ensures Meaning(env, p + q, s) == Meaning(env, p' + q', s)
    {
      MeaningConcat(env, p, q, s);
      MeaningConcat(env, p', q', s);
    }
  }

  lemma IfCongruence<S(!new)>(env: Env<S>, c: Expr, c': Expr, a: seq<Stmt>, a': seq<Stmt>, b: seq<Stmt>, b': seq<Stmt>)
    requires forall s :: IsTrue(env, c, s) <==> IsTrue(env, c', s)
    requires Equivalent(env, a, a') && Equivalent(env, b, b')
    ensures Equivalent(env, [IfElse(c, a, b)], [IfElse(c', a', b')])
  {
    forall s
      ensures Meaning(env, [IfElse(c, a, b)], s) == Meaning(env, [IfElse(c', a', b')], s)
    {
      MeaningIf(env, c, a, b, s);
      MeaningIf(env, c', a', b', s);
    }
  }

  lemma LoopCongruence<S(!new)>(env: Env<S>, c: Expr, c': Expr, position: Position, a: seq<Stmt>, a': seq<Stmt>)
    requires forall s :: IsTrue(env, c, s) <==> IsTrue(env, c', s)
    requires Equivalent(env, a, a')
    ensures Equivalent(env, [Loop(c, position, a)], [Loop(c', position, a')])
  {
    LoopsAgree(env, Loop(c, position, a), Loop(c', position, a'));
  }

  // ----- Pre-tested loops as guarded post-tested loops -----

  lemma {:induction false} PreToPost<S>(env: Env<S>, f: nat, c: Expr, body: seq<Stmt>, s: S)
    requires IsTrue(env, c, s) && ExecOne(env, f, Loop(c, PreTested, body), s).Done?
    ensures Meaning(env, [Loop(c, PostTested, body)], s) == ExecOne(env, f, Loop(c, PreTested, body), s)
    decreases f
  {
    MeaningLoop(env, Loop(c, PostTested, body), s);
    MeaningIs(env, f - 1, body, s);
    var r := Meaning(env, body, s);
    if r.out.Normal? && IsTrue(env, c, r.s) {
      PreToPost(env, f - 1, c, body, r.s);
    }
  }

  lemma {:induction false} PostToPre<S>(env: Env<S>, f: nat, c: Expr, body: seq<Stmt>, s: S)
    requires IsTrue(env, c, s) && ExecOne(env, f, Loop(c, PostTested, body), s).Done?
    ensures Meaning(env, [Loop(c, PreTested, body)], s) == ExecOne(env, f, Loop(c, PostTested, body), s)
    decreases f
  {
    var pre := Loop(c, PreTested, body);
    MeaningLoop(env, pre, s);
    MeaningIs(env, f - 1, body, s);
    var r := Meaning(env, body, s);
    if r.out.Normal? {
      if IsTrue(env, c, r.s) {
        PostToPre(env, f - 1, c, body, r.s);
      } else {
        MeaningLoop(env, pre, r.s);
      }
    }
  }

  /** `while (c) B` is `if (c) { do B while (c) }`. */
  lemma PreIsGuardedPost<S>(env: Env<S>, c: Expr, body: seq<Stmt>, s: S)
    ensures Meaning(env, [Loop(c, PreTested, body)], s) ==
            if IsTrue(env, c, s) then Meaning(env, [Loop(c, PostTested, body)], s) else Done(Normal, s)
  {
    var pre, post := Loop(c, PreTested, body), Loop(c, PostTested, body);
    if IsTrue(env, c, s) {
      var f := MeaningFuel(env, [pre], s);
      var g := MeaningFuel(env, [post], s);
      ExecSingle(env, f, pre, s);
      ExecSingle(env, g, post, s);
      if ExecOne(env, f, pre, s).Done? {
        PreToPost(env, f, c, body, s);
      } else if ExecOne(env, g, post, s).Done? {
        PostToPre(env, g, c, body, s);
      }
    } else {
      MeaningLoop(env, pre, s);
    }
  }
}
