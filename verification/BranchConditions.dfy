/**
 The conditions generateBlocks puts on edges: which way a branch or a switch goes, as an expression on each edge.
 */
module BranchConditions {
  import opened Expressions

  datatype Case = Case(value: int, dest: nat)

  datatype Terminator =
    | Jump(dest: nat)
    | Branch(cond: Expr, ifTrue: nat, ifFalse: nat)
    | Switch(test: Expr, cases: seq<Case>, default: nat)

  function Successors(t: Terminator): set<nat> {
    match t
    case Jump(dest) => {dest}
    case Branch(_, a, b) => {a, b}
    case Switch(_, cases, default) => {default} + set i | 0 <= i < |cases| :: cases[i].dest
  }

  /** As in any well-formed switch, no two cases have the same value. */
  predicate DistinctCases(cases: seq<Case>) {
    forall i, j :: 0 <= i < j < |cases| ==> cases[i].value != cases[j].value
  }

  function Matching(cases: seq<Case>, x: int): Option<nat> {
    if cases == [] then None
    else if cases[0].value == x then Some(cases[0].dest)
    else Matching(cases[1..], x)
  }

  /** Where control goes. */
  ghost function Target(t: Terminator, v: Valuation): nat {
    match t
    case Jump(dest) => dest
    case Branch(c, a, b) => if Holds(c, v) then a else b
    case Switch(test, cases, default) =>
      var m := Matching(cases, Eval(test, v));
      if m.Some? then m.value else default
  }

  function CaseCondition(test: Expr, c: Case): Expr {
    NAry(Equal, [test, Number(c.value)])
  }

  lemma CaseConditionHolds(test: Expr, c: Case, v: Valuation)
    ensures Holds(CaseCondition(test, c), v) <==> Eval(test, v) == c.value
  {
    var es := [test, Number(c.value)];
    assert es[0] == test && es[1] == Number(c.value);
    assert Eval(Number(c.value), v) == c.value;
  }

  lemma OrPairHolds(a: Expr, b: Expr, v: Valuation)
    ensures Holds(Or([a, b]), v) <==> Holds(a, v) || Holds(b, v)
  {
    AndOrHold([a, b], v);
    assert [a, b][0] == a && [a, b][1] == b;
  }

  lemma {:induction false} MatchingCase(cases: seq<Case>, x: int, dest: nat)
    requires DistinctCases(cases)
    ensures Matching(cases, x) == Some(dest) <==> exists i :: 0 <= i < |cases| && cases[i].value == x && cases[i].dest == dest
    ensures Matching(cases, x).None? <==> forall i :: 0 <= i < |cases| ==> cases[i].value != x
    decreases |cases|
  {
    if cases != [] {
      var rest := cases[1..];
      MatchingCase(rest, x, dest);
      assert forall i :: 0 <= i < |rest| ==> rest[i] == cases[i + 1];
      if i :| 0 <= i < |cases| && cases[i].value == x && cases[i].dest == dest {
        assert i > 0 ==> rest[i - 1] == cases[i];
      }
    }
  }

  // ----- The successors are where control can go -----

  /** What the terminator tests is a variable that can have any value. */
  predicate OnLeaf(t: Terminator) {
    match t
    case Jump(_) => true
    case Branch(c, _, _) => c.Leaf?
    case Switch(test, cases, _) => test.Leaf? && !test.boolean && DistinctCases(cases)
  }

  /** A value above those of all cases. */
  function Above(cases: seq<Case>): (x: int)
    ensures forall i :: 0 <= i < |cases| ==> cases[i].value < x
  {
    if cases == [] then 0
    else
      var rest := Above(cases[1..]);
      assert forall i :: 0 < i < |cases| ==> cases[i] == cases[1..][i - 1];
      if cases[0].value < rest then rest else cases[0].value + 1
  }

  ghost function Having(x: int): Valuation {
    Valuation(_ => x, (_, _) => 0)
  }

  ghost predicate GoesTo(t: Terminator, v: Valuation, dest: nat) {
    Target(t, v) == dest
  }

  lemma GoesToCase(test: Expr, cases: seq<Case>, default: nat, i: nat)
    requires OnLeaf(Switch(test, cases, default)) && i < |cases|
    ensures GoesTo(Switch(test, cases, default), Having(cases[i].value), cases[i].dest)
  {
    MatchingCase(cases, cases[i].value, cases[i].dest);
  }

  lemma GoesToDefault(test: Expr, cases: seq<Case>, default: nat)
    requires OnLeaf(Switch(test, cases, default))
    ensures GoesTo(Switch(test, cases, default), Having(Above(cases)), default)
  {
    MatchingCase(cases, Above(cases), default);
  }

  /** A block is a successor exactly if control goes there for some value of what is tested. */
  lemma SuccessorsExact(t: Terminator, dest: nat)
    requires OnLeaf(t)
    ensures dest in Successors(t) <==> exists v :: GoesTo(t, v, dest)
  {
    match t {
      case Jump(_) =>
        assert GoesTo(t, Having(0), t.dest);
      case Branch(c, a, b) =>
        assert GoesTo(t, Having(1), a) && GoesTo(t, Having(0), b);
      case Switch(test, cases, default) =>
        GoesToDefault(test, cases, default);
        if dest in Successors(t) && dest != default {
          var i :| 0 <= i < |cases| && cases[i].dest == dest;
          GoesToCase(test, cases, default, i);
        }
        if v :| GoesTo(t, v, dest) {
          MatchingCase(cases, Eval(test, v), dest);
        }
    }
  }

  // ----- Conditions -----

  /** The condition on the edge from a switch to one of its destinations. */
  method SwitchCondition(test: Expr, cases: seq<Case>, default: nat, dest: nat) returns (edgeCondition: Expr)
    requires DistinctCases(cases)
    ensures forall v :: Holds(edgeCondition, v) <==> Target(Switch(test, cases, default), v) == dest
  {
    edgeCondition := False;
    var defaultCondition := False;
    for n := 0 to |cases|
      invariant forall v :: Holds(edgeCondition, v) <==>
                  exists i :: 0 <= i < n && cases[i].value == Eval(test, v) && cases[i].dest == dest
      invariant dest == default ==> forall v :: Holds(defaultCondition, v) <==>
                  exists i :: 0 <= i < n && cases[i].value == Eval(test, v)
    {
      var caseCondition := CaseCondition(test, cases[n]);
      forall v
        ensures Holds(caseCondition, v) <==> Eval(test, v) == cases[n].value
        ensures Holds(Or([edgeCondition, caseCondition]), v) <==> Holds(edgeCondition, v) || Holds(caseCondition, v)
        ensures Holds(Or([defaultCondition, caseCondition]), v) <==> Holds(defaultCondition, v) || Holds(caseCondition, v)
      {
        CaseConditionHolds(test, cases[n], v);
        OrPairHolds(edgeCondition, caseCondition, v);
        OrPairHolds(defaultCondition, caseCondition, v);
      }
      if cases[n].dest == dest {
        edgeCondition := Or([edgeCondition, caseCondition]);
      }
      if dest == default {
        defaultCondition := Or([defaultCondition, caseCondition]);
      }
    }
    ghost var byCases := edgeCondition;
    if dest == default {
      edgeCondition := Or([edgeCondition, Negate(defaultCondition)]);
    }
    forall v
      ensures Holds(edgeCondition, v) <==> Target(Switch(test, cases, default), v) == dest
    {
      OrPairHolds(byCases, Negate(defaultCondition), v);
      MatchingCase(cases, Eval(test, v), dest);
    }
  }

  /** The condition on the edge from a two-way branch to one of its destinations. */
  function BranchCondition(c: Expr, ifTrue: nat, dest: nat): Expr {
    if dest == ifTrue then c else Negate(c)
  }

  /**
   The condition on a branch's edge says when control takes it exactly if the branch has two destinations; if both are
   the same block, only while the branch condition holds.
   */
  lemma BranchConditionExact(c: Expr, ifTrue: nat, ifFalse: nat, dest: nat, v: Valuation)
    requires dest in Successors(Branch(c, ifTrue, ifFalse))
    ensures (Holds(BranchCondition(c, ifTrue, dest), v) <==> Target(Branch(c, ifTrue, ifFalse), v) == dest) <==>
            ifTrue != ifFalse || Holds(c, v)
  {
  }

  method EdgeCondition(t: Terminator, dest: nat) returns (edgeCondition: Expr)
    requires dest in Successors(t) && (t.Switch? ==> DistinctCases(t.cases))
    ensures forall v :: (Holds(edgeCondition, v) <==> Target(t, v) == dest) <==>
              (t.Branch? ==> t.ifTrue != t.ifFalse || Holds(t.cond, v))
  {
    match t
    case Jump(_) =>
      edgeCondition := True;
    case Branch(c, ifTrue, ifFalse) =>
      edgeCondition := BranchCondition(c, ifTrue, dest);
    case Switch(test, cases, default) =>
      edgeCondition := SwitchCondition(test, cases, default, dest);
  }
}
