/**
 Phi nodes without phi nodes: each block ends by writing `phi_in := value` for every phi of every successor, and starts
 by copying `phi_out := phi_in` for its own.
 */
module PhiNodes {

  /** `incoming` gives, for each predecessor block, the value expression that flows in from it. */
  datatype Phi = Phi(id: nat, incoming: map<nat, nat>)

  /** Only some instructions make statements: `statement` tells which. Phi nodes come first. */
  datatype Instruction = Instruction(id: nat, statement: bool)

  datatype BasicBlock = BasicBlock(phis: seq<Phi>, instructions: seq<Instruction>, succs: seq<nat>)

  type Function = seq<BasicBlock>

  datatype Statement =
    | CopyOut(phi: nat)                   // phi_out := phi_in
    | WriteIn(phi: nat, value: nat)       // phi_in := value
    | Run(instruction: nat)

  predicate DistinctIds(phis: seq<Phi>) {
    forall i, j :: 0 <= i < j < |phis| ==> phis[i].id != phis[j].id
  }

  /** Edges lead to blocks with a value for the edge, and a phi node belongs to one block. The entry has none. */
  ghost predicate WellFormed(fn: Function) {
    && fn != [] && fn[0].phis == []
    && (forall b :: 0 <= b < |fn| ==> FlowsInto(fn, b, fn[b].succs) && DistinctIds(fn[b].phis))
    && (forall b, c, p, q :: 0 <= b < |fn| && 0 <= c < |fn| && p in fn[b].phis && q in fn[c].phis && p.id == q.id ==> b == c)
  }

  // ----- The statements of each block -----

  function CopyOuts(phis: seq<Phi>): seq<Statement> {
    if phis == [] then [] else [CopyOut(phis[0].id)] + CopyOuts(phis[1..])
  }

  function Runs(instructions: seq<Instruction>): seq<Statement> {
    if instructions == [] then []
    else (if instructions[0].statement then [Run(instructions[0].id)] else []) + Runs(instructions[1..])
  }

  function WriteIns(b: nat, phis: seq<Phi>): seq<Statement>
    requires forall p :: p in phis ==> b in p.incoming
  {
    if phis == [] then [] else [WriteIn(phis[0].id, phis[0].incoming[b])] + WriteIns(b, phis[1..])
  }

  /** Block `b` has a value for every phi node of the listed successors. */
  predicate FlowsInto(fn: Function, b: nat, succs: seq<nat>) {
    forall i :: 0 <= i < |succs| ==> succs[i] < |fn| && forall p :: p in fn[succs[i]].phis ==> b in p.incoming
  }

  function WriteAllIns(fn: Function, b: nat, succs: seq<nat>): seq<Statement>
    requires FlowsInto(fn, b, succs)
  {
    if succs == [] then [] else WriteIns(b, fn[succs[0]].phis) + WriteAllIns(fn, b, succs[1..])
  }

  function Statements(fn: Function, b: nat): seq<Statement>
    requires b < |fn| && FlowsInto(fn, b, fn[b].succs)
  {
    CopyOuts(fn[b].phis) + Runs(fn[b].instructions) + WriteAllIns(fn, b, fn[b].succs)
  }

  method WritePhis(b: nat, phis: seq<Phi>) returns (statements: seq<Statement>)
    requires forall p :: p in phis ==> b in p.incoming
    ensures statements == WriteIns(b, phis)
  {
    statements := [];
    for i := 0 to |phis|
      invariant statements + WriteIns(b, phis[i..]) == WriteIns(b, phis)
    {
      assert phis[i] in phis && phis[i..][1..] == phis[i + 1..];
      statements := statements + [WriteIn(phis[i].id, phis[i].incoming[b])];
    }
  }

  method WriteSuccessorPhis(fn: Function, b: nat, succs: seq<nat>) returns (statements: seq<Statement>)
    requires FlowsInto(fn, b, succs)
    ensures statements == WriteAllIns(fn, b, succs)
  {
    statements := [];
    for i := 0 to |succs|
      invariant statements + WriteAllIns(fn, b, succs[i..]) == WriteAllIns(fn, b, succs)
    {
      assert succs[i..][0] == succs[i] && succs[i..][1..] == succs[i + 1..];
      var written := WritePhis(b, fn[succs[i]].phis);
      statements := statements + written;
    }
  }

  method CopyPhis(phis: seq<Phi>) returns (statements: seq<Statement>)
    ensures statements == CopyOuts(phis)
  {
    statements := [];
    for i := 0 to |phis|
      invariant statements + CopyOuts(phis[i..]) == CopyOuts(phis)
    {
      assert phis[i..][1..] == phis[i + 1..];
      statements := statements + [CopyOut(phis[i].id)];
    }
  }

  method RunAll(instructions: seq<Instruction>) returns (statements: seq<Statement>)
    ensures statements == Runs(instructions)
  {
    statements := [];
    for i := 0 to |instructions|
      invariant statements + Runs(instructions[i..]) == Runs(instructions)
    {
      assert instructions[i..][1..] == instructions[i + 1..];
      if instructions[i].statement {
        statements := statements + [Run(instructions[i].id)];
      }
    }
  }

  /** generateBlocks, as far as statements go: the writes come first, then everything else is inserted before them. */
  method GenerateStatements(fn: Function) returns (blocks: seq<seq<Statement>>)
    requires forall b :: 0 <= b < |fn| ==> FlowsInto(fn, b, fn[b].succs)
    ensures |blocks| == |fn| && forall b :: 0 <= b < |fn| ==> blocks[b] == Statements(fn, b)
  {
    blocks := [];
    for b := 0 to |fn|
      invariant |blocks| == b && forall c :: 0 <= c < b ==> blocks[c] == WriteAllIns(fn, c, fn[c].succs)
    {
      var writes := WriteSuccessorPhis(fn, b, fn[b].succs);
      blocks := blocks + [writes];
    }
    for b := 0 to |fn|
      invariant |blocks| == |fn|
      invariant forall c :: 0 <= c < b ==> blocks[c] == Statements(fn, c)
      invariant forall c :: b <= c < |fn| ==> blocks[c] == WriteAllIns(fn, c, fn[c].succs)
    {
      var copies := CopyPhis(fn[b].phis);
      var runs := RunAll(fn[b].instructions);
      blocks := blocks[b := copies + runs + blocks[b]];
    }
  }

  // ----- Meaning -----

  /** What value expressions and instructions do; they see the phi nodes' values and the rest of the program state. */
  datatype Interpretation<!M> = Interpretation(value: (nat, map<nat, int>, M) -> int, effect: (nat, map<nat, int>, M) -> M)

  /** The values of phi nodes, and everything else. */
  datatype State<M> = State(outs: map<nat, int>, rest: M)

  /** The same with a `phi_in` variable beside each `phi_out`. */
  datatype CopyState<M> = CopyState(ins: map<nat, int>, outs: map<nat, int>, rest: M)

  ghost function RunInstructions<M>(interp: Interpretation<M>, instructions: seq<Instruction>, s: State<M>): State<M> {
    if instructions == [] then s
    else
      var rest := if instructions[0].statement then interp.effect(instructions[0].id, s.outs, s.rest) else s.rest;
      RunInstructions(interp, instructions[1..], State(s.outs, rest))
  }

  /** The new values of phi nodes when control comes from block `b`, all computed in the state before the edge. */
  ghost function NewValues<M>(interp: Interpretation<M>, phis: seq<Phi>, b: nat, s: State<M>): map<nat, int>
    requires forall p :: p in phis ==> b in p.incoming
  {
    if phis == [] then map[]
    else NewValues(interp, phis[1..], b, s)[phis[0].id := interp.value(phis[0].incoming[b], s.outs, s.rest)]
  }

  /** Control passes to a block: all its phi nodes take their new values at once. */
  ghost function EnterFrom<M>(interp: Interpretation<M>, phis: seq<Phi>, b: nat, s: State<M>): State<M>
    requires forall p :: p in phis ==> b in p.incoming
  {
    State(s.outs + NewValues(interp, phis, b, s), s.rest)
  }

  ghost predicate IsPath(fn: Function, path: seq<nat>) {
    && path != [] && path[0] == 0 && 0 < |fn|
    && (forall i :: 0 <= i < |path| ==> path[i] < |fn|)
    && (forall i :: 0 < i < |path| ==> path[i] in fn[path[i - 1]].succs)
  }

  /** The state after running the blocks of a path, phi nodes taken as phi nodes. */
  ghost function RunPath<M>(fn: Function, interp: Interpretation<M>, path: seq<nat>, s: State<M>): State<M>
    requires WellFormed(fn) && IsPath(fn, path)
    decreases |path|
  {
    var n := |path| - 1;
    if n == 0 then RunInstructions(interp, fn[0].instructions, s)
    else
      var before := RunPath(fn, interp, path[..n], s);
      RunInstructions(interp, fn[path[n]].instructions, EnterFrom(interp, fn[path[n]].phis, path[n - 1], before))
  }

  ghost function ExecuteOne<M>(interp: Interpretation<M>, statement: Statement, s: CopyState<M>): CopyState<M> {
    match statement
    case CopyOut(p) => if p in s.ins then s.(outs := s.outs[p := s.ins[p]]) else s
    case WriteIn(p, value) => s.(ins := s.ins[p := interp.value(value, s.outs, s.rest)])
    case Run(id) => s.(rest := interp.effect(id, s.outs, s.rest))
  }

  ghost function Execute<M>(interp: Interpretation<M>, statements: seq<Statement>, s: CopyState<M>): CopyState<M> {
    if statements == [] then s else Execute(interp, statements[1..], ExecuteOne(interp, statements[0], s))
  }

  /** The state after running the statements of the blocks of a path. */
  ghost function ExecutePath<M>(fn: Function, interp: Interpretation<M>, path: seq<nat>, s: CopyState<M>): CopyState<M>
    requires WellFormed(fn) && IsPath(fn, path)
    decreases |path|
  {
    var n := |path| - 1;
    var before := if n == 0 then s else ExecutePath(fn, interp, path[..n], s);
    Execute(interp, Statements(fn, path[n]), before)
  }

  lemma {:induction false} ExecuteConcat<M>(interp: Interpretation<M>, a: seq<Statement>, b: seq<Statement>, s: CopyState<M>)
    ensures Execute(interp, a + b, s) == Execute(interp, b, Execute(interp, a, s))
    decreases |a|
  {
    if a == [] {
      assert a + b == b;
    } else {
      assert (a + b)[1..] == a[1..] + b;
      ExecuteConcat(interp, a[1..], b, ExecuteOne(interp, a[0], s));
    }
  }

  lemma {:induction false} ExecuteRuns<M>(interp: Interpretation<M>, instructions: seq<Instruction>, s: CopyState<M>)
    ensures Execute(interp, Runs(instructions), s) ==
            s.(rest := RunInstructions(interp, instructions, State(s.outs, s.rest)).rest)
    ensures RunInstructions(interp, instructions, State(s.outs, s.rest)).outs == s.outs
    decreases |instructions|
  {
    if instructions != [] {
      var tail := Runs(instructions[1..]);
      if instructions[0].statement {
        assert Runs(instructions)[1..] == tail;
        ExecuteRuns(interp, instructions[1..], s.(rest := interp.effect(instructions[0].id, s.outs, s.rest)));
      } else {
        assert Runs(instructions) == tail;
        ExecuteRuns(interp, instructions[1..], s);
      }
    }
  }

  ghost predicate HasId(phis: seq<Phi>, id: nat) {
    exists p :: p in phis && p.id == id
  }

  /** Copying reads what was written for each phi node and leaves other variables alone. */
  lemma {:induction false} ExecuteCopies<M>(interp: Interpretation<M>, phis: seq<Phi>, s: CopyState<M>)
    requires forall p :: p in phis ==> p.id in s.ins
    ensures var s' := Execute(interp, CopyOuts(phis), s);
            && s'.ins == s.ins && s'.rest == s.rest
            && (forall id :: id in s'.outs <==> id in s.outs || HasId(phis, id))
            && (forall id :: id in s'.outs ==> s'.outs[id] == if HasId(phis, id) then s.ins[id] else s.outs[id])
    decreases |phis|
  {
    if phis != [] {
      assert CopyOuts(phis)[1..] == CopyOuts(phis[1..]);
      assert forall p :: p in phis <==> p == phis[0] || p in phis[1..];
      ExecuteCopies(interp, phis[1..], ExecuteOne(interp, CopyOut(phis[0].id), s));
      assert forall id :: HasId(phis, id) <==> phis[0].id == id || HasId(phis[1..], id);
    }
  }

  ghost predicate Written<M>(interp: Interpretation<M>, b: nat, p: Phi, s: CopyState<M>)
    requires b in p.incoming
  {
    p.id in s.ins && s.ins[p.id] == interp.value(p.incoming[b], s.outs, s.rest)
  }

  ghost predicate OnlyIns<M>(s: CopyState<M>, s': CopyState<M>) {
    s'.outs == s.outs && s'.rest == s.rest
  }

  lemma {:induction false} ExecuteWrites<M>(interp: Interpretation<M>, b: nat, phis: seq<Phi>, s: CopyState<M>)
    requires DistinctIds(phis) && forall p :: p in phis ==> b in p.incoming
    ensures var s' := Execute(interp, WriteIns(b, phis), s);
            && OnlyIns(s, s')
            && (forall p :: p in phis ==> Written(interp, b, p, s'))
            && (forall id :: !HasId(phis, id) ==> (id in s.ins <==> id in s'.ins) && (id in s.ins ==> s'.ins[id] == s.ins[id]))
    decreases |phis|
  {
    if phis != [] {
      var rest := phis[1..];
      assert WriteIns(b, phis)[1..] == WriteIns(b, rest);
      assert forall p :: p in phis <==> p == phis[0] || p in rest;
      ExecuteWrites(interp, b, rest, ExecuteOne(interp, WriteIn(phis[0].id, phis[0].incoming[b]), s));
      assert !HasId(rest, phis[0].id);
    }
  }

  lemma {:induction false} ExecuteAllWrites<M>(fn: Function, interp: Interpretation<M>, b: nat, succs: seq<nat>, s: CopyState<M>)
    requires WellFormed(fn) && FlowsInto(fn, b, succs)
    ensures var s' := Execute(interp, WriteAllIns(fn, b, succs), s);
            && OnlyIns(s, s')
            && (forall v, p :: v in succs && p in fn[v].phis ==> Written(interp, b, p, s'))
            && (forall id :: (forall v :: v in succs ==> !HasId(fn[v].phis, id)) ==>
                  (id in s.ins <==> id in s'.ins) && (id in s.ins ==> s'.ins[id] == s.ins[id]))
    decreases |succs|
  {
    if succs != [] {
      var v, rest := succs[0], succs[1..];
      var first := WriteIns(b, fn[v].phis);
      var s1 := Execute(interp, first, s);
      ExecuteConcat(interp, first, WriteAllIns(fn, b, rest), s);
      ExecuteWrites(interp, b, fn[v].phis, s);
      ExecuteAllWrites(fn, interp, b, rest, s1);
      assert forall w :: w in succs <==> w == v || w in rest;
      var s' := Execute(interp, WriteAllIns(fn, b, succs), s);
      forall p | p in fn[v].phis ensures Written(interp, b, p, s') {
        if v !in rest {
          forall w | w in rest ensures !HasId(fn[w].phis, p.id) { }
        }
      }
    }
  }

  lemma {:induction false} NewValuesAt<M>(interp: Interpretation<M>, phis: seq<Phi>, b: nat, s: State<M>)
    requires DistinctIds(phis) && forall p :: p in phis ==> b in p.incoming
    ensures var m := NewValues(interp, phis, b, s);
            && (forall id :: id in m <==> HasId(phis, id))
            && (forall p :: p in phis ==> m[p.id] == interp.value(p.incoming[b], s.outs, s.rest))
    decreases |phis|
  {
    if phis != [] {
      NewValuesAt(interp, phis[1..], b, s);
      assert forall p :: p in phis <==> p == phis[0] || p in phis[1..];
      assert !HasId(phis[1..], phis[0].id);
    }
  }

  /** Copying what a predecessor wrote is taking all new values at once. */
  lemma CopiesAreSimultaneous<M>(interp: Interpretation<M>, phis: seq<Phi>, b: nat, s: CopyState<M>)
    requires DistinctIds(phis) && (forall p :: p in phis ==> b in p.incoming && Written(interp, b, p, s))
    ensures var s' := Execute(interp, CopyOuts(phis), s);
            State(s'.outs, s'.rest) == EnterFrom(interp, phis, b, State(s.outs, s.rest))
  {
    ExecuteCopies(interp, phis, s);
    NewValuesAt(interp, phis, b, State(s.outs, s.rest));
    var s' := Execute(interp, CopyOuts(phis), s);
    assert s'.outs == s.outs + NewValues(interp, phis, b, State(s.outs, s.rest));
  }

  /** One block: its copies, its instructions, and its writes for whichever successor comes next. */
  lemma BlockAgrees<M>(fn: Function, interp: Interpretation<M>, b: nat, before: CopyState<M>, entered: State<M>)
    requires WellFormed(fn) && b < |fn|
    requires var s' := Execute(interp, CopyOuts(fn[b].phis), before); State(s'.outs, s'.rest) == entered
    ensures var after := Execute(interp, Statements(fn, b), before);
            && State(after.outs, after.rest) == RunInstructions(interp, fn[b].instructions, entered)
            && forall v, p :: v in fn[b].succs && p in fn[v].phis ==> Written(interp, b, p, after)
  {
    var copies, runs := CopyOuts(fn[b].phis), Runs(fn[b].instructions);
    var writes := WriteAllIns(fn, b, fn[b].succs);
    var s1 := Execute(interp, copies, before);
    var s2 := Execute(interp, runs, s1);
    ExecuteConcat(interp, copies + runs, writes, before);
    ExecuteConcat(interp, copies, runs, before);
    ExecuteRuns(interp, fn[b].instructions, s1);
    ExecuteAllWrites(fn, interp, b, fn[b].succs, s2);
  }

  /**
   Along every path the statements compute the values that the phi nodes define: swaps and rotations included, whatever
   the `phi_in` variables held before and whatever was written for successors not taken.
   */
  lemma {:induction false} PathsAgree<M>(fn: Function, interp: Interpretation<M>, path: seq<nat>, s: State<M>, ins: map<nat, int>)
    requires WellFormed(fn) && IsPath(fn, path)
    ensures var after := ExecutePath(fn, interp, path, CopyState(ins, s.outs, s.rest));
            var last := path[|path| - 1];
            && State(after.outs, after.rest) == RunPath(fn, interp, path, s)
            && forall v, p :: v in fn[last].succs && p in fn[v].phis ==> Written(interp, last, p, after)
    decreases |path|
  {
    var n := |path| - 1;
    if n == 0 {
      BlockAgrees(fn, interp, 0, CopyState(ins, s.outs, s.rest), s);
    } else {
      var init, b := path[..n], path[n];
      PathsAgree(fn, interp, init, s, ins);
      var before := ExecutePath(fn, interp, init, CopyState(ins, s.outs, s.rest));
      assert b in fn[path[n - 1]].succs;
      CopiesAreSimultaneous(interp, fn[b].phis, path[n - 1], before);
      BlockAgrees(fn, interp, b, before, EnterFrom(interp, fn[b].phis, path[n - 1], State(before.outs, before.rest)));
    }
  }
}
