/**
 EdgeRedirection: the block graph that the structurizer works on, and what becomes of a program's runs when some of its
 edges are led through a new block that dispatches on a synthesized variable.
 */
module EdgeRedirection {

  /** The condition of an edge: one of the program's, or a test of a dispatch variable, which its block names. */
  datatype Condition = Given(id: int) | DispatchIs(variable: Block, value: nat)

  /** What a block does: statements of the program, and assignments to dispatch variables. */
  datatype Action = Given(id: int) | Dispatch(variable: Block, value: nat)

  class Edge {
    var from: Block
    var to: Block
    var condition: Condition

    constructor (from: Block, to: Block, condition: Condition)
      ensures this.from == from && this.to == to && this.condition == condition
    {
      this.from, this.to, this.condition := from, to, condition;
    }
  }

  class Block {
    var predecessors: seq<Edge>
    var successors: seq<Edge>
    var actions: seq<Action>

    constructor ()
      ensures predecessors == [] && successors == [] && actions == []
    {
      predecessors, successors, actions := [], [], [];
    }
  }

  /** The graph as a value, without the lists. */
  datatype Flow = Flow(from: map<Edge, Block>, to: map<Edge, Block>, condition: map<Edge, Condition>, actions: map<Block, seq<Action>>)

  function IndexOf<T(==)>(s: seq<T>, x: T): (k: nat)
    requires x in s
    ensures k < |s| && s[k] == x && x !in s[..k]
  {
    if s[0] == x then 0 else
      var k := IndexOf(s[1..], x);
      assert s[..k + 1] == [s[0]] + s[1..][..k];
      k + 1
  }

  ghost predicate Distinct<T>(s: seq<T>) {
    forall i, j :: 0 <= i < j < |s| ==> s[i] != s[j]
  }

  /** The targets of the edges in `list`, each where it first appears. */
  ghost function Targets(list: seq<Edge>, to: map<Edge, Block>): seq<Block>
    requires forall e :: e in list ==> e in to
  {
    if list == [] then [] else
      var init := Targets(list[..|list| - 1], to);
      var t := to[list[|list| - 1]];
      if t in init then init else init + [t]
  }

  lemma {:induction false} TargetsHold(list: seq<Edge>, to: map<Edge, Block>)
    requires forall e :: e in list ==> e in to
    ensures forall e :: e in list ==> to[e] in Targets(list, to)
    ensures forall t :: t in Targets(list, to) ==> exists e :: e in list && to[e] == t
    ensures Distinct(Targets(list, to))
    decreases |list|
  {
    if list != [] {
      var init, last := list[..|list| - 1], list[|list| - 1];
      TargetsHold(init, to);
      assert list == init + [last];
      forall t | t in Targets(list, to) ensures exists e :: e in list && to[e] == t {
        if t in Targets(init, to) {
          var e :| e in init && to[e] == t;
          assert e in list;
        } else {
          assert to[last] == t;
        }
      }
    }
  }

  /** The assignments that block `b` receives for the edges in `list`. */
  ghost function Assignments(list: seq<Edge>, flow: Flow, targets: seq<Block>, b: Block, n: Block): seq<Action>
    requires forall e :: e in list ==> e in flow.to && e in flow.from && flow.to[e] in targets
  {
    if list == [] then [] else
      var last := list[|list| - 1];
      Assignments(list[..|list| - 1], flow, targets, b, n)
      + if flow.from[last] == b then [Dispatch(n, IndexOf(targets, flow.to[last]))] else []
  }

  ghost predicate Shaped(flow: Flow) {
    flow.to.Keys == flow.from.Keys && flow.condition.Keys == flow.from.Keys
  }

  /** The edge joins two blocks of the graph and does not test the variable of `n`. */
  ghost predicate Plain(flow: Flow, n: Block, e: Edge)
    requires Shaped(flow) && e in flow.from
  {
    && flow.from[e] in flow.actions && flow.to[e] in flow.actions
    && (flow.condition[e].DispatchIs? ==> flow.condition[e].variable != n)
  }

  ghost predicate Apart(a: Action, n: Block) {
    a.Dispatch? ==> a.variable != n
  }

  /** A graph in which nothing mentions `n`, and edges of it. */
  ghost predicate CanRedirect(flow: Flow, list: seq<Edge>, n: Block) {
    && Shaped(flow) && n !in flow.actions
    && (forall e {:trigger Plain(flow, n, e)} :: e in flow.from ==> Plain(flow, n, e))
    && (forall b, a :: b in flow.actions && a in flow.actions[b] ==> Apart(a, n))
    && forall e :: e in list ==> e in flow.to
  }

  /** An edge of the old graph keeps its source and condition, and leads to `n` if it is redirected. */
  ghost predicate Kept(flow: Flow, flow': Flow, list: seq<Edge>, n: Block, e: Edge)
    requires Shaped(flow) && Shaped(flow') && e in flow.from
  {
    && e in flow'.from && flow'.from[e] == flow.from[e]
    && flow'.to[e] == (if e in list then n else flow.to[e])
    && flow'.condition[e] == flow.condition[e]
  }

  /** The `k`th new edge leads from `n` to the `k`th target when the variable is `k`. */
  ghost predicate Added(flow': Flow, targets: seq<Block>, n: Block, added: seq<Edge>, k: nat)
    requires Shaped(flow') && k < |targets| && k < |added|
  {
    && added[k] in flow'.from && flow'.from[added[k]] == n && flow'.to[added[k]] == targets[k]
    && flow'.condition[added[k]] == DispatchIs(n, k)
  }

  /** Source blocks of redirected edges have the assignments at their end. */
  ghost predicate Extended(flow: Flow, flow': Flow, list: seq<Edge>, n: Block, b: Block)
    requires Shaped(flow) && (forall e :: e in list ==> e in flow.to) && b in flow.actions
  {
    TargetsHold(list, flow.to);
    b in flow'.actions && flow'.actions[b] == flow.actions[b] + Assignments(list, flow, Targets(list, flow.to), b, n)
  }

  /** `flow'` is `flow` with the edges in `list` led through the new block `n`, which has the edges `added`. */
  ghost predicate Redirected(flow: Flow, flow': Flow, list: seq<Edge>, n: Block, added: seq<Edge>) {
    && CanRedirect(flow, list, n) && Shaped(flow') && |added| == |Targets(list, flow.to)|
    && flow'.actions.Keys == flow.actions.Keys + {n} && flow'.actions[n] == []
    && (forall e {:trigger Kept(flow, flow', list, n, e)} :: e in flow.from ==> Kept(flow, flow', list, n, e))
    && (forall k: nat {:trigger Added(flow', Targets(list, flow.to), n, added, k)} ::
          k < |added| ==> Added(flow', Targets(list, flow.to), n, added, k))
    && (forall b {:trigger Extended(flow, flow', list, n, b)} :: b in flow.actions ==> Extended(flow, flow', list, n, b))
    && (forall e :: e in added ==> e !in flow.from)
    && flow'.from.Keys == flow.from.Keys + (set e | e in added)
  }

  /* ---- What a run does ---- */

  ghost function Run(actions: seq<Action>, store: map<Block, nat>): map<Block, nat> {
    if actions == [] then store else
      Run(actions[1..], if actions[0].Dispatch? then store[actions[0].variable := actions[0].value] else store)
  }

  ghost predicate Enabled(c: Condition, store: map<Block, nat>) {
    c.DispatchIs? ==> c.variable in store && store[c.variable] == c.value
  }

  /** From `b` the run takes the edges of `path`; the program's own conditions may turn out either way. */
  ghost predicate Follows(flow: Flow, b: Block, store: map<Block, nat>, path: seq<Edge>)
    requires Shaped(flow)
    decreases |path|
  {
    path == [] ||
    (b in flow.actions && path[0] in flow.from && flow.from[path[0]] == b
     && var after := Run(flow.actions[b], store);
        Enabled(flow.condition[path[0]], after) && Follows(flow, flow.to[path[0]], after, path[1..]))
  }

  ghost function End(flow: Flow, b: Block, path: seq<Edge>): Block
    requires forall e :: e in path ==> e in flow.to
  {
    if path == [] then b else flow.to[path[|path| - 1]]
  }

  datatype Event = Did(id: int) | Chose(id: int)

  ghost function Own(actions: seq<Action>): seq<Event> {
    if actions == [] then [] else (if actions[0].Given? then [Did(actions[0].id)] else []) + Own(actions[1..])
  }

  /** The program's own statements and conditions along a path. */
  ghost function Events(flow: Flow, b: Block, path: seq<Edge>): seq<Event>
    requires Shaped(flow)
    decreases |path|
  {
    (if b in flow.actions then Own(flow.actions[b]) else []) +
    if path == [] || path[0] !in flow.to then []
    else Choice(flow.condition[path[0]]) + Events(flow, flow.to[path[0]], path[1..])
  }

  /* ---- Redirected runs ---- */

  lemma {:induction false} RunConcat(a: seq<Action>, b: seq<Action>, store: map<Block, nat>)
    ensures Run(a + b, store) == Run(b, Run(a, store))
    decreases |a|
  {
    if a == [] {
      assert a + b == b;
    } else {
      RunConcat(a[1..], b, if a[0].Dispatch? then store[a[0].variable := a[0].value] else store);
      assert (a + b)[1..] == a[1..] + b;
    }
  }

  lemma {:induction false} OwnConcat(a: seq<Action>, b: seq<Action>)
    ensures Own(a + b) == Own(a) + Own(b)
    decreases |a|
  {
    if a == [] {
      assert a + b == b;
    } else {
      OwnConcat(a[1..], b);
      assert (a + b)[1..] == a[1..] + b;
    }
  }

  /** The two stores differ at most in variable `n`. */
  ghost predicate Agree(store: map<Block, nat>, store': map<Block, nat>, n: Block) {
    store - {n} == store' - {n}
  }

  lemma {:induction false} RunAgrees(actions: seq<Action>, store: map<Block, nat>, store': map<Block, nat>, n: Block)
    requires Agree(store, store', n) && forall a :: a in actions ==> Apart(a, n)
    ensures Agree(Run(actions, store), Run(actions, store'), n)
    decreases |actions|
  {
    if actions != [] {
      var a := actions[0];
      assert Apart(a, n);
      if a.Dispatch? {
        assert store[a.variable := a.value] - {n} == (store - {n})[a.variable := a.value];
        assert store'[a.variable := a.value] - {n} == (store' - {n})[a.variable := a.value];
      }
      RunAgrees(actions[1..], if a.Dispatch? then store[a.variable := a.value] else store,
                if a.Dispatch? then store'[a.variable := a.value] else store', n);
    }
  }

  /** The last edge in `list` that leaves `b`. */
  ghost function LastFrom(list: seq<Edge>, from: map<Edge, Block>, b: Block): (last: Edge)
    requires exists e :: e in list && e in from && from[e] == b
    ensures last in list && last in from && from[last] == b
    decreases |list|
  {
    var last := list[|list| - 1];
    if last in from && from[last] == b then last else
      assert list == list[..|list| - 1] + [last];
      LastFrom(list[..|list| - 1], from, b)
  }

  lemma {:induction false} AssignmentsOwn(list: seq<Edge>, flow: Flow, targets: seq<Block>, b: Block, n: Block)
    requires forall e :: e in list ==> e in flow.to && e in flow.from && flow.to[e] in targets
    ensures Own(Assignments(list, flow, targets, b, n)) == []
    decreases |list|
  {
    if list != [] {
      var init, last := list[..|list| - 1], list[|list| - 1];
      AssignmentsOwn(init, flow, targets, b, n);
      OwnConcat(Assignments(init, flow, targets, b, n),
                if flow.from[last] == b then [Dispatch(n, IndexOf(targets, flow.to[last]))] else []);
    }
  }

  lemma RunConcatDispatch(a: seq<Action>, n: Block, k: nat, store: map<Block, nat>)
    ensures Run(a + [Dispatch(n, k)], store) == Run(a, store)[n := k]
  {
    RunConcat(a, [Dispatch(n, k)], store);
    assert Run([Dispatch(n, k)], Run(a, store)) == Run([], Run(a, store)[n := k]);
  }

  /** The assignments in a source block leave the number of the last edge's target, and touch nothing else. */
  lemma {:induction false} AssignmentsRun(list: seq<Edge>, flow: Flow, targets: seq<Block>, b: Block, n: Block, store: map<Block, nat>)
    requires forall e :: e in list ==> e in flow.to && e in flow.from && flow.to[e] in targets
    ensures Run(Assignments(list, flow, targets, b, n), store)
         == if exists e :: e in list && flow.from[e] == b
            then store[n := IndexOf(targets, flow.to[LastFrom(list, flow.from, b)])] else store
    decreases |list|
  {
    if list != [] {
      var init, last := list[..|list| - 1], list[|list| - 1];
      assert list == init + [last];
      AssignmentsRun(init, flow, targets, b, n, store);
      if flow.from[last] == b {
        RunConcatDispatch(Assignments(init, flow, targets, b, n), n, IndexOf(targets, flow.to[last]), store);
      } else {
        assert Assignments(list, flow, targets, b, n) == Assignments(init, flow, targets, b, n);
      }
    }
  }

  /** No block has redirected edges to two targets. */
  ghost predicate SingleTarget(list: seq<Edge>, flow: Flow)
    requires Shaped(flow) && forall e :: e in list ==> e in flow.to
  {
    forall e, f :: e in list && f in list && flow.from[e] == flow.from[f] ==> flow.to[e] == flow.to[f]
  }

  /** The number of the edge that leads on from the new block to the target of `e`. */
  ghost function Number(flow: Flow, list: seq<Edge>, e: Edge): (k: nat)
    requires (forall e :: e in list ==> e in flow.to) && e in list
    ensures k < |Targets(list, flow.to)| && Targets(list, flow.to)[k] == flow.to[e]
  {
    TargetsHold(list, flow.to);
    IndexOf(Targets(list, flow.to), flow.to[e])
  }

  /** The last edge in `list` that leaves the same block as `e`. */
  ghost function LastBeside(flow: Flow, list: seq<Edge>, e: Edge): (last: Edge)
    requires Shaped(flow) && (forall e :: e in list ==> e in flow.to) && e in list
    ensures last in list && flow.from[last] == flow.from[e]
  {
    LastFrom(list, flow.from, flow.from[e])
  }

  /** What the two graphs do in the old block `b`: the same, but for the new variable. */
  lemma OldActions(flow: Flow, flow': Flow, list: seq<Edge>, n: Block, added: seq<Edge>, b: Block,
                   store: map<Block, nat>, store': map<Block, nat>)
    requires Redirected(flow, flow', list, n, added) && b in flow.actions && Agree(store, store', n)
    ensures b in flow'.actions && Own(flow'.actions[b]) == Own(flow.actions[b])
    ensures Agree(Run(flow.actions[b], store), Run(flow'.actions[b], store'), n)
    ensures forall e :: e in list && flow.from[e] == b ==>
              var after' := Run(flow'.actions[b], store');
              n in after' && after'[n] == Number(flow, list, LastBeside(flow, list, e))
  {
    assert Extended(flow, flow', list, n, b);
    TargetsHold(list, flow.to);
    var targets := Targets(list, flow.to);
    RunAgrees(flow.actions[b], store, store', n);
    RunConcat(flow.actions[b], Assignments(list, flow, targets, b, n), store');
    OwnConcat(flow.actions[b], Assignments(list, flow, targets, b, n));
    AssignmentsOwn(list, flow, targets, b, n);
    AssignmentsRun(list, flow, targets, b, n, Run(flow.actions[b], store'));
  }

  lemma EnabledAlike(c: Condition, store: map<Block, nat>, store': map<Block, nat>, n: Block)
    requires Agree(store, store', n) && (c.DispatchIs? ==> c.variable != n)
    ensures Enabled(c, store) <==> Enabled(c, store')
  {
    if c.DispatchIs? {
      assert c.variable in store <==> c.variable in store - {n};
      assert c.variable in store' <==> c.variable in store' - {n};
    }
  }

  lemma FollowsCons(flow: Flow, b: Block, store: map<Block, nat>, e: Edge, rest: seq<Edge>)
    requires Shaped(flow)
    ensures Follows(flow, b, store, [e] + rest) <==>
              b in flow.actions && e in flow.from && flow.from[e] == b && Enabled(flow.condition[e], Run(flow.actions[b], store))
              && Follows(flow, flow.to[e], Run(flow.actions[b], store), rest)
  {
    assert ([e] + rest)[1..] == rest;
  }

  /** An old edge is taken as before; it leads to the new block if it is redirected. */
  lemma TakeOld(flow: Flow, flow': Flow, list: seq<Edge>, n: Block, added: seq<Edge>, e: Edge,
                store: map<Block, nat>, store': map<Block, nat>, rest: seq<Edge>)
    requires Redirected(flow, flow', list, n, added) && e in flow.from && Agree(store, store', n)
    ensures flow.from[e] in flow.actions && flow.from[e] in flow'.actions && flow.to[e] in flow.actions
    ensures Follows(flow', flow.from[e], store', [e] + rest) <==>
              Enabled(flow.condition[e], Run(flow.actions[flow.from[e]], store))
              && Follows(flow', if e in list then n else flow.to[e], Run(flow'.actions[flow.from[e]], store'), rest)
  {
    var b := flow.from[e];
    assert Plain(flow, n, e) && Kept(flow, flow', list, n, e);
    OldActions(flow, flow', list, n, added, b, store, store');
    EnabledAlike(flow.condition[e], Run(flow.actions[b], store), Run(flow'.actions[b], store'), n);
    FollowsCons(flow', b, store', e, rest);
  }

  /** The new block leads on to the target whose number the variable holds. */
  lemma TakeNew(flow: Flow, flow': Flow, list: seq<Edge>, n: Block, added: seq<Edge>, k: nat, store: map<Block, nat>, rest: seq<Edge>)
    requires Redirected(flow, flow', list, n, added) && k < |added|
    ensures Follows(flow', n, store, [added[k]] + rest) <==>
              n in store && store[n] == k && Follows(flow', Targets(list, flow.to)[k], store, rest)
  {
    assert Added(flow', Targets(list, flow.to), n, added, k);
    FollowsCons(flow', n, store, added[k], rest);
  }

  /** Only the new edges leave the new block. */
  lemma LeaveNew(flow: Flow, flow': Flow, list: seq<Edge>, n: Block, added: seq<Edge>, f: Edge)
    requires Redirected(flow, flow', list, n, added) && f in flow'.from
    ensures flow'.from[f] == n <==> f in added
  {
    if f in added {
      var k := IndexOf(added, f);
      assert Added(flow', Targets(list, flow.to), n, added, k);
    } else {
      assert Plain(flow, n, f) && Kept(flow, flow', list, n, f);
    }
  }

  /** A redirected edge and an edge out of the new block can follow each other only towards the last target. */
  lemma TakeRedirected(flow: Flow, flow': Flow, list: seq<Edge>, n: Block, added: seq<Edge>, e: Edge, k: nat,
                       store: map<Block, nat>, store': map<Block, nat>, rest: seq<Edge>)
    requires Redirected(flow, flow', list, n, added) && e in list && k < |added| && Agree(store, store', n)
    ensures flow.from[e] in flow.actions && flow.from[e] in flow'.actions
    ensures Follows(flow', flow.from[e], store', [e] + ([added[k]] + rest)) <==>
              Enabled(flow.condition[e], Run(flow.actions[flow.from[e]], store))
              && k == Number(flow, list, LastBeside(flow, list, e))
              && Follows(flow', Targets(list, flow.to)[k], Run(flow'.actions[flow.from[e]], store'), rest)
  {
    TakeOld(flow, flow', list, n, added, e, store, store', [added[k]] + rest);
    TakeNew(flow, flow', list, n, added, k, Run(flow'.actions[flow.from[e]], store'), rest);
    OldActions(flow, flow', list, n, added, flow.from[e], store, store');
  }

  /** The same path with the new block in the middle of every redirected edge. */
  ghost function Detour(flow: Flow, list: seq<Edge>, added: seq<Edge>, path: seq<Edge>): seq<Edge>
    requires (forall e :: e in list ==> e in flow.to) && |added| == |Targets(list, flow.to)|
  {
    if path == [] then [] else DetourEdge(flow, list, added, path[0]) + Detour(flow, list, added, path[1..])
  }

  ghost function DetourEdge(flow: Flow, list: seq<Edge>, added: seq<Edge>, e: Edge): seq<Edge>
    requires (forall e :: e in list ==> e in flow.to) && |added| == |Targets(list, flow.to)|
  {
    if e in list then [e, added[Number(flow, list, e)]] else [e]
  }

  /** The path without the edges that leave the new block. */
  ghost function Direct(added: seq<Edge>, path: seq<Edge>): seq<Edge> {
    if path == [] then [] else (if path[0] in added then [] else [path[0]]) + Direct(added, path[1..])
  }

  lemma DetourCons(flow: Flow, list: seq<Edge>, added: seq<Edge>, e: Edge, rest: seq<Edge>)
    requires (forall e :: e in list ==> e in flow.to) && |added| == |Targets(list, flow.to)|
    ensures Detour(flow, list, added, [e] + rest) == DetourEdge(flow, list, added, e) + Detour(flow, list, added, rest)
  {
    assert ([e] + rest)[1..] == rest;
  }

  lemma DirectCons(added: seq<Edge>, e: Edge, rest: seq<Edge>)
    ensures Direct(added, [e] + rest) == (if e in added then [] else [e]) + Direct(added, rest)
  {
    assert ([e] + rest)[1..] == rest;
  }

  /** Taking an edge with its detour is taking the edge. */
  lemma TakeDetour(flow: Flow, flow': Flow, list: seq<Edge>, n: Block, added: seq<Edge>, e: Edge,
                   store: map<Block, nat>, store': map<Block, nat>, rest: seq<Edge>)
    requires Redirected(flow, flow', list, n, added) && SingleTarget(list, flow) && e in flow.from && Agree(store, store', n)
    ensures flow.from[e] in flow.actions && flow.from[e] in flow'.actions
    ensures Follows(flow', flow.from[e], store', DetourEdge(flow, list, added, e) + rest) <==>
              Enabled(flow.condition[e], Run(flow.actions[flow.from[e]], store))
              && Follows(flow', flow.to[e], Run(flow'.actions[flow.from[e]], store'), rest)
  {
    if e in list {
      var k := Number(flow, list, e);
      assert Number(flow, list, LastBeside(flow, list, e)) == k;
      TakeRedirected(flow, flow', list, n, added, e, k, store, store', rest);
      assert DetourEdge(flow, list, added, e) + rest == [e] + ([added[k]] + rest);
    } else {
      TakeOld(flow, flow', list, n, added, e, store, store', rest);
    }
  }

  /** Every old path survives with its detours. */
  lemma {:induction false} DetourFollows(flow: Flow, flow': Flow, list: seq<Edge>, n: Block, added: seq<Edge>, b: Block,
                                         store: map<Block, nat>, store': map<Block, nat>, path: seq<Edge>)
    requires Redirected(flow, flow', list, n, added) && SingleTarget(list, flow) && b in flow.actions && Agree(store, store', n)
    ensures Follows(flow, b, store, path) ==> Follows(flow', b, store', Detour(flow, list, added, path))
    decreases |path|
  {
    if path != [] && Follows(flow, b, store, path) {
      var e, rest := path[0], path[1..];
      assert path == [e] + rest;
      FollowsCons(flow, b, store, e, rest);
      assert Plain(flow, n, e);
      OldActions(flow, flow', list, n, added, b, store, store');
      DetourFollows(flow, flow', list, n, added, flow.to[e], Run(flow.actions[b], store), Run(flow'.actions[b], store'), rest);
      TakeDetour(flow, flow', list, n, added, e, store, store', Detour(flow, list, added, rest));
    }
  }

  ghost function Choice(c: Condition): seq<Event> {
    if c.Given? then [Chose(c.id)] else []
  }

  lemma EventsCons(flow: Flow, b: Block, e: Edge, rest: seq<Edge>)
    requires Shaped(flow) && e in flow.from && b in flow.actions
    ensures Events(flow, b, [e] + rest) == Own(flow.actions[b]) + (Choice(flow.condition[e]) + Events(flow, flow.to[e], rest))
  {
    assert ([e] + rest)[1..] == rest;
  }

  lemma EventsDetour(flow: Flow, flow': Flow, list: seq<Edge>, n: Block, added: seq<Edge>, e: Edge, rest: seq<Edge>)
    requires Redirected(flow, flow', list, n, added) && e in flow.from
    ensures flow.from[e] in flow.actions && flow.from[e] in flow'.actions && flow.to[e] in flow.actions
    ensures Events(flow', flow.from[e], DetourEdge(flow, list, added, e) + rest)
         == Own(flow'.actions[flow.from[e]]) + (Choice(flow.condition[e]) + Events(flow', flow.to[e], rest))
  {
    assert Plain(flow, n, e) && Kept(flow, flow', list, n, e);
    if e in list {
      var k := Number(flow, list, e);
      assert Added(flow', Targets(list, flow.to), n, added, k);
      EventsCons(flow', flow.from[e], e, [added[k]] + rest);
      EventsCons(flow', n, added[k], rest);
      assert DetourEdge(flow, list, added, e) + rest == [e] + ([added[k]] + rest);
    } else {
      EventsCons(flow', flow.from[e], e, rest);
    }
  }

  /** The program does the same on a path with its detours. */
  lemma {:induction false} DetourEvents(flow: Flow, flow': Flow, list: seq<Edge>, n: Block, added: seq<Edge>, b: Block,
                                        store: map<Block, nat>, path: seq<Edge>)
    requires Redirected(flow, flow', list, n, added) && b in flow.actions && Follows(flow, b, store, path)
    ensures Events(flow', b, Detour(flow, list, added, path)) == Events(flow, b, path)
    decreases |path|
  {
    OldActions(flow, flow', list, n, added, b, map[], map[]);
    if path != [] {
      var e, rest := path[0], path[1..];
      assert path == [e] + rest;
      FollowsCons(flow, b, store, e, rest);
      assert Plain(flow, n, e);
      DetourEvents(flow, flow', list, n, added, flow.to[e], Run(flow.actions[b], store), rest);
      EventsDetour(flow, flow', list, n, added, e, Detour(flow, list, added, rest));
      EventsCons(flow, b, e, rest);
    }
  }

  lemma DirectDetourEdge(flow: Flow, list: seq<Edge>, added: seq<Edge>, e: Edge, rest: seq<Edge>)
    requires (forall e :: e in list ==> e in flow.to) && |added| == |Targets(list, flow.to)| && e !in added
    ensures Direct(added, DetourEdge(flow, list, added, e) + rest) == [e] + Direct(added, rest)
  {
    if e in list {
      var f := added[Number(flow, list, e)];
      assert DetourEdge(flow, list, added, e) + rest == [e] + ([f] + rest);
      DirectCons(added, e, [f] + rest);
      DirectCons(added, f, rest);
    } else {
      DirectCons(added, e, rest);
    }
  }

  /** Leaving the detours out again gives back the path, so that different paths have different detours. */
  lemma {:induction false} DetourBack(flow: Flow, list: seq<Edge>, added: seq<Edge>, path: seq<Edge>)
    requires (forall e :: e in list ==> e in flow.to) && |added| == |Targets(list, flow.to)|
    requires forall e :: e in path ==> e !in added
    ensures Direct(added, Detour(flow, list, added, path)) == path
    decreases |path|
  {
    if path != [] {
      DetourBack(flow, list, added, path[1..]);
      DirectDetourEdge(flow, list, added, path[0], Detour(flow, list, added, path[1..]));
    }
  }

  /** A new path from an old block starts with an old edge, and its detour if it is redirected. */
  lemma SplitDetour(flow: Flow, flow': Flow, list: seq<Edge>, n: Block, added: seq<Edge>, b: Block, store': map<Block, nat>, path: seq<Edge>)
    returns (e: Edge, more: seq<Edge>)
    requires Redirected(flow, flow', list, n, added) && SingleTarget(list, flow) && b in flow.actions
    requires Follows(flow', b, store', path) && path != [] && path[|path| - 1] !in list
    ensures e in flow.from && flow.from[e] == b && path == DetourEdge(flow, list, added, e) + more
  {
    e, more := path[0], path[1..];
    assert path == [e] + more;
    FollowsCons(flow', b, store', e, more);
    LeaveNew(flow, flow', list, n, added, e);
    assert Kept(flow, flow', list, n, e);
    if e in list {
      var f := more[0];
      more := more[1..];
      assert path[1..] == [f] + more;
      FollowsCons(flow', n, Run(flow'.actions[b], store'), f, more);
      LeaveNew(flow, flow', list, n, added, f);
      var k := IndexOf(added, f);
      assert path == [e] + ([added[k]] + more);
      TakeRedirected(flow, flow', list, n, added, e, k, store', store', more);
      assert k == Number(flow, list, e) && DetourEdge(flow, list, added, e) + more == [e] + ([added[k]] + more);
    }
  }

  /** Every new path that ends in an old block is an old one with its detours. */
  lemma {:induction false} FollowsDetour(flow: Flow, flow': Flow, list: seq<Edge>, n: Block, added: seq<Edge>, b: Block,
                                         store: map<Block, nat>, store': map<Block, nat>, path: seq<Edge>)
    returns (direct: seq<Edge>)
    requires Redirected(flow, flow', list, n, added) && SingleTarget(list, flow) && b in flow.actions && Agree(store, store', n)
    requires Follows(flow', b, store', path) && (path != [] ==> path[|path| - 1] !in list)
    ensures Follows(flow, b, store, direct) && path == Detour(flow, list, added, direct)
    decreases |path|
  {
    if path == [] {
      direct := [];
    } else {
      var e, more := SplitDetour(flow, flow', list, n, added, b, store', path);
      TakeDetour(flow, flow', list, n, added, e, store, store', more);
      OldActions(flow, flow', list, n, added, b, store, store');
      assert Plain(flow, n, e);
      var rest := FollowsDetour(flow, flow', list, n, added, flow.to[e], Run(flow.actions[b], store), Run(flow'.actions[b], store'), more);
      direct := [e] + rest;
      FollowsCons(flow, b, store, e, rest);
      DetourCons(flow, list, added, e, rest);
    }
  }

  /** Through the new block `e` leads nowhere but to `target`. */
  ghost predicate Arrives(flow': Flow, added: seq<Edge>, e: Edge, from: Block, target: Block)
    requires Shaped(flow') && forall f :: f in added ==> f in flow'.from
  {
    forall k :: 0 <= k < |added| && Follows(flow', from, map[], [e] + ([added[k]] + [])) ==> flow'.to[added[k]] == target
  }

  /** Behind the new block exactly the new edge to the target of the last redirected edge of the block is taken. */
  lemma OnlyLast(flow: Flow, flow': Flow, list: seq<Edge>, n: Block, added: seq<Edge>, e: Edge)
    requires Redirected(flow, flow', list, n, added) && e in list && flow.condition[e].Given?
    ensures forall k: nat :: k < |added| ==> flow'.to[added[k]] == Targets(list, flow.to)[k]
    ensures forall k: nat :: k < |added| ==>
              (Follows(flow', flow.from[e], map[], [e] + ([added[k]] + [])) <==> k == Number(flow, list, LastBeside(flow, list, e)))
  {
    forall k: nat | k < |added|
      ensures flow'.to[added[k]] == Targets(list, flow.to)[k]
      ensures Follows(flow', flow.from[e], map[], [e] + ([added[k]] + [])) <==> k == Number(flow, list, LastBeside(flow, list, e))
    {
      assert Added(flow', Targets(list, flow.to), n, added, k);
      TakeRedirected(flow, flow', list, n, added, e, k, map[], map[], []);
    }
  }

  /** The edge leads to the target of the last redirected edge of its block, and nowhere else. */
  lemma ArrivesLast(flow: Flow, flow': Flow, list: seq<Edge>, n: Block, added: seq<Edge>, e: Edge, target: Block)
    requires Redirected(flow, flow', list, n, added) && e in list && flow.condition[e].Given?
    ensures Arrives(flow', added, e, flow.from[e], target) <==> flow.to[LastBeside(flow, list, e)] == target
  {
    OnlyLast(flow, flow', list, n, added, e);
    var last := Number(flow, list, LastBeside(flow, list, e));
    assert Follows(flow', flow.from[e], map[], [e] + ([added[last]] + []));
    assert flow'.to[added[last]] == flow.to[LastBeside(flow, list, e)];
  }

  /**
   Assigning the variable without a condition is right exactly when no block has redirected edges to two targets. (The
   conditions of the redirected edges are the program's, so that each of them can be taken.)
   */
  lemma RedirectExact(flow: Flow, flow': Flow, list: seq<Edge>, n: Block, added: seq<Edge>)
    requires Redirected(flow, flow', list, n, added) && forall e :: e in list ==> flow.condition[e].Given?
    ensures SingleTarget(list, flow) <==> forall e :: e in list ==> Arrives(flow', added, e, flow.from[e], flow.to[e])
  {
    forall e | e in list
      ensures Arrives(flow', added, e, flow.from[e], flow.to[e]) <==> flow.to[LastBeside(flow, list, e)] == flow.to[e]
    {
      ArrivesLast(flow, flow', list, n, added, e, flow.to[e]);
    }
    if forall e :: e in list ==> flow.to[LastBeside(flow, list, e)] == flow.to[e] {
      forall e, f | e in list && f in list && flow.from[e] == flow.from[f] ensures flow.to[e] == flow.to[f] {
        assert LastBeside(flow, list, e) == LastBeside(flow, list, f);
      }
    }
  }

  /** Two edges of one block to different targets: the first one goes where the second does. */
  lemma FirstGoesAstray(flow: Flow, flow': Flow, n: Block, added: seq<Edge>, e: Edge, f: Edge)
    requires Redirected(flow, flow', [e, f], n, added) && flow.condition[e].Given? && flow.condition[f].Given?
    requires flow.from[e] == flow.from[f] && flow.to[e] != flow.to[f]
    ensures !SingleTarget([e, f], flow)
    ensures !Arrives(flow', added, e, flow.from[e], flow.to[e]) && Arrives(flow', added, e, flow.from[e], flow.to[f])
    ensures Arrives(flow', added, f, flow.from[f], flow.to[f])
  {
    var list := [e, f];
    assert e in list && f in list && list[..1] == [e];
    assert LastBeside(flow, list, e) == f && LastBeside(flow, list, f) == f;
    ArrivesLast(flow, flow', list, n, added, e, flow.to[e]);
    ArrivesLast(flow, flow', list, n, added, e, flow.to[f]);
    ArrivesLast(flow, flow', list, n, added, f, flow.to[f]);
  }
}
