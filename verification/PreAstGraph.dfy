/**
 PreAstGraph: the block graph in place. Blocks list their edges at both ends; edges are turned to other blocks, blocks are
 swapped, and edges are led through a new block.
 */
module PreAstGraph {
  import opened EdgeRedirection

  /* ---- Building the new block edge by edge ---- */

  lemma TargetsSnoc(list: seq<Edge>, e: Edge, to: map<Edge, Block>)
    requires (forall e :: e in list ==> e in to) && e in to
    ensures Targets(list + [e], to) == if to[e] in Targets(list, to) then Targets(list, to) else Targets(list, to) + [to[e]]
  {
    assert (list + [e])[..|list|] == list;
  }

  lemma {:induction false} AssignmentsStable(list: seq<Edge>, flow: Flow, targets: seq<Block>, t: Block, b: Block, n: Block)
    requires forall e :: e in list ==> e in flow.to && e in flow.from && flow.to[e] in targets
    ensures Assignments(list, flow, targets + [t], b, n) == Assignments(list, flow, targets, b, n)
    decreases |list|
  {
    if list != [] {
      AssignmentsStable(list[..|list| - 1], flow, targets, t, b, n);
      IndexStable(targets, t, flow.to[list[|list| - 1]]);
    }
  }

  lemma {:induction false} IndexStable<T>(s: seq<T>, t: T, x: T)
    requires x in s
    ensures IndexOf(s + [t], x) == IndexOf(s, x)
    decreases |s|
  {
    if s[0] != x {
      IndexStable(s[1..], t, x);
      assert (s + [t])[1..] == s[1..] + [t];
    }
  }

  /** The assignments after one more edge, whose target has the number `k`. */
  lemma AssignmentsSnoc(list: seq<Edge>, e: Edge, flow: Flow, b: Block, n: Block)
    requires forall f :: f in list + [e] ==> f in flow.to && f in flow.from
    ensures (forall e :: e in list ==> flow.to[e] in Targets(list, flow.to))
    ensures (forall f :: f in list + [e] ==> flow.to[f] in Targets(list + [e], flow.to))
    ensures Assignments(list + [e], flow, Targets(list + [e], flow.to), b, n)
         == Assignments(list, flow, Targets(list, flow.to), b, n)
            + if flow.from[e] == b then [Dispatch(n, IndexOf(Targets(list + [e], flow.to), flow.to[e]))] else []
  {
    TargetsHold(list, flow.to);
    TargetsHold(list + [e], flow.to);
    TargetsSnoc(list, e, flow.to);
    AssignmentsStable(list, flow, Targets(list, flow.to), flow.to[e], b, n);
    assert (list + [e])[..|list|] == list;
  }

  lemma RedirectNone(flow: Flow, n: Block)
    requires CanRedirect(flow, [], n)
    ensures Redirected(flow, flow.(actions := flow.actions[n := []]), [], n, [])
  {
    var flow' := flow.(actions := flow.actions[n := []]);
    forall e | e in flow.from ensures Kept(flow, flow', [], n, e) {
    }
    forall b | b in flow.actions ensures Extended(flow, flow', [], n, b) {
      assert flow'.actions[b] == flow.actions[b] + [];
    }
  }

  /** The number of the next target: its place among the targets so far, or after them. */
  lemma NextNumber(list: seq<Edge>, e: Edge, to: map<Edge, Block>)
    requires (forall e :: e in list ==> e in to) && e in to
    ensures var targets := Targets(list, to);
      && to[e] in Targets(list + [e], to)
      && IndexOf(Targets(list + [e], to), to[e]) == IndexOf(targets + [to[e]], to[e])
      && IndexOf(targets + [to[e]], to[e]) == if to[e] in targets then IndexOf(targets, to[e]) else |targets|
  {
    TargetsSnoc(list, e, to);
    var targets := Targets(list, to);
    if to[e] in targets {
      IndexStable(targets, to[e], to[e]);
    }
  }

  /** An edge of `flow` keeps its source and condition in `flow2`, and leads to `n` there if it is `e`. */
  ghost predicate TurnedAt(flow: Flow, flow2: Flow, e: Edge, n: Block, g: Edge)
    requires Shaped(flow) && Shaped(flow2) && g in flow.from
  {
    && g in flow2.from && flow2.from[g] == flow.from[g] && flow2.condition[g] == flow.condition[g]
    && flow2.to[g] == if g == e then n else flow.to[g]
  }

  /** Block `b` has the assignment at its end if it is the source. */
  ghost predicate AssignedAt(flow: Flow, flow2: Flow, source: Block, n: Block, k: nat, b: Block)
    requires b in flow.actions
  {
    b in flow2.actions && flow2.actions[b] == flow.actions[b] + if b == source then [Dispatch(n, k)] else []
  }

  /** One turn of the loop: edge `e` is led through `n`, with a further new edge if its target has none yet. */
  ghost predicate Stepped(flow: Flow, flow2: Flow, n: Block, added: seq<Edge>, added2: seq<Edge>, e: Edge, source: Block, t: Block, k: nat)
    requires Shaped(flow) && Shaped(flow2)
  {
    && flow2.actions.Keys == flow.actions.Keys
    && flow2.from.Keys == flow.from.Keys + (set f | f in added2)
    && (forall g {:trigger TurnedAt(flow, flow2, e, n, g)} :: g in flow.from ==> TurnedAt(flow, flow2, e, n, g))
    && (forall b {:trigger AssignedAt(flow, flow2, source, n, k, b)} :: b in flow.actions ==> AssignedAt(flow, flow2, source, n, k, b))
    && (added2 == added || (k == |added| && |added2| == k + 1 && added2[..k] == added && added2[k] !in flow.from
                            && flow2.from[added2[k]] == n && flow2.to[added2[k]] == t && flow2.condition[added2[k]] == DispatchIs(n, k)))
  }

  lemma ExtendedStep(flow: Flow, flow': Flow, flow2: Flow, list: seq<Edge>, n: Block, e: Edge, k: nat, b: Block)
    requires Shaped(flow) && (forall g :: g in list ==> g in flow.to) && e in flow.to && b in flow.actions
    requires k == IndexOf(Targets(list, flow.to) + [flow.to[e]], flow.to[e])
    requires Extended(flow, flow', list, n, b) && AssignedAt(flow', flow2, flow.from[e], n, k, b)
    ensures Extended(flow, flow2, list + [e], n, b)
  {
    NextNumber(list, e, flow.to);
    AssignmentsSnoc(list, e, flow, b, n);
  }

  lemma AddedStep(flow: Flow, flow': Flow, flow2: Flow, list: seq<Edge>, n: Block, added: seq<Edge>, added2: seq<Edge>, e: Edge, k: nat, j: nat)
    requires Redirected(flow, flow', list, n, added) && e in flow.from && e !in list && Shaped(flow2)
    requires k == IndexOf(Targets(list, flow.to) + [flow.to[e]], flow.to[e])
    requires added2 == added <==> flow.to[e] in Targets(list, flow.to)
    requires Stepped(flow', flow2, n, added, added2, e, flow.from[e], flow.to[e], k) && j < |added2|
    ensures |added2| == |Targets(list + [e], flow.to)| && added2[j] !in flow.from
    ensures Added(flow2, Targets(list + [e], flow.to), n, added2, j)
  {
    TargetsSnoc(list, e, flow.to);
    if j < |added| {
      assert added2[j] == added[j] && added[j] in added;
      assert Added(flow', Targets(list, flow.to), n, added, j);
      assert TurnedAt(flow', flow2, e, n, added[j]);
    } else {
      assert j == k;
      forall g | g in flow.from ensures g in flow'.from {
        assert Kept(flow, flow', list, n, g);
      }
    }
  }

  lemma RedirectStep(flow: Flow, flow': Flow, flow2: Flow, list: seq<Edge>, n: Block, added: seq<Edge>, added2: seq<Edge>, e: Edge, k: nat)
    requires Redirected(flow, flow', list, n, added) && e in flow.from && e !in list && Shaped(flow2)
    requires k == IndexOf(Targets(list, flow.to) + [flow.to[e]], flow.to[e])
    requires added2 == added <==> flow.to[e] in Targets(list, flow.to)
    requires Stepped(flow', flow2, n, added, added2, e, flow.from[e], flow.to[e], k)
    ensures Redirected(flow, flow2, list + [e], n, added2)
  {
    assert Plain(flow, n, e);
    TargetsSnoc(list, e, flow.to);
    forall g | g in flow.from ensures Kept(flow, flow2, list + [e], n, g) {
      assert Kept(flow, flow', list, n, g) && TurnedAt(flow', flow2, e, n, g);
    }
    forall j: nat | j < |added2| ensures Added(flow2, Targets(list + [e], flow.to), n, added2, j) && added2[j] !in flow.from {
      AddedStep(flow, flow', flow2, list, n, added, added2, e, k, j);
    }
    forall b | b in flow.actions ensures Extended(flow, flow2, list + [e], n, b) {
      assert Extended(flow, flow', list, n, b) && AssignedAt(flow', flow2, flow.from[e], n, k, b);
      ExtendedStep(flow, flow', flow2, list, n, e, k, b);
    }
    assert AssignedAt(flow', flow2, flow.from[e], n, k, n);
  }

  /** The new block has one more edge, to `t`, with the number `k`. */
  ghost predicate Widened(flow: Flow, wider: Flow, n: Block, added: seq<Edge>, added2: seq<Edge>, t: Block, k: nat) {
    && k == |added| && |added2| == k + 1
    && var f := added2[k];
      && f !in flow.from && added2 == added + [f]
      && wider == Flow(flow.from[f := n], flow.to[f := t], flow.condition[f := DispatchIs(n, k)], flow.actions)
  }

  /** Edge `e` turned to `n`, with the assignment in its source. */
  ghost function Turned(flow: Flow, e: Edge, n: Block, k: nat): Flow
    requires e in flow.from && flow.from[e] in flow.actions
  {
    var b := flow.from[e];
    Flow(flow.from, flow.to[e := n], flow.condition, flow.actions[b := flow.actions[b] + [Dispatch(n, k)]])
  }

  lemma StepReady(flow: Flow, flow1: Flow, list: seq<Edge>, n: Block, added: seq<Edge>, e: Edge)
    requires Redirected(flow, flow1, list, n, added) && e in flow.from && e !in list
    ensures e in flow1.from && flow1.from[e] == flow.from[e] && flow1.to[e] == flow.to[e]
    ensures flow.from[e] in flow1.actions && flow.to[e] in flow1.actions && flow.to[e] != n
  {
    assert Kept(flow, flow1, list, n, e) && Plain(flow, n, e);
  }

  lemma StepDone(flow: Flow, flow1: Flow, wider: Flow, flow2: Flow, list: seq<Edge>, n: Block, added: seq<Edge>, added2: seq<Edge>, e: Edge, k: nat)
    requires Redirected(flow, flow1, list, n, added) && e in flow.from && e !in list
    requires k == IndexOf(Targets(list, flow.to) + [flow.to[e]], flow.to[e])
    requires if flow.to[e] in Targets(list, flow.to) then added2 == added && wider == flow1
             else Widened(flow1, wider, n, added, added2, flow.to[e], k)
    requires e in wider.from && wider.from[e] in wider.actions && flow2 == Turned(wider, e, n, k)
    ensures Redirected(flow, flow2, list + [e], n, added2)
    ensures Targets(list + [e], flow.to)
         == if flow.to[e] in Targets(list, flow.to) then Targets(list, flow.to) else Targets(list, flow.to) + [flow.to[e]]
  {
    StepReady(flow, flow1, list, n, added, e);
    TargetsSnoc(list, e, flow.to);
    SteppedUpdate(flow1, n, added, e, flow.to[e], k, wider, added2);
    RedirectStep(flow, flow1, flow2, list, n, added, added2, e, k);
  }

  lemma SteppedUpdate(flow: Flow, n: Block, added: seq<Edge>, e: Edge, t: Block, k: nat, wider: Flow, added2: seq<Edge>)
    requires Shaped(flow) && e in flow.from && flow.from[e] in flow.actions && (forall f :: f in added ==> f in flow.from)
    requires e in wider.from && wider.from[e] in wider.actions
    requires (wider == flow && added2 == added) || Widened(flow, wider, n, added, added2, t, k)
    ensures Stepped(flow, Turned(wider, e, n, k), n, added, added2, e, flow.from[e], t, k)
  {
    var b, flow2 := flow.from[e], Turned(wider, e, n, k);
    forall g | g in flow.from ensures TurnedAt(flow, flow2, e, n, g) {
    }
    forall c | c in flow.actions ensures AssignedAt(flow, flow2, b, n, k, c) {
      assert flow.actions[c] + [] == flow.actions[c];
    }
  }

  /* ---- The lists at the blocks ---- */

  /** The list of `b` names edges that end there, and none of them twice. */
  ghost predicate ListsEnds(ends: map<Edge, Block>, b: Block, list: seq<Edge>) {
    Distinct(list) && forall e :: e in list ==> e in ends && ends[e] == b
  }

  /** The edge is in the list at its end. */
  ghost predicate IsListed(ends: map<Edge, Block>, lists: map<Block, seq<Edge>>, e: Edge)
    requires e in ends
  {
    ends[e] in lists && e in lists[ends[e]]
  }

  ghost predicate ListedOnce(ends: map<Edge, Block>, lists: map<Block, seq<Edge>>) {
    && (forall b {:trigger ListsEnds(ends, b, lists[b])} :: b in lists ==> ListsEnds(ends, b, lists[b]))
    && (forall e {:trigger IsListed(ends, lists, e)} :: e in ends ==> IsListed(ends, lists, e))
  }

  ghost function Without<T>(s: seq<T>, x: T): seq<T>
    requires x in s
  {
    s[..IndexOf(s, x)] + s[IndexOf(s, x) + 1..]
  }

  lemma WithoutHolds<T>(s: seq<T>, x: T)
    requires x in s && Distinct(s)
    ensures Distinct(Without(s, x)) && x !in Without(s, x)
    ensures forall y :: y != x ==> (y in Without(s, x) <==> y in s)
  {
    var k := IndexOf(s, x);
    var t := Without(s, x);
    forall y | y in s && y != x ensures y in t {
      var j := IndexOf(s, y);
      assert t[if j < k then j else j - 1] == y;
    }
  }

  /** The lists after edge `e` has moved from the list of `b` to the end of that of `t`. */
  ghost function Moved(lists: map<Block, seq<Edge>>, e: Edge, b: Block, t: Block): map<Block, seq<Edge>>
    requires b in lists && t in lists && e in lists[b]
  {
    var less := lists[b := Without(lists[b], e)];
    less[t := less[t] + [e]]
  }

  lemma MovedListedOnce(ends: map<Edge, Block>, lists: map<Block, seq<Edge>>, e: Edge, t: Block)
    requires ListedOnce(ends, lists) && e in ends && t in lists
    ensures ends[e] in lists && e in lists[ends[e]]
    ensures ListedOnce(ends[e := t], Moved(lists, e, ends[e], t))
  {
    var b := ends[e];
    assert IsListed(ends, lists, e) && ListsEnds(ends, b, lists[b]);
    WithoutHolds(lists[b], e);
    var ends2, lists2 := ends[e := t], Moved(lists, e, b, t);
    forall c | c in lists2 ensures ListsEnds(ends2, c, lists2[c]) {
      assert ListsEnds(ends, c, lists[c]);
    }
    forall f | f in ends2 ensures IsListed(ends2, lists2, f) {
      assert f in ends ==> IsListed(ends, lists, f);
    }
  }

  lemma AppendedListedOnce(ends: map<Edge, Block>, lists: map<Block, seq<Edge>>, f: Edge, t: Block)
    requires ListedOnce(ends, lists) && f !in ends && t in lists
    ensures ListedOnce(ends[f := t], lists[t := lists[t] + [f]])
  {
    var ends2, lists2 := ends[f := t], lists[t := lists[t] + [f]];
    forall c | c in lists2 ensures ListsEnds(ends2, c, lists2[c]) {
      assert ListsEnds(ends, c, lists[c]);
    }
    forall e | e in ends2 ensures IsListed(ends2, lists2, e) {
      assert e in ends ==> IsListed(ends, lists, e);
    }
  }

  lemma EmptyListedOnce(ends: map<Edge, Block>, lists: map<Block, seq<Edge>>, n: Block)
    requires ListedOnce(ends, lists) && n !in lists
    ensures ListedOnce(ends, lists[n := []])
  {
    var longer := lists[n := []];
    forall c | c in longer ensures ListsEnds(ends, c, longer[c]) {
      assert c != n ==> ListsEnds(ends, c, lists[c]);
    }
    forall e | e in ends ensures IsListed(ends, longer, e) {
      assert IsListed(ends, lists, e);
    }
  }

  /** `cases` numbers the targets that the new block has edges for. */
  ghost predicate Numbers(cases: map<Block, nat>, targets: seq<Block>) {
    && |cases| == |targets| && cases.Keys == (set t | t in targets)
    && forall t :: t in targets ==> cases[t] == IndexOf(targets, t)
  }

  lemma NumbersSnoc(cases: map<Block, nat>, targets: seq<Block>, t: Block)
    requires Numbers(cases, targets) && t !in targets
    ensures Numbers(cases[t := |cases|], targets + [t]) && IndexOf(targets + [t], t) == |cases|
  {
    assert (targets + [t])[|targets|] == t;
    forall u | u in targets ensures IndexOf(targets + [t], u) == IndexOf(targets, u) {
      IndexStable(targets, t, u);
    }
  }

  /* ---- The graph in place ---- */

  /** What an edge stores, and what a block stores. */
  datatype Arc = Arc(from: Block, to: Block, condition: Condition)
  datatype Node = Node(predecessors: seq<Edge>, successors: seq<Edge>, actions: seq<Action>)

  ghost function Sources(arcs: map<Edge, Arc>): map<Edge, Block> {
    map e | e in arcs :: arcs[e].from
  }

  ghost function Ends(arcs: map<Edge, Arc>): map<Edge, Block> {
    map e | e in arcs :: arcs[e].to
  }

  ghost function Conditions(arcs: map<Edge, Arc>): map<Edge, Condition> {
    map e | e in arcs :: arcs[e].condition
  }

  ghost function Actions(nodes: map<Block, Node>): map<Block, seq<Action>> {
    map b | b in nodes :: nodes[b].actions
  }

  ghost function Predecessors(nodes: map<Block, Node>): map<Block, seq<Edge>> {
    map b | b in nodes :: nodes[b].predecessors
  }

  ghost function Successors(nodes: map<Block, Node>): map<Block, seq<Edge>> {
    map b | b in nodes :: nodes[b].successors
  }

  ghost function FlowOf(arcs: map<Edge, Arc>, nodes: map<Block, Node>): Flow {
    Flow(Sources(arcs), Ends(arcs), Conditions(arcs), Actions(nodes))
  }

  lemma SetArc(arcs: map<Edge, Arc>, e: Edge, a: Arc)
    ensures Sources(arcs[e := a]) == Sources(arcs)[e := a.from]
    ensures Ends(arcs[e := a]) == Ends(arcs)[e := a.to]
    ensures Conditions(arcs[e := a]) == Conditions(arcs)[e := a.condition]
  {
  }

  lemma SetNode(nodes: map<Block, Node>, b: Block, n: Node)
    ensures Predecessors(nodes[b := n]) == Predecessors(nodes)[b := n.predecessors]
    ensures Successors(nodes[b := n]) == Successors(nodes)[b := n.successors]
    ensures Actions(nodes[b := n]) == Actions(nodes)[b := n.actions]
  {
  }

  lemma SetSame<K, V>(m: map<K, V>, k: K)
    requires k in m
    ensures m[k := m[k]] == m
  {
  }

  /** Each edge is listed once at each of its ends, and nowhere else. */
  ghost predicate Consistent(arcs: map<Edge, Arc>, nodes: map<Block, Node>) {
    ListedOnce(Ends(arcs), Predecessors(nodes)) && ListedOnce(Sources(arcs), Successors(nodes))
  }

  /** Setting the target of `e` moves it between the lists of predecessors. */
  ghost function NodesMoved(nodes: map<Block, Node>, e: Edge, b: Block, t: Block): map<Block, Node>
    requires b in nodes && t in nodes && e in nodes[b].predecessors
  {
    var less := nodes[b := nodes[b].(predecessors := Without(nodes[b].predecessors, e))];
    less[t := less[t].(predecessors := less[t].predecessors + [e])]
  }

  lemma MovedProjects(nodes: map<Block, Node>, e: Edge, b: Block, t: Block)
    requires b in nodes && t in nodes && e in nodes[b].predecessors
    ensures var nodes2 := NodesMoved(nodes, e, b, t);
      && Predecessors(nodes2) == Moved(Predecessors(nodes), e, b, t)
      && Successors(nodes2) == Successors(nodes) && Actions(nodes2) == Actions(nodes)
  {
    var less := nodes[b].(predecessors := Without(nodes[b].predecessors, e));
    SetNode(nodes, b, less);
    SetSame(Successors(nodes), b);
    SetSame(Actions(nodes), b);
    var nodes1 := nodes[b := less];
    SetNode(nodes1, t, nodes1[t].(predecessors := nodes1[t].predecessors + [e]));
    SetSame(Successors(nodes1), t);
    SetSame(Actions(nodes1), t);
  }

  lemma MovedConsistent(arcs: map<Edge, Arc>, nodes: map<Block, Node>, e: Edge, t: Block)
    requires Consistent(arcs, nodes) && e in arcs && t in nodes
    ensures arcs[e].from in nodes && arcs[e].to in nodes && e in nodes[arcs[e].to].predecessors
    ensures var arcs2, nodes2 := arcs[e := arcs[e].(to := t)], NodesMoved(nodes, e, arcs[e].to, t);
      && Consistent(arcs2, nodes2)
      && FlowOf(arcs2, nodes2) == FlowOf(arcs, nodes).(to := FlowOf(arcs, nodes).to[e := t])
  {
    MovedListedOnce(Ends(arcs), Predecessors(nodes), e, t);
    assert IsListed(Sources(arcs), Successors(nodes), e);
    MovedProjects(nodes, e, arcs[e].to, t);
    SetArc(arcs, e, arcs[e].(to := t));
    SetSame(Sources(arcs), e);
    SetSame(Conditions(arcs), e);
  }

  ghost function NodesConnected(nodes: map<Block, Node>, f: Edge, s: Block, t: Block): map<Block, Node>
    requires s in nodes && t in nodes
  {
    var left := nodes[s := nodes[s].(successors := nodes[s].successors + [f])];
    left[t := left[t].(predecessors := left[t].predecessors + [f])]
  }

  lemma ConnectedProjects(nodes: map<Block, Node>, f: Edge, s: Block, t: Block)
    requires s in nodes && t in nodes
    ensures var nodes2 := NodesConnected(nodes, f, s, t);
      && Predecessors(nodes2) == Predecessors(nodes)[t := Predecessors(nodes)[t] + [f]]
      && Successors(nodes2) == Successors(nodes)[s := Successors(nodes)[s] + [f]]
      && Actions(nodes2) == Actions(nodes)
  {
    var left := nodes[s].(successors := nodes[s].successors + [f]);
    SetNode(nodes, s, left);
    SetSame(Predecessors(nodes), s);
    SetSame(Actions(nodes), s);
    var nodes1 := nodes[s := left];
    SetNode(nodes1, t, nodes1[t].(predecessors := nodes1[t].predecessors + [f]));
    SetSame(Successors(nodes1), t);
    SetSame(Actions(nodes1), t);
  }

  lemma ConnectedConsistent(arcs: map<Edge, Arc>, nodes: map<Block, Node>, f: Edge, a: Arc)
    requires Consistent(arcs, nodes) && f !in arcs && a.from in nodes && a.to in nodes
    ensures var arcs2, nodes2, flow := arcs[f := a], NodesConnected(nodes, f, a.from, a.to), FlowOf(arcs, nodes);
      && Consistent(arcs2, nodes2)
      && FlowOf(arcs2, nodes2) == Flow(flow.from[f := a.from], flow.to[f := a.to], flow.condition[f := a.condition], flow.actions)
  {
    AppendedListedOnce(Ends(arcs), Predecessors(nodes), f, a.to);
    AppendedListedOnce(Sources(arcs), Successors(nodes), f, a.from);
    ConnectedProjects(nodes, f, a.from, a.to);
    SetArc(arcs, f, a);
  }

  lemma CreatedConsistent(arcs: map<Edge, Arc>, nodes: map<Block, Node>, n: Block)
    requires Consistent(arcs, nodes) && n !in nodes
    ensures var nodes2, flow := nodes[n := Node([], [], [])], FlowOf(arcs, nodes);
      Consistent(arcs, nodes2) && FlowOf(arcs, nodes2) == flow.(actions := flow.actions[n := []])
  {
    EmptyListedOnce(Ends(arcs), Predecessors(nodes), n);
    EmptyListedOnce(Sources(arcs), Successors(nodes), n);
    SetNode(nodes, n, Node([], [], []));
  }

  lemma AssignedConsistent(arcs: map<Edge, Arc>, nodes: map<Block, Node>, b: Block, a: Action)
    requires Consistent(arcs, nodes) && b in nodes
    ensures var nodes2, flow := nodes[b := nodes[b].(actions := nodes[b].actions + [a])], FlowOf(arcs, nodes);
      Consistent(arcs, nodes2) && FlowOf(arcs, nodes2) == flow.(actions := flow.actions[b := flow.actions[b] + [a]])
  {
    SetNode(nodes, b, nodes[b].(actions := nodes[b].actions + [a]));
    SetSame(Predecessors(nodes), b);
    SetSame(Successors(nodes), b);
  }

  /** A consistent graph that does not mention `n` can have edges led through it. */
  lemma Unmentioned(arcs: map<Edge, Arc>, nodes: map<Block, Node>, n: Block)
    requires Consistent(arcs, nodes) && n !in nodes
    requires forall e :: e in arcs && arcs[e].condition.DispatchIs? ==> arcs[e].condition.variable != n
    requires forall b, a :: b in nodes && a in nodes[b].actions ==> Apart(a, n)
    ensures CanRedirect(FlowOf(arcs, nodes), [], n)
  {
    var flow := FlowOf(arcs, nodes);
    forall e | e in flow.from ensures Plain(flow, n, e) {
      assert IsListed(Sources(arcs), Successors(nodes), e) && IsListed(Ends(arcs), Predecessors(nodes), e);
    }
  }

  lemma PrefixSnoc<T>(s: seq<T>, i: nat)
    requires i <= |s| && Distinct(s)
    ensures i < |s| ==> s[..i + 1] == s[..i] + [s[i]] && s[i] !in s[..i]
    ensures s[..|s|] == s
  {
  }

  ghost function Other(c: Block, a: Block, b: Block): Block {
    if c == a then b else if c == b then a else c
  }

  /** The graph in which two blocks have changed places. */
  ghost function Renamed(flow: Flow, a: Block, b: Block): Flow
    requires a in flow.actions && b in flow.actions
  {
    Flow(map e | e in flow.from :: Other(flow.from[e], a, b), map e | e in flow.to :: Other(flow.to[e], a, b),
         flow.condition, flow.actions[a := flow.actions[b]][b := flow.actions[a]])
  }

  ghost function ArcsRenamed(arcs: map<Edge, Arc>, a: Block, b: Block): map<Edge, Arc> {
    map e | e in arcs :: Arc(Other(arcs[e].from, a, b), Other(arcs[e].to, a, b), arcs[e].condition)
  }

  lemma SwappedListedOnce(ends: map<Edge, Block>, lists: map<Block, seq<Edge>>, a: Block, b: Block)
    requires ListedOnce(ends, lists) && a in lists && b in lists
    ensures ListedOnce(map e | e in ends :: Other(ends[e], a, b), lists[a := lists[b]][b := lists[a]])
  {
    var ends2, lists2 := map e | e in ends :: Other(ends[e], a, b), lists[a := lists[b]][b := lists[a]];
    forall c | c in lists2 ensures ListsEnds(ends2, c, lists2[c]) {
      assert ListsEnds(ends, Other(c, a, b), lists[Other(c, a, b)]);
    }
    forall e | e in ends2 ensures IsListed(ends2, lists2, e) {
      assert IsListed(ends, lists, e);
    }
  }

  lemma SwappedConsistent(arcs: map<Edge, Arc>, nodes: map<Block, Node>, a: Block, b: Block)
    requires Consistent(arcs, nodes) && a in nodes && b in nodes
    ensures var arcs2, nodes2 := ArcsRenamed(arcs, a, b), nodes[a := nodes[b]][b := nodes[a]];
      Consistent(arcs2, nodes2) && FlowOf(arcs2, nodes2) == Renamed(FlowOf(arcs, nodes), a, b)
  {
    var arcs2, nodes2 := ArcsRenamed(arcs, a, b), nodes[a := nodes[b]][b := nodes[a]];
    SwappedListedOnce(Ends(arcs), Predecessors(nodes), a, b);
    SwappedListedOnce(Sources(arcs), Successors(nodes), a, b);
    SetNode(nodes, a, nodes[b]);
    SetNode(nodes[a := nodes[b]], b, nodes[a]);
    assert Ends(arcs2) == map e | e in Ends(arcs) :: Other(Ends(arcs)[e], a, b);
    assert Sources(arcs2) == map e | e in Sources(arcs) :: Other(Sources(arcs)[e], a, b);
  }

  class Graph {
    ghost var blocks: set<Block>
    ghost var edges: set<Edge>

    ghost function Arcs(): map<Edge, Arc>
      reads this`edges, edges`from, edges`to, edges`condition
    {
      map e | e in edges :: Arc(e.from, e.to, e.condition)
    }

    ghost function Nodes(): map<Block, Node>
      reads this`blocks, blocks`predecessors, blocks`successors, blocks`actions
    {
      map b | b in blocks :: Node(b.predecessors, b.successors, b.actions)
    }

    ghost predicate Valid()
      reads this, blocks, edges
    {
      Consistent(Arcs(), Nodes())
    }

    ghost function AsFlow(): Flow
      reads this, blocks, edges
    {
      FlowOf(Arcs(), Nodes())
    }

    /** The search in setTo. An edge that is not found would be an error. */
    static method Find(list: seq<Edge>, edge: Edge) returns (i: nat)
      requires edge in list
      ensures i < |list| && i == IndexOf(list, edge)
    {
      i := 0;
      while list[i] != edge
        invariant i < |list| && edge !in list[..i]
        decreases |list| - i
      {
        i := i + 1;
      }
    }

    method Unlist(block: Block, edge: Edge)
      requires block in blocks && edge in block.predecessors
      modifies block`predecessors
      ensures Arcs() == old(Arcs())
      ensures Nodes() == old(Nodes()[block := Nodes()[block].(predecessors := Without(Nodes()[block].predecessors, edge))])
    {
      var i := Find(block.predecessors, edge);
      block.predecessors := block.predecessors[..i] + block.predecessors[i + 1..];
    }

    method List(block: Block, edge: Edge)
      requires block in blocks
      modifies block`predecessors
      ensures Arcs() == old(Arcs())
      ensures Nodes() == old(Nodes()[block := Nodes()[block].(predecessors := Nodes()[block].predecessors + [edge])])
    {
      block.predecessors := block.predecessors + [edge];
    }

    method Retarget(edge: Edge, newTo: Block)
      requires edge in edges
      modifies edge`to
      ensures Nodes() == old(Nodes()) && Arcs() == old(Arcs()[edge := Arcs()[edge].(to := newTo)])
    {
      edge.to := newTo;
    }

    /** The writes of setTo. */
    method MoveTo(edge: Edge, newTo: Block)
      requires edge in edges && newTo in blocks && edge.to in blocks && edge in edge.to.predecessors
      modifies edge`to, edge.to`predecessors, newTo`predecessors
      ensures Arcs() == old(Arcs()[edge := Arcs()[edge].(to := newTo)])
      ensures Nodes() == old(NodesMoved(Nodes(), edge, edge.to, newTo))
    {
      Unlist(edge.to, edge);
      List(newTo, edge);
      Retarget(edge, newTo);
    }

    /** PreAstBasicBlockEdge::setTo */
    method SetTo(edge: Edge, newTo: Block)
      requires Valid() && edge in edges && newTo in blocks
      modifies edge`to, blocks`predecessors
      ensures Valid() && AsFlow() == old(AsFlow().(to := AsFlow().to[edge := newTo]))
      ensures newTo.successors == old(newTo.successors)
    {
      MovedConsistent(Arcs(), Nodes(), edge, newTo);
      MoveTo(edge, newTo);
    }

    /** The edge enters the graph and the lists at both ends. */
    method Connect(edge: Edge)
      requires edge !in edges && edge.from in blocks && edge.to in blocks
      modifies this`edges, edge.from, edge.to
      ensures edges == old(edges) + {edge}
      ensures Arcs() == old(Arcs())[edge := Arc(edge.from, edge.to, edge.condition)]
      ensures Nodes() == old(NodesConnected(Nodes(), edge, edge.from, edge.to))
    {
      ghost var nodes := Nodes();
      edges := edges + {edge};
      edge.from.successors := edge.from.successors + [edge];
      assert Nodes() == nodes[edge.from := nodes[edge.from].(successors := nodes[edge.from].successors + [edge])];
      edge.to.predecessors := edge.to.predecessors + [edge];
    }

    /** PreAstContext::createEdge, and the edge's entries at both ends. */
    method AddEdge(from: Block, to: Block, condition: Condition) returns (edge: Edge)
      requires Valid() && from in blocks && to in blocks
      modifies this`edges, blocks
      ensures Valid() && fresh(edge) && edges == old(edges) + {edge}
      ensures var flow := old(AsFlow());
        AsFlow() == Flow(flow.from[edge := from], flow.to[edge := to], flow.condition[edge := condition], flow.actions)
      ensures from.successors == old(from.successors) + [edge]
    {
      edge := new Edge(from, to, condition);
      ConnectedConsistent(Arcs(), Nodes(), edge, Arc(from, to, condition));
      ghost var nodes := NodesConnected(Nodes(), edge, from, to);
      Connect(edge);
      assert Nodes()[from].successors == nodes[from].successors;
    }

    /** PreAstContext::createBlock */
    method CreateBlock() returns (block: Block)
      requires Valid()
      modifies this`blocks
      ensures Valid() && fresh(block) && blocks == old(blocks) + {block} && block.successors == []
      ensures AsFlow() == old(AsFlow()).(actions := old(AsFlow()).actions[block := []])
    {
      block := new Block();
      CreatedConsistent(Arcs(), Nodes(), block);
      ghost var nodes := Nodes();
      blocks := blocks + {block};
      assert Nodes() == nodes[block := Node([], [], [])];
    }

    method PushBack(block: Block, action: Action)
      requires block in blocks
      modifies block`actions
      ensures Arcs() == old(Arcs())
      ensures Nodes() == old(Nodes()[block := Nodes()[block].(actions := Nodes()[block].actions + [action])])
    {
      block.actions := block.actions + [action];
    }

    /** A statement goes to the end of a block. */
    method Append(block: Block, action: Action)
      requires Valid() && block in blocks
      modifies block`actions
      ensures Valid()
      ensures AsFlow() == old(AsFlow().(actions := AsFlow().actions[block := AsFlow().actions[block] + [action]]))
    {
      AssignedConsistent(Arcs(), Nodes(), block, action);
      PushBack(block, action);
    }

    /** The assignment goes to the end of the source block, and the edge is turned. */
    method Turn(edge: Edge, newBlock: Block, k: nat)
      requires Valid() && newBlock in blocks && edge in edges && edge.from in blocks
      modifies blocks`actions, blocks`predecessors, edge`to
      ensures Valid() && AsFlow() == Turned(old(AsFlow()), edge, newBlock, k)
      ensures newBlock.successors == old(newBlock.successors)
    {
      ghost var successors := newBlock.successors;
      Append(edge.from, Dispatch(newBlock, k));
      assert newBlock.successors == successors;
      SetTo(edge, newBlock);
    }

    /** The case condition for a target, made if it is missing, with its edge. */
    method CaseFor(newBlock: Block, target: Block, cases: map<Block, nat>, ghost targets: seq<Block>, ghost added: seq<Edge>)
      returns (k: nat, cases': map<Block, nat>, ghost added': seq<Edge>)
      requires Valid() && newBlock in blocks && target in blocks
      requires Numbers(cases, targets) && |added| == |targets| && newBlock.successors == added
      modifies this`edges, blocks
      ensures Valid() && newBlock.successors == added' && old(edges) <= edges
      ensures k == IndexOf(targets + [target], target)
      ensures Numbers(cases', if target in targets then targets else targets + [target])
      ensures if target in targets then added' == added && AsFlow() == old(AsFlow())
              else Widened(old(AsFlow()), AsFlow(), newBlock, added, added', target, k)
    {
      if target in cases {
        k, cases', added' := cases[target], cases, added;
        IndexStable(targets, target, target);
      } else {
        k := |cases|;
        NumbersSnoc(cases, targets, target);
        var newEdge := AddEdge(newBlock, target, DispatchIs(newBlock, k));
        cases', added' := cases[target := k], added + [newEdge];
      }
    }

    /** The body of the loop in createRedirectorBlock. */
    method RedirectOne(edge: Edge, newBlock: Block, cases: map<Block, nat>, ghost targets: seq<Block>, ghost added: seq<Edge>)
      returns (k: nat, cases': map<Block, nat>, ghost added': seq<Edge>, ghost wider: Flow)
      requires Valid() && newBlock in blocks && edge in edges && edge.from in blocks && edge.to in blocks
      requires Numbers(cases, targets) && |added| == |targets| && newBlock.successors == added
      modifies this`edges, blocks, edge
      ensures Valid() && newBlock.successors == added'
      ensures k == IndexOf(targets + [old(edge.to)], old(edge.to))
      ensures Numbers(cases', if old(edge.to) in targets then targets else targets + [old(edge.to)])
      ensures if old(edge.to) in targets then added' == added && wider == old(AsFlow())
              else Widened(old(AsFlow()), wider, newBlock, added, added', old(edge.to), k)
      ensures edge in wider.from && wider.from[edge] in wider.actions && AsFlow() == Turned(wider, edge, newBlock, k)
      ensures blocks == old(blocks)
    {
      k, cases', added' := CaseFor(newBlock, edge.to, cases, targets, added);
      wider := AsFlow();
      Turn(edge, newBlock, k);
    }

    /** One turn of that loop. */
    method RedirectEdge(edge: Edge, newBlock: Block, cases: map<Block, nat>, ghost flow: Flow, ghost list: seq<Edge>, ghost added: seq<Edge>)
      returns (cases': map<Block, nat>, ghost added': seq<Edge>)
      requires Valid() && newBlock in blocks && edge in flow.from && edge !in list
      requires Redirected(flow, AsFlow(), list, newBlock, added) && Numbers(cases, Targets(list, flow.to))
      requires newBlock.successors == added
      modifies this`edges, blocks, edge
      ensures Valid() && Redirected(flow, AsFlow(), list + [edge], newBlock, added')
      ensures Numbers(cases', Targets(list + [edge], flow.to)) && newBlock.successors == added' && blocks == old(blocks)
    {
      ghost var flow1 := AsFlow();
      StepReady(flow, flow1, list, newBlock, added, edge);
      ghost var k, wider;
      k, cases', added', wider := RedirectOne(edge, newBlock, cases, Targets(list, flow.to), added);
      StepDone(flow, flow1, wider, AsFlow(), list, newBlock, added, added', edge, k);
    }

    /** A new block that nothing leads through yet. */
    method StartRedirector() returns (newBlock: Block)
      requires Valid()
      modifies this`blocks
      ensures Valid() && fresh(newBlock) && blocks == old(blocks) + {newBlock} && newBlock.successors == []
      ensures Redirected(old(AsFlow()), AsFlow(), [], newBlock, [])
    {
      ghost var arcs, nodes, flow := Arcs(), Nodes(), AsFlow();
      newBlock := CreateBlock();
      Unmentioned(arcs, nodes, newBlock);
      RedirectNone(flow, newBlock);
    }

    /** PreAstContext::createRedirectorBlock */
    method CreateRedirectorBlock(list: seq<Edge>) returns (newBlock: Block, ghost added: seq<Edge>)
      requires Valid() && Distinct(list) && forall e :: e in list ==> e in edges
      modifies this, blocks, edges
      ensures Valid() && fresh(newBlock)
      ensures Redirected(old(AsFlow()), AsFlow(), list, newBlock, added)
    {
      ghost var flow := AsFlow();
      newBlock := StartRedirector();
      var cases: map<Block, nat> := map[];
      added := [];
      for i := 0 to |list|
        invariant Valid() && newBlock in blocks && newBlock.successors == added
        invariant blocks == old(blocks) + {newBlock}
        invariant Redirected(flow, AsFlow(), list[..i], newBlock, added)
        invariant Numbers(cases, Targets(list[..i], flow.to))
      {
        PrefixSnoc(list, i);
        cases, added := RedirectEdge(list[i], newBlock, cases, flow, list[..i], added);
      }
      PrefixSnoc(list, |list|);
    }

    /** The loops in PreAstBasicBlock::operator=. */
    method AdoptEdges(block: Block)
      requires forall e :: e in block.predecessors || e in block.successors ==> e in edges
      modifies edges`to, edges`from
      ensures forall e :: e in edges ==> e.to == if e in block.predecessors then block else old(e.to)
      ensures forall e :: e in edges ==> e.from == if e in block.successors then block else old(e.from)
    {
      for i := 0 to |block.predecessors|
        invariant forall e :: e in edges ==> e.to == if e in block.predecessors[..i] then block else old(e.to)
        invariant forall e :: e in edges ==> e.from == old(e.from)
      {
        block.predecessors[i].to := block;
      }
      for i := 0 to |block.successors|
        invariant forall e :: e in edges ==> e.to == if e in block.predecessors then block else old(e.to)
        invariant forall e :: e in edges ==> e.from == if e in block.successors[..i] then block else old(e.from)
      {
        block.successors[i].from := block;
      }
    }

    /** PreAstBasicBlock::operator= from a block that is moved away. */
    method MoveAssign(block: Block, that: Block)
      requires forall e :: e in that.predecessors || e in that.successors ==> e in edges
      modifies block, that, edges`to, edges`from
      ensures block.predecessors == old(that.predecessors) && that.predecessors == old(block.predecessors)
      ensures block.successors == old(that.successors) && that.successors == old(block.successors)
      ensures block.actions == old(that.actions) && that.actions == old(block.actions)
      ensures forall e :: e in edges ==> e.to == if e in old(that.predecessors) then block else old(e.to)
      ensures forall e :: e in edges ==> e.from == if e in old(that.successors) then block else old(e.from)
    {
      block.actions, that.actions := that.actions, block.actions;
      block.predecessors, that.predecessors := that.predecessors, block.predecessors;
      block.successors, that.successors := that.successors, block.successors;
      AdoptEdges(block);
    }

    /** Every edge is in the lists of its ends, and in no others. */
    lemma EndsListed(b: Block)
      requires Valid() && b in blocks
      ensures forall e :: e in b.predecessors <==> e in edges && e.to == b
      ensures forall e :: e in b.successors <==> e in edges && e.from == b
    {
      var arcs, nodes := Arcs(), Nodes();
      assert ListsEnds(Ends(arcs), b, Predecessors(nodes)[b]) && ListsEnds(Sources(arcs), b, Successors(nodes)[b]);
      forall e | e in edges && e.to == b ensures e in b.predecessors {
        assert IsListed(Ends(arcs), Predecessors(nodes), e);
      }
      forall e | e in edges && e.from == b ensures e in b.successors {
        assert IsListed(Sources(arcs), Successors(nodes), e);
      }
    }

    /** The three assignments of PreAstBasicBlock::swap. */
    method Rotate(a: Block, b: Block)
      requires forall e :: e in a.predecessors <==> e in edges && e.to == a
      requires forall e :: e in a.successors <==> e in edges && e.from == a
      requires forall e :: e in b.predecessors <==> e in edges && e.to == b
      requires forall e :: e in b.successors <==> e in edges && e.from == b
      modifies a, b, edges`to, edges`from
      ensures a.predecessors == old(b.predecessors) && a.successors == old(b.successors) && a.actions == old(b.actions)
      ensures b.predecessors == old(a.predecessors) && b.successors == old(a.successors) && b.actions == old(a.actions)
      ensures forall e :: e in edges ==> e.to == Other(old(e.to), a, b) && e.from == Other(old(e.from), a, b)
    {
      var temporary := new Block();
      MoveAssign(temporary, a);
      MoveAssign(a, b);
      MoveAssign(b, temporary);
    }

    method Exchange(a: Block, b: Block)
      requires a in blocks && b in blocks
      requires forall e :: e in a.predecessors <==> e in edges && e.to == a
      requires forall e :: e in a.successors <==> e in edges && e.from == a
      requires forall e :: e in b.predecessors <==> e in edges && e.to == b
      requires forall e :: e in b.successors <==> e in edges && e.from == b
      modifies a, b, edges`to, edges`from
      ensures Arcs() == ArcsRenamed(old(Arcs()), a, b)
      ensures Nodes() == old(Nodes()[a := Nodes()[b]][b := Nodes()[a]])
    {
      Rotate(a, b);
    }

    /** PreAstBasicBlock::swap */
    method Swap(a: Block, b: Block)
      requires Valid() && a in blocks && b in blocks
      modifies a, b, edges`to, edges`from
      ensures Valid() && AsFlow() == Renamed(old(AsFlow()), a, b)
    {
      EndsListed(a);
      EndsListed(b);
      SwappedConsistent(Arcs(), Nodes(), a, b);
      Exchange(a, b);
    }
  }
}
