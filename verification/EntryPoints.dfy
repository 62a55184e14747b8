/**
 EntryPoints: which functions get decompiled. A function is decoded by following its own flow of control, and the list of
 entry points grows by the targets of direct calls.
 */
module EntryPoints {
  import opened Expressions

  type Address = nat

  const ADDRESS_SPACE := 0x1_0000_0000_0000_0000

  datatype Category =
    | Invalid | Normal | NoOp | Error
    | DirectJump | IndirectJump | ConditionalBranch
    | DirectFunctionCall | IndirectFunctionCall | FunctionReturn
    | AsyncHyperCall | ConditionalAsyncHyperCall

  datatype Instruction = Instruction(valid: bool, category: Category, size: nat, taken: Address, notTaken: Address)

  /** The instructions at all mapped addresses. */
  type Code = map<Address, Instruction>

  predicate IsTerminator(inst: Instruction) {
    inst.category in {Invalid, Error, DirectJump, IndirectJump, ConditionalBranch, ConditionalAsyncHyperCall, FunctionReturn}
  }

  /** Where control goes from an instruction within its function, in the order in which the addresses are queued. */
  function Successors(inst: Instruction, at: Address): seq<Address> {
    if !inst.valid then []
    else if inst.category.ConditionalBranch? then [inst.notTaken, inst.taken]
    else if inst.category.DirectJump? then [inst.taken]
    else if IsTerminator(inst) then []
    else [(at + inst.size) % ADDRESS_SPACE]
  }

  // ----- What it means -----

  /** The instruction may be followed by the one after it in memory. */
  predicate FallsThrough(category: Category) {
    match category
    case Normal => true
    case NoOp => true
    case DirectFunctionCall => true
    case IndirectFunctionCall => true
    case AsyncHyperCall => true
    case _ => false
  }

  /** Within its function control goes from the instruction to that address. */
  predicate GoesTo(inst: Instruction, at: Address, to: Address) {
    && inst.valid
    && match inst.category
       case DirectJump => to == inst.taken
       case ConditionalBranch => to == inst.taken || to == inst.notTaken
       case _ => FallsThrough(inst.category) && to == (at + inst.size) % 0x1_0000_0000_0000_0000
  }

  /** The addresses that are queued are exactly those that control goes to. */
  lemma SuccessorsExact(inst: Instruction, at: Address, to: Address)
    ensures to in Successors(inst, at) <==> GoesTo(inst, at, to)
  {
  }

  ghost predicate IsFlow(code: Code, from: Address, to: Address, path: seq<Address>) {
    && path != [] && path[0] == from && path[|path| - 1] == to
    && forall i :: 0 <= i < |path| - 1 ==> path[i] in code && GoesTo(code[path[i]], path[i], path[i + 1])
  }

  /** Control can get from one address to the other without calls. */
  ghost predicate Flows(code: Code, from: Address, to: Address) {
    exists path :: IsFlow(code, from, to, path)
  }

  /** Every address that the function can get to is mapped. */
  ghost predicate Decodable(code: Code, entry: Address) {
    forall a :: Flows(code, entry, a) ==> a in code
  }

  /** The instructions of the function. */
  ghost function Body(code: Code, entry: Address): set<Address> {
    set a | a in code && Flows(code, entry, a)
  }

  lemma FlowsStart(code: Code, entry: Address)
    ensures Flows(code, entry, entry)
  {
    assert IsFlow(code, entry, entry, [entry]);
  }

  lemma FlowsStep(code: Code, entry: Address, a: Address, b: Address)
    requires Flows(code, entry, a) && a in code && GoesTo(code[a], a, b)
    ensures Flows(code, entry, b)
  {
    var path :| IsFlow(code, entry, a, path);
    assert IsFlow(code, entry, b, path + [b]);
  }

  /** A set that control cannot leave. */
  ghost predicate Closed(code: Code, found: set<Address>) {
    forall a :: a in found ==> a in code && forall b :: GoesTo(code[a], a, b) ==> b in found
  }

  lemma {:induction false} ClosedContains(code: Code, found: set<Address>, entry: Address, a: Address, path: seq<Address>)
    requires Closed(code, found) && entry in found && IsFlow(code, entry, a, path)
    ensures a in found
    decreases |path|
  {
    if |path| > 1 {
      var b := path[|path| - 2];
      assert IsFlow(code, entry, b, path[..|path| - 1]);
      ClosedContains(code, found, entry, b, path[..|path| - 1]);
      assert GoesTo(code[b], b, path[|path| - 1]);
    }
  }

  /** What has been found so far can be reached, and leads to nothing but itself and the queue. */
  ghost predicate Frontier(code: Code, entry: Address, found: set<Address>, queue: seq<Address>) {
    && (forall a :: a in found ==> a in code && Flows(code, entry, a))
    && (forall a :: a in queue ==> Flows(code, entry, a))
    && (entry in found || entry in queue)
    && (forall a, b :: a in found && a in code && GoesTo(code[a], a, b) ==> b in found || b in queue)
  }

  lemma FrontierSkip(code: Code, entry: Address, found: set<Address>, queue: seq<Address>)
    requires Frontier(code, entry, found, queue) && queue != [] && queue[0] in found
    ensures Frontier(code, entry, found, queue[1..])
  {
    assert queue == [queue[0]] + queue[1..];
  }

  lemma FrontierStep(code: Code, entry: Address, found: set<Address>, queue: seq<Address>)
    requires Frontier(code, entry, found, queue) && queue != [] && queue[0] in code
    ensures Frontier(code, entry, found + {queue[0]}, queue[1..] + Successors(code[queue[0]], queue[0]))
  {
    var addr := queue[0];
    assert queue == [addr] + queue[1..];
    forall b ensures b in Successors(code[addr], addr) <==> GoesTo(code[addr], addr, b) {
      SuccessorsExact(code[addr], addr, b);
    }
    forall b | GoesTo(code[addr], addr, b) ensures Flows(code, entry, b) {
      FlowsStep(code, entry, addr, b);
    }
  }

  lemma FrontierDone(code: Code, entry: Address, found: set<Address>)
    requires Frontier(code, entry, found, [])
    ensures Decodable(code, entry) && found == Body(code, entry)
  {
    forall a | Flows(code, entry, a) ensures a in found {
      var path :| IsFlow(code, entry, a, path);
      ClosedContains(code, found, entry, a, path);
    }
  }

  /** RemillTranslationContext::DecodeFunction; None where an address is not mapped, which ends the program. */
  method DecodeFunction(code: Code, entry: Address) returns (r: Option<set<Address>>)
    ensures r.Some? <==> Decodable(code, entry)
    ensures r.Some? ==> r.value == Body(code, entry)
  {
    var result: set<Address> := {};
    var queue: seq<Address> := [entry];
    FlowsStart(code, entry);
    while queue != []
      invariant Frontier(code, entry, result, queue)
      decreases |code.Keys - result|, |queue|
    {
      var addr := queue[0];
      if addr in result {
        FrontierSkip(code, entry, result, queue);
        queue := queue[1..];
      } else if addr !in code {
        assert Flows(code, entry, addr);
        return None;
      } else {
        FrontierStep(code, entry, result, queue);
        FewerLeft(code.Keys, result, addr);
        result := result + {addr};
        queue := queue[1..] + Successors(code[addr], addr);
      }
    }
    FrontierDone(code, entry, result);
    r := Some(result);
  }

  lemma FewerLeft<T>(all: set<T>, some: set<T>, x: T)
    requires x in all && x !in some
    ensures |all - (some + {x})| < |all - some|
  {
    assert all - (some + {x}) == (all - some) - {x};
  }

  // ----- Discovery -----

  ghost function CallsOf(code: Code, entry: Address): set<Address> {
    set a | a in Body(code, entry) && code[a].category.DirectFunctionCall? :: code[a].taken
  }

  ghost function Callees(code: Code, entries: set<Address>): set<Address> {
    set e, t | e in entries && t in CallsOf(code, e) :: t
  }

  /** The functions together with those that they call. */
  ghost function Round(code: Code, entries: set<Address>): set<Address> {
    entries + Callees(code, entries)
  }

  ghost function Elements<T>(s: seq<T>): set<T> {
    set x | x in s
  }

  lemma ElementsConcat<T>(a: seq<T>, b: seq<T>)
    ensures Elements(a + b) == Elements(a) + Elements(b)
  {
  }

  lemma PrefixElements<T>(s: seq<T>, i: nat)
    requires i <= |s|
    ensures i < |s| ==> Elements(s[..i + 1]) == Elements(s[..i]) + {s[i]}
    ensures Elements(s[..|s|]) == Elements(s)
  {
    assert s[..|s|] == s;
    if i < |s| {
      assert s[..i + 1] == s[..i] + [s[i]];
    }
  }

  ghost predicate CallClosed(code: Code, entries: set<Address>) {
    Round(code, entries) == entries
  }

  /** A chain of direct calls leads from an initial entry point to the function. */
  ghost predicate CalledFrom(code: Code, initial: set<Address>, f: Address, chain: seq<Address>) {
    && chain != [] && chain[0] in initial && chain[|chain| - 1] == f
    && forall i :: 0 <= i < |chain| - 1 ==> chain[i + 1] in CallsOf(code, chain[i])
  }

  ghost predicate Reached(code: Code, initial: set<Address>, f: Address) {
    exists chain :: CalledFrom(code, initial, f, chain)
  }

  /** `entries` are exactly the functions that chains of direct calls reach. */
  ghost predicate Complete(code: Code, initial: set<Address>, entries: set<Address>) {
    forall f :: f in entries <==> Reached(code, initial, f)
  }

  ghost predicate AllReached(code: Code, initial: set<Address>, entries: set<Address>) {
    initial <= entries && forall f :: f in entries ==> Reached(code, initial, f)
  }

  lemma {:induction false} ClosedHasChain(code: Code, initial: set<Address>, entries: set<Address>, f: Address, chain: seq<Address>)
    requires initial <= entries && CallClosed(code, entries) && CalledFrom(code, initial, f, chain)
    ensures f in entries
    decreases |chain|
  {
    if |chain| > 1 {
      var g := chain[|chain| - 2];
      assert CalledFrom(code, initial, g, chain[..|chain| - 1]);
      ClosedHasChain(code, initial, entries, g, chain[..|chain| - 1]);
      assert f in CallsOf(code, g);
      assert f in Round(code, entries);
    }
  }

  lemma RoundReached(code: Code, initial: set<Address>, entries: set<Address>)
    requires AllReached(code, initial, entries)
    ensures AllReached(code, initial, Round(code, entries))
  {
    forall e, t | e in entries && t in CallsOf(code, e) ensures Reached(code, initial, t) {
      var chain :| CalledFrom(code, initial, e, chain);
      assert CalledFrom(code, initial, t, chain + [t]);
    }
  }

  /** Closed sets of reached functions are complete, and only they are. */
  lemma CompleteIffClosed(code: Code, initial: set<Address>, entries: set<Address>)
    requires AllReached(code, initial, entries)
    ensures Complete(code, initial, entries) <==> CallClosed(code, entries)
  {
    if CallClosed(code, entries) {
      forall f | Reached(code, initial, f) ensures f in entries {
        var chain :| CalledFrom(code, initial, f, chain);
        ClosedHasChain(code, initial, entries, f, chain);
      }
    }
    if Complete(code, initial, entries) {
      RoundReached(code, initial, entries);
      assert forall f :: f in Round(code, entries) ==> f in entries;
    }
  }

  lemma InitialReached(code: Code, initial: set<Address>)
    ensures AllReached(code, initial, initial)
  {
    forall f | f in initial ensures Reached(code, initial, f) {
      assert CalledFrom(code, initial, f, [f]);
    }
  }

  predicate StrictlySorted(s: seq<Address>) {
    forall i, j :: 0 <= i < j < |s| ==> s[i] < s[j]
  }

  method Insert(s: seq<Address>, x: Address) returns (r: seq<Address>)
    requires StrictlySorted(s)
    ensures StrictlySorted(r) && Elements(r) == Elements(s) + {x}
  {
    var k := 0;
    while k < |s| && s[k] < x
      invariant 0 <= k <= |s| && forall j :: 0 <= j < k ==> s[j] < x
    {
      k := k + 1;
    }
    if k < |s| && s[k] == x {
      return s;
    }
    r := s[..k] + ([x] + s[k..]);
    InsertElements(s, k, x);
    InsertSorted(s, k, x);
  }

  lemma InsertElements(s: seq<Address>, k: nat, x: Address)
    requires k <= |s|
    ensures Elements(s[..k] + ([x] + s[k..])) == Elements(s) + {x}
  {
    assert s == s[..k] + s[k..];
    ElementsConcat(s[..k], s[k..]);
    ElementsConcat(s[..k], [x] + s[k..]);
    ElementsConcat([x], s[k..]);
  }

  lemma InsertSorted(s: seq<Address>, k: nat, x: Address)
    requires StrictlySorted(s) && k <= |s| && (forall j :: 0 <= j < k ==> s[j] < x) && (k < |s| ==> x < s[k])
    ensures StrictlySorted(s[..k] + ([x] + s[k..]))
  {
    var r := s[..k] + ([x] + s[k..]);
    forall i, j | 0 <= i < j < |r| ensures r[i] < r[j] {
      assert r[i] == (if i < k then s[i] else if i == k then x else s[i - 1]);
      assert r[j] == (if j < k then s[j] else if j == k then x else s[j - 1]);
    }
  }

  /** std::list::sort, then std::list::unique */
  method SortUnique(list: seq<Address>) returns (r: seq<Address>)
    ensures StrictlySorted(r) && Elements(r) == Elements(list)
  {
    r := [];
    for i := 0 to |list|
      invariant StrictlySorted(r) && Elements(r) == Elements(list[..i])
    {
      PrefixElements(list, i);
      r := Insert(r, list[i]);
    }
    PrefixElements(list, |list|);
  }

  lemma SortedSize(s: seq<Address>)
    requires StrictlySorted(s)
    ensures |Elements(s)| == |s|
  {
    if s != [] {
      SortedSize(s[1..]);
      assert Elements(s) == Elements(s[1..]) + {s[0]} && s[0] !in Elements(s[1..]);
    }
  }

  ghost function TakenIn(code: Code, body: set<Address>): set<Address>
    requires body <= code.Keys
  {
    set a | a in body && code[a].category.DirectFunctionCall? :: code[a].taken
  }

  /** The targets of the direct calls in a decoded function. */
  method CallTargets(code: Code, body: set<Address>) returns (r: seq<Address>)
    requires body <= code.Keys
    ensures Elements(r) == TakenIn(code, body)
  {
    r := [];
    var todo := body;
    while todo != {}
      invariant todo <= body && Elements(r) == TakenIn(code, body - todo)
    {
      var a :| a in todo;
      ghost var done := body - todo;
      todo := todo - {a};
      assert body - todo == done + {a};
      if code[a].category.DirectFunctionCall? {
        ElementsConcat(r, [code[a].taken]);
        r := r + [code[a].taken];
      }
    }
    assert body - todo == body;
  }

  lemma CalleesAdd(code: Code, entries: set<Address>, e: Address)
    ensures Callees(code, entries + {e}) == Callees(code, entries) + CallsOf(code, e)
  {
  }

  /** One turn of the discovery loop; None if a function cannot be decoded. */
  method Extend(code: Code, entries: seq<Address>) returns (r: Option<seq<Address>>)
    ensures r.Some? <==> forall e :: e in entries ==> Decodable(code, e)
    ensures r.Some? ==> StrictlySorted(r.value) && Elements(r.value) == Round(code, Elements(entries))
  {
    var newEntries: seq<Address> := [];
    for i := 0 to |entries|
      invariant forall j :: 0 <= j < i ==> Decodable(code, entries[j])
      invariant Elements(newEntries) == Callees(code, Elements(entries[..i]))
    {
      var body := DecodeFunction(code, entries[i]);
      if body.None? {
        return None;
      }
      var targets := CallTargets(code, body.value);
      PrefixElements(entries, i);
      CalleesAdd(code, Elements(entries[..i]), entries[i]);
      ElementsConcat(newEntries, targets);
      newEntries := newEntries + targets;
    }
    PrefixElements(entries, |entries|);
    ElementsConcat(newEntries, entries);
    var sorted := SortUnique(newEntries + entries);
    r := Some(sorted);
  }

  /** The flags choose one of three modes. */
  datatype Mode = Full | Partial | Exclusive

  ghost predicate AllDecodable(code: Code, entries: set<Address>) {
    forall e :: e in entries ==> Decodable(code, e)
  }

  /** All addresses that can ever be entry points. */
  ghost function Universe(code: Code, initial: set<Address>): set<Address> {
    initial + set a | a in code :: code[a].taken
  }

  lemma RoundInUniverse(code: Code, initial: set<Address>, entries: set<Address>)
    requires entries <= Universe(code, initial)
    ensures Round(code, entries) <= Universe(code, initial)
  {
  }

  lemma SubsetSize<T>(a: set<T>, b: set<T>)
    requires a <= b
    ensures |a| <= |b| && (|a| == |b| ==> a == b)
  {
    var rest := b - a;
    assert b == a + rest;
  }

  /** What the full mode finds, given the length of the list it starts with. */
  ghost predicate FullResult(code: Code, initial: seq<Address>, found: set<Address>) {
    var first := Round(code, Elements(initial));
    if |first| <= |initial| then found == first else Complete(code, Elements(initial), found)
  }

  /** Every function that chains of direct calls reach can be decoded. */
  ghost predicate ReachedDecodable(code: Code, initial: set<Address>) {
    forall f :: Reached(code, initial, f) ==> Decodable(code, f)
  }

  /** What the full mode has to decode, given the length of the list it starts with. */
  ghost predicate FullDecodable(code: Code, initial: seq<Address>) {
    if |Round(code, Elements(initial))| <= |initial| then AllDecodable(code, Elements(initial))
    else ReachedDecodable(code, Elements(initial))
  }

  /** The loop of LiftExecutable in full mode, from the second turn on: the list has no duplicates any more. */
  method Close(code: Code, start: seq<Address>, ghost initial: set<Address>) returns (r: Option<seq<Address>>)
    requires StrictlySorted(start) && AllReached(code, initial, Elements(start)) && Elements(start) <= Universe(code, initial)
    ensures r.Some? ==> StrictlySorted(r.value) && Complete(code, initial, Elements(r.value))
    ensures r.Some? <==> ReachedDecodable(code, initial)
  {
    var entries := start;
    while true
      invariant StrictlySorted(entries) && AllReached(code, initial, Elements(entries))
      invariant Elements(entries) <= Universe(code, initial)
      decreases |Universe(code, initial)| - |entries|
    {
      var prevSize := |entries|;
      ghost var before := Elements(entries);
      SortedSize(entries);
      var next := Extend(code, entries);
      if next.None? {
        return None;
      }
      RoundReached(code, initial, before);
      RoundInUniverse(code, initial, before);
      entries := next.value;
      SortedSize(entries);
      SubsetSize(before, Elements(entries));
      SubsetSize(Elements(entries), Universe(code, initial));
      if |entries| <= prevSize {
        CompleteIffClosed(code, initial, before);
        assert AllDecodable(code, before);
        return Some(entries);
      }
    }
  }

  /** The discovery loop of LiftExecutable. */
  method Discover(code: Code, mode: Mode, initial: seq<Address>) returns (r: Option<seq<Address>>)
    requires initial != []
    ensures mode.Exclusive? ==> r == Some(initial)
    ensures mode.Partial? && r.Some? ==> StrictlySorted(r.value) && Elements(r.value) == Round(code, Elements(initial))
    ensures mode.Partial? ==> (r.Some? <==> AllDecodable(code, Elements(initial)))
    ensures mode.Full? && r.Some? ==> StrictlySorted(r.value) && FullResult(code, initial, Elements(r.value))
    ensures mode.Full? ==> (r.Some? <==> FullDecodable(code, initial))
  {
    if mode.Exclusive? {
      return Some(initial);
    }
    var entries := Extend(code, initial);
    ghost var start := Elements(initial);
    InitialReached(code, start);
    if entries.None? || mode.Partial? {
      return entries;
    }
    SortedSize(entries.value);
    if |entries.value| <= |initial| {
      return entries;
    }
    RoundReached(code, start, start);
    RoundInUniverse(code, start, start);
    r := Close(code, entries.value, start);
  }

  /** Without duplicates in the list it starts with, the full mode finds every function that direct calls reach. */
  lemma FullComplete(code: Code, initial: seq<Address>, found: set<Address>)
    requires FullResult(code, initial, found) && |Elements(initial)| == |initial|
    ensures Complete(code, Elements(initial), found)
  {
    var start := Elements(initial);
    var first := Round(code, start);
    InitialReached(code, start);
    if |first| <= |initial| {
      SubsetSize(start, first);
      CompleteIffClosed(code, start, start);
    }
  }

  /** In general it does so unless the first turn finds no more functions than the list had duplicates. */
  lemma FullExact(code: Code, initial: seq<Address>, found: set<Address>)
    requires FullResult(code, initial, found)
    ensures Complete(code, Elements(initial), found) <==>
              |Round(code, Elements(initial))| > |initial| || CallClosed(code, Round(code, Elements(initial)))
  {
    var start := Elements(initial);
    InitialReached(code, start);
    RoundReached(code, start, start);
    CompleteIffClosed(code, start, Round(code, start));
  }

  const CALLS_IN_A_ROW: Code := map[
    0 := Instruction(true, DirectFunctionCall, 1, 10, 0), 1 := Instruction(true, FunctionReturn, 1, 0, 0),
    10 := Instruction(true, DirectFunctionCall, 1, 20, 0), 11 := Instruction(true, FunctionReturn, 1, 0, 0),
    20 := Instruction(true, FunctionReturn, 1, 0, 0)]

  lemma FirstCalls(code: Code)
    requires code == CALLS_IN_A_ROW
    ensures CallsOf(code, 0) == {10}
  {
    assert Closed(code, {0, 1});
    forall a | a in Body(code, 0) ensures a in {0, 1} {
      var path :| IsFlow(code, 0, a, path);
      ClosedContains(code, {0, 1}, 0, a, path);
    }
    FlowsStart(code, 0);
    assert 0 in Body(code, 0) && code[0].taken in CallsOf(code, 0);
  }

  lemma SecondCalls(code: Code)
    requires code == CALLS_IN_A_ROW
    ensures 20 in CallsOf(code, 10)
  {
    FlowsStart(code, 10);
    assert 10 in Body(code, 10) && code[10].taken in CallsOf(code, 10);
  }

  /** An entry point given twice: the function it calls fills the place of the duplicate, and the next is not found. */
  lemma DuplicateStops(code: Code, initial: seq<Address>, found: set<Address>)
    requires code == CALLS_IN_A_ROW && initial == [0, 0] && FullResult(code, initial, found)
    ensures !Complete(code, Elements(initial), found)
  {
    assert Elements(initial) == {0};
    FirstCalls(code);
    SecondCalls(code);
    var first := Round(code, {0});
    CalleesAdd(code, {}, 0);
    assert {} + {0} == {0} && first == {0, 10};
    assert |first| == 2;
    assert 20 in Round(code, first);
    FullExact(code, initial, found);
  }

  const BRANCH: Code := map[
    0 := Instruction(true, ConditionalBranch, 1, 10, 1), 1 := Instruction(true, FunctionReturn, 1, 0, 0),
    10 := Instruction(true, IndirectJump, 1, 0, 0)]

  /** Both sides of a branch belong to the function; what follows the return and the indirect jump does not. */
  lemma BranchBody(code: Code)
    requires code == BRANCH
    ensures Body(code, 0) == {0, 1, 10} && Decodable(code, 0)
  {
    FlowsStart(code, 0);
    FlowsStep(code, 0, 0, 1);
    FlowsStep(code, 0, 0, 10);
    assert Closed(code, {0, 1, 10});
    forall a | Flows(code, 0, a) ensures a in {0, 1, 10} {
      var path :| IsFlow(code, 0, a, path);
      ClosedContains(code, {0, 1, 10}, 0, a, path);
    }
  }
}
