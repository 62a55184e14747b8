/**
 Waymarks: the two-bit tags in a node's operand slots that lead from any slot to the end of the slot array, where the
 node itself is. Distances are counted from the end: the last slot has distance 1.
 */
module Waymarks {
  import opened Arithmetic
  import opened Uses

  /** What is left to encode once the slot at distance `d` has its tag (all of it if that slot is a stop). */
  ghost function Bits(d: nat): nat {
    if d == 0 then 0 else if Bits(d - 1) == 0 then d else Bits(d - 1) / 2
  }

  /** The tag of the slot at distance `d`. */
  ghost function Waymark(d: nat): Tag
    requires d > 0
  {
    if Bits(d - 1) == 0 then (if d == 1 then FullStop else Stop)
    else if Bits(d - 1) % 2 == 1 then One else Zero
  }

  ghost predicate Marked(slots: seq<Use>)
    reads slots
  {
    forall j :: 0 <= j < |slots| ==> slots[j].prev.tag == Waymark(|slots| - j)
  }

  function BitLength(n: nat): nat {
    if n == 0 then 0 else 1 + BitLength(n / 2)
  }

  /** The nearest stop at or after distance `d`, on the way to the end. */
  ghost function StopOf(d: nat): (s: nat)
    requires d > 0
    ensures 0 < s <= d && Bits(s - 1) == 0
  {
    if Bits(d - 1) == 0 then d else StopOf(d - 1)
  }

  /** A digit doubles what the slots before it have read, and leads to the same stop. */
  lemma DigitStep(d: nat)
    requires d > 0 && (Waymark(d) == Zero || Waymark(d) == One)
    ensures d > 1 && StopOf(d) == StopOf(d - 1)
    ensures Bits(d - 1) == 2 * Bits(d) + if Waymark(d) == One then 1 else 0
  {
  }

  lemma StopReached(d: nat)
    requires d > 0 && Waymark(d) != Zero && Waymark(d) != One
    ensures StopOf(d) == d && Bits(d) == d
    ensures Waymark(d) == FullStop <==> d == 1
  {
  }

  /** A stop is followed by as many digits as its distance has. */
  lemma {:induction false} DigitsAfterStop(d: nat)
    requires d > 0
    ensures d - StopOf(d) + BitLength(Bits(d)) == BitLength(StopOf(d))
    decreases d
  {
    if Bits(d - 1) != 0 {
      DigitsAfterStop(d - 1);
    }
  }

  lemma {:induction false} BitLengthMonotone(m: nat, n: nat)
    requires m <= n
    ensures BitLength(m) <= BitLength(n)
    decreases n
  {
    if m > 0 {
      BitLengthMonotone(m / 2, n / 2);
    }
  }

  lemma StepsBounded(d: nat, n: nat)
    requires 0 < d <= n
    ensures d - StopOf(d) <= BitLength(n)
  {
    DigitsAfterStop(d);
    BitLengthMonotone(StopOf(d), n);
  }

  lemma {:induction false} BitLengthIsLogarithm(n: nat)
    requires n > 0
    ensures Pow2(BitLength(n) - 1) <= n < Pow2(BitLength(n))
    decreases n
  {
    if n > 1 {
      BitLengthIsLogarithm(n / 2);
      assert BitLength(n) == 1 + BitLength(n / 2);
    }
  }

  /** AstContext::prepareStorageAndUses: fresh slots, tagged from the last to the first. */
  method PrepareUses(count: nat) returns (slots: seq<Use>)
    ensures |slots| == count && fresh(slots)
    ensures forall u :: u in slots ==> u.prev.pointer == null && u.next == null && u.expression == null
    ensures forall i, j :: 0 <= i < j < |slots| ==> slots[i] != slots[j]
    ensures Marked(slots)
  {
    slots := [];
    var bitsToEncode: nat := 0;
    while |slots| < count
      invariant |slots| <= count && fresh(slots) && Marked(slots)
      invariant bitsToEncode == Bits(|slots|)
      invariant forall u :: u in slots ==> u.prev.pointer == null && u.next == null && u.expression == null
      invariant forall i, j :: 0 <= i < j < |slots| ==> slots[i] != slots[j]
    {
      var tag;
      if bitsToEncode == 0 {
        tag := if slots == [] then FullStop else Stop;
        bitsToEncode := |slots| + 1;
      } else {
        tag := if bitsToEncode % 2 == 1 then One else Zero;
        bitsToEncode := bitsToEncode / 2;
      }
      var use := new Use(tag);
      slots := [use] + slots;
    }
  }

  /** ExpressionUse::walkWay from slot `i`: the next stop, and the digits read on the way. */
  method WalkWay(slots: seq<Use>, i: nat) returns (stop: nat, total: nat, ghost steps: nat)
    requires i < |slots| && Marked(slots)
    ensures i <= stop < |slots| && |slots| - stop == StopOf(|slots| - i)
    ensures Bits(|slots| - i) == 0 ==> total == |slots| - stop
    ensures slots[stop].prev.tag == FullStop <==> stop == |slots| - 1
    ensures steps <= BitLength(|slots|) + 1
  {
    ghost var n := |slots|;
    stop, total := i, 0;
    while slots[stop].prev.tag == Zero || slots[stop].prev.tag == One
      invariant i <= stop < n && StopOf(n - stop) == StopOf(n - i)
      invariant Bits(n - i) == 0 ==> total == Bits(n - stop)
      decreases n - stop
    {
      DigitStep(n - stop);
      total := 2 * total + if slots[stop].prev.tag == One then 1 else 0;
      stop := stop + 1;
    }
    StopReached(n - stop);
    steps := stop + 1 - i;
    StepsBounded(n - i, n);
  }

  /** ExpressionUse::walkToEndOfArray from slot `i`: the position just after the last slot. */
  method WalkToEndOfArray(slots: seq<Use>, i: nat) returns (end: nat, ghost steps: nat)
    requires i < |slots| && Marked(slots)
    ensures end == |slots|
    ensures steps <= 2 * BitLength(|slots|) + 2
  {
    var stop, skip;
    stop, skip, steps := WalkWay(slots, i);
    if slots[stop].prev.tag == FullStop {
      skip := 1;
    } else {
      ghost var more;
      stop, skip, more := WalkWay(slots, stop + 1);
      steps := steps + more;
    }
    end := stop + skip;
  }

  /** One change of the use lists. */
  datatype Change = SetUse(use: Use, target: Node?) | ReplaceAll(e: Node, target: Node?) | Drop(user: Node) | Reset(user: Node, target: Node?)

  ghost predicate Applies(c: Context, change: Change)
    reads c`uses, c`nodes
  {
    match change
    case SetUse(use, target) => use in c.uses && (target == null || target in c.nodes)
    case ReplaceAll(e, target) => e in c.nodes && (target == null || target in c.nodes)
    case Drop(user) => forall u :: u in user.operands ==> u in c.uses
    case Reset(user, target) => |user.operands| == 1 && user.operands[0] in c.uses && (target == null || target in c.nodes)
  }

  /** Any run of changes keeps the lists consistent, and the way from every slot to its user. */
  method Run(c: Context, changes: seq<Change>, ghost slots: seq<Use>)
    requires c.Valid() && c.Closed() && forall change :: change in changes ==> Applies(c, change)
    requires Marked(slots) && forall u :: u in slots ==> u in c.uses
    modifies c`lists, c.uses, c.nodes`firstUse
    ensures c.Valid() && Marked(slots)
  {
    for i := 0 to |changes|
      invariant c.Valid() && Marked(slots)
    {
      assert Applies(c, changes[i]);
      match changes[i] {
        case SetUse(use, target) => c.SetUse(use, target);
        case ReplaceAll(e, target) => c.ReplaceAllUsesWith(e, target);
        case Drop(user) => c.DropAllReferences(user);
        case Reset(user, target) => c.Reset(user, target);
      }
      assert forall u :: u in slots ==> u in c.uses;
    }
  }
}
