/**
 IntNarrowing: integer computations of which only the low bits matter are repeated at a smaller width.
 */
module IntNarrowing {
  import opened Arithmetic

  datatype Op = Add | Sub | Mul | And | Or | Xor | UDiv | URem | Shl | LShr | SDiv | SRem | AShr

  /** SSA values. A leaf stands for everything that is not a binary operator or one of the casts that the pass makes. */
  datatype Value =
    | Leaf(id: nat, width: nat)
    | Constant(value: nat, width: nat)
    | Binary(op: Op, left: Value, right: Value)
    | Trunc(operand: Value, width: nat)
    | ZExt(operand: Value, width: nat)

  function Width(v: Value): nat {
    if v.Binary? then Width(v.left) else v.width
  }

  /** The values of leaves, and the results of operations that are not modelled. */
  datatype State = State(leaf: nat -> nat, other: (Op, nat, nat, nat) -> nat)

  predicate WellTyped(v: Value) {
    match v
    case Binary(_, left, right) => WellTyped(left) && WellTyped(right) && Width(left) == Width(right)
    case Trunc(operand, width) => WellTyped(operand) && width <= Width(operand)
    case ZExt(operand, width) => WellTyped(operand) && Width(operand) <= width
    case _ => true
  }

  function Digit(op: Op, a: nat, b: nat): (d: nat)
    ensures d <= 1
  {
    if op.And? then (if a % 2 == 1 && b % 2 == 1 then 1 else 0)
    else if op.Or? then (if a % 2 == 1 || b % 2 == 1 then 1 else 0)
    else (a + b) % 2
  }

  /** Bitwise and, or, exclusive or. */
  function Bitwise(op: Op, a: nat, b: nat): nat
    decreases a + b
  {
    if a == 0 && b == 0 then 0 else 2 * Bitwise(op, a / 2, b / 2) + Digit(op, a, b)
  }

  /** The operation on integers, before it is reduced to its width. */
  function Apply(op: Op, a: nat, b: nat, width: nat, state: State): int {
    match op
    case Add => a + b
    case Sub => a - b
    case Mul => a * b
    case And | Or | Xor => Bitwise(op, a, b)
    case UDiv => if b == 0 then state.other(op, a, b, width) else a / b
    case URem => if b == 0 then state.other(op, a, b, width) else a % b
    case Shl => if b >= width then state.other(op, a, b, width) else a * Pow2(b)
    case LShr => if b >= width then state.other(op, a, b, width) else a / Pow2(b)
    case _ => state.other(op, a, b, width)
  }

  /** The low `k` bits of an integer. */
  function Low(a: int, k: nat): nat
    decreases k
  {
    if k == 0 then 0 else 2 * Low(a / 2, k - 1) + a % 2
  }

  /** Values are the low bits of what is computed. */
  function Eval(v: Value, state: State): nat {
    match v
    case Leaf(id, width) => Low(state.leaf(id), width)
    case Constant(value, width) => Low(value, width)
    case Binary(op, left, right) =>
      Low(Apply(op, Eval(left, state), Eval(right, state), Width(left), state), Width(left))
    case Trunc(operand, width) => Low(Eval(operand, state), width)
    case ZExt(operand, width) => Low(Eval(operand, state), width)
  }

  predicate IsMod2Equivalent(op: Op) {
    op !in {UDiv, SDiv, URem, SRem, Shl, LShr, AShr}
  }

  /** The value that computes the low `size` bits of `v`. */
  function Narrow(v: Value, size: nat): Value {
    if Width(v) == size then v
    else if v.Binary? && IsMod2Equivalent(v.op) then Binary(v.op, Narrow(v.left, size), Narrow(v.right, size))
    else Trunc(v, size)
  }

  class Narrowing {
    var resized: map<Value, map<nat, Value>>

    constructor ()
      ensures Valid() && resized == map[]
    {
      resized := map[];
    }

    /** Every remembered value is the one that would be made. */
    ghost predicate Valid()
      reads this
    {
      forall v, k :: v in resized && k in resized[v] ==> resized[v][k] == Narrow(v, k)
    }

    /** IntNarrowing::narrowDown */
    method NarrowDown(thatValue: Value, size: nat) returns (value: Value)
      requires Valid() && WellTyped(thatValue) && size <= Width(thatValue)
      modifies this
      ensures Valid() && value == Narrow(thatValue, size)
      ensures size < Width(thatValue) ==> thatValue in resized && size in resized[thatValue]
      decreases thatValue
    {
      if Width(thatValue) == size {
        return thatValue;
      }
      if thatValue !in resized {
        resized := resized[thatValue := map[]];
      }
      if size in resized[thatValue] {
        return resized[thatValue][size];
      }
      if thatValue.Binary? && IsMod2Equivalent(thatValue.op) {
        var left := NarrowDown(thatValue.left, size);
        var right := NarrowDown(thatValue.right, size);
        value := Binary(thatValue.op, left, right);
      } else {
        value := Trunc(thatValue, size);
      }
      var valueMap := if thatValue in resized then resized[thatValue] else map[];
      resized := resized[thatValue := valueMap[size := value]];
    }
  }

  // ----- Operations on the low bits -----

  lemma SplitMod(a: nat, n: nat)
    returns (q: int)
    requires n > 0
    ensures a == a % n + q * n
  {
    q := a / n;
  }

  lemma SumMod(a: nat, b: nat, n: nat)
    requires n > 0
    ensures (a + b) % n == (a % n + b % n) % n
    ensures (a - b) % n == (a % n - b % n) % n
  {
    var p := SplitMod(a, n);
    var q := SplitMod(b, n);
    Distribute(p, q, n);
    Distribute(p, -q, n);
    ModSame(a + b, a % n + b % n, n, p + q);
    ModSame(a - b, a % n - b % n, n, p - q);
  }

  lemma ProductMod(a: nat, b: nat, n: nat)
    requires n > 0
    ensures (a * b) % n == (a % n * (b % n)) % n
  {
    var p := SplitMod(a, n);
    var q := SplitMod(b, n);
    var x, y := a % n, b % n;
    DistributeLeft(a, y, q * n);
    Reassociate(a, q, n);
    ModSame(a * b, a * y, n, a * q);
    Distribute(x, p * n, y);
    Regroup(p, n, y);
    ModSame(a * y, x * y, n, p * y);
  }

  lemma HalfMod(a: int, n: nat)
    requires n > 0
    ensures a % (2 * n) == 2 * (a / 2 % n) + a % 2
  {
    var h := a / 2;
    var q := h / n;
    Regroup(2, n, q);
    assert q * (2 * n) == 2 * (q * n);
    ModUnique(a, 2 * n, q, 2 * (h % n) + a % 2);
  }

  lemma {:induction false} LowIsMod(a: int, k: nat)
    ensures Low(a, k) == a % Pow2(k)
    decreases k
  {
    if k > 0 {
      LowIsMod(a / 2, k - 1);
      HalfMod(a, Pow2(k - 1));
    }
  }

  lemma {:induction false} LowLow(a: int, k: nat, w: nat)
    requires k <= w
    ensures Low(Low(a, w), k) == Low(a, k)
    decreases w
  {
    if k > 0 {
      LowLow(a / 2, k - 1, w - 1);
    }
  }

  lemma {:induction false} LowBound(a: int, k: nat)
    ensures Low(a, k) < Pow2(k)
    decreases k
  {
    if k > 0 {
      LowBound(a / 2, k - 1);
    }
  }

  lemma {:induction false} LowSame(a: nat, k: nat)
    requires a < Pow2(k)
    ensures Low(a, k) == a
    decreases k
  {
    if k > 0 {
      LowSame(a / 2, k - 1);
    }
  }

  lemma LowSum(a: nat, b: nat, k: nat)
    ensures Low(a + b, k) == Low(Low(a, k) + Low(b, k), k)
    ensures Low(a - b, k) == Low(Low(a, k) - Low(b, k), k)
  {
    SumMod(a, b, Pow2(k));
    LowIsMod(a, k);
    LowIsMod(b, k);
    LowIsMod(a + b, k);
    LowIsMod(a - b, k);
    LowIsMod(Low(a, k) + Low(b, k), k);
    LowIsMod(Low(a, k) - Low(b, k), k);
  }

  lemma LowProduct(a: nat, b: nat, k: nat)
    ensures Low(a * b, k) == Low(Low(a, k) * Low(b, k), k)
  {
    ProductMod(a, b, Pow2(k));
    LowIsMod(a, k);
    LowIsMod(b, k);
    LowIsMod(a * b, k);
    LowIsMod(Low(a, k) * Low(b, k), k);
  }

  lemma LastBit(a: nat, d: nat)
    requires d <= 1
    ensures (2 * a + d) / 2 == a && (2 * a + d) % 2 == d
  {
  }

  lemma BitwiseParts(op: Op, a: nat, b: nat)
    ensures Bitwise(op, a, b) / 2 == Bitwise(op, a / 2, b / 2) && Bitwise(op, a, b) % 2 == Digit(op, a, b)
  {
    LastBit(Bitwise(op, a / 2, b / 2), Digit(op, a, b));
  }

  lemma LowParts(a: nat, k: nat)
    requires k > 0
    ensures Low(a, k) / 2 == Low(a / 2, k - 1) && Low(a, k) % 2 == a % 2
  {
    LastBit(Low(a / 2, k - 1), a % 2);
  }

  lemma SameParts(x: nat, y: nat)
    requires x / 2 == y / 2 && x % 2 == y % 2
    ensures x == y
  {
  }

  lemma SameDigit(op: Op, a: nat, b: nat, c: nat, d: nat)
    requires a % 2 == c % 2 && b % 2 == d % 2
    ensures Digit(op, a, b) == Digit(op, c, d)
  {
  }

  /** Bitwise operations work bit by bit, so the low bits of the result depend on the low bits only. */
  lemma {:induction false} LowBitwise(op: Op, a: nat, b: nat, k: nat)
    ensures Low(Bitwise(op, a, b), k) == Bitwise(op, Low(a, k), Low(b, k))
    decreases k
  {
    if k > 0 {
      LowBitwise(op, a / 2, b / 2, k - 1);
      BitwiseParts(op, a, b);
      LowParts(a, k);
      LowParts(b, k);
      LowParts(Bitwise(op, a, b), k);
      BitwiseParts(op, Low(a, k), Low(b, k));
      SameDigit(op, a, b, Low(a, k), Low(b, k));
      SameParts(Low(Bitwise(op, a, b), k), Bitwise(op, Low(a, k), Low(b, k)));
    }
  }

  lemma {:induction false} AndBelow(a: nat, b: nat)
    ensures Bitwise(And, a, b) <= b
    decreases a + b
  {
    if a != 0 || b != 0 {
      AndBelow(a / 2, b / 2);
    }
  }

  /** Or and exclusive or by the bits that both have. */
  lemma {:induction false} OrByAnd(a: nat, b: nat)
    ensures Bitwise(Or, a, b) == a + b - Bitwise(And, a, b)
    ensures Bitwise(Xor, a, b) == a + b - 2 * Bitwise(And, a, b)
    decreases a + b
  {
    if a != 0 || b != 0 {
      OrByAnd(a / 2, b / 2);
      DigitByAnd(a % 2, b % 2);
      SameDigit(Or, a, b, a % 2, b % 2);
      SameDigit(Xor, a, b, a % 2, b % 2);
      SameDigit(And, a, b, a % 2, b % 2);
    }
  }

  lemma DigitByAnd(a: nat, b: nat)
    requires a <= 1 && b <= 1
    ensures Digit(Or, a, b) == a + b - Digit(And, a, b) && Digit(Xor, a, b) == a + b - 2 * Digit(And, a, b)
  {
  }

  lemma {:induction false} AndSelf(a: nat)
    ensures Bitwise(And, a, a) == a
    decreases a
  {
    if a != 0 {
      AndSelf(a / 2);
    }
  }

  /** The operators that the pass repeats at a smaller width commute with taking low bits. */
  lemma ApplyLow(op: Op, a: nat, b: nat, width: nat, k: nat, state: State)
    requires IsMod2Equivalent(op) && k <= width
    ensures Low(Low(Apply(op, a, b, width, state), width), k) == Low(Apply(op, Low(a, k), Low(b, k), k, state), k)
  {
    LowLow(Apply(op, a, b, width, state), k, width);
    match op {
      case Add | Sub => LowSum(a, b, k);
      case Mul => LowProduct(a, b, k);
      case And | Or | Xor =>
        LowBitwise(op, a, b, k);
        LowBitwise(op, Low(a, k), Low(b, k), k);
        LowLow(a, k, k);
        LowLow(b, k, k);
    }
  }

  /** Narrowing computes the low bits. */
  lemma {:induction false} NarrowCorrect(v: Value, size: nat, state: State)
    requires WellTyped(v) && size <= Width(v)
    ensures WellTyped(Narrow(v, size)) && Width(Narrow(v, size)) == size
    ensures Eval(Narrow(v, size), state) == Low(Eval(v, state), size)
    decreases v
  {
    if Width(v) == size {
      EvalLow(v, state);
    } else if v.Binary? && IsMod2Equivalent(v.op) {
      NarrowCorrect(v.left, size, state);
      NarrowCorrect(v.right, size, state);
      ApplyLow(v.op, Eval(v.left, state), Eval(v.right, state), Width(v.left), size, state);
    }
  }

  lemma EvalLow(v: Value, state: State)
    ensures Low(Eval(v, state), Width(v)) == Eval(v, state) < Pow2(Width(v))
  {
    match v {
      case Leaf(id, width) =>
        LowLow(state.leaf(id), width, width);
        LowBound(state.leaf(id), width);
      case Constant(value, width) =>
        LowLow(value, width, width);
        LowBound(value, width);
      case Binary(op, left, right) =>
        LowLow(Apply(op, Eval(left, state), Eval(right, state), Width(left), state), Width(left), Width(left));
        LowBound(Apply(op, Eval(left, state), Eval(right, state), Width(left), state), Width(left));
      case Trunc(operand, width) =>
        LowLow(Eval(operand, state), width, width);
        LowBound(Eval(operand, state), width);
      case ZExt(operand, width) =>
        LowLow(Eval(operand, state), width, width);
        LowBound(Eval(operand, state), width);
    }
  }

  // ----- The form of the narrowed value -----

  /** The operators of which the low bits of the result depend on the low bits of the operands alone. */
  predicate IsRepeated(op: Op) {
    op == Add || op == Sub || op == Mul || op == And || op == Or || op == Xor
  }

  /** A path to left (`false`) and right operands that goes through such operators alone. */
  predicate Leads(v: Value, path: seq<bool>) {
    path == [] || (v.Binary? && IsRepeated(v.op) && Leads(if path[0] then v.right else v.left, path[1..]))
  }

  function At(v: Value, path: seq<bool>): Value
    requires Leads(v, path)
  {
    if path == [] then v else At(if path[0] then v.right else v.left, path[1..])
  }

  /** Such an operator is repeated at the smaller size, anything else is truncated as it is. */
  ghost predicate Resized(whole: Value, part: Value, size: nat) {
    if whole.Binary? && IsRepeated(whole.op) then part.Binary? && part.op == whole.op && Width(part) == size
    else part == Trunc(whole, size)
  }

  /** Narrowing repeats every operator that it can, all the way down, and truncates nothing but what it reaches then. */
  lemma {:induction false} NarrowForm(v: Value, size: nat, path: seq<bool>)
    requires WellTyped(v) && size < Width(v) && Leads(v, path)
    ensures Leads(Narrow(v, size), path) && Resized(At(v, path), At(Narrow(v, size), path), size)
    decreases |path|
  {
    NarrowCorrect(v, size, State(_ => 0, (_, _, _, _) => 0));
    if path != [] {
      NarrowForm(if path[0] then v.right else v.left, size, path[1..]);
    }
  }

  /** Nothing is done where the size is right already. */
  lemma NarrowSame(v: Value, size: nat)
    requires WellTyped(v) && size <= Width(v)
    ensures Narrow(v, size) == v <==> size == Width(v)
  {
    NarrowCorrect(v, size, State(_ => 0, (_, _, _, _) => 0));
  }

  /** Division and remainder do not: 1 / 3 and 1 % 3 on two bits differ from 1 / 1 and 1 % 1 on one. */
  lemma DivisionDoesNotCommute(state: State)
    ensures Low(Low(Apply(UDiv, 1, 3, 2, state), 2), 1) != Low(Apply(UDiv, Low(1, 1), Low(3, 1), 1, state), 1)
    ensures Low(Low(Apply(URem, 1, 3, 2, state), 2), 1) != Low(Apply(URem, Low(1, 1), Low(3, 1), 1, state), 1)
  {
    assert Low(1, 1) == 1 && Low(3, 1) == 1 && Low(0, 1) == 0;
    assert Low(1, 2) == 1 && Low(0, 2) == 0;
  }

  /** Shifts do not: the bits that a right shift brings down are gone, and a narrower left shift goes by fewer bits. */
  lemma ShiftDoesNotCommute(state: State)
    ensures Low(Low(Apply(LShr, 8, 2, 4, state), 4), 3) != Low(Apply(LShr, Low(8, 3), Low(2, 3), 3, state), 3)
    ensures Low(Low(Apply(Shl, 1, 2, 3, state), 3), 1) != Low(Apply(Shl, Low(1, 1), Low(2, 1), 1, state), 1)
  {
    assert Pow2(0) == 1 && Pow2(1) == 2 && Pow2(2) == 4;
    assert Low(8, 3) == 0 && Low(2, 3) == 2 && Low(2, 4) == 2 && Low(0, 3) == 0;
    assert Low(1, 1) == 1 && Low(2, 1) == 0 && Low(4, 3) == 4 && Low(4, 1) == 0;
  }

  // ----- Masks -----

  /** APInt::getActiveBits */
  function ActiveBits(n: nat): nat {
    if n == 0 then 0 else 1 + ActiveBits(n / 2)
  }

  lemma {:induction false} ActiveBitsBound(n: nat)
    ensures n < Pow2(ActiveBits(n))
    ensures n > 0 ==> Pow2(ActiveBits(n) - 1) <= n
    decreases n
  {
    if n > 1 {
      ActiveBitsBound(n / 2);
    }
  }

  lemma {:induction false} Pow2Monotone(a: nat, b: nat)
    requires a <= b
    ensures Pow2(a) <= Pow2(b)
    decreases b
  {
    if a < b {
      Pow2Monotone(a, b - 1);
    }
  }

  function Masked(v: Value, mask: nat): Value {
    Binary(And, v, Constant(mask, Width(v)))
  }

  ghost predicate GivesBack(v: Value, mask: nat, size: nat, state: State) {
    Eval(ZExt(Narrow(Masked(v, mask), size), Width(v)), state) == Eval(Masked(v, mask), state)
  }

  lemma MaskedValue(v: Value, mask: nat, state: State)
    requires WellTyped(v) && mask < Pow2(Width(v))
    ensures WellTyped(Masked(v, mask)) && Width(Masked(v, mask)) == Width(v)
    ensures Eval(Masked(v, mask), state) == Bitwise(And, Eval(v, state), mask) <= mask
  {
    LowSame(mask, Width(v));
    AndBelow(Eval(v, state), mask);
    LowSame(Bitwise(And, Eval(v, state), mask), Width(v));
  }

  /** The case of runOnFunction for masks: widening the narrowed value again gives back the masked value. */
  lemma MaskCorrect(v: Value, mask: nat, size: nat, state: State)
    requires WellTyped(v) && mask < Pow2(Width(v)) && ActiveBits(mask) <= size <= Width(v)
    ensures GivesBack(v, mask, size, state)
  {
    MaskedValue(v, mask, state);
    NarrowCorrect(Masked(v, mask), size, state);
    ActiveBitsBound(mask);
    Pow2Monotone(ActiveBits(mask), size);
    LowSame(Eval(Masked(v, mask), state), size);
    LowSame(Eval(Masked(v, mask), state), Width(v));
  }

  lemma MaskLost(id: nat, width: nat, mask: nat, size: nat)
    returns (state: State)
    requires mask < Pow2(width) && size < ActiveBits(mask) && size <= width
    ensures !GivesBack(Leaf(id, width), mask, size, state)
  {
    var v := Leaf(id, width);
    state := State(_ => mask, (_, _, _, _) => 0);
    LowSame(mask, width);
    AndSelf(mask);
    MaskedValue(v, mask, state);
    NarrowCorrect(Masked(v, mask), size, state);
    ActiveBitsBound(mask);
    Pow2Monotone(size, ActiveBits(mask) - 1);
    LowBound(mask, size);
    Pow2Monotone(size, width);
    LowSame(Low(mask, size), width);
  }

  /** No smaller size would do, unless something about the masked value is known. */
  lemma MaskExact(id: nat, width: nat, mask: nat, size: nat)
    requires mask < Pow2(width) && size <= width
    ensures ActiveBits(mask) <= size <==> forall state :: GivesBack(Leaf(id, width), mask, size, state)
  {
    if ActiveBits(mask) <= size {
      forall state ensures GivesBack(Leaf(id, width), mask, size, state) {
        MaskCorrect(Leaf(id, width), mask, size, state);
      }
    } else {
      var state := MaskLost(id, width, mask, size);
    }
  }
}
