/**
 Reciprocals: recognising that a multiplication and a shift are an unsigned division by a constant. The pass computes
 with doubles; here its guards are the exact rational comparisons that those stand for.
 */
module Reciprocals {
  import opened Arithmetic
  import opened Expressions

  /** The least integer that is not below `a / b`. */
  function Ceiling(a: nat, b: nat): nat
    requires b > 0
  {
    (a + b - 1) / b
  }

  /** `1 / (ceiled - denominator) >= 2^width / ceiled`, where the denominator is `power / m`. */
  predicate Accepts(power: nat, m: nat, width: nat)
    requires m > 0
  {
    var d := Ceiling(power, m);
    (d * m - power) * Pow2(width) <= d * m
  }

  /** The largest shift at which a double still tells all values apart. */
  const DIGITS := 53

  /** The values that the pass matches: `(x * m) >> p`, and `(t + ((x - t) >> y)) >> s` with `t = (x * m) >> z`. */
  datatype Shift = MultiplyShift(m: nat, p: nat) | AddFixup(m: nat, z: nat, y: nat, s: nat)

  /** handleLogicalShiftRight: the denominator of the division that replaces the shift. */
  function Recognize(shift: Shift, width: nat): Option<nat> {
    match shift
    case MultiplyShift(m, p) =>
      if p < DIGITS && m > 0 && Accepts(Pow2(p), m, width) then Some(Ceiling(Pow2(p), m)) else None
    case AddFixup(m, z, y, s) =>
      var power, multiplier := Pow2(s + y + z), m * (Pow2(y) - 1) + Pow2(z);
      if Accepts(power, multiplier, width) then Some(Ceiling(power, multiplier)) else None
  }

  /** What the shift computes as long as nothing wraps around. */
  function Compute(shift: Shift, x: nat): int {
    match shift
    case MultiplyShift(m, p) => x * m / Pow2(p)
    case AddFixup(m, z, y, s) => Inner(x, m, Pow2(z), Pow2(y)) / Pow2(s)
  }

  /** `t + (x - t) / base`, where `t` is `x * m / power`. */
  function Inner(x: nat, m: nat, power: nat, base: nat): int
    requires power > 0 && base > 0
  {
    var t := x * m / power;
    t + (x - t) / base
  }

  // ----- Arithmetic -----

  lemma CeilingBounds(a: nat, b: nat)
    requires b > 0
    ensures a <= Ceiling(a, b) * b < a + b
  {
    var q := Ceiling(a, b);
    assert (a + b - 1) == q * b + (a + b - 1) % b;
  }

  lemma EvenFactor(a: nat, e: nat)
    requires a % 2 == 1
    ensures (a * e) % 2 == e % 2
  {
    var i := a / 2;
    Distribute(2 * i, 1, e);
    Reassociate(2, i, e);
  }

  /** The only odd divisor of a power of two is 1. */
  lemma {:induction false} OddDivisor(a: nat, e: nat, k: nat)
    requires a % 2 == 1 && a * e == Pow2(k)
    ensures a == 1
    decreases k
  {
    if k == 0 {
      MulCancel(0, e, a);
      MulMonotone(1, e, a);
    } else {
      EvenFactor(a, e);
      HalfProduct(a, e / 2);
      OddDivisor(a, e / 2, k - 1);
    }
  }

  lemma HalfProduct(a: nat, h: nat)
    ensures a * (2 * h) == 2 * (a * h)
  {
  }

  lemma Pow2LessOne(width: nat)
    requires width >= 2
    ensures (Pow2(width) - 1) % 2 == 1 && Pow2(width) > 2
  {
    var half := Pow2(width - 2);
    assert Pow2(width - 1) == 2 * half && Pow2(width) == 2 * Pow2(width - 1);
    OddBefore(2 * half);
  }

  lemma OddBefore(h: nat)
    requires h > 0
    ensures (2 * h - 1) % 2 == 1
  {
  }

  lemma LessOne(n: int, e: int)
    ensures (n - 1) * e == e * n - e
  {
  }

  /** The guard is never met with equality: that would make an odd number divide a power of two. */
  lemma GuardStrict(p: nat, width: nat, e: nat, product: nat)
    requires width >= 2 && product == Pow2(p) + e && e * Pow2(width) <= product
    ensures e * Pow2(width) < product
  {
    Pow2LessOne(width);
    LessOne(Pow2(width), e);
    if e * Pow2(width) == product {
      OddDivisor(Pow2(width) - 1, e, p);
      assert false;
    }
  }

  lemma SpreadBound(x: nat, y: nat, e: nat, n: nat, product: nat)
    requires x < n && x < y && e * n < product && e <= product
    ensures y * e < (y - x) * product
  {
    Distribute(x + 1, y - x - 1, e);
    MulMonotone(x + 1, n, e);
    MulMonotone(e, product, y - x - 1);
    Distribute(1, y - x - 1, product);
  }

  /** The product lies in the interval of its quotient. */
  lemma QuotientBounds(power: nat, d: nat, m: nat, e: nat, x: nat, q: nat, n: nat)
    requires d > 0 && d * m == power + e && e < m && e * n < d * m && x < n
    requires q * d <= x < (q + 1) * d
    ensures q * power <= x * m < q * power + power
  {
    var y := (q + 1) * d;
    SpreadBound(x, y, e, n, d * m);
    // y * e < (y - x) * (d * m), so (q + 1) * e < (y - x) * m
    Regroup(q + 1, d, e);
    Regroup(y - x, d, m);
    assert ((q + 1) * e) * d < ((y - x) * m) * d;
    MulCancel((q + 1) * e, (y - x) * m, d);
    UpperBound(power, d, m, e, x, q);
    LowerBound(power, d, m, e, x, q);
  }

  lemma UpperBound(power: nat, d: nat, m: nat, e: nat, x: nat, q: nat)
    requires d * m == power + e && (q + 1) * e < ((q + 1) * d - x) * m
    ensures x * m < q * power + power
  {
    Distribute((q + 1) * d - x, x, m);
    Reassociate(q + 1, d, m);
    Distribute(q, 1, power);
    assert (q + 1) * (power + e) == (q + 1) * power + (q + 1) * e;
  }

  lemma LowerBound(power: nat, d: nat, m: nat, e: nat, x: nat, q: nat)
    requires d * m == power + e && q * d <= x
    ensures q * power <= x * m
  {
    MulMonotone(q * d, x, m);
    Reassociate(q, d, m);
    assert q * (power + e) == q * power + q * e;
  }

  lemma DivideBy(power: nat, d: nat, m: nat, product: nat, n: nat, x: nat)
    requires power > 0 && d > 0 && product == d * m && power <= product < power + m
    requires (product - power) * n < product && x < n
    ensures x * m / power == x / d
  {
    var q := DivisionBounds(x, d);
    QuotientFound(power, d, m, product, n, x, q);
  }

  lemma QuotientFound(power: nat, d: nat, m: nat, product: nat, n: nat, x: nat, q: nat)
    requires power > 0 && d > 0 && product == d * m && power <= product < power + m
    requires (product - power) * n < product && x < n && q * d <= x < (q + 1) * d
    ensures x * m / power == q
  {
    QuotientBounds(power, d, m, product - power, x, q, n);
    DivisionUnique(x * m, power, q);
  }

  /** The rounded denominator and its excess, under the guard. */
  lemma Accepted(p: nat, m: nat, width: nat)
    returns (d: nat, product: nat)
    requires m > 0 && width >= 2 && Accepts(Pow2(p), m, width)
    ensures d == Ceiling(Pow2(p), m) > 0 && product == d * m && Pow2(p) <= product < Pow2(p) + m
    ensures (product - Pow2(p)) * Pow2(width) < product
  {
    d := Ceiling(Pow2(p), m);
    product := d * m;
    CeilingBounds(Pow2(p), m);
    MulCancel(0, d, m);
    GuardStrict(p, width, product - Pow2(p), product);
  }

  /** A multiplication and a shift that the guard accepts divide by the rounded denominator. */
  lemma ReciprocalCorrect(p: nat, m: nat, width: nat, x: nat)
    requires m > 0 && width >= 2 && x < Pow2(width) && Accepts(Pow2(p), m, width)
    ensures Ceiling(Pow2(p), m) > 0
    ensures x * m / Pow2(p) == x / Ceiling(Pow2(p), m)
  {
    var d, product := Accepted(p, m, width);
    DivideBy(Pow2(p), d, m, product, Pow2(width), x);
  }

  /** With a shift of 1 inside, the fix-up form is a multiplication by a larger constant. */
  lemma FixupIsMultiply(x: nat, m: nat, z: nat, s: nat)
    requires m <= Pow2(z)
    ensures var t := x * m / Pow2(z);
      && 0 <= t <= x && t + (x - t) / 2 <= x
      && Compute(AddFixup(m, z, 1, s), x) == x * (m + Pow2(z)) / Pow2(s + 1 + z)
  {
    var power := Pow2(z);
    var t := x * m / power;
    FloorBelow(x, m, power);
    HalfSum(x, t);
    ScaledSum(x, m, power);
    FloorThrice(x * (m + power), power, Pow2(s));
    Pow2Add(s, 1 + z);
    Regroup(Pow2(s), 2, power);
  }

  lemma HalfSum(x: nat, t: nat)
    requires t <= x
    ensures t + (x - t) / 2 == (x + t) / 2
  {
    assert Pow2(1) == 2;
  }

  lemma ScaledSum(x: nat, m: nat, power: nat)
    requires power > 0
    ensures x * (m + power) / power == x + x * m / power
  {
    DistributeLeft(x, m, power);
    FloorAdd(x * m, x, power);
  }

  lemma FloorThrice(a: nat, power: nat, s: nat)
    requires power > 0 && s > 0
    ensures s * (2 * power) > 0 && a / power / 2 / s == a / (s * (2 * power))
  {
    FloorTwice(a, power, 2);
    FloorTwice(a, power * 2, s);
    assert (power * 2) * s == s * (2 * power);
  }

  lemma FloorBelow(x: nat, m: nat, power: nat)
    requires m <= power && power > 0
    ensures 0 <= x * m / power <= x
  {
    MulMonotone(m, power, x);
    var t := x * m / power;
    assert t * power <= x * m;
    MulCancel(t, x + 1, power);
  }

  lemma FloorAdd(a: nat, x: nat, power: nat)
    requires power > 0
    ensures (a + x * power) / power == a / power + x
  {
    var q := a / power;
    assert a == q * power + a % power;
    Distribute(q, x, power);
    DivisionUnique(a + x * power, power, q + x);
  }

  lemma FloorTwice(a: nat, b: nat, c: nat)
    requires b > 0 && c > 0
    ensures b * c > 0 && a / b / c == a / (b * c)
  {
    var q, r := a / b / c, a / b;
    assert b * c > 0 by { MulMonotone(1, c, b); }
    assert r == q * c + r % c && a == r * b + a % b;
    Distribute(q * c, r % c, b);
    Reassociate(q, c, b);
    MulMonotone(r % c + 1, c, b);
    Distribute(r % c, 1, b);
    DivisionUnique(a, b * c, q);
  }

  // ----- What the pass recognises -----

  /** The division that replaces the shift gives the same result for every operand of the given width. */
  ghost predicate Divides(shift: Shift, width: nat, d: nat) {
    d > 0 && forall x: nat :: x < Pow2(width) ==> Compute(shift, x) == x / d
  }

  /** A recognised multiplication and shift is a division. */
  lemma MultiplyRecognized(m: nat, p: nat, width: nat)
    requires width >= 2 && Recognize(MultiplyShift(m, p), width).Some?
    ensures Divides(MultiplyShift(m, p), width, Recognize(MultiplyShift(m, p), width).value)
  {
    forall x: nat | x < Pow2(width)
      ensures Ceiling(Pow2(p), m) > 0 && Compute(MultiplyShift(m, p), x) == x / Ceiling(Pow2(p), m)
    {
      ReciprocalCorrect(p, m, width, x);
    }
    assert 0 < Pow2(width);
  }

  /** On single bits the guard lets one wrong multiplier through. */
  lemma OneBitExact(m: nat, p: nat)
    requires Recognize(MultiplyShift(m, p), 1).Some?
    ensures Divides(MultiplyShift(m, p), 1, Recognize(MultiplyShift(m, p), 1).value) <==> m != 2 * Pow2(p)
  {
    var power, d := Pow2(p), Ceiling(Pow2(p), m);
    CeilingBounds(power, m);
    MulCancel(0, d, m);
    assert Pow2(1) == 2 && (d * m - power) * 2 <= d * m;
    OneBit(power, m, d);
    assert 0 * m / power == 0 && 0 / d == 0;
    assert Compute(MultiplyShift(m, p), 1) == 1 * m / power == m / power;
    assert Compute(MultiplyShift(m, p), 0) == 0;
  }

  lemma OneBit(power: nat, m: nat, d: nat)
    requires power > 0 && m > 0 && d > 0 && power <= d * m < power + m && d * m <= 2 * power
    ensures m / power == 1 / d <==> m != 2 * power
  {
    if d == 1 {
      assert d * m == m;
      if m < 2 * power {
        DivisionUnique(m, power, 1);
      } else {
        DivisionUnique(m, power, 2);
      }
    } else {
      MulMonotone(2, d, m);
      DivisionUnique(m, power, 0);
      DivisionUnique(1, d, 0);
    }
  }

  /** With shifts of 0 or 1 inside, a recognised fix-up form is a division. */
  lemma FixupRecognized(m: nat, z: nat, y: nat, s: nat, width: nat)
    requires width >= 2 && y <= 1 && m <= Pow2(z) && Recognize(AddFixup(m, z, y, s), width).Some?
    ensures Divides(AddFixup(m, z, y, s), width, Recognize(AddFixup(m, z, y, s), width).value)
  {
    var shift, d := AddFixup(m, z, y, s), Recognize(AddFixup(m, z, y, s), width).value;
    if y == 1 {
      OneShift(m, z, s);
      forall x: nat | x < Pow2(width) ensures d > 0 && Compute(shift, x) == x / d {
        ReciprocalCorrect(s + 1 + z, m + Pow2(z), width, x);
        FixupIsMultiply(x, m, z, s);
      }
      assert 0 < Pow2(width);
    } else {
      NoFixup(m, z, s);
    }
  }

  lemma OneShift(m: nat, z: nat, s: nat)
    ensures m * (Pow2(1) - 1) + Pow2(z) == m + Pow2(z)
  {
    assert Pow2(1) == 2;
  }

  lemma NoFixup(m: nat, z: nat, s: nat)
    ensures Ceiling(Pow2(s + 0 + z), m * (Pow2(0) - 1) + Pow2(z)) == Pow2(s)
    ensures forall x: nat :: Compute(AddFixup(m, z, 0, s), x) == x / Pow2(s)
  {
    var power := Pow2(z);
    Pow2Add(s, z);
    assert m * 0 == 0;
    CeilingBounds(Pow2(s) * power, power);
    var c := Ceiling(Pow2(s) * power, power);
    Distribute(Pow2(s), 1, power);
    MulCancel(c, Pow2(s) + 1, power);
    MulCancel(Pow2(s), c + 1, power) by { Distribute(c, 1, power); }
    forall x: nat ensures Compute(AddFixup(m, z, 0, s), x) == x / Pow2(s) {
      var t := x * m / power;
      assert Inner(x, m, power, 1) == t + (x - t) / 1 == x;
    }
  }

  // ----- Larger shifts inside -----

  /** Both floors of the sum in one. */
  lemma InnerSum(x: nat, m: nat, power: nat, base: nat) returns (t: nat)
    requires m <= power && power > 0 && base > 0
    ensures t == x * m / power && t <= x && Inner(x, m, power, base) == (x + t * (base - 1)) / base
  {
    FloorBelow(x, m, power);
    t := x * m / power;
    LessOne(base, t);
    AddFloor(x, t, base);
    assert (base - 1) * t == t * (base - 1);
  }

  lemma AddFloor(x: nat, t: nat, base: nat)
    requires t <= x && base > 0
    ensures t + (x - t) / base == (x + (base * t - t)) / base
  {
    FloorAdd(x - t, t, base);
    assert t * base == base * t;
  }

  lemma InnerMonotone(a: nat, b: nat, m: nat, power: nat, base: nat)
    requires m <= power && power > 0 && base > 0 && a <= b
    ensures 0 <= Inner(a, m, power, base) <= Inner(b, m, power, base)
  {
    var t := InnerSum(a, m, power, base);
    var u := InnerSum(b, m, power, base);
    MulMonotone(a, b, m);
    FloorMonotone(a * m, b * m, power);
    MulMonotone(t, u, base - 1);
    MulMonotone(0, t, base - 1);
    FloorMonotone(a + t * (base - 1), b + u * (base - 1), base);
    FloorMonotone(0, a + t * (base - 1), base);
  }

  lemma FixupMonotone(a: nat, b: nat, m: nat, z: nat, y: nat, s: nat)
    requires m <= Pow2(z) && a <= b
    ensures Compute(AddFixup(m, z, y, s), a) <= Compute(AddFixup(m, z, y, s), b)
  {
    InnerMonotone(a, b, m, Pow2(z), Pow2(y));
    FloorMonotone(Inner(a, m, Pow2(z), Pow2(y)), Inner(b, m, Pow2(z), Pow2(y)), Pow2(s));
  }

  /** Flooring in between only loses. */
  lemma InnerBelow(x: nat, m: nat, power: nat, base: nat, s: nat)
    requires m <= power && power > 0 && base > 0 && s > 0
    ensures s * (base * power) > 0 && Inner(x, m, power, base) / s <= x * (m * (base - 1) + power) / (s * (base * power))
  {
    var t := InnerSum(x, m, power, base);
    var sum := x + t * (base - 1);
    MulMonotone(0, t, base - 1);
    FloorTwice(sum, base, s);
    SumBelow(x, m, power, t, base - 1);
    var divisor := base * s;
    Reassociate(s, base, power);
    assert s * base == divisor;
    ScaledFloor(sum, divisor, power, x * (m * (base - 1) + power));
  }

  lemma FixupBelow(x: nat, m: nat, z: nat, y: nat, s: nat)
    requires m <= Pow2(z)
    ensures Compute(AddFixup(m, z, y, s), x) <= x * Multiplier(m, z, y) / Pow2(s + y + z)
  {
    InnerBelow(x, m, Pow2(z), Pow2(y), Pow2(s));
    Pow2Add(s, y + z);
    Pow2Add(y, z);
    assert s + (y + z) == s + y + z;
  }

  lemma SumBelow(x: nat, m: nat, power: nat, t: nat, k: nat)
    requires power > 0 && t == x * m / power
    ensures (x + t * k) * power <= x * (m * k + power)
  {
    assert t * power <= x * m;
    MulMonotone(t * power, x * m, k);
    Distribute(x, t * k, power);
    Regroup(t, k, power);
    DistributeLeft(x, m * k, power);
    Reassociate(x, m, k);
  }

  lemma ScaledFloor(a: nat, b: nat, power: nat, c: nat)
    requires b > 0 && power > 0 && a * power <= c
    ensures b * power > 0 && a / b <= c / (b * power)
  {
    var q := a / b;
    MulMonotone(1, b, power);
    assert q * b <= a;
    MulMonotone(q * b, a, power);
    Reassociate(q, b, power);
    var product := b * power;
    assert q * product <= c;
    FloorMonotone(q * product, c, product);
    DivisionUnique(q * product, product, q);
  }

  ghost predicate RightOnMultiples(shift: Shift, width: nat, d: nat) {
    forall k: nat :: k * d < Pow2(width) ==> Compute(shift, k * d) == k
  }

  lemma DividesMultiples(shift: Shift, width: nat, d: nat)
    requires Divides(shift, width, d)
    ensures RightOnMultiples(shift, width, d)
  {
    forall k: nat | k * d < Pow2(width) ensures Compute(shift, k * d) == k {
      DivisionUnique(k * d, d, k);
    }
  }

  /** The multiplier that the guard of the fix-up form is about. */
  function Multiplier(m: nat, z: nat, y: nat): (r: nat)
    ensures r > 0
  {
    MulMonotone(0, m, Pow2(y) - 1);
    m * (Pow2(y) - 1) + Pow2(z)
  }

  lemma Recognized(m: nat, z: nat, y: nat, s: nat, width: nat, d: nat)
    requires Recognize(AddFixup(m, z, y, s), width) == Some(d)
    ensures Accepts(Pow2(s + y + z), Multiplier(m, z, y), width) && d == Ceiling(Pow2(s + y + z), Multiplier(m, z, y))
  {
  }

  lemma BelowQuotient(m: nat, z: nat, y: nat, s: nat, width: nat, d: nat, x: nat)
    requires width >= 2 && m <= Pow2(z) && Recognize(AddFixup(m, z, y, s), width) == Some(d) && x < Pow2(width)
    ensures d > 0 && Compute(AddFixup(m, z, y, s), x) <= x / d
  {
    Recognized(m, z, y, s, width, d);
    ReciprocalCorrect(s + y + z, Multiplier(m, z, y), width, x);
    FixupBelow(x, m, z, y, s);
  }

  lemma BetweenMultiples(m: nat, z: nat, y: nat, s: nat, d: nat, x: nat, q: nat)
    requires m <= Pow2(z) && d > 0 && q * d <= x
    requires Compute(AddFixup(m, z, y, s), q * d) == q && Compute(AddFixup(m, z, y, s), x) <= q
    ensures Compute(AddFixup(m, z, y, s), x) == q
  {
    FixupMonotone(q * d, x, m, z, y, s);
  }

  /** A recognised fix-up form, with whatever shift inside, is the division exactly if it is right on the multiples of d. */
  lemma FixupExact(m: nat, z: nat, y: nat, s: nat, width: nat, d: nat)
    requires width >= 2 && m <= Pow2(z) && Recognize(AddFixup(m, z, y, s), width) == Some(d)
    ensures Divides(AddFixup(m, z, y, s), width, d) <==> RightOnMultiples(AddFixup(m, z, y, s), width, d)
  {
    var shift := AddFixup(m, z, y, s);
    BelowQuotient(m, z, y, s, width, d, 0);
    if Divides(shift, width, d) {
      DividesMultiples(shift, width, d);
    }
    if RightOnMultiples(shift, width, d) {
      forall x: nat | x < Pow2(width) ensures Compute(shift, x) == x / d {
        BelowQuotient(m, z, y, s, width, d, x);
        var q := DivisionBounds(x, d);
        BetweenMultiples(m, z, y, s, d, x, q);
      }
    }
  }

  /** With a larger shift inside, flooring is lost sight of: here 3 / 3 comes out as 0. */
  lemma LargerFixupFails()
    ensures Recognize(AddFixup(1, 2, 2, 0), 2) == Some(3)
    ensures !Divides(AddFixup(1, 2, 2, 0), 2, 3)
  {
    assert Pow2(0) == 1 && Pow2(1) == 2 && Pow2(2) == 4 && Pow2(3) == 8 && Pow2(4) == 16;
    assert Compute(AddFixup(1, 2, 2, 0), 3) == 0;
  }

  // ----- The width of the multiplication -----

  /** The multiplication and shift in registers of `bits` bits. */
  function ComputeIn(bits: nat, m: nat, p: nat, x: nat): int {
    x * m % Pow2(bits) / Pow2(p)
  }

  ghost predicate Fits(x: nat, d: nat, room: nat)
    requires d > 0
  {
    x / d < room
  }

  lemma SmallMod(v: nat, n: nat)
    requires n > 0
    ensures v % n == v <==> v < n
  {
  }

  lemma WidthAt(m: nat, p: nat, width: nat, bits: nat, d: nat, x: nat)
    requires p <= bits && Divides(MultiplyShift(m, p), width, d) && x < Pow2(width)
    ensures ComputeIn(bits, m, p, x) == x / d <==> Fits(x, d, Pow2(bits - p))
  {
    Pow2Add(p, bits - p);
    assert Compute(MultiplyShift(m, p), x) == x / d;
    ModThenFloor(x * m, Pow2(p), Pow2(bits - p));
    SmallMod(x / d, Pow2(bits - p));
  }

  /** The pass does not look at the width of the multiplication, which has to leave room for every quotient. */
  lemma WidthExact(m: nat, p: nat, width: nat, bits: nat, d: nat)
    requires width >= 2 && p <= bits && Recognize(MultiplyShift(m, p), width) == Some(d)
    ensures d > 0 && ((forall x: nat :: x < Pow2(width) ==> ComputeIn(bits, m, p, x) == x / d)
                      <==> Fits(Pow2(width) - 1, d, Pow2(bits - p)))
  {
    MultiplyRecognized(m, p, width);
    WidthAt(m, p, width, bits, d, Pow2(width) - 1);
    forall x: nat | x < Pow2(width)
      ensures ComputeIn(bits, m, p, x) == x / d <==> Fits(x, d, Pow2(bits - p))
      ensures Fits(Pow2(width) - 1, d, Pow2(bits - p)) ==> Fits(x, d, Pow2(bits - p))
    {
      WidthAt(m, p, width, bits, d, x);
      FloorMonotone(x, Pow2(width) - 1, d);
    }
  }

  lemma FloorMonotone(x: nat, y: nat, d: nat)
    requires x <= y && d > 0
    ensures x / d <= y / d
  {
    var q := DivisionBounds(x, d);
    var r := DivisionBounds(y, d);
    MulCancel(q, r + 1, d);
  }

  lemma ModThenFloor(a: nat, power: nat, room: nat)
    requires power > 0 && room > 0
    ensures power * room > 0 && a % (power * room) / power == a / power % room
  {
    var n := power * room;
    assert n > 0 by { MulMonotone(1, room, power); }
    var k, b := a / n, a % n;
    assert a == k * n + b;
    assert k * n == (k * room) * power by { Regroup(k, power, room); }
    FloorAdd(b, k * room, power);
    var q := DivisionBounds(b, power);
    MulCancel(q, room, power);
    ModUnique(q + k * room, room, k, q);
  }

  // ----- What is recognised, and what could be -----

  /** `d` is the least number of which `m` times makes up `power`, and rounding up to it is within the guard. */
  predicate WithinGuard(power: nat, m: nat, width: nat, d: nat) {
    m > 0 && (d - 1) * m < power <= d * m && (d * m - power) * Pow2(width) <= d * m
  }

  lemma CeilingUnique(a: nat, b: nat, d: nat)
    requires b > 0
    ensures (d - 1) * b < a <= d * b <==> d == Ceiling(a, b)
  {
    var c := Ceiling(a, b);
    CeilingBounds(a, b);
    Distribute(d, -1, b);
    Distribute(c, -1, b);
    if (d - 1) * b < a <= d * b {
      MulCancel(d - 1, c, b);
      Distribute(d, 1, b);
      MulCancel(c, d + 1, b);
      MulCancel(d - 1, d, b);
    }
  }

  /** A multiplication and shift is recognised exactly below the precision of a double and within the guard. */
  lemma MultiplyExact(m: nat, p: nat, width: nat, d: nat)
    ensures Recognize(MultiplyShift(m, p), width) == Some(d) <==> p < 53 && WithinGuard(Pow2(p), m, width, d)
  {
    if m > 0 {
      CeilingUnique(Pow2(p), m, d);
    }
  }

  /** A fix-up form is recognised exactly within the guard. */
  lemma FixupGuarded(m: nat, z: nat, y: nat, s: nat, width: nat, d: nat)
    ensures Recognize(AddFixup(m, z, y, s), width) == Some(d)
       <==> WithinGuard(Pow2(s + y + z), m * (Pow2(y) - 1) + Pow2(z), width, d)
  {
    assert Multiplier(m, z, y) > 0;
    CeilingUnique(Pow2(s + y + z), Multiplier(m, z, y), d);
  }

  lemma Doubled(k: nat, power: nat)
    requires Pow2(k) == power
    ensures Pow2(2 * k) == power * power
  {
    Pow2Add(k, k);
  }

  lemma Powers()
    ensures Pow2(1) == 2 && Pow2(32) == 0x1_0000_0000 && Pow2(33) == 0x2_0000_0000 && Pow2(35) == 0x8_0000_0000
  {
    assert Pow2(1) == 2 && Pow2(3) == 8 && Pow2(4) == 0x10;
    Doubled(4, 0x10);
    Doubled(8, 0x100);
    Doubled(16, 0x1_0000);
    Pow2Add(1, 32);
    Pow2Add(3, 32);
  }

  /** What compilers make of `x / 3` and `x / 7` on 32 bits. */
  lemma KnownDivisions()
    ensures Recognize(MultiplyShift(0xAAAA_AAAB, 33), 32) == Some(3)
    ensures Recognize(AddFixup(0x2492_4925, 32, 1, 2), 32) == Some(7)
  {
    Powers();
    MultiplyExact(0xAAAA_AAAB, 33, 32, 3);
    FixupGuarded(0x2492_4925, 32, 1, 2, 32, 7);
  }

  /** The last number of the block before `k * d` has the right quotient exactly if `k` excesses stay below `m`. */
  lemma LastOfBlock(power: nat, m: nat, d: nat, k: nat)
    requires power > 0 && d > 0 && k > 0 && power <= d * m < power + m
    ensures k * d > 0
    ensures (k * d - 1) * m / power == k - 1 <==> k * (d * m - power) < m
  {
    var e := d * m - power;
    MulMonotone(1, k, d);
    LessOne(k * d, m);
    assert k * (power + e) == k * power + k * e;
    Reassociate(k, d, m);
    var x := k * d - 1;
    assert x * m == k * power + k * e - m;
    LessOne(k, power);
    if k * e < m {
      LowerBound(power, d, m, e, x, k - 1) by { LessOne(k, d); }
      DivisionUnique(x * m, power, k - 1);
    } else {
      var q := DivisionBounds(x * m, power);
      MulCancel(k, q + 1, power);
    }
  }

  /** A number has the right quotient if the excesses stay below `m`, where only the last of its block counts all. */
  lemma WithinBlock(power: nat, m: nat, d: nat, x: nat, q: nat)
    requires power > 0 && d > 0 && power <= d * m < power + m && q * d <= x < (q + 1) * d
    requires q * (d * m - power) < m && (x + 1 < (q + 1) * d || (q + 1) * (d * m - power) < m)
    ensures x * m / power == q
  {
    var e, r := d * m - power, x - q * d;
    Distribute(q, 1, d);
    Distribute(q * d, r, m);
    Reassociate(q, d, m);
    assert q * (power + e) == q * power + q * e;
    Distribute(q, 1, e);
    if r + 1 < d {
      MulMonotone(r + 2, d, m);
      Distribute(r, 2, m);
    } else {
      LessOne(d, m);
    }
    MulMonotone(0, r, m);
    DivisionUnique(x * m, power, q);
  }

  /** A multiplication and shift divides by `d` only if `d` is the least number of which `m` times makes up the power. */
  lemma DivisorFound(m: nat, p: nat, width: nat, d: nat)
    requires 0 < d < Pow2(width) && Divides(MultiplyShift(m, p), width, d)
    ensures m > 0 && (d - 1) * m < Pow2(p) <= d * m
  {
    var power := Pow2(p);
    assert Compute(MultiplyShift(m, p), d) == 1 by { DivisionUnique(d, d, 1); }
    assert Compute(MultiplyShift(m, p), d - 1) == 0 by { DivisionUnique(d - 1, d, 0); }
    var q := DivisionBounds(d * m, power);
    var r := DivisionBounds((d - 1) * m, power);
  }

  lemma LastQuotient(blocks: nat, d: nat)
    requires blocks > 0 && d > 0
    ensures blocks * d > 0 && (blocks * d - 1) / d == blocks - 1
  {
    MulMonotone(1, blocks, d);
    LessOne(blocks, d);
    DivisionUnique(blocks * d - 1, d, blocks - 1);
  }

  lemma BlocksBelow(m: nat, p: nat, width: nat, d: nat, blocks: nat)
    requires 0 < d < Pow2(width) && Divides(MultiplyShift(m, p), width, d)
    requires blocks * d <= Pow2(width) < (blocks + 1) * d
    ensures m > 0 && (d - 1) * m < Pow2(p) <= d * m && blocks * (d * m - Pow2(p)) < m
  {
    DivisorFound(m, p, width, d);
    LessOne(d, m);
    MulCancel(1, blocks + 1, d);
    LastOfBlock(Pow2(p), m, d, blocks);
    LastQuotient(blocks, d);
    assert Compute(MultiplyShift(m, p), blocks * d - 1) == (blocks * d - 1) * m / Pow2(p);
  }

  /** It does exactly if as many excesses as there are whole blocks stay below `m`. */
  lemma DividesExact(m: nat, p: nat, width: nat, d: nat)
    requires 0 < d < Pow2(width)
    ensures Divides(MultiplyShift(m, p), width, d)
       <==> m > 0 && (d - 1) * m < Pow2(p) <= d * m && (Pow2(width) / d) * (d * m - Pow2(p)) < m
  {
    var power, n := Pow2(p), Pow2(width);
    var blocks := DivisionBounds(n, d);
    LessOne(d, m);
    if Divides(MultiplyShift(m, p), width, d) {
      BlocksBelow(m, p, width, d, blocks);
    }
    if m > 0 && (d - 1) * m < power <= d * m && blocks * (d * m - power) < m {
      forall x: nat | x < n ensures Compute(MultiplyShift(m, p), x) == x / d {
        ShiftQuotient(power, m, d, x, n, blocks);
      }
    }
  }

  lemma ShiftQuotient(power: nat, m: nat, d: nat, x: nat, n: nat, blocks: nat)
    requires power > 0 && d > 0 && power <= d * m < power + m && x < n && blocks * d <= n < (blocks + 1) * d
    requires blocks * (d * m - power) < m
    ensures x * m / power == x / d
  {
    var e := d * m - power;
    var q := DivisionBounds(x, d);
    MulCancel(q, blocks + 1, d);
    MulMonotone(q, blocks, e);
    if q < blocks {
      MulMonotone(q + 1, blocks, e);
    }
    WithinBlock(power, m, d, x, q);
  }

  /** Where whole blocks make up all operands, the guard says what the division needs. */
  lemma GuardOnBlocks(p: nat, m: nat, width: nat, d: nat, blocks: nat)
    requires width >= 2 && blocks * d == Pow2(width) && d > 0 && m > 0 && Pow2(p) <= d * m
    ensures (d * m - Pow2(p)) * Pow2(width) <= d * m <==> blocks * (d * m - Pow2(p)) < m
  {
    var e := d * m - Pow2(p);
    Regroup(e, blocks, d);
    assert e * Pow2(width) == (blocks * e) * d && d * m == m * d;
    if e * Pow2(width) <= d * m {
      GuardStrict(p, width, e, d * m);
      MulCancel(blocks * e, m, d);
    }
    if blocks * e < m {
      MulMonotone(blocks * e, m, d);
    }
  }

  /** Where the divisor is a power of two, the guard accepts all that divide, up to the precision of a double. */
  lemma NothingMissed(m: nat, p: nat, width: nat, k: nat)
    requires 2 <= width && k < width
    ensures Recognize(MultiplyShift(m, p), width) == Some(Pow2(k))
       <==> p < 53 && Divides(MultiplyShift(m, p), width, Pow2(k))
  {
    var d, n, blocks := Pow2(k), Pow2(width), Pow2(width - k);
    Pow2Add(width - k, k);
    Pow2Smaller(k, width);
    DivisionUnique(n, d, blocks);
    DividesExact(m, p, width, d);
    MultiplyExact(m, p, width, d);
    if m > 0 && Pow2(p) <= d * m {
      GuardOnBlocks(p, m, width, d, blocks);
    }
  }

  lemma {:induction false} Pow2Smaller(k: nat, width: nat)
    requires k < width
    ensures Pow2(k) < Pow2(width)
    decreases width
  {
    if k < width - 1 {
      Pow2Smaller(k, width - 1);
    }
  }
}
