/** Arithmetic: powers of two, and facts about products, quotients and remainders that the other modules share. */
module Arithmetic {

  function Pow2(k: nat): (r: nat)
    ensures r > 0
  {
    if k == 0 then 1 else 2 * Pow2(k - 1)
  }

  lemma MulMonotone(a: int, b: int, c: nat)
    requires a <= b
    ensures a * c <= b * c
  {
    assert (b - a) * c >= 0;
  }

  lemma MulCancel(a: int, b: int, c: nat)
    requires a * c < b * c
    ensures a < b
  {
    if b <= a {
      MulMonotone(b, a, c);
      assert false;
    }
  }

  lemma DivisionUnique(a: int, b: nat, q: int)
    requires b > 0 && q * b <= a < q * b + b
    ensures a / b == q
  {
    var r := a / b;
    assert a == r * b + a % b;
    assert (r + 1) * b == r * b + b && (q + 1) * b == q * b + b;
    MulCancel(r, q + 1, b);
    MulCancel(q, r + 1, b);
  }

  lemma {:induction false} Pow2Add(a: nat, b: nat)
    ensures Pow2(a + b) == Pow2(a) * Pow2(b)
    decreases a
  {
    if a > 0 {
      Pow2Add(a - 1, b);
      assert 2 * (Pow2(a - 1) * Pow2(b)) == (2 * Pow2(a - 1)) * Pow2(b);
    }
  }

  lemma Distribute(a: int, b: int, c: int)
    ensures (a + b) * c == a * c + b * c
  {
  }

  lemma DistributeLeft(a: int, b: int, c: int)
    ensures a * (b + c) == a * b + a * c
  {
  }

  lemma Reassociate(a: int, b: int, c: int)
    ensures (a * b) * c == a * (b * c)
  {
  }

  lemma Regroup(a: int, b: int, c: int)
    ensures (a * b) * c == (a * c) * b && a * (b * c) == (a * c) * b
  {
  }

  lemma DivisionBounds(x: nat, d: nat)
    returns (q: nat)
    requires d > 0
    ensures q == x / d && q * d <= x < (q + 1) * d
  {
    q := x / d;
    Distribute(q, 1, d);
  }

  lemma ModUnique(a: int, n: nat, k: int, r: nat)
    requires n > 0 && a == r + k * n && r < n
    ensures a % n == r
  {
    DivisionUnique(a, n, k);
  }

  /** Numbers that differ by a multiple of `n` have the same remainder. */
  lemma ModSame(a: int, b: int, n: nat, k: int)
    requires n > 0 && a == b + k * n
    ensures a % n == b % n
  {
    var q := b / n;
    Distribute(q, k, n);
    ModUnique(a, n, q + k, b % n);
  }

  lemma ModFactor(a: int, c: nat, n: nat)
    requires n > 0 && c * n > 0
    ensures a % (c * n) % n == a % n
  {
    var product := c * n;
    var q := a / product;
    Reassociate(q, c, n);
    ModSame(a, a % product, n, q * c);
  }

  /** Reducing to more bits first changes nothing. */
  lemma ModMod(a: int, k: nat, w: nat)
    requires k <= w
    ensures a % Pow2(w) % Pow2(k) == a % Pow2(k)
  {
    Pow2Add(w - k, k);
    ModFactor(a, Pow2(w - k), Pow2(k));
  }
}
