/** Facts about products, quotients and powers of two that the solver does not find by itself. */
module Arithmetic {
  function Max(a: int, b: int): int { if a < b then b else a }

  lemma MulNonNegative(x: int, y: int)
    requires x >= 0 && y >= 0
    ensures x * y >= 0
  {
  }

  lemma MulMonotone(x: int, y: int, k: int)
    requires x <= y && k >= 0
    ensures x * k <= y * k
  {
    MulNonNegative(y - x, k);
    assert (y - x) * k == y * k - x * k;
  }

  /** The quotient is determined by its remainder. */
  lemma DivUnique(x: int, d: int, q: int, r: int)
    requires d > 0 && x == q * d + r && 0 <= r < d
    ensures x / d == q && x % d == r
  {
    var q' := x / d;
    var r' := x % d;
    assert x == q' * d + r';
    assert (q - q') * d == r' - r;
    if q > q' {
      MulMonotone(1, q - q', d);
      assert false;
    }
    if q < q' {
      MulMonotone(q - q', -1, d);
      assert false;
    }
  }

  lemma DivAtMost(x: int, d: int)
    requires x >= 0 && d > 0
    ensures 0 <= x / d <= x
  {
    var q := x / d;
    assert x == q * d + x % d;
    if q < 0 {
      MulMonotone(q, -1, d);
      assert false;
    }
    MulMonotone(1, d, q);
    assert q <= d * q;
  }

  lemma MulCommutes(x: int, y: int)
    ensures x * y == y * x
  {
  }

  lemma MulAssociates(x: int, y: int, z: int)
    ensures x * (y * z) == (x * y) * z
  {
  }

  lemma MulDistributes(x: int, y: int, k: int)
    ensures (x + y) * k == x * k + y * k
    ensures k * (x + y) == k * x + k * y
  {
  }

  lemma ScaleTerm(b: int, v: int, d: int, w: int)
    ensures b * (v + d * w) == b * v + d * (b * w)
  {
    MulDistributes(v, d * w, b);
    MulAssociates(b, d, w);
    MulCommutes(b, d);
    MulAssociates(d, b, w);
  }

  function Pow2(n: nat): (r: nat)
    ensures r > 0
  {
    if n == 0 then 1 else 2 * Pow2(n - 1)
  }

  /** `x >> n`. */
  function Shr(x: nat, n: nat): nat {
    DivAtMost(x, Pow2(n));
    x / Pow2(n)
  }

  /** `x << n`, in no particular width. */
  function Shl(x: nat, n: nat): nat {
    MulNonNegative(x, Pow2(n));
    x * Pow2(n)
  }

  lemma ShiftStep(x: nat, y: nat, n: nat)
    requires n > 0
    ensures Shr(x, n) == Shr(x / 2, n - 1) && Shl(y, n) == 2 * Shl(y, n - 1)
  {
    var p := Pow2(n - 1);
    var q, r := (x / 2) / p, (x / 2) % p;
    MulCommutes(q, p);
    MulAssociates(2, p, q);
    DivUnique(x, 2 * p, q, 2 * r + x % 2);
    MulAssociates(y, 2, p);
    MulAssociates(2, y, p);
  }

  lemma {:induction false} Pow2Add(a: nat, b: nat)
    ensures Pow2(a + b) == Pow2(a) * Pow2(b)
  {
    if b > 0 {
      Pow2Add(a, b - 1);
      assert Pow2(a) * (2 * Pow2(b - 1)) == 2 * (Pow2(a) * Pow2(b - 1));
    }
  }

  lemma {:induction false} Pow2Monotone(a: nat, b: nat)
    requires a <= b
    ensures Pow2(a) <= Pow2(b)
  {
    if a < b { Pow2Monotone(a, b - 1); }
  }

  lemma ModHalves(a: nat, p: nat)
    requires p > 0 && a % (2 * p) == 0
    ensures a % 2 == 0 && (a / 2) % p == 0
  {
    var k := a / (2 * p);
    assert a == k * (2 * p);
    assert k * (2 * p) == 2 * (k * p);
    DivUnique(a / 2, p, k, 0);
  }
}
