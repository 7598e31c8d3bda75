/** Powers and the few non-linear facts that the word-array proofs rest on. */
module Arithmetic {

  function Pow(b: nat, n: nat): (r: nat)
  {
    if n == 0 then 1 else b * Pow(b, n - 1)
  }

  function Min(x: int, y: int): (r: int)
  {
    if x <= y then x else y
  }

  function Max(x: int, y: int): (r: int)
  {
    if x <= y then y else x
  }

  /** A product that can be kept from being multiplied out. */
  function Times(x: int, y: int): (p: int)
  {
    x * y
  }

  lemma {:induction false} PowPositive(b: nat, n: nat)
    requires b > 0
    ensures Pow(b, n) > 0
  {
    if n > 0 {
      PowPositive(b, n - 1);
    }
  }

  lemma NoPower(b: nat)
    ensures Pow(b, 0) == 1
  {
  }

  lemma OneMorePower(b: nat, n: nat)
    requires n > 0
    ensures Pow(b, n) == b * Pow(b, n - 1)
  {
  }

  lemma {:induction false} PowAdd(b: nat, m: nat, n: nat)
    ensures Pow(b, m + n) == Pow(b, m) * Pow(b, n)
  {
    if m > 0 {
      PowAdd(b, m - 1, n);
      MulAssoc(b, Pow(b, m - 1), Pow(b, n));
    }
  }

  lemma {:induction false} PowMul(b: nat, m: nat, n: nat)
    ensures Pow(Pow(b, m), n) == Pow(b, m * n)
  {
    if n > 0 {
      PowMul(b, m, n - 1);
      PowAdd(b, m, m * (n - 1));
      assert m * n == m + m * (n - 1);
    }
  }

  lemma {:induction false} PowMonotone(b: nat, m: nat, n: nat)
    requires b > 0 && m <= n
    ensures Pow(b, m) <= Pow(b, n)
    decreases n - m
  {
    if m < n {
      PowMonotone(b, m, n - 1);
      PowPositive(b, n - 1);
      MulMonotone(1, b, Pow(b, n - 1));
    }
  }

  lemma MulAssoc(x: int, y: int, z: int)
    ensures x * (y * z) == (x * y) * z
  {
  }

  lemma MulDistrib(x: int, y: int, z: int)
    ensures x * (y + z) == x * y + x * z
    ensures (y + z) * x == y * x + z * x
    ensures x * (y - z) == x * y - x * z
    ensures (y - z) * x == y * x - z * x
  {
  }

  lemma MulNonNegative(x: int, y: int)
    requires 0 <= x && 0 <= y
    ensures 0 <= x * y
  {
  }

  lemma MulMonotone(x: int, y: int, z: int)
    requires x <= y && 0 <= z
    ensures x * z <= y * z && z * x <= z * y
  {
  }

  lemma MulBoth(x: int, x': int, y: int, y': int)
    requires 0 <= x <= x' && 0 <= y <= y'
    ensures 0 <= x * y <= x' * y'
  {
    MulNonNegative(x, y);
    MulMonotone(x, x', y);
    MulMonotone(y, y', x');
  }

  lemma MulStrict(x: int, y: int, z: int)
    requires x < y && 0 < z
    ensures x * z + z <= y * z && x * z < y * z
  {
    MulMonotone(x + 1, y, z);
    MulDistrib(z, x, 1);
  }

  /** Cancelling a positive factor. */
  lemma MulCancel(x: int, y: int, z: int)
    requires 0 < z && x * z < y * z
    ensures x < y
  {
    if y <= x {
      MulMonotone(y, x, z);
    }
  }

  lemma MulCancelLe(x: int, y: int, z: int)
    requires 0 < z && x * z <= y * z
    ensures x <= y
  {
    if y < x {
      MulStrict(y, x, z);
    }
  }

  /** Quotient and remainder are determined by the division equation. */
  lemma DivModUnique(x: int, d: int, q: int, r: int)
    requires 0 < d && x == q * d + r && 0 <= r < d
    ensures x / d == q && x % d == r
  {
    var q', r' := x / d, x % d;
    assert q' * d + r' == x;
    if q < q' {
      MulStrict(q, q', d);
    } else if q' < q {
      MulStrict(q', q, d);
    }
  }

  lemma DivModEquation(x: int, d: int)
    requires 0 < d
    ensures x == (x / d) * d + x % d && 0 <= x % d < d
    ensures 0 <= x ==> 0 <= x / d
  {
  }

  lemma DivBound(x: nat, m: nat, d: nat)
    requires 0 < m && x < m * d
    ensures x / m < d
  {
    DivModEquation(x, m);
    MulCancel(x / m, d, m);
  }
}
