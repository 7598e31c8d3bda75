/** Bitwise operations of unsigned machine words, on naturals. */
module Bits {
  import opened Arithmetic

  function Or(x: nat, y: nat): (r: nat)
    decreases x + y
  {
    if x == 0 && y == 0 then 0
    else 2 * Or(x / 2, y / 2) + (if x % 2 == 1 || y % 2 == 1 then 1 else 0)
  }

  function And(x: nat, y: nat): (r: nat)
    decreases x + y
  {
    if x == 0 && y == 0 then 0
    else 2 * And(x / 2, y / 2) + (if x % 2 == 1 && y % 2 == 1 then 1 else 0)
  }

  lemma {:induction false} OrZero(x: nat)
    ensures Or(x, 0) == x
  {
    if x > 0 {
      OrZero(x / 2);
    }
  }

  lemma {:induction false} OrSymmetric(x: nat, y: nat)
    ensures Or(x, y) == Or(y, x)
    decreases x + y
  {
    if x > 0 || y > 0 {
      OrSymmetric(x / 2, y / 2);
    }
  }

  /** Halving a multiple of 2^k. */
  lemma HalveShifted(x: nat, k: nat)
    requires k > 0
    ensures x * Pow(2, k) == 2 * (x * Pow(2, k - 1))
  {
    calc {
      x * Pow(2, k);
      x * (2 * Pow(2, k - 1));
      { MulAssoc(x, 2, Pow(2, k - 1)); MulAssoc(2, x, Pow(2, k - 1)); }
      2 * (x * Pow(2, k - 1));
    }
  }

  /** Bits that do not overlap: the union of the bits is the sum. */
  lemma {:induction false} OrDisjoint(x: nat, y: nat, k: nat)
    requires y < Pow(2, k)
    ensures Or(x * Pow(2, k), y) == x * Pow(2, k) + y
    decreases k
  {
    if k == 0 {
      OrZero(x);
    } else {
      HalveShifted(x, k);
      OrDisjoint(x, y / 2, k - 1);
    }
  }

  lemma AndStep(x: nat, y: nat)
    ensures And(x, y) == 2 * And(x / 2, y / 2) + (if x % 2 == 1 && y % 2 == 1 then 1 else 0)
  {
    if x == 0 && y == 0 {
      AndZero(0);
    }
  }

  /** Bits above the lowest do not matter to it. */
  lemma AndHalves(x: nat, a: nat, y: nat, b: nat)
    ensures And(x + 2 * a, y + 2 * b) == 2 * And(x / 2 + a, y / 2 + b) + (if x % 2 == 1 && y % 2 == 1 then 1 else 0)
  {
    hide And;
    AndStep(x + 2 * a, y + 2 * b);
  }

  /** A mask of the low k bits keeps the residue. */
  lemma {:induction false} AndMask(x: nat, k: nat)
    ensures Pow(2, k) > 0
    ensures And(x, Pow(2, k) - 1) == x % Pow(2, k)
    decreases k
  {
    hide And, Pow;
    PowPositive(2, k);
    if k == 0 {
      AndZero(x);
      NoPower(2);
    } else {
      AndMask(x / 2, k - 1);
      OneMorePower(2, k);
      DoubledMask(x, Pow(2, k - 1));
    }
  }

  lemma DoubledMask(x: nat, p: nat)
    requires p > 0 && And(x / 2, p - 1) == (x / 2) % p
    ensures And(x, 2 * p - 1) == x % (2 * p)
  {
    hide And;
    DoubledResidue(x, p);
    AndStep(x, 2 * p - 1);
    assert (2 * p - 1) / 2 == p - 1 && (2 * p - 1) % 2 == 1;
  }

  lemma DoubledResidue(x: nat, p: nat)
    requires p > 0
    ensures x % (2 * p) == 2 * ((x / 2) % p) + x % 2
  {
    var q, r := (x / 2) / p, (x / 2) % p;
    DivModEquation(x / 2, p);
    MulAssoc(q, 2, p);
    MulAssoc(2, q, p);
    DivModUnique(x, 2 * p, q, 2 * r + x % 2);
  }

  lemma {:induction false} AndZero(x: nat)
    ensures And(x, 0) == 0
  {
    if x > 0 {
      AndZero(x / 2);
    }
  }
}
