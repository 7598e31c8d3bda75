/** Machine words as their bits, the least significant first. */
module BitWords {
  import opened Arithmetic
  import Naturals = Bits

  type Bits = seq<bool>

  function Zeros(n: nat): (w: Bits)
    ensures |w| == n && (forall i :: 0 <= i < n ==> !w[i])
  {
    seq(n, _ => false)
  }

  function Ones(n: nat): (w: Bits)
    ensures |w| == n && (forall i :: 0 <= i < n ==> w[i])
  {
    seq(n, _ => true)
  }

  function OrBits(a: Bits, b: Bits): (w: Bits)
    requires |a| == |b|
    ensures |w| == |a| && (forall i :: 0 <= i < |a| ==> w[i] == (a[i] || b[i]))
  {
    seq(|a|, i requires 0 <= i < |a| => a[i] || b[i])
  }

  function AndBits(a: Bits, b: Bits): (w: Bits)
    requires |a| == |b|
    ensures |w| == |a| && (forall i :: 0 <= i < |a| ==> w[i] == (a[i] && b[i]))
  {
    seq(|a|, i requires 0 <= i < |a| => a[i] && b[i])
  }

  /** Zeros come in at the bottom, the top k bits are lost. */
  function ShiftLeft(a: Bits, k: nat): (w: Bits)
    requires k <= |a|
    ensures |w| == |a| && (forall i :: 0 <= i < |a| ==> w[i] == (i >= k && a[i - k]))
  {
    Zeros(k) + a[..|a| - k]
  }

  /** The bottom k bits are lost, zeros come in at the top. */
  function ShiftRight(a: Bits, k: nat): (w: Bits)
    requires k <= |a|
    ensures |w| == |a|
  {
    a[k..] + Zeros(k)
  }

  /** lsb_mask: the low `bits` bits of an n-bit word. */
  function LowMask(n: nat, bits: nat): (w: Bits)
    requires bits <= n
    ensures |w| == n
  {
    if bits == 0 then Zeros(n) else ShiftRight(Ones(n), n - bits)
  }

  /** A word whose bits from n on are clear. */
  ghost predicate Fits(a: Bits, n: nat) {
    n <= |a| && a[n..] == Zeros(|a| - n)
  }

  lemma Masked(a: Bits, n: nat)
    requires n <= |a|
    ensures AndBits(a, LowMask(|a|, n)) == a[..n] + Zeros(|a| - n)
  {
  }

  /** Bits put in above those in use: the union of the words is the two runs of bits side by side. */
  lemma Joined(a: Bits, n: nat, b: Bits, m: nat)
    requires Fits(a, n) && |b| == |a| && n + m <= |a| && Fits(b, m)
    ensures OrBits(a, ShiftLeft(b, n)) == a[..n] + b[..m] + Zeros(|a| - n - m)
  {
    var w := OrBits(a, ShiftLeft(b, n));
    forall i | 0 <= i < |a| ensures w[i] == (a[..n] + b[..m] + Zeros(|a| - n - m))[i] {
      if i >= n {
        assert a[i] == a[n..][i - n];
      }
      if i >= n + m {
        assert b[i - n] == b[m..][i - n - m];
      }
    }
  }

  // ----- numbers -----

  function Number(a: Bits): (v: nat) {
    if a == [] then 0 else (if a[0] then 1 else 0) + 2 * Number(a[1..])
  }

  function ToBits(v: nat, n: nat): (a: Bits)
    ensures |a| == n
  {
    if n == 0 then [] else [v % 2 == 1] + ToBits(v / 2, n - 1)
  }

  lemma {:induction false} NumberOfBits(v: nat, n: nat)
    requires v < Pow(2, n)
    ensures Number(ToBits(v, n)) == v
  {
    if n > 0 {
      NumberOfBits(v / 2, n - 1);
      assert ToBits(v, n)[1..] == ToBits(v / 2, n - 1);
    }
  }

  /** The operations on bits are those on the numbers that the bits denote. */
  lemma {:induction false} NumberOfOr(a: Bits, b: Bits)
    requires |a| == |b|
    ensures Number(OrBits(a, b)) == Naturals.Or(Number(a), Number(b))
  {
    if a != [] {
      NumberOfOr(a[1..], b[1..]);
      assert OrBits(a, b)[1..] == OrBits(a[1..], b[1..]);
    }
  }

  lemma {:induction false} NumberOfAnd(a: Bits, b: Bits)
    requires |a| == |b|
    ensures Number(AndBits(a, b)) == Naturals.And(Number(a), Number(b))
  {
    if a != [] {
      NumberOfAnd(a[1..], b[1..]);
      assert AndBits(a, b)[1..] == AndBits(a[1..], b[1..]);
    }
  }

  lemma {:induction false} NumberOfZeros(n: nat)
    ensures Number(Zeros(n)) == 0
  {
    if n > 0 {
      NumberOfZeros(n - 1);
      assert Zeros(n)[1..] == Zeros(n - 1);
    }
  }

  lemma {:induction false} NumberPadded(a: Bits, n: nat)
    ensures Number(a + Zeros(n)) == Number(a)
  {
    if a == [] {
      NumberOfZeros(n);
      assert a + Zeros(n) == Zeros(n);
    } else {
      NumberPadded(a[1..], n);
      assert (a + Zeros(n))[1..] == a[1..] + Zeros(n);
    }
  }

  /** A number below 2^k only uses the low k bits. */
  lemma {:induction false} SmallFits(v: nat, k: nat, n: nat)
    requires v < Pow(2, k) && k <= n
    ensures ToBits(v, n) == ToBits(v, k) + Zeros(n - k)
  {
    if k == 0 {
      if n > 0 {
        SmallFits(0, 0, n - 1);
        assert Zeros(n) == [false] + Zeros(n - 1);
      }
    } else {
      SmallFits(v / 2, k - 1, n - 1);
    }
  }

  /** Bits behind others count for that much more. */
  lemma {:induction false} NumberConcat(a: Bits, b: Bits)
    ensures Number(a + b) == Number(a) + Pow(2, |a|) * Number(b)
  {
    if a == [] {
      assert a + b == b;
    } else {
      NumberConcat(a[1..], b);
      assert (a + b)[1..] == a[1..] + b;
      MulAssoc(2, Pow(2, |a| - 1), Number(b));
    }
  }
}
