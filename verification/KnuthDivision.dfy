/** Knuth's Algorithm D over word arrays, in place. */
module KnuthDivision {
  import opened Arithmetic
  import opened Bits
  import opened Words
  import opened BigIntBase
  import opened BigIntShift
  import opened BigIntMul
  import opened QuotientDigit

  // ----- D4: multiply and subtract -----

  /** After j words: window + (carries) * b^j == result + qhat * divisor, on the low j words. */
  ghost predicate Subtracted(b: nat, us: seq<nat>, vs: seq<nat>, zs: seq<nat>, qhat: nat, carry: nat, borrow: bool,
                             j: nat)
    requires j <= |us| && j <= |vs|
  {
    Value(b, us[..j]) + (carry + If(borrow, 1)) * Pow(b, j) == Value(b, zs) + qhat * Value(b, vs[..j])
  }

  lemma SubtractedStart(b: nat, us: seq<nat>, vs: seq<nat>, qhat: nat)
    ensures Subtracted(b, us, vs, [], qhat, 0, false, 0)
  {
  }

  lemma SubtractStepArith(b: int, u: int, uw: int, z: int, zw: int, q: int, v: int, vw: int, c: int, k: bool, c': int,
                          k': bool, low: int, p: int)
    requires u + (c + If(k, 1)) * p == z + q * v
    requires low + b * c' == q * vw + c
    requires zw - If(k', b) == uw - low - If(k, 1)
    ensures u + uw * p + (c' + If(k', 1)) * (b * p) == z + zw * p + q * (v + vw * p)
  {
    assert uw + b * c' + If(k', b) == zw + q * vw + (c + If(k, 1));
    calc {
      u + uw * p + (c' + If(k', 1)) * (b * p);
      { MulAssoc(c' + If(k', 1), b, p); MulDistrib(b, c', If(k', 1)); MulDistrib(p, uw, b * c' + If(k', b)); }
      u + (uw + (b * c' + If(k', b))) * p;
      u + (zw + q * vw + (c + If(k, 1))) * p;
      { MulDistrib(p, zw + q * vw, c + If(k, 1)); MulDistrib(p, zw, q * vw); }
      u + zw * p + (q * vw) * p + (c + If(k, 1)) * p;
      { MulAssoc(q, vw, p); MulDistrib(q, v, vw * p); }
      z + zw * p + q * (v + vw * p);
    }
  }

  /** One word of the multiply-subtract pass: result word, multiplication carry, borrow. */
  function SubtractWord(b: nat, uw: nat, vw: nat, qhat: nat, carry: nat, borrow: bool): (r: (nat, nat, bool))
    requires uw < b && vw < b && qhat < b && carry < b
    ensures r.0 < b && r.1 < b
  {
    ProductBound(b, qhat, vw);
    MulDistrib(b - 1, b - 1, 1);
    MulMonotone(b - 1, b, b);
    var product := WideMultiply(qhat, vw) + carry;
    SplitCarry(b, product);
    DivBound(product, b, b);
    var out := SubWords(b, uw, product % b, borrow);
    (out.0, product / b, out.1)
  }

  lemma SubtractStep(b: nat, us: seq<nat>, vs: seq<nat>, zs: seq<nat>, qhat: nat, carry: nat, borrow: bool, j: nat)
    requires j < |us| && j < |vs| && |zs| == j
    requires us[j] < b && vs[j] < b && qhat < b && carry < b
    requires Subtracted(b, us, vs, zs, qhat, carry, borrow, j)
    ensures var out := SubtractWord(b, us[j], vs[j], qhat, carry, borrow);
      Subtracted(b, us, vs, zs + [out.0], qhat, out.1, out.2, j + 1)
  {
    var out := SubtractWord(b, us[j], vs[j], qhat, carry, borrow);
    MulNonNegative(qhat, vs[j]);
    var product := WideMultiply(qhat, vs[j]) + carry;
    SplitCarry(b, product);
    ValuePrefix(b, us, j);
    ValuePrefix(b, vs, j);
    ValueSnoc(b, zs, out.0);
    SubtractStepArith(b, Value(b, us[..j]), us[j], Value(b, zs), out.0, qhat, Value(b, vs[..j]), vs[j],
                      carry, borrow, out.1, out.2, product % b, Pow(b, j));
  }

  /** The window u[lo..lo + n + 1] minus qhat times the n divisor words, modulo b^(n + 1), with the borrow out. */
  method MultiplySubtract(b: nat, u: array<nat>, lo: nat, v: array<nat>, n: nat, qhat: nat) returns (borrow: bool)
    requires u != v && lo + n < u.Length && n <= v.Length && qhat < b
    requires IsWords(b, u[lo..lo + n + 1]) && IsWords(b, v[..n])
    modifies u
    ensures IsWords(b, u[lo..lo + n + 1])
    ensures old(Value(b, u[lo..lo + n + 1])) + If(borrow, Pow(b, n + 1)) == Value(b,
            u[lo..lo + n + 1]) + qhat * Value(b, v[..n])
    ensures forall k :: 0 <= k < u.Length && !(lo <= k < lo + n + 1) ==> u[k] == old(u[k])
  {
    hide Value, Pow, Subtracted, SubtractWord;
    ghost var us, vs, zs: seq<nat> := u[lo..lo + n + 1], v[..n] + [0], [];
    var carry: nat := 0;
    borrow := false;
    SubtractedStart(b, us, vs, qhat);
    for j := 0 to n
      invariant |zs| == j && IsWords(b, zs) && carry < b
      invariant Subtracted(b, us, vs, zs, qhat, carry, borrow, j)
      invariant forall k :: lo <= k < lo + j ==> u[k] == zs[k - lo]
      invariant forall k :: 0 <= k < u.Length && !(lo <= k < lo + j) ==> u[k] == old(u[k])
    {
      assert u[lo + j] == us[j] && v[j] == vs[j];
      SubtractStep(b, us, vs, zs, qhat, carry, borrow, j);
      var out := SubtractWord(b, u[lo + j], v[j], qhat, carry, borrow);
      u[lo + j] := out.0;
      carry, borrow, zs := out.1, out.2, zs + [out.0];
    }
    assert u[lo + n] == us[n] && vs[n] == 0;
    SubtractStep(b, us, vs, zs, qhat, carry, borrow, n);
    SubtractTop(b, us[n], qhat, carry, borrow);
    var top := SubWords(b, u[lo + n], carry, borrow);
    u[lo + n] := top.0;
    borrow, zs := top.1, zs + [top.0];
    assert u[lo..lo + n + 1] == zs;
    SubtractedEnd(b, us, vs, v[..n], zs, qhat, borrow, n);
  }

  /** The top word subtracts the last multiplication carry: the same step with a zero divisor word. */
  lemma SubtractTop(b: nat, uw: nat, qhat: nat, carry: nat, borrow: bool)
    requires uw < b && qhat < b && carry < b
    ensures var top := SubWords(b, uw, carry, borrow);
      SubtractWord(b, uw, 0, qhat, carry, borrow) == (top.0, 0, top.1)
  {
    DivModUnique(carry, b, 0, carry);
  }

  lemma SubtractedEnd(b: nat, us: seq<nat>, vs: seq<nat>, divisor: seq<nat>, zs: seq<nat>, qhat: nat, borrow: bool,
                      n: nat)
    requires |us| == n + 1 && |divisor| == n && vs == divisor + [0]
    requires Subtracted(b, us, vs, zs, qhat, 0, borrow, n + 1)
    ensures Value(b, us) + If(borrow, Pow(b, n + 1)) == Value(b, zs) + qhat * Value(b, divisor)
  {
    assert us[..n + 1] == us && vs[..n + 1] == vs;
    ValueSnoc(b, divisor, 0);
    IfMul(borrow, Pow(b, n + 1));
  }

  // ----- one quotient digit -----

  lemma TwoWords(b: nat, s: seq<nat>)
    requires |s| == 2
    ensures Value(b, s) == Dword(b, s[0], s[1])
  {
    ValueSplit(b, s, 1);
    ValueSingle(b, s);
    ValueOfWord(b, s[1..]);
  }

  lemma ThreeWords(b: nat, s: seq<nat>)
    requires |s| == 3
    ensures Value(b, s) == Dword(b, s[0], Dword(b, s[1], s[2]))
  {
    ValueSplit(b, s, 1);
    ValueSingle(b, s);
    TwoWords(b, s[1..]);
  }

  /** The window and the divisor in the form the digit estimate speaks about. */
  lemma CutWindows(b: nat, us: seq<nat>, vs: seq<nat>, n: nat)
    requires n >= 2 && |us| == n + 1 && |vs| == n && IsWords(b, us) && IsWords(b, vs)
    requires b > 0 && 2 * vs[n - 1] >= b && Value(b, us) < Value(b, vs) * b
    ensures Windows(b, Pow(b, n - 2), us[n], us[n - 1], us[n - 2], Value(b, us[..n - 2]),
                    vs[n - 1], vs[n - 2], Value(b, vs[..n - 2]), Value(b, us), Value(b, vs))
  {
    hide Pow, Value;
    PowPositive(b, n - 2);
    ValueSplit(b, us, n - 2);
    ThreeWords(b, us[n - 2..]);
    ValueBound(b, us[..n - 2]);
    ValueSplit(b, vs, n - 2);
    TwoWords(b, vs[n - 2..]);
    ValueBound(b, vs[..n - 2]);
    if Value(b, vs) == 0 {
      assert false;
    }
  }

  /** The estimate is the true digit or one above it. */
  ghost predicate NearDigit(w: nat, v: nat, qhat: nat)
    requires v > 0
  {
    w / v <= qhat <= w / v + 1
  }

  lemma DigitNear(b: nat, p: nat, un: nat, um: nat, ul: nat, w0: nat, v1: nat, v2: nat, v0: nat, w: nat, v: nat,
                  qhat: nat)
    requires Windows(b, p, un, um, ul, w0, v1, v2, v0, w, v)
    requires un == v1 ==> qhat == b - 1
    requires un < v1 ==> qhat == ThreeByTwo(b, Dword(b, um, un), ul, v1, v2)
    ensures NearDigit(w, v, qhat)
  {
    TopWord(b, p, un, um, ul, w0, v1, v2, v0, w, v);
    if un == v1 {
      EqualTopWords(b, p, un, um, ul, w0, v1, v2, v0, w, v);
    } else {
      ThreeByTwoBracket(b, p, un, um, ul, w0, v1, v2, v0, w, v);
    }
  }

  /** What D4 leaves: without a borrow the digit was right, with a borrow it was one too large. */
  lemma AfterSubtract(w: nat, v: nat, qhat: nat, z: nat, borrow: bool, m: nat)
    requires v > 0 && NearDigit(w, v, qhat) && w + If(borrow, m) == z + qhat * v && z < m
    ensures !borrow ==> qhat == w / v && z + qhat * v == w && z < v
    ensures borrow ==> qhat == w / v + 1 && z + v == (w - (w / v) * v) + m
  {
    QuotientBounds(w, v);
    var q := w / v;
    MulDistrib(v, q, 1);
    if borrow && qhat == q {
      assert false;
    }
    if !borrow && qhat == q + 1 {
      assert false;
    }
  }

  /** D6: adding the divisor back carries out exactly once and restores the remainder. */
  lemma AfterAddBack(w: nat, v: nat, z: nat, z': nat, overflow: int, m: nat)
    requires v > 0 && v < m && z' < m && z + v == (w - (w / v) * v) + m && z + v == z' + overflow * m
    ensures overflow == 1 && z' + (w / v) * v == w && z' < v
  {
    QuotientBounds(w, v);
    if overflow <= 0 {
      MulMonotone(overflow, 0, m);
      assert false;
    }
    if overflow >= 2 {
      MulMonotone(2, overflow, m);
      assert false;
    }
  }

  /** The unsigned reading of `add`: the window plus the divisor, whose words above n are zero. */
  lemma AddBackSum(b: nat, us: seq<nat>, vs: seq<nat>, n: nat, zs: seq<nat>, overflow: int)
    requires b > 0 && |us| == |zs| == n + 1 && n <= |vs| && (forall k :: n <= k < |vs| ==> vs[k] == 0)
    requires SumOfFits(b, false, us, false, vs, false, false, zs, false, overflow)
    ensures Value(b, us) + Value(b, vs[..n]) == Value(b, zs) + overflow * Pow(b, n + 1)
  {
    hide Value, Pow;
    UnsignedSum(b, us, vs, zs, overflow);
    assert Fit(us, n + 1, 0) == us;
    assert Fit(vs, n + 1, 0) == vs[..n] + [0];
    ValueSnoc(b, vs[..n], 0);
  }

  /** D3 to D6 for the window u[lo..lo + n + 1]: the true digit, and the remainder left in place. */
  method DivideStep(b: nat, u: array<nat>, lo: nat, v: array<nat>, n: nat) returns (digit: nat)
    requires u != v && n >= 2 && lo + n < u.Length && n <= v.Length && b > 0
    requires IsWords(b, u[lo..lo + n + 1]) && IsWords(b, v[..]) && (forall k :: n <= k < v.Length ==> v[k] == 0)
    requires 2 * v[n - 1] >= b && Value(b, u[lo..lo + n + 1]) < Value(b, v[..n]) * b
    modifies u
    ensures digit < b && IsWords(b, u[lo..lo + n + 1])
    ensures Value(b, u[lo..lo + n + 1]) + digit * Value(b, v[..n]) == old(Value(b, u[lo..lo + n + 1]))
    ensures Value(b, u[lo..lo + n + 1]) < Value(b, v[..n])
    ensures forall k :: 0 <= k < u.Length && !(lo <= k < lo + n + 1) ==> u[k] == old(u[k])
  {
    hide Value, Pow, Windows, NearDigit, ThreeByTwo, Dword, SumOfFits, Fit;
    ghost var us, vs := u[lo..lo + n + 1], v[..n];
    ghost var w, d, m := Value(b, us), Value(b, vs), Pow(b, n + 1);
    CutWindows(b, us, vs, n);
    DivisorBounds(b, vs, n);
    WindowTop(b, us, vs, n);
    var qhat := EstimateDigit(b, u[lo + n], u[lo + n - 1], u[lo + n - 2], v[n - 1], v[n - 2]);
    DigitNear(b, Pow(b, n - 2), us[n], us[n - 1], us[n - 2], Value(b, us[..n - 2]),
              vs[n - 1], vs[n - 2], Value(b, vs[..n - 2]), w, d, qhat);
    var borrow := MultiplySubtract(b, u, lo, v, n, qhat);
    ghost var zs := u[lo..lo + n + 1];
    ValueBound(b, zs);
    AfterSubtract(w, d, qhat, Value(b, zs), borrow, m);
    digit := qhat;
    if borrow {
      var part := Storage(u, lo, n + 1, false);
      var divisor := Storage(v, 0, v.Length, false);
      assert part.Contents() == zs && divisor.Contents() == v[..];
      var overflow := Add(b, false, part, divisor, part, false);
      ghost var zs' := u[lo..lo + n + 1];
      AddBackSum(b, zs, v[..], n, zs', overflow);
      ValueBound(b, zs');
      AfterAddBack(w, d, Value(b, zs), Value(b, zs'), overflow, m);
      assert overflow == 1;
      digit := qhat - 1;
    }
  }

  lemma DivisorBounds(b: nat, vs: seq<nat>, n: nat)
    requires b > 0 && n >= 2 && |vs| == n && IsWords(b, vs) && 2 * vs[n - 1] >= b
    ensures 0 < Value(b, vs) < Pow(b, n + 1) && 0 < vs[n - 1]
  {
    ValueBound(b, vs);
    PowMonotone(b, n, n + 1);
    ValueTop(b, vs);
    PowPositive(b, n - 1);
    MulMonotone(1, vs[n - 1], Pow(b, n - 1));
  }

  lemma WindowTop(b: nat, us: seq<nat>, vs: seq<nat>, n: nat)
    requires n >= 2 && |us| == n + 1 && |vs| == n && IsWords(b, us) && IsWords(b, vs)
    requires b > 0 && 2 * vs[n - 1] >= b && Value(b, us) < Value(b, vs) * b
    ensures us[n] <= vs[n - 1]
  {
    CutWindows(b, us, vs, n);
    TopWord(b, Pow(b, n - 2), us[n], us[n - 1], us[n - 2], Value(b, us[..n - 2]),
            vs[n - 1], vs[n - 2], Value(b, vs[..n - 2]), Value(b, us), Value(b, vs));
  }

  // ----- the digit loop -----

  /** The digits found so far, from position j up, account for what has been taken from the dividend. */
  ghost predicate Accounted(b: nat, total: nat, us: seq<nat>, v: nat, j: nat, tail: seq<nat>)
  {
    Value(b, us) + v * (Pow(b, j) * Value(b, tail)) == total
  }

  lemma ThreeParts(b: nat, s: seq<nat>, j: nat, k: nat)
    requires j <= k <= |s|
    ensures Value(b, s) == Value(b, s[..j]) + Pow(b, j) * (Value(b, s[j..k]) + Pow(b, k - j) * Value(b, s[k..]))
  {
    hide Value, Pow;
    ValueSplit(b, s, j);
    ValueSplit(b, s[j..], k - j);
    assert s[j..][..k - j] == s[j..k] && s[j..][k - j..] == s[k..];
  }

  lemma AccountArith(total: int, a: int, w: int, c: int, w': int, q: int, v: int, p: int, m: int, b: int, t: int)
    requires w' + q * v == w
    requires a + p * (w + m * c) + v * ((b * p) * t) == total
    ensures a + p * (w' + m * c) + v * (p * (q + b * t)) == total
  {
    MulDistrib(p, w' + m * c, q * v);
    MulAssoc(p, q, v);
    MulAssoc(v, p, q);
    MulDistrib(p, q, b * t);
    MulAssoc(p, b, t);
    MulDistrib(v, p * q, (b * p) * t);
  }

  lemma AccountStep(b: nat, total: nat, us: seq<nat>, us': seq<nat>, v: nat, n: nat, j: nat, q: nat, tail: seq<nat>)
    requires |us| == |us'| && j + n < |us|
    requires us'[..j] == us[..j] && us'[j + n + 1..] == us[j + n + 1..]
    requires Value(b, us'[j..j + n + 1]) + q * v == Value(b, us[j..j + n + 1])
    requires Accounted(b, total, us, v, j + 1, tail)
    ensures Accounted(b, total, us', v, j, [q] + tail)
  {
    hide Value;
    ThreeParts(b, us, j, j + n + 1);
    ThreeParts(b, us', j, j + n + 1);
    ValueSplit(b, [q] + tail, 1);
    ValueSingle(b, [q] + tail);
    assert ([q] + tail)[1..] == tail;
    AccountArith(total, Value(b, us[..j]), Value(b, us[j..j + n + 1]), Value(b, us[j + n + 1..]),
                 Value(b, us'[j..j + n + 1]),
                 q, v, Pow(b, j), Pow(b, n + 1), b, Value(b, tail));
  }

  /** A window whose upper n words are below the divisor is below b times the divisor. */
  lemma WindowBelow(b: nat, ws: seq<nat>, v: nat)
    requires |ws| > 0 && IsWords(b, ws) && Value(b, ws[1..]) < v
    ensures Value(b, ws) < v * b
  {
    ValueSplit(b, ws, 1);
    ValueSingle(b, ws);
    MulMonotone(Value(b, ws[1..]) + 1, v, b);
    MulDistrib(b, Value(b, ws[1..]), 1);
  }

  /** The main loop of Algorithm D on a normalised divisor. */
  method DivideDigits(b: nat, u: array<nat>, m: nat, v: array<nat>, n: nat, quotient: array<nat>)
    requires u != v && quotient != u && quotient != v && b > 0
    requires 2 <= n <= m < u.Length && n <= v.Length && m - n < quotient.Length
    requires IsWords(b, u[..]) && IsWords(b, v[..])
    requires (forall k :: n <= k < v.Length ==> v[k] == 0) && (forall k :: m < k < u.Length ==> u[k] == 0)
    requires 2 * v[n - 1] >= b && Value(b, u[m + 1 - n..m + 1]) < Value(b, v[..n])
    modifies u, quotient
    ensures IsWords(b, u[..]) && IsWords(b, quotient[..m - n + 1])
    ensures Value(b, u[..]) + Value(b, v[..n]) * Value(b, quotient[..m - n + 1]) == old(Value(b, u[..]))
    ensures Value(b, u[..]) < Value(b, v[..n]) && forall k :: n <= k < u.Length ==> u[k] == 0
    ensures forall k :: m - n < k < quotient.Length ==> quotient[k] == old(quotient[k])
  {
    hide Value, Pow, Accounted;
    ghost var total, d := Value(b, u[..]), Value(b, v[..n]);
    ghost var tail: seq<nat> := [];
    AccountStart(b, u[..], d, m + 1 - n);
    for i := m + 1 downto n
      invariant IsWords(b, u[..]) && IsWords(b, tail) && |tail| == m + 1 - i
      invariant forall k :: i <= k < u.Length ==> u[k] == 0
      invariant Value(b, u[i - n..i]) < d
      invariant Accounted(b, total, u[..], d, i - n, tail)
      invariant forall k :: i - n <= k <= m - n ==> quotient[k] == tail[k - (i - n)]
      invariant forall k :: m - n < k < quotient.Length ==> quotient[k] == old(quotient[k])
    {
      var lo := i - n;
      ghost var us := u[..];
      assert us[lo..lo + n + 1][1..] == u[lo + 1..i + 1];
      assert us[lo..lo + n + 1] == u[lo..lo + n + 1];
      WindowBelow(b, us[lo..lo + n + 1], d);
      var digit := DivideStep(b, u, lo, v, n);
      StepRestores(b, us, u[..], d, n, lo, digit, v[..n], total, tail);
      quotient[lo] := digit;
      tail := [digit] + tail;
    }
    assert quotient[..m - n + 1] == tail;
    AccountEnd(b, total, u[..], d, n, tail);
  }

  lemma AccountStart(b: nat, us: seq<nat>, v: nat, j: nat)
    ensures Accounted(b, Value(b, us), us, v, j, [])
  {
    assert Pow(b, j) * Value(b, []) == 0;
  }

  lemma AccountEnd(b: nat, total: nat, us: seq<nat>, v: nat, n: nat, tail: seq<nat>)
    requires Accounted(b, total, us, v, 0, tail) && n <= |us| && (forall k :: n <= k < |us| ==> us[k] == 0)
    requires Value(b, us[0..n]) < v
    ensures Value(b, us) + v * Value(b, tail) == total && Value(b, us) < v
  {
    assert us[0..n] == us[..n];
    ValueTrim(b, us, n);
    assert Pow(b, 0) * Value(b, tail) == Value(b, tail);
  }

  /** What one step re-establishes: words, a zero top word, a window below the divisor, and the account. */
  lemma StepRestores(b: nat, us: seq<nat>, us': seq<nat>, d: nat, n: nat, lo: nat, digit: nat, vs: seq<nat>,
                     total: nat, tail: seq<nat>)
    requires b > 0 && |us| == |us'| && lo + n < |us| && |vs| == n && IsWords(b, vs) && d == Value(b, vs)
    requires IsWords(b, us) && IsWords(b, us'[lo..lo + n + 1])
    requires forall k :: 0 <= k < |us| && !(lo <= k < lo + n + 1) ==> us'[k] == us[k]
    requires forall k :: lo + n + 1 <= k < |us| ==> us[k] == 0
    requires Value(b, us'[lo..lo + n + 1]) + digit * d == Value(b, us[lo..lo + n + 1])
             && Value(b, us'[lo..lo + n + 1]) < d
    requires Accounted(b, total, us, d, lo + 1, tail)
    ensures IsWords(b, us') && (forall k :: lo + n <= k < |us| ==> us'[k] == 0)
    ensures Value(b, us'[lo..lo + n]) < d
    ensures Accounted(b, total, us', d, lo, [digit] + tail)
  {
    hide Value, Accounted;
    var ws := us'[lo..lo + n + 1];
    forall k | 0 <= k < |us'| ensures us'[k] < b {
      if lo <= k < lo + n + 1 {
        assert us'[k] == ws[k - lo];
      } else {
        assert us'[k] == us[k];
      }
    }
    ValueBound(b, vs);
    ValueSmall(b, ws, n);
    assert ws[n] == us'[lo + n];
    assert ws[..n] == us'[lo..lo + n];
    assert us'[..lo] == us[..lo];
    assert us'[lo + n + 1..] == us[lo + n + 1..];
    AccountStep(b, total, us, us', d, n, lo, digit, tail);
  }

  // ----- normalisation -----

  function CountLeadingZeroes(w: nat, x: nat): (s: nat)
    requires 0 < x < Pow(2, w)
    ensures x * Pow(2, s) < Pow(2, w) <= 2 * (x * Pow(2, s))
    decreases Pow(2, w) - x
  {
    if 2 * x >= Pow(2, w) then 0
    else
      var s := CountLeadingZeroes(w, 2 * x);
      HalveShifted(x, s + 1);
      MulAssoc(2, x, Pow(2, s));
      s + 1
  }

  lemma LeadingZeroesBelow(w: nat, x: nat)
    requires 0 < x < Pow(2, w)
    ensures CountLeadingZeroes(w, x) < w
  {
    var s := CountLeadingZeroes(w, x);
    if s >= w {
      PowMonotone(2, w, s);
      MulMonotone(1, x, Pow(2, s));
    }
  }

  lemma NormalisingShift(w: nat, top: nat, s: nat)
    requires 0 < top < Pow(2, w) && s == CountLeadingZeroes(w, top)
    ensures s < w
    ensures Normalises(Pow(2, w), top, Pow(2, s), Pow(2, w - s))
  {
    assert s < w by {
      LeadingZeroesBelow(w, top);
    }
    assert top * Pow(2, s) < Pow(2, w) <= 2 * (top * Pow(2, s));
    hide CountLeadingZeroes;
    PowPositive(2, s);
    assert 2 <= Pow(2, w - s) by {
      PowPositive(2, w - s - 1);
    }
    PowAdd(2, s, w - s);
  }

  lemma PowEven(w: nat)
    requires w > 0
    ensures Pow(2, w) % 2 == 0
  {
  }

  /** The factor m moves the top word to the left edge of the word: top * m has its top bit set and fits. */
  ghost predicate Normalises(b: nat, top: nat, m: nat, d: nat)
  {
    0 < m && 2 <= d && b == m * d && top * m < b <= 2 * (top * m)
  }

  /** Shifting the top word to the left edge loses no bits of the divisor and sets its top bit. */
  lemma NormalisedDivisor(b: nat, m: nat, d: nat, vs: seq<nat>, n: nat, vs': seq<nat>)
    requires 1 <= n <= |vs| == |vs'| && IsWords(b, vs) && IsWords(b, vs')
    requires (forall k :: n <= k < |vs| ==> vs[k] == 0) && Normalises(b, vs[n - 1], m, d) && b % 2 == 0
    requires Pow(b, |vs|) > 0 && Value(b, vs') == (Value(b, vs) * m) % Pow(b, |vs|)
    ensures Value(b, vs'[..n]) == Value(b, vs[..n]) * m
    ensures (forall k :: n <= k < |vs'| ==> vs'[k] == 0) && 2 * vs'[n - 1] >= b
  {
    hide Value, Pow;
    ValueTrim(b, vs, n);
    var v := Value(b, vs[..n]);
    TopScaled(b, m, d, vs[..n]);
    assert vs[..n][n - 1] == vs[n - 1];
    assert Value(b, vs') == v * m by {
      PowMonotone(b, n, |vs|);
      MulNonNegative(v, m);
      DivModUnique(v * m, Pow(b, |vs|), 0, v * m);
    }
    ValueSmall(b, vs', n);
    TopBit(b, vs'[..n]);
  }

  lemma TopScaled(b: nat, m: nat, d: nat, vs: seq<nat>)
    requires |vs| > 0 && IsWords(b, vs) && Normalises(b, vs[|vs| - 1], m, d)
    ensures Value(b, vs) * m < Pow(b, |vs|) && b * Pow(b, |vs| - 1) <= 2 * (Value(b, vs) * m)
  {
    var n := |vs| - 1;
    var p, t, v := Pow(b, n), vs[n], Value(b, vs);
    assert t * p <= v < (t + 1) * p by {
      ValueBound(b, vs[..n]);
      MulDistrib(p, t, 1);
    }
    assert (t + 1) * m <= b by {
      MulCancel(t, d, m);
      MulMonotone(t + 1, d, m);
    }
    TopScaledArith(t, v, p, m, b);
  }

  lemma TopScaledArith(t: nat, v: nat, p: nat, m: nat, b: nat)
    requires 0 < m && t * p <= v < (t + 1) * p && (t + 1) * m <= b <= 2 * (t * m)
    ensures v * m < b * p && b * p <= 2 * (v * m)
  {
    MulStrict(v, (t + 1) * p, m);
    MulAssoc(t + 1, p, m);
    MulAssoc(t + 1, m, p);
    MulMonotone((t + 1) * m, b, p);
    MulMonotone(t * p, v, m);
    MulAssoc(t, p, m);
    MulAssoc(t, m, p);
    MulMonotone(b, 2 * (t * m), p);
    MulAssoc(2, t * m, p);
  }

  lemma TopBit(b: nat, vs: seq<nat>)
    requires |vs| > 0 && IsWords(b, vs) && b % 2 == 0 && b > 0
    requires b * Pow(b, |vs| - 1) <= 2 * Value(b, vs)
    ensures 2 * vs[|vs| - 1] >= b
  {
    var n := |vs| - 1;
    var p, t := Pow(b, n), vs[n];
    ValueBound(b, vs[..n]);
    PowPositive(b, n);
    assert Value(b, vs) < (t + 1) * p by {
      MulDistrib(p, t, 1);
    }
    assert b * p < (2 * (t + 1)) * p by {
      MulAssoc(2, t + 1, p);
    }
    MulCancel(b, 2 * (t + 1), p);
  }

  /** The shifted dividend keeps its value; its top n words stay below the shifted divisor. */
  lemma NormalisedDividend(b: nat, p: nat, us: seq<nat>, m: nat, us': seq<nat>, n: nat, v: nat)
    requires 0 < p < b && 1 <= n <= m < |us| == |us'| && IsWords(b, us) && IsWords(b, us')
    requires (forall k :: m <= k < |us| ==> us[k] == 0) && Pow(b, n - 1) <= v
    requires Pow(b, |us|) > 0 && Value(b, us') == (Value(b, us) * p) % Pow(b, |us|)
    ensures Value(b, us') == Value(b, us) * p
    ensures forall k :: m < k < |us'| ==> us'[k] == 0
    ensures Value(b, us'[m + 1 - n..m + 1]) < v * p
  {
    hide Value;
    var u := Value(b, us);
    assert u * p < Pow(b, m) * p by {
      ValueTrim(b, us, m);
      ValueBound(b, us[..m]);
      MulStrict(u, Pow(b, m), p);
    }
    assert Pow(b, m) * p < Pow(b, m + 1) by {
      PowPositive(b, m);
      MulStrict(p, b, Pow(b, m));
    }
    hide Pow;
    assert Value(b, us') == u * p by {
      PowMonotone(b, m + 1, |us|);
      MulNonNegative(u, p);
      DivModUnique(u * p, Pow(b, |us|), 0, u * p);
    }
    ValueSmall(b, us', m + 1);
    TopWindow(b, us'[..m + 1], m + 1 - n, u, p, v, n, m);
    assert us'[..m + 1][m + 1 - n..] == us'[m + 1 - n..m + 1];
  }

  lemma TopWindow(b: nat, us: seq<nat>, j: nat, u: nat, p: nat, v: nat, n: nat, m: nat)
    requires j <= |us| && Value(b, us) == u * p && u * p < Pow(b, m) * p && 1 <= n && m == j + (n - 1)
    requires Pow(b, n - 1) <= v
    ensures Value(b, us[j..]) < v * p
  {
    hide Value, Pow;
    ValueSplit(b, us, j);
    var t := Value(b, us[j..]);
    if t >= v * p {
      PowAdd(b, j, n - 1);
      MulMonotone(Pow(b, n - 1), v, p);
      MulMonotone(Pow(b, n - 1) * p, t, Pow(b, j));
      MulAssoc(Pow(b, j), Pow(b, n - 1), p);
      assert false;
    }
  }

  // ----- the whole algorithm -----

  /** Undoing the normalising factor: the scaled division equation determines quotient and remainder. */
  lemma Unscale(u: nat, v: nat, q: nat, r: nat, p: nat)
    requires 0 < p && 0 < v && r + (v * p) * q == u * p && r < v * p
    ensures q == u / v && r / p == u % v
  {
    MulAssoc(v, p, q);
    MulAssoc(v, q, p);
    assert r == (u - v * q) * p by {
      MulDistrib(p, u, v * q);
    }
    var k := u - v * q;
    MulCancel(k, v, p);
    if k < 0 {
      MulMonotone(k, -1, p);
    }
    DivModUnique(u, v, q, k);
    DivModUnique(r, p, k, 0);
  }

  /** The operands as the callers prepare them: words, zero above their lengths, and a nonzero top divisor word. */
  ghost predicate Prepared(b: nat, us: seq<nat>, m: nat, vs: seq<nat>, n: nat)
  {
    && 2 <= n <= m < |us| && n <= |vs| && IsWords(b, us) && IsWords(b, vs)
    && (forall k :: m <= k < |us| ==> us[k] == 0) && (forall k :: n <= k < |vs| ==> vs[k] == 0)
    && vs[n - 1] != 0
  }

  lemma PreparedDivisor(b: nat, us: seq<nat>, m: nat, vs: seq<nat>, n: nat)
    requires Prepared(b, us, m, vs, n)
    ensures 0 < b && Value(b, vs) == Value(b, vs[..n]) && Pow(b, n - 1) <= Value(b, vs) && 0 < Value(b, vs)
  {
    hide Value;
    ValueTrim(b, vs, n);
    ValueTop(b, vs[..n]);
    PowPositive(b, n - 1);
    MulMonotone(1, vs[n - 1], Pow(b, n - 1));
  }

  /** D1: both operands scaled by the normalising shift. */
  method Normalise(w: nat, dividend: array<nat>, m: nat, divisor: array<nat>, n: nat) returns (shift: nat)
    requires dividend != divisor && Prepared(Pow(2, w), dividend[..], m, divisor[..], n)
    modifies dividend, divisor
    ensures shift < w && Pow(2, shift) > 0
    ensures IsWords(Pow(2, w), dividend[..]) && IsWords(Pow(2, w), divisor[..])
    ensures (forall k :: n <= k < divisor.Length ==> divisor[k] == 0)
            && (forall k :: m < k < dividend.Length ==> dividend[k] == 0)
    ensures Value(Pow(2, w), dividend[..]) == old(Value(Pow(2, w), dividend[..])) * Pow(2, shift)
    ensures Value(Pow(2, w), divisor[..n]) == old(Value(Pow(2, w), divisor[..])) * Pow(2, shift)
    ensures 2 * divisor[n - 1] >= Pow(2, w)
    ensures Value(Pow(2, w), dividend[m + 1 - n..m + 1]) < Value(Pow(2, w), divisor[..n])
  {
    hide Value, Pow, Shl, CountLeadingZeroes, Normalises;
    ghost var b, us, vs := Pow(2, w), dividend[..], divisor[..];
    shift := CountLeadingZeroes(w, divisor[n - 1]);
    NormalisingShift(w, vs[n - 1], shift);
    ShiftFits(w, shift, dividend.Length);
    ShiftFits(w, shift, divisor.Length);
    var u, v := Storage(dividend, 0, dividend.Length, false), Storage(divisor, 0, divisor.Length, false);
    assert u.Contents() == us && v.Contents() == vs;
    ShiftLeft(w, u, shift, u);
    assert v.Contents() == vs;
    ShiftLeft(w, v, shift, v);
    assert u.Contents() == dividend[..] && v.Contents() == divisor[..];
    PreparedDivisor(b, us, m, vs, n);
    PowEven(w);
    NormalisedDivisor(b, Pow(2, shift), Pow(2, w - shift), vs, n, divisor[..]);
    NormalisedDividend(b, Pow(2, shift), us, m, dividend[..], n, Value(b, vs));
    assert divisor[..][..n] == divisor[..n];
    assert dividend[..][m + 1 - n..m + 1] == dividend[m + 1 - n..m + 1];
  }

  lemma ShiftFits(w: nat, shift: nat, size: nat)
    requires shift < w && size > 0
    ensures shift <= size * w && 0 < Pow(2, shift) < Pow(2, w)
  {
    MulMonotone(1, size, w);
    PowMonotone(2, shift, w - 1);
    PowPositive(2, shift);
  }

  /** Knuth's Algorithm D: quotient and remainder of any dividend by any divisor of two words or more. */
  method DivModInternal(w: nat, dividend: array<nat>, divisor: array<nat>, quotient: array<nat>, remainder: array<nat>,
                        m: nat, n: nat, restoreRemainder: bool)
    requires dividend != divisor && dividend != quotient && dividend != remainder
    requires divisor != quotient && divisor != remainder && quotient != remainder
    requires Prepared(Pow(2, w), dividend[..], m, divisor[..], n)
    requires m - n < quotient.Length && (restoreRemainder ==> n <= remainder.Length)
    modifies dividend, divisor, quotient, remainder
    ensures old(Value(Pow(2, w), divisor[..])) > 0
    ensures IsWords(Pow(2, w), quotient[..])
    ensures Value(Pow(2, w), quotient[..]) == old(Value(Pow(2, w), dividend[..])) / old(Value(Pow(2, w), divisor[..]))
    ensures restoreRemainder ==>
      var size := Min(dividend.Length, remainder.Length);
      && IsWords(Pow(2, w), remainder[..size])
      && Value(Pow(2, w), remainder[..size]) == old(Value(Pow(2, w), dividend[..])) % old(Value(Pow(2, w), divisor[..]))
      && forall k :: size <= k < remainder.Length ==> remainder[k] == old(remainder[k])
    ensures !restoreRemainder ==> remainder[..] == old(remainder[..])
  {
    hide Value, Pow;
    var b := Pow(2, w);
    ghost var us, vs := dividend[..], divisor[..];
    PreparedDivisor(b, us, m, vs, n);
    ghost var u, v := Value(b, us), Value(b, vs);
    var shift := Normalise(w, dividend, m, divisor, n);
    DivideDigits(b, dividend, m, divisor, n, quotient);
    ghost var qs, rs := quotient[..m - n + 1], dividend[..];
    ghost var r := Value(b, rs);
    for i := m - n + 1 to quotient.Length
      modifies quotient
      invariant quotient[..m - n + 1] == qs
      invariant forall k :: m - n + 1 <= k < i ==> quotient[k] == 0
    {
      quotient[i] := 0;
    }
    assert quotient[..][..m - n + 1] == qs;
    ValueTrim(b, quotient[..], m - n + 1);
    Unscale(u, v, Value(b, qs), r, Pow(2, shift));
    if restoreRemainder {
      var size := Min(dividend.Length, remainder.Length);
      ValueTrim(b, rs, size);
      var x, y := Storage(dividend, 0, size, false), Storage(remainder, 0, size, false);
      assert dividend[..] == rs && x.Contents() == rs[..size];
      ShiftFits(w, shift, size);
      ShiftRight(w, x, shift, y);
      assert y.Contents() == remainder[..size];
      assert Value(b, remainder[..size]) == r / Pow(2, shift) == u % v;
    }
  }
}
