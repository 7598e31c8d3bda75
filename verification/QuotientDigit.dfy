/** The estimate of one quotient digit in Knuth's Algorithm D, on integers. */
module QuotientDigit {
  import opened Arithmetic
  import opened BigIntBase
  import opened BigIntMul

  /** Whether a digit times two divisor words exceeds three dividend words, said by the test on the remainder. */
  lemma TestMeaning(b: nat, qhat: nat, rhat: nat, v1: nat, v2: nat, high: nat, low: nat)
    requires qhat * v1 + rhat == high
    ensures WideMultiply(qhat, v2) > Dword(b, low, rhat) <==> WideMultiply(qhat, Dword(b, v2, v1)) > Dword(b, low, high)
  {
    MulDistrib(qhat, v2, b * v1);
    MulAssoc(qhat, b, v1);
    MulAssoc(b, qhat, v1);
    MulDistrib(b, qhat * v1, rhat);
  }

  lemma QuotientBounds(x: nat, y: nat)
    requires y > 0
    ensures (x / y) * y <= x < (x / y) * y + y && 0 <= x / y
  {
    DivModEquation(x, y);
  }

  /** The quotient of the top three dividend words by the top two divisor words. */
  ghost function ThreeByTwo(b: nat, high: nat, low: nat, v1: nat, v2: nat): (q: nat)
    requires b > 0 && v1 > 0
  {
    MulMonotone(1, v1, b);
    QuotientBounds(Dword(b, low, high), Dword(b, v2, v1));
    Dword(b, low, high) / Dword(b, v2, v1)
  }

  /** `div_mod_words`: a double word by a word. */
  function DivModWords(b: nat, low: nat, high: nat, divisor: nat): (r: (nat, nat))
    requires divisor > 0
    ensures WideMultiply(r.0, divisor) + r.1 == Dword(b, low, high) && r.1 < divisor
  {
    DivModEquation(Dword(b, low, high), divisor);
    (Dword(b, low, high) / divisor, Dword(b, low, high) % divisor)
  }

  /** The two-word estimate is never below the three-by-two quotient, and at most two above it. */
  lemma FirstEstimate(b: nat, high: nat, low: nat, v1: nat, v2: nat, q: nat, r: nat)
    requires low < b && v2 < b && 0 < v1 && 2 * v1 >= b && high < v1 * b
    requires WideMultiply(q, v1) + r == high && r < v1
    ensures ThreeByTwo(b, high, low, v1, v2) <= q < b
    ensures q <= ThreeByTwo(b, high, low, v1, v2) + 2
  {
    var x, y := Dword(b, low, high), Dword(b, v2, v1);
    MulMonotone(1, v1, b);
    QuotientBounds(x, y);
    var q3 := x / y;
    assert q3 <= q by {
      MulMonotone(b * v1, y, q3);
      MulAssoc(q3, v1, b);
      MulDistrib(b, high, 1);
      MulCancel(q3 * v1, high + 1, b);
      if q < q3 {
        MulMonotone(q + 1, q3, v1);
        MulDistrib(v1, q, 1);
      }
    }
    assert q < b by {
      MulCancel(q, b, v1);
    }
    if q > q3 + 2 {
      TwoBelow(b, high, low, v1, v2, q);
      MulMonotone(q3 + 1, q - 2, y);
      MulDistrib(y, q3, 1);
      assert false;
    }
  }

  lemma TwoBelow(b: nat, high: nat, low: nat, v1: nat, v2: nat, q: nat)
    requires v2 < b && 2 * v1 >= b && q * v1 <= high && 2 <= q < b
    ensures (q - 2) * Dword(b, v2, v1) <= Dword(b, low, high)
  {
    var y := Dword(b, v2, v1);
    calc {
      (q - 2) * y;
      { MulDistrib(y, q, 2); }
      q * y - 2 * y;
      { MulDistrib(q, v2, b * v1); MulAssoc(q, b, v1); MulAssoc(b, q, v1); }
      q * v2 + b * (q * v1) - 2 * v2 - 2 * (b * v1);
    }
    assert q * v2 <= b * b by {
      MulMonotone(q, b, v2);
      MulMonotone(v2, b, b);
    }
    MulAssoc(2, b, v1);
    MulAssoc(b, 2, v1);
    MulMonotone(b, 2 * v1, b);
    MulMonotone(q * v1, high, b);
  }

  /** D3: the digit estimate with its at most two corrections is exactly the three-by-two quotient. */
  method EstimateDigit(b: nat, un: nat, um: nat, ul: nat, v1: nat, v2: nat) returns (qhat: nat)
    requires un <= v1 < b && um < b && ul < b && v2 < b && 0 < v1 && 2 * v1 >= b
    ensures qhat < b
    ensures un == v1 ==> qhat == b - 1
    ensures un < v1 ==> qhat == ThreeByTwo(b, Dword(b, um, un), ul, v1, v2)
  {
    hide Dword, WideMultiply, ThreeByTwo, DivModWords;
    if un == v1 {
      return b - 1;
    }
    ghost var high := Dword(b, um, un);
    var estimate := DivModWords(b, um, un, v1);
    qhat := estimate.0;
    var rhat := estimate.1;
    HighBelow(b, un, um, v1);
    FirstEstimate(b, high, ul, v1, v2, qhat, rhat);
    TestDecides(b, high, ul, v1, v2, qhat, rhat);
    if WideMultiply(qhat, v2) > Dword(b, ul, rhat) {
      qhat := qhat - 1;
      var sum := AddWords(b, rhat, v1, false);
      rhat := sum.0;
      if !sum.1 {
        TestDecides(b, high, ul, v1, v2, qhat, rhat);
        if WideMultiply(qhat, v2) > Dword(b, ul, rhat) {
          qhat := qhat - 1;
        }
      } else {
        TestDecides(b, high, ul, v1, v2, qhat, rhat + b);
        LargeRemainder(b, qhat, v2, ul, rhat + b);
      }
    }
  }

  /** The test tells whether a candidate exceeds the three-by-two quotient. */
  lemma TestDecides(b: nat, high: nat, low: nat, v1: nat, v2: nat, qhat: nat, rhat: nat)
    requires b > 0 && v1 > 0 && WideMultiply(qhat, v1) + rhat == high
    ensures WideMultiply(qhat, v2) > Dword(b, low, rhat) <==> qhat > ThreeByTwo(b, high, low, v1, v2)
    ensures qhat > 0 ==> WideMultiply(qhat - 1, v1) + (rhat + v1) == high
  {
    var x, y := Dword(b, low, high), Dword(b, v2, v1);
    TestMeaning(b, qhat, rhat, v1, v2, high, low);
    MulMonotone(1, v1, b);
    QuotientBounds(x, y);
    var q := x / y;
    if qhat <= q {
      MulMonotone(qhat, q, y);
    } else {
      MulMonotone(q + 1, qhat, y);
      MulDistrib(y, q, 1);
    }
    MulDistrib(v1, qhat, 1);
  }

  lemma LargeRemainder(b: nat, qhat: nat, v2: nat, low: nat, rhat: nat)
    requires qhat < b && v2 < b && b <= rhat
    ensures WideMultiply(qhat, v2) <= Dword(b, low, rhat)
  {
    MulMonotone(qhat, b, v2);
    MulMonotone(v2, b, b);
    MulMonotone(b, rhat, b);
  }

  lemma HighBelow(b: nat, un: nat, um: nat, v1: nat)
    requires un < v1 && um < b
    ensures Dword(b, um, un) < v1 * b
  {
    MulMonotone(un + 1, v1, b);
    MulDistrib(b, un, 1);
  }

  /** The dividend window x3 * p + w0 and the divisor y2 * p + v0, cut below their top three and two words. */
  ghost predicate Windows(b: nat, p: nat, un: nat, um: nat, ul: nat, w0: nat, v1: nat, v2: nat, v0: nat, w: nat, v: nat)
  {
    && p > 0 && w0 < p && v0 < p
    && un < b && um < b && ul < b && v1 < b && v2 < b && 2 * v1 >= b && v1 > 0
    && w == Dword(p, w0, Dword(b, ul, Dword(b, um, un)))
    && v == Dword(p, v0, Dword(b, v2, v1))
    && v > 0 && w < v * b
  }

  lemma DwordBounds(b: nat, low: nat, high: nat)
    requires low < b
    ensures high * b <= Dword(b, low, high) < (high + 1) * b
  {
    MulDistrib(b, high, 1);
  }

  /** The top window word never exceeds the top divisor word. */
  lemma TopWord(b: nat, p: nat, un: nat, um: nat, ul: nat, w0: nat, v1: nat, v2: nat, v0: nat, w: nat, v: nat)
    requires Windows(b, p, un, um, ul, w0, v1, v2, v0, w, v)
    ensures un <= v1
  {
    hide Dword;
    var u2, x, y := Dword(b, um, un), Dword(b, ul, Dword(b, um, un)), Dword(b, v2, v1);
    DwordBounds(b, um, un);
    DwordBounds(b, ul, u2);
    DwordBounds(p, w0, x);
    DwordBounds(b, v2, v1);
    DwordBounds(p, v0, y);
    assert x < (v1 + 1) * b * b by {
      assert x * p < ((v1 + 1) * b * b) * p by {
        MulMonotone(v, (y + 1) * p, b);
        MulMonotone(y + 1, (v1 + 1) * b, p);
        MulMonotone((y + 1) * p, ((v1 + 1) * b) * p, b);
        MulAssoc((v1 + 1) * b, p, b);
        MulAssoc((v1 + 1) * b, b, p);
      }
      MulCancel(x, (v1 + 1) * b * b, p);
    }
    assert u2 < (v1 + 1) * b by {
      MulCancel(u2, (v1 + 1) * b, b);
    }
    MulCancel(un, v1 + 1, b);
  }

  lemma QuotientRange(w: nat, v: nat, lo: nat, hi: nat)
    requires v > 0 && lo * v <= w < (hi + 1) * v
    ensures lo <= w / v <= hi
  {
    QuotientBounds(w, v);
    var q := w / v;
    if q < lo {
      MulMonotone(q + 1, lo, v);
      MulDistrib(v, q, 1);
    }
    if q > hi {
      MulMonotone(hi + 1, q, v);
    }
  }

  /** Equal top words: the true digit is b - 1 or b - 2. */
  lemma EqualTopWords(b: nat, p: nat, un: nat, um: nat, ul: nat, w0: nat, v1: nat, v2: nat, v0: nat, w: nat, v: nat)
    requires Windows(b, p, un, um, ul, w0, v1, v2, v0, w, v) && un == v1
    ensures b - 2 <= w / v <= b - 1
  {
    hide Dword;
    var u2, x, y := Dword(b, um, un), Dword(b, ul, Dword(b, um, un)), Dword(b, v2, v1);
    DwordBounds(b, um, un);
    DwordBounds(b, ul, u2);
    DwordBounds(p, w0, x);
    DwordBounds(b, v2, v1);
    DwordBounds(p, v0, y);
    assert (b - 2) * v <= w by {
      assert (b - 2) * (v1 + 1) <= v1 * b by {
        MulDistrib(v1 + 1, b, 2);
        MulDistrib(b, v1, 1);
      }
      assert (b - 2) * (y + 1) <= (v1 * b) * b by {
        MulMonotone(y + 1, (v1 + 1) * b, b - 2);
        MulAssoc(b - 2, v1 + 1, b);
        MulMonotone((b - 2) * (v1 + 1), v1 * b, b);
      }
      assert (v1 * b) * b <= x by {
        MulMonotone(v1 * b, u2, b);
      }
      MulMonotone(v, (y + 1) * p, b - 2);
      MulAssoc(b - 2, y + 1, p);
      MulMonotone((b - 2) * (y + 1), x, p);
    }
    QuotientRange(w, v, b - 2, b - 1);
  }

  /** Below equality the three-by-two quotient is the true digit or one above it. */
  lemma ThreeByTwoBracket(b: nat, p: nat, un: nat, um: nat, ul: nat, w0: nat, v1: nat, v2: nat, v0: nat, w: nat, v: nat)
    requires Windows(b, p, un, um, ul, w0, v1, v2, v0, w, v) && un < v1
    ensures w / v <= ThreeByTwo(b, Dword(b, um, un), ul, v1, v2) <= w / v + 1
  {
    var u2, x, y := Dword(b, um, un), Dword(b, ul, Dword(b, um, un)), Dword(b, v2, v1);
    var q3 := ThreeByTwo(b, u2, ul, v1, v2);
    assert q3 * y <= x < q3 * y + y && y >= b by {
      MulMonotone(1, v1, b);
      QuotientBounds(x, y);
    }
    assert q3 < b by {
      HighBelow(b, un, um, v1);
      DivModEquation(u2, v1);
      FirstEstimate(b, u2, ul, v1, v2, u2 / v1, u2 % v1);
    }
    BracketArith(b, p, x, w0, w, y, v0, v, q3);
  }

  lemma BracketArith(b: nat, p: nat, x: nat, w0: nat, w: nat, y: nat, v0: nat, v: nat, q3: nat)
    requires p > 0 && w0 < p && v0 < p && v > 0 && q3 < b <= y
    requires w == Dword(p, w0, x) && v == Dword(p, v0, y)
    requires q3 * y <= x < q3 * y + y
    ensures w / v <= q3 <= w / v + 1
  {
    hide Dword;
    DwordBounds(p, w0, x);
    DwordBounds(p, v0, y);
    assert w < (q3 + 1) * v by {
      MulDistrib(y, q3, 1);
      MulMonotone(x + 1, (q3 + 1) * y, p);
      MulAssoc(q3 + 1, y, p);
      MulMonotone(y * p, v, q3 + 1);
    }
    if q3 > 0 {
      assert (q3 - 1) * v <= w by {
        MulDistrib(v, q3, 1);
        assert q3 * v <= w + v by {
          MulMonotone(v, (y + 1) * p, q3);
          MulAssoc(q3, y + 1, p);
          MulDistrib(q3, y, 1);
          MulMonotone(q3 * (y + 1), x + q3, p);
          MulDistrib(p, x, q3);
          MulMonotone(q3, y, p);
        }
      }
      QuotientRange(w, v, q3 - 1, q3);
    } else {
      QuotientRange(w, v, 0, 0);
    }
  }
}
