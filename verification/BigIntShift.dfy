/** In-place shifts of word arrays by any number of bits, and the integers they produce. */
module BigIntShift {
  import opened Arithmetic
  import opened Bits
  import opened Words
  import opened BigIntBase

  /** A word of `shift_left`: the low part of `x` moved up, joined with the top `rem` bits of its lower neighbour. */
  function ShlWord(w: nat, rem: nat, x: nat, lower: nat): (r: nat)
    requires rem <= w
  {
    PowPositive(2, w);
    PowPositive(2, w - rem);
    Or((x * Pow(2, rem)) % Pow(2, w), lower / Pow(2, w - rem))
  }

  /** A word of `shift_right`: `x` moved down, joined with the low `rem` bits of its upper neighbour. */
  function ShrWord(w: nat, rem: nat, x: nat, upper: nat): (r: nat)
    requires rem <= w
  {
    PowPositive(2, w);
    PowPositive(2, rem);
    Or(x / Pow(2, rem), (upper * Pow(2, w - rem)) % Pow(2, w))
  }

  /** Splitting x at bit w - rem: x * m == (x / d) * (m * d) + (x % d) * m. */
  lemma SplitWord(x: nat, m: nat, d: nat)
    requires m > 0 && d > 0
    ensures x * m == (x / d) * (m * d) + (x % d) * m
    ensures (x % d) * m < m * d
    ensures (x * m) % (m * d) == (x % d) * m
  {
    DivModEquation(x, d);
    calc {
      x * m;
      ((x / d) * d + x % d) * m;
      { MulDistrib(m, (x / d) * d, x % d); MulAssoc(x / d, d, m); }
      (x / d) * (m * d) + (x % d) * m;
    }
    MulStrict(x % d, d, m);
    DivModUnique(x * m, m * d, x / d, (x % d) * m);
  }

  lemma ShlWordValue(w: nat, rem: nat, x: nat, lower: nat)
    requires rem <= w && x < Pow(2, w) && lower < Pow(2, w)
    ensures Pow(2, w - rem) > 0
    ensures ShlWord(w, rem, x, lower) < Pow(2, w)
    ensures ShlWord(w, rem, x, lower) + (x / Pow(2, w - rem)) * Pow(2, w) == Pow(2, rem) * x + lower / Pow(2, w - rem)
  {
    var m, d := Pow(2, rem), Pow(2, w - rem);
    PowPositive(2, rem);
    PowPositive(2, w - rem);
    PowAdd(2, rem, w - rem);
    SplitWord(x, m, d);
    DivBound(lower, d, m);
    OrDisjoint(x % d, lower / d, rem);
    MulStrict(x % d, d, m);
  }

  lemma ShrWordValue(w: nat, rem: nat, x: nat, upper: nat)
    requires rem <= w && x < Pow(2, w) && upper < Pow(2, w)
    ensures Pow(2, rem) > 0
    ensures ShrWord(w, rem, x, upper) < Pow(2, w)
    ensures Pow(2, rem) * ShrWord(w, rem, x, upper) + x % Pow(2, rem) == x + (upper % Pow(2, rem)) * Pow(2, w)
  {
    hide Pow, Or;
    var m, d := Pow(2, rem), Pow(2, w - rem);
    PowPositive(2, rem);
    PowPositive(2, w - rem);
    assert Pow(2, w) == m * d == d * m by {
      PowAdd(2, rem, w - rem);
    }
    var q, u := x / m, upper % m;
    assert x == q * m + x % m && 0 <= q && 0 <= u < m by {
      DivModEquation(x, m);
      DivModEquation(upper, m);
    }
    assert ShrWord(w, rem, x, upper) == q + u * d by {
      assert (upper * d) % Pow(2, w) == u * d by {
        SplitWord(upper, d, m);
      }
      DivBound(x, m, d);
      MulNonNegative(u, d);
      OrDisjoint(u, q, w - rem);
      OrSymmetric(q, u * d);
    }
    assert q + u * d < Pow(2, w) by {
      DivBound(x, m, d);
      MulStrict(u, m, d);
    }
    ShrArith(x, q, x % m, u, m, d);
  }

  lemma ShrArith(x: int, q: int, r: int, u: int, m: int, d: int)
    requires x == q * m + r
    ensures m * (q + u * d) + r == x + u * (m * d)
  {
    MulDistrib(m, q, u * d);
    MulAssoc(m, u, d);
    MulAssoc(u, m, d);
  }

  function ShlAt(w: nat, s: seq<nat>, offset: nat, rem: nat, i: nat): (word: nat)
    requires rem <= w && i < |s|
  {
    if i < offset then 0
    else ShlWord(w, rem, s[i - offset], if i == offset then 0 else s[i - offset - 1])
  }

  function ShrAt(w: nat, s: seq<nat>, offset: nat, rem: nat, i: nat): (word: nat)
    requires rem <= w && i < |s|
  {
    if i + offset >= |s| then 0
    else ShrWord(w, rem, s[i + offset], if i + offset + 1 == |s| then 0 else s[i + offset + 1])
  }

  /** The words after `shift_left` by offset words and rem bits. */
  ghost function Shl(w: nat, s: seq<nat>, offset: nat, rem: nat): (t: seq<nat>)
    requires rem <= w
    ensures |t| == |s| && forall i :: 0 <= i < |s| ==> t[i] == ShlAt(w, s, offset, rem, i)
  {
    seq(|s|, i requires 0 <= i < |s| => ShlAt(w, s, offset, rem, i))
  }

  /** The words after `shift_right` by offset words and rem bits. */
  ghost function Shr(w: nat, s: seq<nat>, offset: nat, rem: nat): (t: seq<nat>)
    requires rem <= w
    ensures |t| == |s| && forall i :: 0 <= i < |s| ==> t[i] == ShrAt(w, s, offset, rem, i)
  {
    seq(|s|, i requires 0 <= i < |s| => ShrAt(w, s, offset, rem, i))
  }

  lemma CarryUp(t: int, v: int, m: int, c: int, c': int, word: int, x: int, b: int, p: int)
    requires t + c * p == m * v
    requires word + c' * b == m * x + c
    ensures t + word * p + c' * (b * p) == m * (v + x * p)
  {
    calc {
      t + word * p + c' * (b * p);
      { MulAssoc(c', b, p); MulDistrib(p, word, c' * b); }
      t + (word + c' * b) * p;
      { MulDistrib(p, m * x, c); MulAssoc(m, x, p); }
      m * v + m * (x * p);
      { MulDistrib(m, v, x * p); }
      m * (v + x * p);
    }
  }

  /** The bits shifted out of word n - 1. */
  ghost function ShlCarry(w: nat, rem: nat, s: seq<nat>, n: nat): (c: nat)
    requires rem <= w && n <= |s|
  {
    PowPositive(2, w - rem);
    if n == 0 then 0 else s[n - 1] / Pow(2, w - rem)
  }

  /** Shifting by fewer bits than a word multiplies the first n words by 2^rem, up to the bits shifted out. */
  lemma {:induction false} ShlSmall(w: nat, s: seq<nat>, rem: nat, n: nat)
    requires rem <= w && n <= |s| && IsWords(Pow(2, w), s)
    ensures IsWords(Pow(2, w), Shl(w, s, 0, rem)[..n])
    ensures Value(Pow(2, w), Shl(w, s, 0, rem)[..n]) + ShlCarry(w, rem, s, n) * Pow(Pow(2, w), n)
         == Pow(2, rem) * Value(Pow(2, w), s[..n])
  {
    hide Value, Pow, ShlWord, Shl;
    var b := Pow(2, w);
    var t := Shl(w, s, 0, rem);
    if n == 0 {
      NoWords(b, s);
      NoWords(b, t);
    } else {
      ShlSmall(w, s, rem, n - 1);
      var lower := if n == 1 then 0 else s[n - 2];
      PowPositive(2, w);
      ShlWordValue(w, rem, s[n - 1], lower);
      assert t[n - 1] == ShlAt(w, s, 0, rem, n - 1) == ShlWord(w, rem, s[n - 1], lower);
      ShlCarried(w, rem, s, n - 1);
      OneMorePower(b, n);
      ValuePrefix(b, t, n - 1);
      ValuePrefix(b, s, n - 1);
      CarryUp(Value(b, t[..n - 1]), Value(b, s[..n - 1]), Pow(2, rem), ShlCarry(w, rem, s, n - 1),
              ShlCarry(w, rem, s, n), t[n - 1], s[n - 1], b, Pow(b, n - 1));
    }
  }

  lemma ShlCarried(w: nat, rem: nat, s: seq<nat>, n: nat)
    requires rem <= w && n <= |s|
    ensures Pow(2, w - rem) > 0
    ensures (if n == 0 then 0 else s[n - 1]) / Pow(2, w - rem) == ShlCarry(w, rem, s, n)
  {
    PowPositive(2, w - rem);
    DivModUnique(0, Pow(2, w - rem), 0, 0);
  }

  /** A shift by whole words and bits is the small shift of the low words, above zero words. */
  lemma ShlDecompose(w: nat, s: seq<nat>, offset: nat, rem: nat)
    requires rem <= w && offset <= |s| && IsWords(Pow(2, w), s)
    ensures var t := Shl(w, s[..|s| - offset], 0, rem);
      && IsWords(Pow(2, w), Shl(w, s, offset, rem))
      && Value(Pow(2, w), Shl(w, s, offset, rem)) == Pow(Pow(2, w), offset) * Value(Pow(2, w), t)
  {
    hide Value, Pow, ShlWord, Shl;
    var b, low, r := Pow(2, w), s[..|s| - offset], Shl(w, s, offset, rem);
    var t := Shl(w, low, 0, rem);
    PowPositive(2, w);
    ShlSmall(w, low, rem, |low|);
    assert t[..|low|] == t;
    forall i | 0 <= i < offset ensures r[i] == 0 {
      assert r[i] == ShlAt(w, s, offset, rem, i);
    }
    forall i | 0 <= i < |t| ensures r[offset + i] == t[i] {
      assert r[offset + i] == ShlAt(w, s, offset, rem, offset + i);
      assert t[i] == ShlAt(w, low, 0, rem, i);
    }
    assert r == r[..offset] + t;
    ValueConcat(b, r[..offset], t);
    ValueZeros(b, r[..offset]);
  }

  /** `shift_left` multiplies by 2^shift modulo the size of the storage. */
  lemma ShlValue(w: nat, s: seq<nat>, offset: nat, rem: nat)
    requires rem <= w && offset <= |s| && IsWords(Pow(2, w), s)
    ensures IsWords(Pow(2, w), Shl(w, s, offset, rem))
    ensures Pow(Pow(2, w), |s|) > 0
    ensures Value(Pow(2, w), Shl(w, s, offset, rem)) == (Value(Pow(2, w), s) * Pow(2, offset * w + rem))
            % Pow(Pow(2, w), |s|)
  {
    hide Value, Pow, Shl, ShlCarry;
    MulNonNegative(offset, w);
    var b, n := Pow(2, w), |s| - offset;
    var low, high := s[..n], s[n..];
    var t := Shl(w, low, 0, rem);
    var r := Pow(b, offset) * Value(b, t);
    var out := ShlCarry(w, rem, low, n);
    ShlDecompose(w, s, offset, rem);
    assert r < Pow(b, |s|) by {
      ValueBound(b, Shl(w, s, offset, rem));
    }
    assert Value(b, t) + out * Pow(b, n) == Pow(2, rem) * Value(b, low) by {
      ShlSmall(w, low, rem, n);
      assert t[..n] == t && low[..n] == low;
    }
    assert Value(b, s) * Pow(2, offset * w + rem) == (Value(b, high) * Pow(2, rem) + out) * Pow(b, |s|) + r by {
      ValueSplit(b, s, n);
      PowAdd(b, offset, n);
      ShiftMultiplier(w, offset, rem);
      ShlArith(Value(b, s), Value(b, low), Value(b, high), Value(b, t), out, Pow(2, rem), Pow(b, offset), Pow(b, n));
    }
    DivModUnique(Value(b, s) * Pow(2, offset * w + rem), Pow(b, |s|), Value(b, high) * Pow(2, rem) + out, r);
  }

  lemma ShiftMultiplier(w: nat, offset: nat, rem: nat)
    ensures Pow(2, offset * w + rem) == Pow(Pow(2, w), offset) * Pow(2, rem)
  {
    PowAdd(2, offset * w, rem);
    PowMul(2, w, offset);
  }

  lemma ShlArith(v: int, l: int, h: int, t: int, c: int, m: int, po: int, pn: int)
    requires v == l + pn * h
    requires t + c * pn == m * l
    ensures v * (po * m) == (h * m + c) * (po * pn) + po * t
  {
    calc {
      v * (po * m);
      (l + pn * h) * (po * m);
      { MulDistrib(po * m, l, pn * h); }
      l * (po * m) + (pn * h) * (po * m);
      { MulAssoc(l, po, m); MulAssoc(po, l, m); MulAssoc(po, m, l); }
      po * (m * l) + (pn * h) * (po * m);
      po * (t + c * pn) + (pn * h) * (po * m);
      { MulDistrib(po, t, c * pn); }
      po * t + po * (c * pn) + (pn * h) * (po * m);
      { ShuffleFour(pn, h, po, m); MulAssoc(po, c, pn); MulAssoc(c, po, pn); }
      po * t + c * (po * pn) + (h * m) * (po * pn);
      { MulDistrib(po * pn, h * m, c); }
      (h * m + c) * (po * pn) + po * t;
    }
  }

  lemma ShuffleFour(x: int, h: int, y: int, m: int)
    ensures (x * h) * (y * m) == (h * m) * (y * x)
  {
    calc {
      (x * h) * (y * m);
      { MulAssoc(x * h, y, m); }
      ((x * h) * y) * m;
      { MulAssoc(h, x, y); }
      (h * (y * x)) * m;
      { MulAssoc(h, y * x, m); MulAssoc(h, m, y * x); }
      (h * m) * (y * x);
    }
  }

  lemma CarryDown(t: int, v: int, m: int, c: int, c': int, c0: int, word: int, x: int, b: int, p: int)
    requires m * t + c0 == v + c * p
    requires m * word + c == x + c' * b
    ensures m * (t + word * p) + c0 == v + x * p + c' * (b * p)
  {
    calc {
      m * (t + word * p) + c0;
      { MulDistrib(m, t, word * p); MulAssoc(m, word, p); }
      v + c * p + (m * word) * p;
      { MulDistrib(p, c, m * word); }
      v + (m * word + c) * p;
      { MulDistrib(p, x, c' * b); MulAssoc(c', b, p); }
      v + x * p + c' * (b * p);
    }
  }

  /** The low bits of word n, which a right shift hands to word n - 1. */
  ghost function ShrCarry(rem: nat, s: seq<nat>, n: nat): (c: nat)
    requires n <= |s|
  {
    PowPositive(2, rem);
    (if n == |s| then 0 else s[n]) % Pow(2, rem)
  }

  lemma {:induction false} ShrSmall(w: nat, s: seq<nat>, rem: nat, n: nat)
    requires rem <= w && n <= |s| && IsWords(Pow(2, w), s)
    ensures IsWords(Pow(2, w), Shr(w, s, 0, rem)[..n])
    ensures Pow(2, rem) * Value(Pow(2, w), Shr(w, s, 0, rem)[..n]) + ShrCarry(rem, s, 0)
         == Value(Pow(2, w), s[..n]) + ShrCarry(rem, s, n) * Pow(Pow(2, w), n)
  {
    hide Value, Pow, ShrWord, Shr;
    var b := Pow(2, w);
    var t := Shr(w, s, 0, rem);
    if n == 0 {
      NoWords(b, s);
      NoWords(b, t);
    } else {
      ShrSmall(w, s, rem, n - 1);
      var upper := if n == |s| then 0 else s[n];
      PowPositive(2, w);
      ShrWordValue(w, rem, s[n - 1], upper);
      assert t[n - 1] == ShrAt(w, s, 0, rem, n - 1) == ShrWord(w, rem, s[n - 1], upper);
      assert upper % Pow(2, rem) == ShrCarry(rem, s, n);
      OneMorePower(b, n);
      ValuePrefix(b, t, n - 1);
      ValuePrefix(b, s, n - 1);
      CarryDown(Value(b, t[..n - 1]), Value(b, s[..n - 1]), Pow(2, rem), ShrCarry(rem, s, n - 1), ShrCarry(rem, s, n),
                ShrCarry(rem, s, 0), t[n - 1], s[n - 1], b, Pow(b, n - 1));
    }
  }

  lemma ShrDecompose(w: nat, s: seq<nat>, offset: nat, rem: nat)
    requires rem <= w && offset <= |s| && IsWords(Pow(2, w), s)
    ensures IsWords(Pow(2, w), Shr(w, s, offset, rem))
    ensures Value(Pow(2, w), Shr(w, s, offset, rem)) == Value(Pow(2, w), Shr(w, s[offset..], 0, rem))
  {
    var b, high, r := Pow(2, w), s[offset..], Shr(w, s, offset, rem);
    var t, n := Shr(w, high, 0, rem), |s| - offset;
    assert 0 < b && IsWords(b, t) by {
      PowPositive(2, w);
      ShrSmall(w, high, rem, |high|);
      assert t[..|high|] == t;
    }
    forall i | 0 <= i < n ensures r[i] == t[i] {
      assert r[i] == ShrAt(w, s, offset, rem, i);
      assert t[i] == ShrAt(w, high, 0, rem, i);
    }
    assert r[..n] == t;
    forall i | n <= i < |s| ensures r[i] == 0 {
      assert r[i] == ShrAt(w, s, offset, rem, i);
    }
    ValueTrim(b, r, n);
    assert IsWords(b, r) by {
      assert forall i :: 0 <= i < n ==> r[i] == t[i];
    }
  }

  lemma DivTwice(v: nat, l: nat, h: nat, t: nat, c: nat, m: nat, po: nat)
    requires v == l + po * h && l < po && 0 < m && c < m
    requires m * t + c == h
    ensures 0 < po * m && v / (po * m) == t
  {
    MulMonotone(1, m, po);
    assert po * h == t * (po * m) + po * c by {
      MulDistrib(po, m * t, c);
      MulAssoc(po, m, t);
    }
    MulNonNegative(po, c);
    assert l + po * c < po * m by {
      MulMonotone(c + 1, m, po);
      MulDistrib(po, c, 1);
    }
    DivModUnique(v, po * m, t, l + po * c);
  }

  /** `shift_right` divides by 2^shift. */
  lemma ShrValue(w: nat, s: seq<nat>, offset: nat, rem: nat)
    requires rem <= w && offset <= |s| && IsWords(Pow(2, w), s)
    ensures IsWords(Pow(2, w), Shr(w, s, offset, rem))
    ensures Pow(2, offset * w + rem) > 0
    ensures Value(Pow(2, w), Shr(w, s, offset, rem)) == Value(Pow(2, w), s) / Pow(2, offset * w + rem)
  {
    hide Value, Shr;
    MulNonNegative(offset, w);
    var b, high := Pow(2, w), s[offset..];
    var t := Shr(w, high, 0, rem);
    PowPositive(2, rem);
    ShrDecompose(w, s, offset, rem);
    assert Pow(2, rem) * Value(b, t) + ShrCarry(rem, high, 0) == Value(b, high) by {
      ShrSmall(w, high, rem, |high|);
      assert t[..|high|] == t && high[..|high|] == high;
      DivModUnique(0, Pow(2, rem), 0, 0);
    }
    assert Value(b, s[..offset]) < Pow(b, offset) by {
      ValueBound(b, s[..offset]);
    }
    ValueSplit(b, s, offset);
    ShiftMultiplier(w, offset, rem);
    DivTwice(Value(b, s), Value(b, s[..offset]), Value(b, high), Value(b, t), ShrCarry(rem, high, 0), Pow(2, rem),
             Pow(b, offset));
  }

  /** The storage requirement of both shifts, relaxed to admit a shift by the whole storage. */
  ghost predicate Shiftable(w: nat, x: Storage, offset: nat, rem: nat, r: Storage)
    reads x.data
  {
    && rem < w && x.Valid(Pow(2, w)) && x.size == r.size
    && (if rem == 0 then offset <= x.size else offset < x.size)
    && r.offset + r.size <= r.data.Length && (r.isSigned ==> r.size > 0) && Aligned(x, r)
  }

  lemma ShiftParts(w: nat, n: nat, shift: nat)
    requires w > 0 && shift <= n * w
    ensures shift == (shift / w) * w + shift % w && shift % w < w
    ensures shift % w == 0 ==> shift / w <= n
    ensures shift % w != 0 ==> shift / w < n
  {
    DivModEquation(shift, w);
    if n < shift / w {
      MulStrict(n, shift / w, w);
    }
  }

  /** The written forms of a result word: a plain move, the lowest shifted word, and the general case. */
  lemma ShlWordCases(w: nat, x: nat, lower: nat)
    requires x < Pow(2, w) && lower < Pow(2, w)
    ensures ShlWord(w, 0, x, lower) == x
    ensures forall rem :: 0 <= rem <= w ==> ShlWord(w, rem, x, 0) == (x * Pow(2, rem)) % Pow(2, w)
  {
    hide Pow, ShlWord;
    ShlWordMoved(w, x, lower);
    forall rem | 0 <= rem <= w ensures ShlWord(w, rem, x, 0) == (x * Pow(2, rem)) % Pow(2, w) {
      ShlWordLowest(w, rem, x);
    }
  }

  lemma ShlWordMoved(w: nat, x: nat, lower: nat)
    requires x < Pow(2, w) && lower < Pow(2, w)
    ensures ShlWord(w, 0, x, lower) == x
  {
    hide Pow, Or;
    NoPower(2);
    PowPositive(2, w);
    DivModUnique(x, Pow(2, w), 0, x);
    DivModUnique(lower, Pow(2, w), 0, lower);
    OrZero(x);
  }

  lemma ShlWordLowest(w: nat, rem: nat, x: nat)
    requires rem <= w && x < Pow(2, w)
    ensures Pow(2, w) > 0 && ShlWord(w, rem, x, 0) == (x * Pow(2, rem)) % Pow(2, w)
  {
    hide Pow, Or;
    PowPositive(2, w);
    PowPositive(2, w - rem);
    DivModUnique(0, Pow(2, w - rem), 0, 0);
    MulNonNegative(x, Pow(2, rem));
    OrZero((x * Pow(2, rem)) % Pow(2, w));
  }

  lemma ShrWordCases(w: nat, x: nat, upper: nat)
    requires x < Pow(2, w) && upper < Pow(2, w)
    ensures ShrWord(w, 0, x, upper) == x
    ensures forall rem :: 0 <= rem <= w ==> Pow(2, rem) > 0 && ShrWord(w, rem, x, 0) == x / Pow(2, rem)
  {
    PowPositive(2, w);
    ShrWordValue(w, 0, x, upper);
    assert Pow(2, 0) == 1 && x % 1 == 0 && upper % 1 == 0;
    assert ShrWord(w, 0, x, upper) == x;
    hide Pow;
    forall rem | 0 <= rem <= w ensures Pow(2, rem) > 0 && ShrWord(w, rem, x, 0) == x / Pow(2, rem) {
      PowPositive(2, rem);
      DivModUnique(0, Pow(2, w), 0, 0);
      DivModEquation(x, Pow(2, rem));
      OrZero(x / Pow(2, rem));
    }
  }

  /** The word that the loop of shift_left writes: its three forms. */
  function ShlWritten(w: nat, rem: nat, word: nat, lower: nat, lowest: bool): (r: nat)
    requires rem <= w && word < Pow(2, w) && lower < Pow(2, w) && (lowest ==> lower == 0)
    ensures r == ShlWord(w, rem, word, lower)
  {
    ShlWordCases(w, word, lower);
    if rem == 0 then word
    else if lowest then (word * Pow(2, rem)) % Pow(2, w)
    else ShlWord(w, rem, word, lower)
  }

  function ShrWritten(w: nat, rem: nat, word: nat, upper: nat, highest: bool): (r: nat)
    requires rem <= w && word < Pow(2, w) && upper < Pow(2, w) && (highest ==> upper == 0)
    ensures r == ShrWord(w, rem, word, upper)
  {
    ShrWordCases(w, word, upper);
    if rem == 0 then word
    else if highest then
      PowPositive(2, rem);
      word / Pow(2, rem)
    else ShrWord(w, rem, word, upper)
  }

  /** The words that are shifted out of are cleared. */
  method ClearWords(r: Storage, from: nat, to: nat)
    requires from <= to <= r.size && r.offset + r.size <= r.data.Length
    modifies r.data
    ensures forall k :: r.offset + from <= k < r.offset + to ==> r.data[k] == 0
    ensures forall k :: 0 <= k < r.data.Length && !(r.offset + from <= k < r.offset + to) ==>
              r.data[k] == old(r.data[k])
  {
    for j := from to to
      invariant forall k :: r.offset + from <= k < r.offset + j ==> r.data[k] == 0
      invariant forall k :: 0 <= k < r.data.Length && !(r.offset + from <= k < r.offset + j) ==>
                  r.data[k] == old(r.data[k])
    {
      r.data[r.offset + j] := 0;
    }
  }

  /** The descending loop of shift_left. */
  method MoveUp(w: nat, x: Storage, offset: nat, rem: nat, r: Storage)
    requires Shiftable(w, x, offset, rem, r)
    modifies r.data
    ensures forall k :: r.offset + offset <= k < r.offset + r.size ==>
              r.data[k] == Shl(w, old(x.Contents()), offset, rem)[k - r.offset]
    ensures forall k :: 0 <= k < r.data.Length && !(r.offset + offset <= k < r.offset + r.size) ==>
              r.data[k] == old(r.data[k])
  {
    hide ShlWord, Shl, ShlWritten, Pow;
    ghost var s := x.Contents();
    ghost var t := Shl(w, s, offset, rem);
    PowPositive(2, w);
    var i := x.size;
    while i > offset
      invariant offset <= i <= x.size
      invariant forall k :: r.offset + i <= k < r.offset + x.size ==> r.data[k] == t[k - r.offset]
      invariant forall k :: 0 <= k < r.data.Length && !(r.offset + i <= k < r.offset + x.size) ==>
                r.data[k] == old(r.data[k])
    {
      i := i - 1;
      var word := x.data[x.offset + i - offset];
      var lower := if i == offset then 0 else x.data[x.offset + i - offset - 1];
      assert word == s[i - offset] && (i > offset ==> lower == s[i - offset - 1]);
      assert t[i] == ShlAt(w, s, offset, rem, i) == ShlWord(w, rem, word, lower);
      r.data[r.offset + i] := ShlWritten(w, rem, word, lower, i == offset);
    }
  }

  method ShiftLeftBy(w: nat, x: Storage, offset: nat, rem: nat, r: Storage)
    requires Shiftable(w, x, offset, rem, r)
    modifies r.data
    ensures forall k :: 0 <= k < r.data.Length && !(r.offset <= k < r.offset + r.size) ==> r.data[k] == old(r.data[k])
    ensures r.Contents() == Shl(w, old(x.Contents()), offset, rem)
  {
    hide ShlWord, Shl, Pow;
    ghost var t := Shl(w, x.Contents(), offset, rem);
    MoveUp(w, x, offset, rem, r);
    ClearWords(r, 0, offset);
    forall k | 0 <= k < r.size ensures r.data[r.offset + k] == t[k] {
      assert t[k] == ShlAt(w, old(x.Contents()), offset, rem, k);
    }
    assert r.Contents() == t;
  }

  method ShiftLeft(w: nat, x: Storage, shift: nat, r: Storage)
    requires w > 0 && shift <= x.size * w && Shiftable(w, x, 0, 0, r)
    modifies r.data
    ensures r.Valid(Pow(2, w))
    ensures forall k :: 0 <= k < r.data.Length && !(r.offset <= k < r.offset + r.size) ==> r.data[k] == old(r.data[k])
    ensures r.Contents() == Shl(w, old(x.Contents()), shift / w, shift % w)
    ensures Pow(Pow(2, w), r.size) > 0
    ensures Value(Pow(2, w), r.Contents())
         == (old(Value(Pow(2, w), x.Contents())) * Pow(2, shift)) % Pow(Pow(2, w), r.size)
  {
    hide Pow, Value, Shl;
    ShiftParts(w, x.size, shift);
    ShlValue(w, x.Contents(), shift / w, shift % w);
    ShiftLeftBy(w, x, shift / w, shift % w, r);
  }

  /** The ascending loop of shift_right. */
  method MoveDown(w: nat, x: Storage, offset: nat, rem: nat, r: Storage)
    requires Shiftable(w, x, offset, rem, r)
    modifies r.data
    ensures forall k :: r.offset <= k < r.offset + r.size - offset ==>
              r.data[k] == Shr(w, old(x.Contents()), offset, rem)[k - r.offset]
    ensures forall k :: 0 <= k < r.data.Length && !(r.offset <= k < r.offset + r.size - offset) ==>
              r.data[k] == old(r.data[k])
  {
    hide ShrWord, Shr, ShrWritten, Pow;
    ghost var s := x.Contents();
    ghost var t := Shr(w, s, offset, rem);
    PowPositive(2, w);
    var kept := x.size - offset;
    for i := 0 to kept
      invariant forall k :: r.offset <= k < r.offset + i ==> r.data[k] == t[k - r.offset]
      invariant forall k :: 0 <= k < r.data.Length && !(r.offset <= k < r.offset + i) ==> r.data[k] == old(r.data[k])
    {
      var word := x.data[x.offset + i + offset];
      var upper := if i + 1 == kept then 0 else x.data[x.offset + i + offset + 1];
      assert word == s[i + offset] && (i + 1 < kept ==> upper == s[i + offset + 1]);
      assert t[i] == ShrAt(w, s, offset, rem, i) == ShrWord(w, rem, word, upper);
      r.data[r.offset + i] := ShrWritten(w, rem, word, upper, i + 1 == kept);
    }
  }

  method ShiftRightBy(w: nat, x: Storage, offset: nat, rem: nat, r: Storage)
    requires Shiftable(w, x, offset, rem, r)
    modifies r.data
    ensures forall k :: 0 <= k < r.data.Length && !(r.offset <= k < r.offset + r.size) ==> r.data[k] == old(r.data[k])
    ensures r.Contents() == Shr(w, old(x.Contents()), offset, rem)
  {
    hide ShrWord, Shr, Pow;
    ghost var t := Shr(w, x.Contents(), offset, rem);
    MoveDown(w, x, offset, rem, r);
    ClearWords(r, r.size - offset, r.size);
    forall k | 0 <= k < r.size ensures r.data[r.offset + k] == t[k] {
      assert t[k] == ShrAt(w, old(x.Contents()), offset, rem, k);
    }
    assert r.Contents() == t;
  }

  method ShiftRight(w: nat, x: Storage, shift: nat, r: Storage)
    requires w > 0 && shift <= x.size * w && Shiftable(w, x, 0, 0, r)
    modifies r.data
    ensures r.Valid(Pow(2, w))
    ensures forall k :: 0 <= k < r.data.Length && !(r.offset <= k < r.offset + r.size) ==> r.data[k] == old(r.data[k])
    ensures Pow(2, shift) > 0
    ensures Value(Pow(2, w), r.Contents()) == old(Value(Pow(2, w), x.Contents())) / Pow(2, shift)
  {
    hide Pow, Value, Shr;
    ShiftParts(w, x.size, shift);
    ShrValue(w, x.Contents(), shift / w, shift % w);
    ShiftRightBy(w, x, shift / w, shift % w, r);
  }
}
