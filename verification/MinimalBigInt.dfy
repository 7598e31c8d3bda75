/** The fixed-capacity unsigned integer that decimal text is accumulated in. */
module MinimalBigInt {
  import opened Arithmetic
  import opened BigIntBase
  import opened BigIntCompare
  import opened BigIntMul
  import opened BigIntShift
  import opened EightDigits
  import opened Prelude
  import opened Words

  const BASE: nat := 0x1_0000_0000_0000_0000
  const WORD_BITS: nat := 64
  const MAX_WORDS: nat := 58

  lemma BaseIsPower()
    ensures Pow(2, WORD_BITS) == BASE
  {
    hide Pow;
    Powers();
    PowMul(2, 8, 8);
  }

  // ----- canonical words -----

  /** The top word is nonzero, if there is one. */
  ghost predicate Trimmed(s: seq<nat>) {
    |s| > 0 ==> s[|s| - 1] != 0
  }

  /** The top word is nonzero exactly if the number needs all words. */
  lemma TrimmedValue(s: seq<nat>)
    requires IsWords(BASE, s) && |s| > 0
    ensures Trimmed(s) <==> Value(BASE, s) >= Pow(BASE, |s| - 1)
  {
    hide Pow;
    var n := |s| - 1;
    ValueBound(BASE, s[..n]);
    if s[n] != 0 {
      MulMonotone(1, s[n], Pow(BASE, n));
    }
  }

  lemma EmptyValue()
    ensures Value(BASE, []) == 0
  {
  }

  /** trim_last_word_if_zero */
  function TrimmedOnce(s: seq<nat>): (t: seq<nat>) {
    if |s| > 0 && s[|s| - 1] == 0 then s[..|s| - 1] else s
  }

  lemma TrimmedOnceValue(s: seq<nat>)
    requires IsWords(BASE, s)
    ensures Value(BASE, TrimmedOnce(s)) == Value(BASE, s) && IsWords(BASE, TrimmedOnce(s))
  {
  }

  lemma ZeroUntrimmed(s: seq<nat>)
    requires IsWords(BASE, s) && Value(BASE, s) == 0
    ensures Trimmed(s) <==> s == []
  {
    hide Value, Pow;
    if |s| > 0 {
      TrimmedValue(s);
      PowPositive(BASE, |s| - 1);
    }
  }

  // ----- multiplication by one word -----

  /** The words done so far, the carry and what they stand for. */
  ghost predicate SmallProduct(s: seq<nat>, value: nat, i: nat, zs: seq<nat>, carry: nat) {
    && i == |zs| <= |s| && IsWords(BASE, zs) && carry <= value && (carry == value ==> value == 0)
    && Value(BASE, zs) + carry * Pow(BASE, i) == Value(BASE, s[..i]) * value
  }

  lemma SmallStep(s: seq<nat>, value: nat, i: nat, zs: seq<nat>, carry: nat, product: nat)
    requires SmallProduct(s, value, i, zs, carry) && i < |s| && IsWords(BASE, s) && product == s[i] * value + carry
    ensures SmallProduct(s, value, i + 1, zs + [product % BASE], product / BASE)
  {
    hide Value;
    var q, r, p := product / BASE, product % BASE, Pow(BASE, i);
    ValueSnoc(BASE, zs, r);
    ValuePrefix(BASE, s, i);
    assert q <= value && (q == value ==> value == 0) by {
      MulMonotone(s[i], BASE - 1, value);
    }
    calc {
      Value(BASE, zs) + r * p + q * (BASE * p);
      { MulAssoc(q, BASE, p); MulDistrib(p, r, q * BASE); }
      Value(BASE, zs) + product * p;
      { MulDistrib(p, s[i] * value, carry); }
      Value(BASE, zs) + carry * p + (s[i] * value) * p;
      { MulAssoc(s[i], value, p); MulAssoc(s[i], p, value); }
      Value(BASE, s[..i]) * value + (s[i] * p) * value;
      { MulDistrib(value, Value(BASE, s[..i]), s[i] * p); }
      (Value(BASE, s[..i]) + s[i] * p) * value;
    }
  }

  /** What the loop leaves, and whether the carry needs a word of its own. */
  lemma SmallEnd(s: seq<nat>, value: nat, zs: seq<nat>, carry: nat)
    requires SmallProduct(s, value, |s|, zs, carry) && IsWords(BASE, s) && |s| <= MAX_WORDS && value < BASE
    requires Value(BASE, s) * value < Pow(BASE, MAX_WORDS)
    ensures carry == 0 ==> Value(BASE, zs) == Value(BASE, s) * value
    ensures carry == 0 && Trimmed(s) ==> (Trimmed(zs) <==> value > 0 || s == [])
    ensures carry != 0 ==>
              value > 0 && 0 < |s| < MAX_WORDS && carry < BASE && Value(BASE, zs + [carry]) == Value(BASE, s) * value
  {
    hide Value, Pow;
    EmptyValue();
    var n := |s|;
    assert s[..n] == s;
    ValueSnoc(BASE, zs, carry);
    PowPositive(BASE, n);
    assert n == 0 ==> s == [] && zs == [];
    if carry != 0 {
      MulMonotone(1, carry, Pow(BASE, n));
    } else if value == 0 {
      ZeroUntrimmed(zs);
    } else if n > 0 {
      TrimmedValue(s);
      TrimmedValue(zs);
      MulMonotone(1, value, Value(BASE, s));
    }
  }

  // ----- multiplication by several words -----

  /** A product of trimmed numbers needs all words of both, or all but one. */
  lemma ProductTrimmed(x: seq<nat>, y: seq<nat>, z: seq<nat>)
    requires IsWords(BASE, x) && IsWords(BASE, y) && IsWords(BASE, z) && |x| > 0 && |y| > 0 && Trimmed(x) && Trimmed(y)
    requires Value(BASE, z) == Value(BASE, x) * Value(BASE, y) && |z| > 0 && |x| + |y| - 1 <= |z| <= |x| + |y|
    ensures Trimmed(TrimmedOnce(z))
  {
    hide Value, Pow, TrimmedOnce;
    ProductSize(x, y);
    NeedsWords(z, |x| - 1 + |y| - 1);
  }

  lemma ProductSize(x: seq<nat>, y: seq<nat>)
    requires IsWords(BASE, x) && IsWords(BASE, y) && |x| > 0 && |y| > 0 && Trimmed(x) && Trimmed(y)
    ensures Value(BASE, x) * Value(BASE, y) >= Pow(BASE, |x| - 1 + |y| - 1)
  {
    hide Value, Pow;
    var m, n := |x| - 1, |y| - 1;
    TrimmedValue(x);
    TrimmedValue(y);
    PowAdd(BASE, m, n);
    MulBoth(Pow(BASE, m), Value(BASE, x), Pow(BASE, n), Value(BASE, y));
  }

  /** A number of at least BASE^n has a nonzero word from n on, and trimming one zero word leaves a trimmed number. */
  lemma NeedsWords(z: seq<nat>, n: nat)
    requires IsWords(BASE, z) && Value(BASE, z) >= Pow(BASE, n) && n + 1 <= |z| <= n + 2
    ensures |z| == n + 1 ==> Trimmed(z)
    ensures Trimmed(TrimmedOnce(z))
  {
    hide Value, Pow;
    var k := |z| - 1;
    ValuePrefix(BASE, z, k);
    assert z[..k + 1] == z;
    if k == n {
      TrimmedValue(z);
    } else if z[k] == 0 {
      TrimmedValue(z[..k]);
    }
  }

  lemma ProductWords(x: seq<nat>, y: seq<nat>, n: nat)
    requires IsWords(BASE, x) && IsWords(BASE, y) && n == Min(MAX_WORDS, |x| + |y|)
    requires Value(BASE, x) * Value(BASE, y) < Pow(BASE, MAX_WORDS)
    ensures Value(BASE, x) * Value(BASE, y) < Pow(BASE, n)
  {
    hide Value, Pow;
    ValueBound(BASE, x);
    ValueBound(BASE, y);
    PowPositive(BASE, |x|);
    PowPositive(BASE, |y|);
    PowAdd(BASE, |x|, |y|);
    MulMonotone(Value(BASE, y), Pow(BASE, |y|), Value(BASE, x));
    MulStrict(Value(BASE, x), Pow(BASE, |x|), Pow(BASE, |y|));
  }

  // ----- shifts -----

  /**
   * Only the word after the number must be clear before a left shift: what lies beyond it is shifted out of the
   * words that the result can need.
   */
  lemma StaleWordsLost(s: seq<nat>, used: nat, e: nat, n: nat)
    requires IsWords(BASE, s) && used <= |s| == n && n <= used + (e + WORD_BITS - 1) / WORD_BITS
    requires used < n ==> s[used] == 0
    ensures Pow(BASE, n) > 0
    ensures (Value(BASE, s) * Pow(2, e)) % Pow(BASE, n) == (Value(BASE, s[..used]) * Pow(2, e)) % Pow(BASE, n)
  {
    hide Value, Pow;
    PowPositive(BASE, n);
    if used < n {
      var k, low := used + 1, s[..used];
      ValueSplit(BASE, s, k);
      ValuePrefix(BASE, s, used);
      assert Value(BASE, s[..k]) == Value(BASE, low);
      var high := Value(BASE, s[k..]);
      var whole := HighPower(k, e, n);
      calc {
        Value(BASE, s) * Pow(2, e);
        { MulDistrib(Pow(2, e), Value(BASE, low), Pow(BASE, k) * high); }
        Value(BASE, low) * Pow(2, e) + (Pow(BASE, k) * high) * Pow(2, e);
        { MulAssoc(high, Pow(BASE, k), Pow(2, e)); }
        Value(BASE, low) * Pow(2, e) + high * (Pow(BASE, k) * Pow(2, e));
        { MulAssoc(high, whole, Pow(BASE, n)); }
        Value(BASE, low) * Pow(2, e) + (high * whole) * Pow(BASE, n);
      }
      ModUnchanged(Value(BASE, low) * Pow(2, e), high * whole, Pow(BASE, n));
    } else {
      assert s[..used] == s;
    }
  }

  /** BASE^k * 2^e is a multiple of BASE^n. */
  lemma HighPower(k: nat, e: nat, n: nat) returns (rest: nat)
    requires n <= k + e / WORD_BITS
    ensures Pow(BASE, k) * Pow(2, e) == rest * Pow(BASE, n) && rest > 0
  {
    hide Pow;
    BaseIsPower();
    PowMul(2, WORD_BITS, k);
    PowMul(2, WORD_BITS, n);
    PowAdd(2, WORD_BITS * k, e);
    PowAdd(2, WORD_BITS * n, WORD_BITS * k + e - WORD_BITS * n);
    rest := Pow(2, WORD_BITS * k + e - WORD_BITS * n);
    PowPositive(2, WORD_BITS * k + e - WORD_BITS * n);
  }

  /** A shifted number fits the words it gets, and needs all of them or all but one. */
  lemma ShiftedWords(low: seq<nat>, e: nat, n: nat)
    requires IsWords(BASE, low) && n == Min(MAX_WORDS, |low| + (e + WORD_BITS - 1) / WORD_BITS)
    requires Value(BASE, low) * Pow(2, e) < Pow(BASE, MAX_WORDS)
    ensures Value(BASE, low) * Pow(2, e) < Pow(BASE, n)
    ensures |low| > 0 && Trimmed(low) ==>
              var k := |low| - 1 + e / WORD_BITS;
              k + 1 <= n <= k + 2 && Value(BASE, low) * Pow(2, e) >= Pow(BASE, k)
  {
    hide Value, Pow;
    var words := (e + WORD_BITS - 1) / WORD_BITS;
    ValueBound(BASE, low);
    BaseIsPower();
    PowMul(2, WORD_BITS, words);
    PowMonotone(2, e, WORD_BITS * words);
    PowPositive(BASE, |low|);
    PowPositive(2, e);
    PowAdd(BASE, |low|, words);
    MulStrict(Value(BASE, low), Pow(BASE, |low|), Pow(2, e));
    MulMonotone(Pow(2, e), Pow(BASE, words), Pow(BASE, |low|));
    if |low| > 0 && Trimmed(low) {
      var m, k := |low| - 1, |low| - 1 + e / WORD_BITS;
      TrimmedValue(low);
      var rest := HighPower(m, e, k);
      MulMonotone(Pow(BASE, m), Value(BASE, low), Pow(2, e));
      PowPositive(BASE, k);
      MulMonotone(1, rest, Pow(BASE, k));
      if n <= k {
        PowMonotone(BASE, n, k);
      }
    }
  }

  /** The shift of the words is the product with the number alone. */
  lemma ShiftedExactly(s: seq<nat>, low: seq<nat>, e: nat, v: nat)
    requires IsWords(BASE, s) && |low| <= |s| == Min(MAX_WORDS, |low| + (e + WORD_BITS - 1) / WORD_BITS)
    requires s[..|low|] == low && (|low| < |s| ==> s[|low|] == 0)
    requires Value(BASE, low) * Pow(2, e) < Pow(BASE, MAX_WORDS)
    requires Pow(BASE, |s|) > 0 && v == (Value(BASE, s) * Pow(2, e)) % Pow(BASE, |s|)
    ensures v == Value(BASE, low) * Pow(2, e)
  {
    hide Value, Pow;
    StaleWordsLost(s, |low|, e, |s|);
    ShiftedWords(low, e, |s|);
    MulNonNegative(Value(BASE, low), Pow(2, e));
    DivModUnique(Value(BASE, low) * Pow(2, e), Pow(BASE, |s|), 0, Value(BASE, low) * Pow(2, e));
  }

  /** One zero word at most is trimmed after a shift; of nothing, one is trimmed and the other zero words stay. */
  lemma ShiftedTrims(low: seq<nat>, e: nat, z: seq<nat>)
    requires IsWords(BASE, low) && IsWords(BASE, z) && |z| == Min(MAX_WORDS, |low| + (e + WORD_BITS - 1) / WORD_BITS)
    requires Value(BASE, z) == Value(BASE, low) * Pow(2, e) < Pow(BASE, MAX_WORDS) && |low| <= MAX_WORDS && e > 0
    ensures TrimmedOnce(z) == [] <==> low == [] && e <= WORD_BITS
    ensures Trimmed(low) ==> (Trimmed(TrimmedOnce(z)) <==> low != [] || e <= WORD_BITS)
  {
    hide Value, Pow;
    EmptyValue();
    ShiftedWords(low, e, |z|);
    TrimmedOnceValue(z);
    if low == [] {
      ValueIsZero(BASE, z);
      ZeroUntrimmed(TrimmedOnce(z));
    } else if Trimmed(low) {
      NeedsWords(z, |low| - 1 + e / WORD_BITS);
    }
  }

  /** The shift of the first words of an array, in their own base. */
  method ShiftWords(words: array<nat>, used: nat, exponent: nat)
    requires used <= words.Length && IsWords(BASE, words[..]) && exponent <= used * WORD_BITS
    modifies words
    ensures IsWords(BASE, words[..]) && IsWords(BASE, old(words[..used]))
    ensures Pow(BASE, used) > 0
    ensures Value(BASE, words[..used]) == (old(Value(BASE, words[..used])) * Pow(2, exponent)) % Pow(BASE, used)
  {
    hide Value, Pow, Shl;
    var storage := Storage(words, 0, used, false);
    assert storage.Contents() == words[..used];
    BaseIsPower();
    ShiftLeft(WORD_BITS, storage, exponent, storage);
    assert storage.Contents() == words[..used];
  }

  lemma WordsPrefix(s: seq<nat>, n: nat)
    requires IsWords(BASE, s) && n <= |s|
    ensures IsWords(BASE, s[..n])
  {
  }

  lemma TwoToZero()
    ensures Pow(2, 0) == 1
  {
  }

  // ----- the integer -----

  class MinimalBigInt {
    var words: array<nat>
    var used: nat

    ghost predicate Valid()
      reads this, words
    {
      words.Length == MAX_WORDS && used <= MAX_WORDS && IsWords(BASE, words[..])
    }

    ghost function Number(): (v: nat)
      requires used <= words.Length
      reads this, words
    {
      Value(BASE, words[..used])
    }

    ghost predicate Canonical()
      requires used <= words.Length
      reads this, words
    {
      Trimmed(words[..used])
    }

    constructor ()
      ensures Valid() && Number() == 0 && Canonical() && used == 0 && fresh(words)
    {
      words := new nat[MAX_WORDS](_ => 0);
      used := 0;
    }

    /** The loop of multiply_with_small over the words in use. */
    method MultiplyWords(value: nat) returns (carry: nat, ghost zs: seq<nat>)
      requires Valid() && value < BASE
      modifies words
      ensures Valid() && |zs| == used && words[..used] == zs
      ensures SmallProduct(old(words[..used]), value, used, zs, carry)
    {
      hide Value, Pow, SmallProduct, Spliced;
      ghost var s, s0 := words[..used], words[..];
      carry, zs := 0, [];
      SmallStart(s, value);
      SplicedNothing(s0, 0);
      for i := 0 to used
        invariant Valid() && |zs| == i && Spliced(words[..], s0, 0, zs) && SmallProduct(s, value, i, zs, carry)
      {
        SplicedNext(words[..], s0, 0, zs);
        var product := words[i] * value + carry;
        SmallStep(s, value, i, zs, carry, product);
        words[i] := product % BASE;
        carry := product / BASE;
        zs := zs + [product % BASE];
      }
      SplicedFront(words[..], s0, zs);
    }

    /** multiply_with_small. A factor of zero leaves as many zero words as there were words. */
    method MultiplyWithSmall(value: nat)
      requires Valid() && value < BASE && Number() * value < Pow(BASE, MAX_WORDS)
      modifies this`used, words
      ensures Valid() && Number() == old(Number()) * value && (used == 0 <==> old(used) == 0)
      ensures old(Canonical()) ==> (Canonical() <==> value > 0 || old(used) == 0)
    {
      hide Value, Pow, SmallProduct;
      ghost var s := words[..used];
      var carry: nat, zs := MultiplyWords(value);
      SmallEnd(s, value, zs, carry);
      if carry != 0 {
        words[used] := carry;
        used := used + 1;
        assert words[..used] == zs + [carry];
      }
    }

    /** add_small. Adding zero to nothing leaves one zero word, which is not canonical. */
    method AddSmall(value: nat)
      requires Valid() && value < BASE && Number() + value < Pow(BASE, MAX_WORDS)
      modifies this`used, words
      ensures Valid() && Number() == old(Number()) + value && used > 0
      ensures old(Canonical()) ==> (Canonical() <==> old(used) > 0 || value > 0)
    {
      hide Value, Pow, SumExact, SumOfFits;
      ghost var s := words[..used];
      ValueOfWord(BASE, [value]);
      if used == 0 {
        ValueZeros(BASE, s);
        words[0] := value;
        used := 1;
        assert words[..1] == [value];
        return;
      }
      var addend := new nat[1](_ => value);
      assert addend[..] == [value];
      var x, y := Storage(words, 0, used, false), Storage(addend, 0, 1, false);
      assert y.Contents() == [value];
      var overflow := Add(BASE, false, x, y, x, false);
      AddEnds(s, value, words[..used], overflow);
      if overflow != 0 {
        ghost var z := words[..used];
        words[used] := 1;
        used := used + 1;
        assert words[..used] == z + [1];
      }
    }

    /** add_digits: appends decimal digits to the number. */
    method AddDigits(value: nat, digits: nat)
      requires Valid() && digits < 20 && value < BASE && Number() * Pow(10, digits) + value < Pow(BASE, MAX_WORDS)
      modifies this`used, words
      ensures Valid() && Number() == old(Number()) * Pow(10, digits) + value && used > 0
      ensures old(Canonical()) ==> (Canonical() <==> old(used) > 0 || value > 0)
    {
      hide Value, Pow;
      TenPowers(digits);
      MultiplyWithSmall(Pow(10, digits));
      AddSmall(value);
    }

    /** compare_to decides the order of the integers. */
    method CompareTo(other: MinimalBigInt) returns (order: int)
      requires Valid() && other.Valid()
      ensures -1 <= order <= 1
      ensures (order < 0 <==> Number() < other.Number()) && (order > 0 <==> Number() > other.Number())
    {
      hide Value, Pow;
      order := Compare(BASE, Storage(words, 0, used, false), Storage(other.words, 0, other.used, false), false);
    }

    method TrimLastWordIfZero()
      requires Valid()
      modifies this`used
      ensures Valid() && words[..used] == TrimmedOnce(words[..old(used)]) && Number() == old(Number())
    {
      hide Value;
      TrimmedOnceValue(words[..used]);
      if used > 0 && words[used - 1] == 0 {
        assert words[..used][..used - 1] == words[..used - 1];
        used := used - 1;
      }
    }

    /** multiply_with_power_of_2. Of nothing, a multiplication by more than 2^64 leaves zero words. */
    method MultiplyWithPowerOf2(exponent: nat)
      requires Valid() && exponent <= MAX_WORDS * WORD_BITS && Number() * Pow(2, exponent) < Pow(BASE, MAX_WORDS)
      modifies this`used, words
      ensures Valid() && Number() == old(Number()) * Pow(2, exponent)
      ensures used == 0 <==> old(used) == 0 && exponent <= WORD_BITS
      ensures old(Canonical()) ==> (Canonical() <==> old(used) > 0 || exponent <= WORD_BITS)
    {
      hide Value, Pow, TrimmedOnce, Trimmed;
      ghost var low := words[..used];
      if exponent > 0 {
        Extend(exponent);
        ShiftInPlace(exponent, |low|, low);
        ShiftedTrims(low, exponent, words[..used]);
        TrimLastWordIfZero();
      } else {
        TwoToZero();
      }
    }

    /** The words that the shifted number may need, the first of the new ones cleared. */
    method Extend(exponent: nat)
      requires Valid() && exponent > 0
      modifies this`used, words
      ensures Valid() && used == Min(MAX_WORDS, old(used) + (exponent + WORD_BITS - 1) / WORD_BITS) >= old(used)
      ensures words[..old(used)] == old(words[..used]) && (old(used) < used ==> words[old(used)] == 0)
    {
      var length := used + (exponent + WORD_BITS - 1) / WORD_BITS;
      if used != MAX_WORDS {
        words[used] := 0;
      }
      if length > used {
        used := if length < MAX_WORDS then length else MAX_WORDS;
      }
    }

    /** The shift of the words in use, of which only the first `before` belong to the number. */
    method ShiftInPlace(exponent: nat, ghost before: nat, ghost low: seq<nat>)
      requires Valid() && before == |low| <= used && words[..before] == low && (before < used ==> words[before] == 0)
      requires exponent <= used * WORD_BITS && used == Min(MAX_WORDS, before + (exponent + WORD_BITS - 1) / WORD_BITS)
      requires Value(BASE, low) * Pow(2, exponent) < Pow(BASE, MAX_WORDS)
      modifies words
      ensures Valid() && Number() == Value(BASE, low) * Pow(2, exponent)
    {
      hide Value, Pow, IsWords;
      ghost var s := words[..used];
      assert s[..before] == low;
      ShiftWords(words, used, exponent);
      WordsPrefix(words[..], used);
      ShiftedExactly(s, low, exponent, Value(BASE, words[..used]));
    }

    /** The product with a number of several words, through a copy. Of nothing, it leaves zero words. */
    method MultiplyWithWords(factor: seq<nat>)
      requires Valid() && IsWords(BASE, factor) && 2 <= |factor| <= MAX_WORDS && Trimmed(factor)
      requires Number() * Value(BASE, factor) < Pow(BASE, MAX_WORDS)
      modifies this`used, words
      ensures Valid() && Number() == old(Number()) * Value(BASE, factor)
      ensures used > 0 && (old(used) == 0 ==> used == |factor| - 1)
      ensures old(Canonical()) ==> (Canonical() <==> old(used) > 0)
    {
      hide Value, Pow, IsProduct, TrimmedOnce, Trimmed;
      var s := words[..used];
      var copy := ArrayOf(s);
      var power := ArrayOf(factor);
      var x, y := Storage(copy, 0, used, false), Storage(power, 0, |factor|, false);
      assert x.Contents() == s && y.Contents() == factor;
      used := if used + |factor| < MAX_WORDS then used + |factor| else MAX_WORDS;
      BaselineMul(BASE, x, y, Storage(words, 0, used, false));
      ProductExactly(s, factor, words[..used]);
      TrimLastWordIfZero();
    }

    /**
     * multiply_with_power_of_5, by binary exponentiation over the table of the powers 5^(2^i). Of nothing, the entries
     * of several words, which start at 5^32, leave zero words.
     */
    method MultiplyWithPowerOf5(exponent: nat)
      requires Valid() && exponent < 2048 && Number() * Pow(5, exponent) < Pow(BASE, MAX_WORDS)
      modifies this`used, words
      ensures Valid() && Number() == old(Number()) * Pow(5, exponent)
      ensures used == 0 <==> old(used) == 0 && exponent < 32
      ensures old(Canonical()) ==> (Canonical() <==> old(used) > 0 || exponent < 32)
    {
      hide Value, Pow, PowerOf5, Trimmed, LowBits, Bit;
      ghost var number := Number();
      EmptyValue();
      NoBits(exponent);
      for i := 0 to 11
        invariant Valid() && Number() == number * Pow(5, LowBits(exponent, i))
        invariant used == 0 <==> old(used) == 0 && LowBits(exponent, i) < 32
        invariant old(used) > 0 && old(Canonical()) ==> Canonical()
      {
        NextBit(exponent, i);
        WideFromThirtyTwo(exponent, i);
        if Bit(exponent, i) {
          PartialProduct(number, exponent, i);
          MultiplyWithEntry(i);
        }
      }
      AllBits(exponent);
      if Number() == 0 {
        ZeroUntrimmed(words[..used]);
      }
    }

    /** The product with entry i of the table. */
    method MultiplyWithEntry(i: nat)
      requires Valid() && i < 11 && Number() * Value(BASE, PowerOf5(i)) < Pow(BASE, MAX_WORDS)
      modifies this`used, words
      ensures Valid() && Number() == old(Number()) * Value(BASE, PowerOf5(i))
      ensures used == 0 <==> old(used) == 0 && i < 5
      ensures old(used) > 0 && old(Canonical()) ==> Canonical()
    {
      hide Value, Pow, PowerOf5, Trimmed;
      var power := PowerOf5(i);
      PowerOf5Words(i);
      OneWordPowers(i);
      if |power| == 1 {
        ValueOfWord(BASE, power);
        MultiplyWithSmall(power[0]);
      } else {
        MultiplyWithWords(power);
      }
    }

    method MultiplyWithPowerOf10(exponent: nat)
      requires Valid() && exponent < 2048 && Number() * Pow(10, exponent) < Pow(BASE, MAX_WORDS)
      modifies this`used, words
      ensures Valid() && Number() == old(Number()) * Pow(10, exponent)
      ensures used == 0 <==> old(used) == 0 && exponent < 32
      ensures old(Canonical()) ==> (Canonical() <==> old(used) > 0 || exponent < 32)
    {
      hide Value, Pow, Trimmed;
      EmptyValue();
      TenIsFiveTwos(Number(), exponent);
      MultiplyWithPowerOf5(exponent);
      MultiplyWithPowerOf2(exponent);
      if Number() == 0 {
        ZeroUntrimmed(words[..used]);
      }
    }
  }

  method ArrayOf(s: seq<nat>) returns (a: array<nat>)
    ensures fresh(a) && a[..] == s && a.Length == |s|
  {
    a := new nat[|s|](i requires 0 <= i < |s| => s[i]);
  }

  lemma SplicedFront(t: seq<nat>, s: seq<nat>, zs: seq<nat>)
    requires Spliced(t, s, 0, zs)
    ensures |zs| <= |t| && t[..|zs|] == zs
  {
  }

  lemma SmallStart(s: seq<nat>, value: nat)
    ensures SmallProduct(s, value, 0, [], 0)
  {
  }

  lemma AddEnds(s: seq<nat>, value: nat, z: seq<nat>, overflow: int)
    requires |s| == |z| && 0 < |s| <= MAX_WORDS && IsWords(BASE, s) && IsWords(BASE, z) && value < BASE
    requires Value(BASE, s) + value < Pow(BASE, MAX_WORDS) && Value(BASE, [value]) == value
    requires SumExact(BASE, false, s, false, [value], false, false, z, false, overflow)
    ensures overflow == 0 || overflow == 1
    ensures overflow == 0 ==> Value(BASE, z) == Value(BASE, s) + value && (Trimmed(s) ==> Trimmed(z))
    ensures overflow == 1 ==> |s| < MAX_WORDS && Value(BASE, z + [1]) == Value(BASE, s) + value
  {
    hide Value, Pow;
    var n := |s|;
    var p := Pow(BASE, n);
    assert Value(BASE, s) + value == Value(BASE, z) + overflow * p;
    ValueBound(BASE, s);
    ValueBound(BASE, z);
    OneWordFits(n);
    if overflow >= 1 {
      MulMonotone(1, overflow, p);
      if overflow >= 2 {
        MulMonotone(2, overflow, p);
      }
    } else if overflow < 0 {
      MulMonotone(overflow, -1, p);
    }
    ValueSnoc(BASE, z, 1);
    TrimmedValue(s);
    TrimmedValue(z);
  }

  lemma OneWordFits(n: nat)
    requires n > 0
    ensures BASE <= Pow(BASE, n)
  {
    PowMonotone(BASE, 1, n);
  }

  /** The powers of ten that a digit group can need fit a word. */
  lemma TenPowers(digits: nat)
    requires digits < 20
    ensures 1 <= Pow(10, digits) < BASE
  {
    hide Pow;
    PowPositive(10, digits);
    PowMonotone(10, digits, 19);
    TenToTheEight();
    PowAdd(10, 8, 8);
    PowAdd(10, 16, 3);
  }

  lemma ProductExactly(s: seq<nat>, factor: seq<nat>, z: seq<nat>)
    requires IsWords(BASE, s) && IsWords(BASE, factor) && IsWords(BASE, z) && Trimmed(factor)
    requires |s| <= MAX_WORDS && 2 <= |factor| <= MAX_WORDS
    requires |z| == Min(MAX_WORDS, |s| + |factor|) && Value(BASE, s) * Value(BASE, factor) < Pow(BASE, MAX_WORDS)
    requires IsProduct(BASE, s, false, factor, false, z)
    ensures Value(BASE, z) == Value(BASE, s) * Value(BASE, factor)
    ensures TrimmedOnce(z) != [] && (s == [] ==> |TrimmedOnce(z)| == |factor| - 1)
    ensures Trimmed(s) ==> (Trimmed(TrimmedOnce(z)) <==> s != [])
  {
    hide Value, Pow;
    var product := Value(BASE, s) * Value(BASE, factor);
    ProductWords(s, factor, |z|);
    DivModUnique(product, Pow(BASE, |z|), 0, product);
    if s == [] {
      EmptyValue();
      ValueIsZero(BASE, z);
      TrimmedOnceValue(z);
      ZeroUntrimmed(TrimmedOnce(z));
    } else if Trimmed(s) {
      NeededWords(s, factor, |z|);
      ProductTrimmed(s, factor, z);
    }
  }

  /** A product below BASE^n of trimmed numbers does not have more than n + 1 words between them. */
  lemma NeededWords(s: seq<nat>, factor: seq<nat>, n: nat)
    requires IsWords(BASE, s) && IsWords(BASE, factor) && |s| > 0 && |factor| > 0 && Trimmed(s) && Trimmed(factor)
    requires Value(BASE, s) * Value(BASE, factor) < Pow(BASE, n)
    ensures |s| + |factor| - 1 <= n
  {
    hide Value, Pow;
    ProductSize(s, factor);
    if n <= |s| - 1 + |factor| - 1 {
      PowMonotone(BASE, n, |s| - 1 + |factor| - 1);
    }
  }

  // ----- powers of five -----

  /** The words of a number, with no zero word at the top. */
  function ToWords(v: nat): (s: seq<nat>)
    ensures IsWords(BASE, s) && Trimmed(s) && (v > 0 ==> |s| > 0)
  {
    if v == 0 then [] else [v % BASE] + ToWords(v / BASE)
  }

  lemma {:induction false} ToWordsValue(v: nat)
    ensures Value(BASE, ToWords(v)) == v
  {
    if v > 0 {
      ToWordsValue(v / BASE);
      ValueConcat(BASE, [v % BASE], ToWords(v / BASE));
      ValueOfWord(BASE, [v % BASE]);
    }
  }

  /** Entry i of the table: the words of 5^(2^i). */
  function PowerOf5(i: nat): (s: seq<nat>) {
    ToWords(Pow(5, Pow(2, i)))
  }

  /** exponent >> i & 1 */
  predicate Bit(exponent: nat, i: nat) {
    PowPositive(2, i);
    (exponent / Pow(2, i)) % 2 == 1
  }

  ghost function LowBits(exponent: nat, i: nat): (e: nat) {
    PowPositive(2, i);
    exponent % Pow(2, i)
  }

  lemma NoBits(exponent: nat)
    ensures Pow(5, LowBits(exponent, 0)) == 1 && LowBits(exponent, 0) == 0
  {
  }

  lemma AllBits(exponent: nat)
    requires exponent < 2048
    ensures LowBits(exponent, 11) == exponent
  {
    assert Pow(2, 11) == 2048;
  }

  lemma NextBit(exponent: nat, i: nat)
    ensures LowBits(exponent, i + 1) == LowBits(exponent, i) + (if Bit(exponent, i) then Pow(2, i) else 0) <= exponent
  {
    var p := Pow(2, i);
    PowPositive(2, i);
    var q, r := exponent / p, exponent % p;
    DivModEquation(exponent, p);
    MulAssoc(q / 2, 2, p);
    MulDistrib(p, 2 * (q / 2), q % 2);
    DivModUnique(exponent, 2 * p, q / 2, (q % 2) * p + r);
    MulNonNegative(q / 2, 2 * p);
  }

  /** The first five table entries have one word, and the exponents they make up are below 32. */
  lemma WideFromThirtyTwo(exponent: nat, i: nat)
    requires i < 11
    ensures |PowerOf5(i)| == 1 <==> i < 5
    ensures LowBits(exponent, i) < Pow(2, i) && (i < 5 ==> 2 * Pow(2, i) <= 32) && (i >= 5 ==> Pow(2, i) >= 32)
  {
    hide Pow, PowerOf5;
    PowPositive(2, i);
    TwoToTheFive();
    OneWordPowers(i);
    if i < 5 {
      PowMonotone(2, i, 4);
    } else {
      PowMonotone(2, 5, i);
    }
  }

  lemma TwoToTheFive()
    ensures Pow(2, 4) == 16 && Pow(2, 5) == 32
  {
  }

  lemma OneWordPowers(i: nat)
    requires i < 11
    ensures |PowerOf5(i)| == 1 <==> i < 5
  {
    hide Value, Pow, ToWords;
    var s := PowerOf5(i);
    PowerOf5Words(i);
    TwoToTheFive();
    FiveToTheSixteen();
    if i < 5 {
      PowMonotone(2, i, 4);
      PowMonotone(5, Pow(2, i), 16);
      if |s| > 1 {
        TrimmedValue(s);
        OneWordFits(|s| - 1);
      }
    } else {
      PowMonotone(2, 5, i);
      PowMonotone(5, 32, Pow(2, i));
      PowAdd(5, 16, 16);
      if |s| == 1 {
        ValueOfWord(BASE, s);
      }
    }
  }

  lemma FiveToTheSixteen()
    ensures Pow(5, 16) == 152587890625
  {
    assert Pow(5, 8) == 390625;
    PowAdd(5, 8, 8);
  }

  lemma {:induction false} PowBaseMonotone(a: nat, b: nat, n: nat)
    requires a <= b
    ensures Pow(a, n) <= Pow(b, n)
  {
    if n > 0 {
      PowBaseMonotone(a, b, n - 1);
      MulMonotone(a, b, Pow(a, n - 1));
      MulMonotone(Pow(a, n - 1), Pow(b, n - 1), b);
    }
  }

  /** The table entries have few enough words. */
  lemma PowerOf5Words(i: nat)
    requires i < 11
    ensures Value(BASE, PowerOf5(i)) == Pow(5, Pow(2, i)) && IsWords(BASE, PowerOf5(i)) && Trimmed(PowerOf5(i))
    ensures 1 <= |PowerOf5(i)| <= MAX_WORDS && Value(BASE, PowerOf5(i)) >= 1
  {
    hide Value, Pow, ToWords;
    var e := Pow(2, i);
    ToWordsValue(Pow(5, e));
    PowPositive(5, e);
    PowMonotone(2, i, 10);
    TwoToTheTen();
    PowBaseMonotone(5, 8, e);
    PowMul(2, 3, e);
    PowMonotone(2, 3 * e, 64 * 48);
    BaseIsPower();
    PowMul(2, 64, 48);
    if |PowerOf5(i)| > 58 {
      TrimmedValue(PowerOf5(i));
      PowMonotone(BASE, 49, |PowerOf5(i)| - 1);
      PowMonotone(BASE, 48, 49);
      PowStrict();
    }
  }

  lemma TwoToTheTen()
    ensures Pow(2, 10) == 1024 && Pow(2, 3) == 8
  {
  }

  lemma PowStrict()
    ensures Pow(BASE, 48) < Pow(BASE, 49)
  {
    PowPositive(BASE, 48);
  }

  /** The factors of the binary exponentiation stay below the whole product. */
  lemma PartialProduct(number: nat, exponent: nat, i: nat)
    requires i < 11 && Bit(exponent, i) && number * Pow(5, exponent) < Pow(BASE, MAX_WORDS)
    ensures var before, after := LowBits(exponent, i), LowBits(exponent, i + 1);
            (number * Pow(5, before)) * Value(BASE, PowerOf5(i)) == number * Pow(5, after) < Pow(BASE, MAX_WORDS)
  {
    hide Value, Pow, PowerOf5, LowBits, Bit;
    var before, after := LowBits(exponent, i), LowBits(exponent, i + 1);
    NextBit(exponent, i);
    PowerOf5Words(i);
    PowAdd(5, before, Pow(2, i));
    MulAssoc(number, Pow(5, before), Pow(5, Pow(2, i)));
    PowMonotone(5, after, exponent);
    MulMonotone(Pow(5, after), Pow(5, exponent), number);
  }

  lemma {:induction false} PowProduct(a: nat, b: nat, n: nat)
    ensures Pow(a * b, n) == Pow(a, n) * Pow(b, n)
  {
    if n > 0 {
      PowProduct(a, b, n - 1);
      var x, y := Pow(a, n - 1), Pow(b, n - 1);
      calc {
        (a * b) * (x * y);
        { MulAssoc(a * b, x, y); MulAssoc(a, b, x); MulAssoc(a, x, b); }
        ((a * x) * b) * y;
        { MulAssoc(a * x, b, y); }
        (a * x) * (b * y);
      }
    }
  }

  lemma TenIsFiveTwos(number: nat, e: nat)
    ensures number * Pow(5, e) <= number * Pow(10, e) == (number * Pow(5, e)) * Pow(2, e)
  {
    hide Pow;
    PowProduct(5, 2, e);
    MulAssoc(number, Pow(5, e), Pow(2, e));
    PowBaseMonotone(5, 10, e);
    MulMonotone(Pow(5, e), Pow(10, e), number);
  }
}
