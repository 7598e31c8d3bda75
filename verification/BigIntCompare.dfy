/** Comparison of integer storages of any sizes and signedness, and the one-operand carry chains. */
module BigIntCompare {
  import opened Arithmetic
  import opened BigIntBase
  import opened Words

  /** The words from m on all equal the sign extension. */
  ghost predicate Filled(b: nat, s: seq<nat>, m: nat, sign: bool)
    requires b > 0
  {
    forall i :: m <= i < |s| ==> s[i] == ExtendSign(b, sign)
  }

  /** Words of the sign extension do not change the integer; any other high word puts it beyond every m-word integer. */
  lemma {:induction false} HighWords(b: nat, s: seq<nat>, m: nat, sign: bool)
    requires b > 0 && IsWords(b, s) && m <= |s|
    ensures Filled(b, s, m, sign) ==>
              Value(b, s) - If(sign, Pow(b, |s|)) == Value(b, s[..m]) - If(sign, Pow(b, m))
    ensures !Filled(b, s, m, sign) && !sign ==> Value(b, s) >= Pow(b, m)
    ensures !Filled(b, s, m, sign) && sign ==> Value(b, s) - Pow(b, |s|) < 0 - Pow(b, m)
    decreases |s|
  {
    if |s| == m {
      assert s[..m] == s;
    } else {
      var k := |s| - 1;
      var t, p := s[..k], Pow(b, k);
      assert t[..m] == s[..m] && Pow(b, |s|) == b * p;
      HighWords(b, t, m, sign);
      ValueBound(b, t);
      PowMonotone(b, m, k);
      FillStep(b, sign, p);
      if s[k] == ExtendSign(b, sign) {
        assert Filled(b, s, m, sign) <==> Filled(b, t, m, sign);
      } else if sign {
        MulMonotone(s[k], b - 2, p);
        MulDistrib(p, b, 2);
      } else {
        MulMonotone(1, s[k], p);
      }
    }
  }

  /** The highest word that differs decides. */
  lemma {:induction false} FirstDifference(b: nat, s: seq<nat>, t: seq<nat>, i: nat)
    requires b > 0 && IsWords(b, s) && IsWords(b, t) && |s| == |t| && i < |s| && s[i] < t[i] && s[i + 1..] == t[i + 1..]
    ensures Value(b, s) < Value(b, t)
    decreases |s|
  {
    var k := |s| - 1;
    var s', t', p := s[..k], t[..k], Pow(b, k);
    if i == k {
      ValueBound(b, s');
      MulStrict(s[k], t[k], p);
      MulNonNegative(t[k], p);
    } else {
      assert s[k] == s[i + 1..][k - i - 1] && t[k] == t[i + 1..][k - i - 1];
      assert s'[i + 1..] == s[i + 1..][..k - i - 1] && t'[i + 1..] == t[i + 1..][..k - i - 1];
      FirstDifference(b, s', t', i);
    }
  }

  /** The scan of the words that only the longer operand has. */
  method DifferInHighBits(b: nat, x: Storage, m: nat, sign: bool) returns (differ: bool)
    requires b > 0 && x.Valid(b) && m <= x.size
    ensures differ <==> !Filled(b, x.Contents(), m, sign)
  {
    var fill := ExtendSign(b, sign);
    differ := false;
    var i := x.size;
    ghost var s := x.Contents();
    while i > m
      invariant m <= i <= x.size
      invariant differ <==> exists k :: i <= k < x.size && s[k] != fill
    {
      i := i - 1;
      assert s[i] == x.data[x.offset + i];
      if x.data[x.offset + i] != fill {
        differ := true;
      }
    }
  }

  /** The scan of the words that both operands have, from the top. */
  method CompareLowWords(b: nat, x: Storage, y: Storage, m: nat, isForInequality: bool) returns (order: int)
    requires b > 0 && x.Valid(b) && y.Valid(b) && m <= x.size && m <= y.size
    ensures -1 <= order <= 1
    ensures var left, right := Value(b, x.Contents()[..m]), Value(b, y.Contents()[..m]);
            && (order == 0 <==> left == right)
            && (!isForInequality ==> (order < 0 <==> left < right) && (order > 0 <==> left > right))
  {
    hide Value;
    ghost var s, t := x.Contents()[..m], y.Contents()[..m];
    var i := m;
    while i > 0
      invariant i <= m && s[i..] == t[i..]
    {
      i := i - 1;
      var word1, word2 := x.data[x.offset + i], y.data[y.offset + i];
      assert word1 == s[i] && word2 == t[i];
      if word1 < word2 {
        FirstDifference(b, s, t, i);
      } else if word2 < word1 {
        FirstDifference(b, t, s, i);
      }
      if isForInequality {
        if word1 != word2 {
          return 1;
        }
      } else {
        if word1 > word2 {
          return 1;
        }
        if word1 < word2 {
          return -1;
        }
      }
      assert s[i..] == [s[i]] + s[i + 1..] && t[i..] == [t[i]] + t[i + 1..];
    }
    assert s == s[0..] && t == t[0..];
    return 0;
  }

  /** compare: decides the order of the denoted integers; with the hint it only decides equality. */
  method Compare(b: nat, x: Storage, y: Storage, isForInequality: bool) returns (order: int)
    requires b > 0 && x.Valid(b) && y.Valid(b)
    ensures -1 <= order <= 1
    ensures var left, right := IntValue(b, x.Contents(), x.isSigned), IntValue(b, y.Contents(), y.isSigned);
            && (order == 0 <==> left == right)
            && (!isForInequality ==> (order < 0 <==> left < right) && (order > 0 <==> left > right))
  {
    hide Value, Pow, Filled;
    var sign1, sign2 := x.IsNegative(b), y.IsNegative(b);
    ghost var s, t, m := x.Contents(), y.Contents(), Min(x.size, y.size);
    ValueBound(b, s);
    ValueBound(b, t);
    if sign1 != sign2 {
      if sign1 {
        return -1;
      }
      return 1;
    }
    ValueBound(b, s[..m]);
    ValueBound(b, t[..m]);
    HighWords(b, s, m, sign1);
    HighWords(b, t, m, sign1);
    var differ := false;
    if x.size > y.size {
      differ := DifferInHighBits(b, x, y.size, sign1);
      WholeFilled(b, t, sign1);
    } else if x.size < y.size {
      differ := DifferInHighBits(b, y, x.size, sign1);
      WholeFilled(b, s, sign1);
    } else {
      WholeFilled(b, s, sign1);
      WholeFilled(b, t, sign1);
    }
    if differ {
      return if (x.size > y.size) != sign1 then 1 else -1;
    }
    order := CompareLowWords(b, x, y, if x.size > y.size then y.size else x.size, isForInequality);
  }

  lemma WholeFilled(b: nat, s: seq<nat>, sign: bool)
    requires b > 0
    ensures Filled(b, s, |s|, sign)
  {
  }

  // ----- increment and negate -----

  function Empty(x: Storage): (none: Storage) {
    Storage(x.data, x.offset, 0, false)
  }

  /** increment<subtract>: one more or one less, with the same meaning of the return value as add. */
  method Increment(b: nat, subtract: bool, x: Storage) returns (overflow: int)
    requires b > 0 && x.Valid(b)
    modifies x.data
    ensures x.Valid(b)
    ensures forall k :: 0 <= k < x.data.Length && !(x.offset <= k < x.offset + x.size) ==> x.data[k] == old(x.data[k])
    ensures old(IntValue(b, x.Contents(), x.isSigned)) + Signed(subtract, 1)
         == IntValue(b, x.Contents(), x.isSigned) + overflow * Pow(b, x.size)
  {
    hide Value, Pow, Chained;
    var sign := x.IsNegative(b);
    ghost var xs, none := Fit(x.Contents(), x.size, ExtendSign(b, sign)), Fit([], x.size, 0);
    assert Empty(x).Contents() == [];
    var carry := CarryLoop(b, subtract, x, ExtendSign(b, sign), Empty(x), 0, x, true);
    ChainedWords(b, subtract, xs, none, true, x.Contents(), carry);
    overflow := if subtract
                then 0 - If(sign, 1) - If(carry, 1) + If(x.IsNegative(b), 1)
                else 0 - If(sign, 1) + If(carry, 1) + If(x.IsNegative(b), 1);
    ChainSum(b, subtract, old(x.Contents()), x.isSigned, [], false, true, x.Contents(), x.isSigned, carry, overflow);
    FitsGiveExact(b, subtract, old(x.Contents()), x.isSigned, [], false, true, x.Contents(), x.isSigned, overflow);
    ValueZeros(b, []);
  }

  /** negate: the two's complement, and whether the operand was not zero. */
  method Negate(b: nat, x: Storage, r: Storage) returns (nonZero: bool)
    requires b > 0 && x.Valid(b) && r.offset + r.size <= r.data.Length && r.size == x.size && Aligned(x, r)
    modifies r.data
    ensures IsWords(b, r.Contents())
    ensures forall k :: 0 <= k < r.data.Length && !(r.offset <= k < r.offset + r.size) ==> r.data[k] == old(r.data[k])
    ensures nonZero <==> old(Value(b, x.Contents())) != 0
    ensures Value(b, r.Contents()) == If(nonZero, Pow(b, r.size)) - old(Value(b, x.Contents()))
  {
    hide Value, Pow, Chained;
    ghost var none, xs := Fit([], r.size, 0), x.Contents();
    assert Fit(xs, r.size, 0) == xs;
    nonZero := CarryLoop(b, true, Empty(r), 0, x, 0, r, false);
    ChainEquation(b, true, none, xs, false, r.Contents(), nonZero);
    ChainedWords(b, true, none, xs, false, r.Contents(), nonZero);
    ValueZeros(b, none);
    ValueBound(b, xs);
    ValueBound(b, r.Contents());
  }

  /** Over signed storages the result is the negation exactly if the operand is not the least integer. */
  lemma NegatedSigned(b: nat, s: seq<nat>, z: seq<nat>)
    requires b > 0 && b % 2 == 0 && IsWords(b, s) && IsWords(b, z) && |s| == |z| > 0
    requires Value(b, z) == If(Value(b, s) != 0, Pow(b, |s|)) - Value(b, s)
    ensures IntValue(b, z, true) == 0 - IntValue(b, s, true) <==> 2 * IntValue(b, s, true) != 0 - Pow(b, |s|)
  {
    hide Value, Pow;
    SignedRange(b, s);
    SignedRange(b, z);
  }
}
