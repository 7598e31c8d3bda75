/**
  Operations on integer storages: word spans in base `b` that are read as unsigned or as
  two's complement integers. Words are naturals below `b`; every wrap-around is written out.
 */
module BigIntBase {
  import opened Arithmetic
  import opened Words

  /** A span of words inside an array, with the signedness its storage type fixes. */
  datatype Storage = Storage(data: array<nat>, offset: nat, size: nat, isSigned: bool)
  {
    ghost predicate Valid(b: nat)
      reads data
    {
      && offset + size <= data.Length
      && (isSigned ==> size > 0)
      && IsWords(b, data[offset..offset + size])
    }

    predicate IsNegative(b: nat)
      requires Valid(b)
      reads data
      ensures IsNegative(b) == Negative(b, Contents(), isSigned)
    {
      isSigned && 2 * data[offset + size - 1] >= b
    }

    function At(i: nat, fill: nat): (word: nat)
      requires offset + size <= data.Length
      reads data
    {
      if i < size then data[offset + i] else fill
    }

    ghost function Contents(): (s: seq<nat>)
      requires offset + size <= data.Length
      reads data
    {
      data[offset..offset + size]
    }
  }

  /** Distinct buffers, or spans that start at the same word: a pass that reads word i before it writes it is safe. */
  ghost predicate Aligned(x: Storage, r: Storage)
  {
    x.data == r.data ==> x.offset == r.offset
  }

  /** `v` where the flag is set, as in a carry times a power. */
  function If(c: bool, v: int): (n: int)
  {
    if c then v else 0
  }

  /** `v * (-1)^subtract`. */
  function Signed(subtract: bool, v: int): (n: int)
  {
    if subtract then 0 - v else v
  }

  predicate Negative(b: nat, s: seq<nat>, isSigned: bool)
  {
    isSigned && |s| > 0 && 2 * s[|s| - 1] >= b
  }

  /** The integer a storage denotes. */
  ghost function IntValue(b: nat, s: seq<nat>, isSigned: bool): (v: int)
  {
    Value(b, s) - If(Negative(b, s, isSigned), Pow(b, |s|))
  }

  function ExtendSign(b: nat, sign: bool): (w: nat)
    requires b > 0
  {
    if sign then b - 1 else 0
  }

  /** The first n words of a storage that continues with `fill` words for ever. */
  function Fit(s: seq<nat>, n: nat, fill: nat): (t: seq<nat>)
    ensures |t| == n
    ensures forall i :: 0 <= i < n ==> t[i] == if i < |s| then s[i] else fill
  {
    seq(n, i requires 0 <= i => if i < |s| then s[i] else fill)
  }

  lemma FillStep(b: nat, sign: bool, p: nat)
    requires b > 0
    ensures If(sign, p) + ExtendSign(b, sign) * p == If(sign, b * p)
  {
    MulDistrib(p, b, 1);
  }

  lemma IfMul(c: bool, p: int)
    ensures If(c, 1) * p == If(c, p)
    ensures forall subtract :: Signed(subtract, If(c, 1)) * p == Signed(subtract, If(c, p))
  {
  }

  lemma ScaleFlags(r: int, s1: bool, subtract: bool, s2: bool, neg: bool, p: int)
    ensures (r + If(s1, 1) + Signed(subtract, If(s2, 1)) - If(neg, 1)) * p
         == r * p + If(s1, p) + Signed(subtract, If(s2, p)) - If(neg, p)
  {
    var u, v, w := If(s1, 1), Signed(subtract, If(s2, 1)), If(neg, 1);
    MulDistrib(p, r + u + v, w);
    MulDistrib(p, r + u, v);
    MulDistrib(p, r, u);
    IfMul(s1, p);
    IfMul(s2, p);
    IfMul(neg, p);
  }

  /** Words extended by zeros or ones. */
  lemma {:induction false} ExtendedValue(b: nat, s: seq<nat>, sign: bool, n: nat)
    requires b > 0 && |s| <= n
    ensures Value(b, Fit(s, n, ExtendSign(b, sign))) == Value(b, s) + If(sign, Pow(b, n) - Pow(b, |s|))
    decreases n
  {
    hide Value, Pow;
    var fill := ExtendSign(b, sign);
    if |s| == n {
      assert Fit(s, n, fill) == s;
    } else {
      ExtendedValue(b, s, sign, n - 1);
      assert Fit(s, n, fill) == Fit(s, n - 1, fill) + [fill];
      ValueSnoc(b, Fit(s, n - 1, fill), fill);
      FillStep(b, sign, Pow(b, n - 1));
      OneMorePower(b, n);
    }
  }

  /** Sign extension keeps the denoted integer. */
  lemma FitValue(b: nat, s: seq<nat>, isSigned: bool, n: nat)
    requires b > 0 && |s| <= n
    ensures var sign := Negative(b, s, isSigned);
      Value(b, Fit(s, n, ExtendSign(b, sign))) == IntValue(b, s, isSigned) + If(sign, Pow(b, n))
  {
    hide Value, Pow, Fit;
    ExtendedValue(b, s, Negative(b, s, isSigned), n);
  }

  // ----- single words -----

  function AddWords(b: nat, word1: nat, word2: nat, carry: bool): (r: (nat, bool))
    requires word1 < b && word2 < b
    ensures r.0 < b
    ensures r.0 + If(r.1, b) == word1 + word2 + If(carry, 1)
  {
    var output := if word1 + word2 >= b then word1 + word2 - b else word1 + word2;
    var ncarry := word1 + word2 >= b;
    if carry then
      var incremented := if output + 1 == b then 0 else output + 1;
      (incremented, ncarry || incremented == 0)
    else
      (output, ncarry)
  }

  function SubWords(b: nat, word1: nat, word2: nat, carry: bool): (r: (nat, bool))
    requires word1 < b && word2 < b
    ensures r.0 < b
    ensures r.0 - If(r.1, b) == word1 - word2 - If(carry, 1)
  {
    var output := if word1 < word2 then word1 - word2 + b else word1 - word2;
    var ncarry := word1 < word2;
    if carry then
      (if output == 0 then b - 1 else output - 1, ncarry || output == 0)
    else
      (output, ncarry)
  }

  // ----- addition and subtraction -----

  function StepWords(b: nat, subtract: bool, word1: nat, word2: nat, carry: bool): (r: (nat, bool))
    requires word1 < b && word2 < b
    ensures r.0 < b
  {
    if subtract then SubWords(b, word1, word2, carry) else AddWords(b, word1, word2, carry)
  }

  lemma StepValue(b: nat, subtract: bool, word1: nat, word2: nat, carry: bool)
    requires word1 < b && word2 < b
    ensures var r := StepWords(b, subtract, word1, word2, carry);
            r.0 + Signed(subtract, If(r.1, b)) == word1 + Signed(subtract, word2 + If(carry, 1))
  {
  }

  /** The carry out of the first n words of two operands. */
  ghost function ChainCarry(b: nat, subtract: bool, xs: seq<nat>, ys: seq<nat>, carry: bool, n: nat): (c: bool)
    requires n <= |xs| && n <= |ys| && IsWords(b, xs) && IsWords(b, ys)
  {
    if n == 0 then carry
    else StepWords(b, subtract, xs[n - 1], ys[n - 1], ChainCarry(b, subtract, xs, ys, carry, n - 1)).1
  }

  /** Result word i of the carry chain. */
  ghost function ChainWord(b: nat, subtract: bool, xs: seq<nat>, ys: seq<nat>, carry: bool, i: nat): (word: nat)
    requires i < |xs| && i < |ys| && IsWords(b, xs) && IsWords(b, ys)
    ensures word < b
  {
    StepWords(b, subtract, xs[i], ys[i], ChainCarry(b, subtract, xs, ys, carry, i)).0
  }

  /** zs are the result words of the carry chain over the first words of two operands, and c is the carry out. */
  ghost predicate Chained(b: nat, subtract: bool, xs: seq<nat>, ys: seq<nat>, carry: bool, zs: seq<nat>, c: bool) {
    && |zs| <= |xs| && |zs| <= |ys| && IsWords(b, xs) && IsWords(b, ys)
    && c == ChainCarry(b, subtract, xs, ys, carry, |zs|)
    && (forall i :: 0 <= i < |zs| ==> zs[i] == ChainWord(b, subtract, xs, ys, carry, i))
  }

  lemma ChainedNothing(b: nat, subtract: bool, xs: seq<nat>, ys: seq<nat>, carry: bool)
    requires IsWords(b, xs) && IsWords(b, ys)
    ensures Chained(b, subtract, xs, ys, carry, [], carry)
  {
  }

  lemma ChainTop(b: nat, subtract: bool, xs: seq<nat>, ys: seq<nat>, carry: bool, i: nat)
    requires i < |xs| && i < |ys| && IsWords(b, xs) && IsWords(b, ys)
    ensures StepWords(b, subtract, xs[i], ys[i], ChainCarry(b, subtract, xs, ys, carry, i))
         == (ChainWord(b, subtract, xs, ys, carry, i), ChainCarry(b, subtract, xs, ys, carry, i + 1))
  {
  }

  lemma ChainedNext(b: nat, subtract: bool, xs: seq<nat>, ys: seq<nat>, carry: bool, zs: seq<nat>, c: bool)
    requires Chained(b, subtract, xs, ys, carry, zs, c) && |zs| < |xs| && |zs| < |ys|
    ensures xs[|zs|] < b && ys[|zs|] < b
    ensures var top := StepWords(b, subtract, xs[|zs|], ys[|zs|], c);
            Chained(b, subtract, xs, ys, carry, zs + [top.0], top.1)
  {
    hide StepWords, ChainCarry, ChainWord;
    ChainTop(b, subtract, xs, ys, carry, |zs|);
  }

  lemma ChainedLast(b: nat, subtract: bool, xs: seq<nat>, ys: seq<nat>, carry: bool, zs: seq<nat>, c: bool)
    requires Chained(b, subtract, xs, ys, carry, zs, c)
    ensures |zs| <= |xs| && |zs| <= |ys| && IsWords(b, xs) && IsWords(b, ys) && (|zs| == 0 ==> c == carry)
    ensures |zs| > 0 ==>
              var i := |zs| - 1;
              && xs[i] < b && ys[i] < b
              && var c' := ChainCarry(b, subtract, xs, ys, carry, i);
              Chained(b, subtract, xs, ys, carry, zs[..i], c') && StepWords(b, subtract, xs[i], ys[i], c') == (zs[i], c)
  {
    hide StepWords, ChainWord;
    if |zs| > 0 {
      ChainTop(b, subtract, xs, ys, carry, |zs| - 1);
    }
  }

  lemma ChainedWords(b: nat, subtract: bool, xs: seq<nat>, ys: seq<nat>, carry: bool, zs: seq<nat>, c: bool)
    requires Chained(b, subtract, xs, ys, carry, zs, c)
    ensures IsWords(b, zs)
  {
    hide ChainWord, ChainCarry;
  }

  lemma ChainStep(subtract: bool, x: int, y: int, z: int, xw: int, yw: int, zw: int, c0: int, c: bool, c': bool,
                  b: int, p: int)
    requires x + Signed(subtract, y + c0) == z + Signed(subtract, If(c, p))
    requires zw + Signed(subtract, If(c', b)) == xw + Signed(subtract, yw + If(c, 1))
    ensures x + xw * p + Signed(subtract, y + yw * p + c0) == z + zw * p + Signed(subtract, If(c', b * p))
  {
    if subtract {
      MulDistrib(p, zw, If(c', b));
      MulDistrib(p, xw, yw + If(c, 1));
    } else {
      MulDistrib(p, zw, If(c', b));
      MulDistrib(p, xw, yw + If(c, 1));
    }
    MulDistrib(p, yw, If(c, 1));
  }

  lemma {:induction false} ChainValue(b: nat, subtract: bool, xs: seq<nat>, ys: seq<nat>, carry: bool, zs: seq<nat>,
                                      c: bool)
    requires Chained(b, subtract, xs, ys, carry, zs, c) && |zs| <= |xs| && |zs| <= |ys|
    ensures Value(b, xs[..|zs|]) + Signed(subtract, Value(b, ys[..|zs|]) + If(carry, 1))
         == Value(b, zs) + Signed(subtract, If(c, Pow(b, |zs|)))
    decreases |zs|
  {
    hide Value, Pow, Chained, ChainCarry, StepWords;
    ChainedLast(b, subtract, xs, ys, carry, zs, c);
    if |zs| == 0 {
      NoWords(b, xs);
      NoWords(b, ys);
      NoWords(b, zs);
      AllWords(b, zs, 0);
    } else {
      var i := |zs| - 1;
      var c' := ChainCarry(b, subtract, xs, ys, carry, i);
      ChainValue(b, subtract, xs, ys, carry, zs[..i], c');
      StepValue(b, subtract, xs[i], ys[i], c');
      OneMorePower(b, i + 1);
      ValuePrefix(b, xs, i);
      ValuePrefix(b, ys, i);
      ValuePrefix(b, zs, i);
      AllWords(b, zs, i + 1);
      ChainStep(subtract, Value(b, xs[..i]), Value(b, ys[..i]), Value(b, zs[..i]), xs[i], ys[i], zs[i], If(carry, 1),
                c', c, b, Pow(b, i));
    }
  }

  /** What `add<subtract>` leaves in n result words, whatever the lengths: an equation between n-word fits. */
  ghost predicate SumOfFits(b: nat, subtract: bool, x: seq<nat>, signed1: bool, y: seq<nat>, signed2: bool,
                            carryIn: bool, z: seq<nat>, signed: bool, overflow: int)
    requires b > 0
  {
    var sign1, sign2 := Negative(b, x, signed1), Negative(b, y, signed2);
    Value(b, Fit(x, |z|, ExtendSign(b, sign1)))
    + Signed(subtract, Value(b, Fit(y, |z|, ExtendSign(b, sign2))) + If(carryIn, 1))
    == Value(b, z)
       + Times(overflow + If(sign1, 1) + Signed(subtract, If(sign2, 1)) - If(Negative(b, z, signed), 1), Pow(b, |z|))
  }

  /** a + b * (-1)^subtract == c + r * b^size over the denoted integers. */
  ghost predicate SumExact(b: nat, subtract: bool, x: seq<nat>, signed1: bool, y: seq<nat>, signed2: bool,
                           carryIn: bool, z: seq<nat>, signed: bool, overflow: int)
  {
    IntValue(b, x, signed1) + Signed(subtract, IntValue(b, y, signed2) + If(carryIn, 1))
    == IntValue(b, z, signed) + overflow * Pow(b, |z|)
  }

  lemma FitsGiveExact(b: nat, subtract: bool, x: seq<nat>, signed1: bool, y: seq<nat>, signed2: bool, carryIn: bool,
                      z: seq<nat>, signed: bool, overflow: int)
    requires b > 0 && |x| <= |z| && |y| <= |z|
    requires SumOfFits(b, subtract, x, signed1, y, signed2, carryIn, z, signed, overflow)
    ensures SumExact(b, subtract, x, signed1, y, signed2, carryIn, z, signed, overflow)
  {
    hide Value, Pow, Fit;
    FitValue(b, x, signed1, |z|);
    FitValue(b, y, signed2, |z|);
    ScaleFlags(overflow, Negative(b, x, signed1), subtract, Negative(b, y, signed2), Negative(b, z, signed),
               Pow(b, |z|));
  }

  lemma UnsignedSum(b: nat, x: seq<nat>, y: seq<nat>, z: seq<nat>, overflow: int)
    requires b > 0 && SumOfFits(b, false, x, false, y, false, false, z, false, overflow)
    ensures Value(b, Fit(x, |z|, 0)) + Value(b, Fit(y, |z|, 0)) == Value(b, z) + overflow * Pow(b, |z|)
  {
    hide Value, Pow, Fit;
    var flags := overflow + If(false, 1) + Signed(false, If(false, 1)) - If(false, 1);
    assert flags == overflow;
  }

  lemma ChainSum(b: nat, subtract: bool, x: seq<nat>, signed1: bool, y: seq<nat>, signed2: bool, carryIn: bool,
                 z: seq<nat>, signed: bool, carry: bool, overflow: int)
    requires b > 0 && IsWords(b, x) && IsWords(b, y)
    requires var sign1, sign2 := Negative(b, x, signed1), Negative(b, y, signed2);
      && Chained(b, subtract, Fit(x, |z|, ExtendSign(b, sign1)), Fit(y, |z|, ExtendSign(b, sign2)), carryIn, z, carry)
      && overflow == Signed(subtract, If(carry, 1) - If(sign2, 1)) - If(sign1, 1) + If(Negative(b, z, signed), 1)
    ensures SumOfFits(b, subtract, x, signed1, y, signed2, carryIn, z, signed, overflow)
  {
    hide Value, Pow, Chained, Fit, Times, If, Signed, Negative, ExtendSign, IsWords;
    var sign1, sign2 := Negative(b, x, signed1), Negative(b, y, signed2);
    var xs, ys := Fit(x, |z|, ExtendSign(b, sign1)), Fit(y, |z|, ExtendSign(b, sign2));
    ChainEquation(b, subtract, xs, ys, carryIn, z, carry);
    CarryFlag(subtract, carry, sign1, sign2, Negative(b, z, signed), overflow, Pow(b, |z|));
  }

  lemma ChainEquation(b: nat, subtract: bool, xs: seq<nat>, ys: seq<nat>, carryIn: bool, z: seq<nat>, carry: bool)
    requires |xs| == |ys| == |z| && Chained(b, subtract, xs, ys, carryIn, z, carry)
    ensures Value(b, xs) + Signed(subtract, Value(b, ys) + If(carryIn, 1))
         == Value(b, z) + Signed(subtract, If(carry, Pow(b, |z|)))
  {
    hide Value, Pow, Chained;
    AllWords(b, xs, |z|);
    AllWords(b, ys, |z|);
    ChainValue(b, subtract, xs, ys, carryIn, z, carry);
  }

  /** The return value of `add`, with the flags it makes up for, is the last carry. */
  lemma CarryFlag(subtract: bool, carry: bool, sign1: bool, sign2: bool, negative: bool, overflow: int, p: int)
    requires overflow == Signed(subtract, If(carry, 1) - If(sign2, 1)) - If(sign1, 1) + If(negative, 1)
    ensures Times(overflow + If(sign1, 1) + Signed(subtract, If(sign2, 1)) - If(negative, 1), p)
         == Signed(subtract, If(carry, p))
  {
    var flags := overflow + If(sign1, 1) + Signed(subtract, If(sign2, 1)) - If(negative, 1);
    assert flags == Signed(subtract, If(carry, 1));
    assert flags == 0 || flags == 1 || flags == -1;
  }

  /** One word of a carry chain, written to the result. */
  method WordStep(b: nat, subtract: bool, x: Storage, fill1: nat, y: Storage, fill2: nat, r: Storage, i: nat,
                  carry: bool, ghost word1: nat, ghost word2: nat)
    returns (ghost word: nat, next: bool)
    requires x.offset + x.size <= x.data.Length && y.offset + y.size <= y.data.Length
    requires i < r.size && r.offset + r.size <= r.data.Length
    requires WordOf(x.data[..], x, i, fill1) == word1 < b && WordOf(y.data[..], y, i, fill2) == word2 < b
    modifies r.data
    ensures (word, next) == StepWords(b, subtract, word1, word2, carry)
    ensures r.data[..] == old(r.data[..])[r.offset + i := word]
  {
    var out := StepWords(b, subtract, x.At(i, fill1), y.At(i, fill2), carry);
    r.data[r.offset + i] := out.0;
    word, next := out.0, out.1;
  }

  /** The word loop of `add<subtract>`; the result may start at the same word as an operand. */
  method CarryLoop(b: nat, subtract: bool, x: Storage, fill1: nat, y: Storage, fill2: nat, r: Storage, carryIn: bool)
    returns (carry: bool)
    requires fill1 < b && fill2 < b && x.Valid(b) && y.Valid(b)
    requires r.offset + r.size <= r.data.Length
    requires Aligned(x, r) && Aligned(y, r)
    modifies r.data
    ensures Chained(b, subtract, Fit(old(x.Contents()), r.size, fill1), Fit(old(y.Contents()), r.size, fill2), carryIn,
                    r.Contents(), carry)
    ensures forall k :: 0 <= k < r.data.Length && !(r.offset <= k < r.offset + r.size) ==> r.data[k] == old(r.data[k])
  {
    hide StepWords, Chained, Fit, IsWords, Spliced, WordOf;
    ghost var xs, ys := Fit(x.Contents(), r.size, fill1), Fit(y.Contents(), r.size, fill2);
    ghost var zs: seq<nat>, s, s1, s2 := [], r.data[..], x.data[..], y.data[..];
    FitWords(b, x, r.size, fill1);
    FitWords(b, y, r.size, fill2);
    hide Storage.Valid, Storage.Contents;
    carry := carryIn;
    ChainedNothing(b, subtract, xs, ys, carryIn);
    SplicedNothing(s, r.offset);
    for i := 0 to r.size
      invariant Chained(b, subtract, xs, ys, carryIn, zs, carry) && |zs| == i
      invariant Spliced(r.data[..], s, r.offset, zs)
    {
      SplicedNext(r.data[..], s, r.offset, zs);
      ChainedNext(b, subtract, xs, ys, carryIn, zs, carry);
      Unwritten(x, r, x.data[..], s1, zs, fill1);
      Unwritten(y, r, y.data[..], s2, zs, fill2);
      ghost var word;
      word, carry := WordStep(b, subtract, x, fill1, y, fill2, r, i, carry, xs[i], ys[i]);
      zs := zs + [word];
    }
    SplicedWhole(r, s, zs);
  }

  /** Word i of a storage inside this data. */
  ghost function WordOf(data: seq<nat>, x: Storage, i: nat, fill: nat): (word: nat)
    requires x.offset + x.size <= |data|
  {
    if i < x.size then data[x.offset + i] else fill
  }

  /** The words written so far leave the next word of an operand as it was, also when they are written over it. */
  lemma Unwritten(x: Storage, r: Storage, now: seq<nat>, was: seq<nat>, zs: seq<nat>, fill: nat)
    requires x.offset + x.size <= |was| == |now| && Aligned(x, r)
    requires if x.data == r.data then Spliced(now, was, r.offset, zs) else now == was
    ensures WordOf(now, x, |zs|, fill) == WordOf(was, x, |zs|, fill)
  {
  }

  /** t is s with zs written from `offset` on. */
  ghost predicate Spliced(t: seq<nat>, s: seq<nat>, offset: nat, zs: seq<nat>) {
    offset + |zs| <= |s| && t == s[..offset] + zs + s[offset + |zs|..]
  }

  lemma SplicedNothing(s: seq<nat>, offset: nat)
    requires offset <= |s|
    ensures Spliced(s, s, offset, [])
  {
  }

  lemma SplicedNext(t: seq<nat>, s: seq<nat>, offset: nat, zs: seq<nat>)
    requires Spliced(t, s, offset, zs) && offset + |zs| < |s|
    ensures |t| == |s| && t[offset + |zs|] == s[offset + |zs|]
    ensures forall word: nat :: Spliced(t[offset + |zs| := word], s, offset, zs + [word])
  {
  }

  lemma SplicedWhole(r: Storage, s: seq<nat>, zs: seq<nat>)
    requires Spliced(r.data[..], s, r.offset, zs) && |zs| == r.size
    ensures |s| == r.data.Length && r.offset + r.size <= |s| && r.Contents() == zs
    ensures forall k :: 0 <= k < r.data.Length && !(r.offset <= k < r.offset + r.size) ==> r.data[k] == s[k]
  {
    assert r.Contents() == r.data[..][r.offset..r.offset + r.size];
  }

  lemma FitWords(b: nat, x: Storage, n: nat, fill: nat)
    requires fill < b && x.Valid(b)
    ensures IsWords(b, Fit(x.Contents(), n, fill)) && (forall k :: 0 <= k < n ==> Fit(x.Contents(), n, fill)[k] < b)
    ensures forall k :: 0 <= k < n ==> Fit(x.Contents(), n, fill)[k] == WordOf(x.data[..], x, k, fill)
  {
  }

  method Add(b: nat, subtract: bool, x: Storage, y: Storage, r: Storage, carryIn: bool) returns (overflow: int)
    requires b > 0 && x.Valid(b) && y.Valid(b)
    requires r.offset + r.size <= r.data.Length && (r.isSigned ==> r.size > 0)
    requires Aligned(x, r) && Aligned(y, r)
    modifies r.data
    ensures r.Valid(b)
    ensures forall k :: 0 <= k < r.data.Length && !(r.offset <= k < r.offset + r.size) ==> r.data[k] == old(r.data[k])
    ensures SumOfFits(b, subtract, old(x.Contents()), x.isSigned, old(y.Contents()), y.isSigned, carryIn,
                      r.Contents(), r.isSigned, overflow)
    ensures x.size <= r.size && y.size <= r.size ==>
      SumExact(b, subtract, old(x.Contents()), x.isSigned, old(y.Contents()), y.isSigned, carryIn,
               r.Contents(), r.isSigned, overflow)
  {
    hide Chained, SumOfFits, SumExact, Value, Pow, Fit;
    var sign1, sign2 := x.IsNegative(b), y.IsNegative(b);
    ghost var xs := Fit(x.Contents(), r.size, ExtendSign(b, sign1));
    ghost var ys := Fit(y.Contents(), r.size, ExtendSign(b, sign2));
    var carry := CarryLoop(b, subtract, x, ExtendSign(b, sign1), y, ExtendSign(b, sign2), r, carryIn);
    ChainedWords(b, subtract, xs, ys, carryIn, r.Contents(), carry);
    var negative := r.IsNegative(b);
    overflow := if subtract
                then 0 - If(sign1, 1) + If(sign2, 1) - If(carry, 1) + If(negative, 1)
                else 0 - If(sign1, 1) - If(sign2, 1) + If(carry, 1) + If(negative, 1);
    ChainSum(b, subtract, old(x.Contents()), x.isSigned, old(y.Contents()), y.isSigned, carryIn,
             r.Contents(), r.isSigned, carry, overflow);
    if x.size <= r.size && y.size <= r.size {
      FitsGiveExact(b, subtract, old(x.Contents()), x.isSigned, old(y.Contents()), y.isSigned, carryIn,
                    r.Contents(), r.isSigned, overflow);
    }
  }

  /** The return value is zero exactly when the true result is representable in the result storage. */
  lemma OverflowIffUnrepresentable(b: nat, z: seq<nat>, signed: bool, truth: int, overflow: int)
    requires b > 0 && b % 2 == 0 && IsWords(b, z) && (signed ==> |z| > 0)
    requires truth == IntValue(b, z, signed) + overflow * Pow(b, |z|)
    ensures overflow == 0 <==> if signed then 0 - Pow(b, |z|) <= 2 * truth < Pow(b, |z|) else 0 <= truth < Pow(b, |z|)
  {
    var p := Pow(b, |z|);
    ValueBound(b, z);
    if signed {
      SignedRange(b, z);
    }
    if overflow > 0 {
      MulMonotone(1, overflow, p);
    } else if overflow < 0 {
      MulMonotone(overflow, -1, p);
    }
  }

  lemma SignedRange(b: nat, z: seq<nat>)
    requires b > 0 && b % 2 == 0 && IsWords(b, z) && |z| > 0
    ensures 0 - Pow(b, |z|) <= 2 * IntValue(b, z, true) < Pow(b, |z|)
  {
    var n := |z| - 1;
    var p := Pow(b, n);
    ValueBound(b, z[..n]);
    ValueBound(b, z);
    MulAssoc(2, z[n], p);
    if 2 * z[n] >= b {
      MulMonotone(b, 2 * z[n], p);
    } else {
      MulMonotone(2 * z[n], b - 2, p);
      MulDistrib(p, b, 2);
    }
  }
}
