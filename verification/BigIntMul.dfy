/** Schoolbook multiplication by columns, with a double-word column accumulator. */
module BigIntMul {
  import opened Arithmetic
  import opened Words
  import opened BigIntBase
  import opened BigIntCompare

  /** Word k of a storage that continues with zeros. */
  function WordAt(s: seq<nat>, k: int): (word: nat)
  {
    if 0 <= k < |s| then s[k] else 0
  }

  function WideMultiply(word1: nat, word2: nat): (p: nat)
  {
    MulNonNegative(word1, word2);
    word1 * word2
  }

  function Dword(b: nat, low: nat, high: nat): (d: nat)
  {
    MulNonNegative(b, high);
    low + b * high
  }

  /** The largest carry that n products can leave. */
  ghost function CarryLimit(b: nat, n: nat): (c: nat)
    requires b > 0
  {
    MulNonNegative(n, b - 1);
    n * (b - 1)
  }

  /** The first j products of column i. */
  ghost function Column(x: seq<nat>, y: seq<nat>, i: int, j: nat): (c: nat)
  {
    if j == 0 then 0 else Column(x, y, i, j - 1) + WideMultiply(WordAt(x, j - 1), WordAt(y, i - (j - 1)))
  }

  /** The columns below n, weighted. */
  ghost function Columns(b: nat, x: seq<nat>, y: seq<nat>, n: nat): (p: nat)
  {
    if n == 0 then 0
    else
      MulNonNegative(Column(x, y, n - 1, n), Pow(b, n - 1));
      Columns(b, x, y, n - 1) + Column(x, y, n - 1, n) * Pow(b, n - 1)
  }

  lemma {:induction false} ColumnShift(x: seq<nat>, y: seq<nat>, i: int, j: nat)
    requires |x| > 0
    ensures Column(x, y, i, j + 1) == x[0] * WordAt(y, i) + Column(x[1..], y, i - 1, j)
  {
    if j == 0 {
      assert Column(x, y, i, 0) == 0;
    } else {
      ColumnShift(x, y, i, j - 1);
      assert WordAt(x, j) == WordAt(x[1..], j - 1);
    }
  }

  lemma {:induction false} ColumnEmpty(y: seq<nat>, i: int, j: nat)
    ensures Column([], y, i, j) == 0
  {
    if j > 0 {
      ColumnEmpty(y, i, j - 1);
    }
  }

  lemma {:induction false} ColumnsEmpty(b: nat, y: seq<nat>, n: nat)
    ensures Columns(b, [], y, n) == 0
  {
    if n > 0 {
      ColumnEmpty(y, n - 1, n);
      ColumnsEmpty(b, y, n - 1);
    }
  }

  lemma ColumnsShiftArith(p: int, x0: int, v: int, p': int, c: int, yw: int, c': int, b: int, q: int)
    requires p == x0 * v + b * p'
    requires c == x0 * yw + c'
    ensures p + c * (b * q) == x0 * (v + yw * (b * q)) + b * (p' + c' * q)
  {
    MulDistrib(b * q, x0 * yw, c');
    MulAssoc(x0, yw, b * q);
    MulDistrib(x0, v, yw * (b * q));
    MulAssoc(c', b, q);
    MulAssoc(b, c', q);
    MulDistrib(b, p', c' * q);
  }

  /** Peeling the lowest word of x off the weighted columns. */
  lemma {:induction false} ColumnsShift(b: nat, x: seq<nat>, y: seq<nat>, n: nat)
    requires |x| > 0
    ensures Columns(b, x, y, n + 1) == x[0] * Value(b, Fit(y, n + 1, 0)) + b * Columns(b, x[1..], y, n)
  {
    hide Value;
    ColumnShift(x, y, n, n);
    FitSnoc(b, y, n);
    if n == 0 {
      assert Column(x[1..], y, -1, 0) == 0;
      assert Columns(b, x, y, 1) == Columns(b, x, y, 0) + Column(x, y, 0, 1) * Pow(b, 0);
      assert Value(b, Fit(y, 0, 0)) == 0 by {
        ValueZeros(b, Fit(y, 0, 0));
      }
    } else {
      ColumnsShift(b, x, y, n - 1);
      ColumnsShiftArith(Columns(b, x, y, n), x[0], Value(b, Fit(y, n, 0)), Columns(b, x[1..], y, n - 1),
                        Column(x, y, n, n + 1), WordAt(y, n), Column(x[1..], y, n - 1, n), b, Pow(b, n - 1));
    }
  }

  lemma FitSnoc(b: nat, y: seq<nat>, n: nat)
    ensures Value(b, Fit(y, n + 1, 0)) == Value(b, Fit(y, n, 0)) + WordAt(y, n) * Pow(b, n)
  {
    assert Fit(y, n + 1, 0) == Fit(y, n, 0) + [WordAt(y, n)];
    ValueSnoc(b, Fit(y, n, 0), WordAt(y, n));
  }

  /** The value of a storage and of its first n words differ by a multiple of b^n. */
  lemma Truncate(b: nat, y: seq<nat>, n: nat) returns (k: nat)
    ensures Value(b, y) == Value(b, Fit(y, n, 0)) + k * Pow(b, n)
  {
    hide Value, Pow;
    if n < |y| {
      ValueSplit(b, y, n);
      assert Fit(y, n, 0) == y[..n];
      k := Value(b, y[n..]);
    } else {
      assert Fit(y, n, 0)[..|y|] == y;
      ValueTrim(b, Fit(y, n, 0), |y|);
      k := 0;
    }
  }

  lemma ConvolutionArith(x0: int, v': int, y: int, yt: int, k0: int, p': int, k': int, b: int, q: int)
    requires y == yt + k0 * (b * q)
    requires v' * y == p' + k' * q
    ensures (x0 + b * v') * y == x0 * yt + b * p' + (x0 * k0 + k') * (b * q)
  {
    MulDistrib(y, x0, b * v');
    MulAssoc(b, v', y);
    MulDistrib(b, p', k' * q);
    MulDistrib(x0, yt, k0 * (b * q));
    MulAssoc(x0, k0, b * q);
    MulAssoc(b, k', q);
    MulAssoc(k', b, q);
    MulDistrib(b * q, x0 * k0, k');
  }

  /** The columns below n are the product, up to a multiple of b^n. */
  lemma {:induction false} Convolution(b: nat, x: seq<nat>, y: seq<nat>, n: nat) returns (k: nat)
    ensures Value(b, x) * Value(b, y) == Columns(b, x, y, n) + k * Pow(b, n)
    decreases |x|
  {
    hide Value;
    MulNonNegative(Value(b, x), Value(b, y));
    if n == 0 {
      k := Value(b, x) * Value(b, y);
    } else if |x| == 0 {
      ColumnsEmpty(b, y, n);
      ValueZeros(b, x);
      k := 0;
    } else {
      var k0 := Truncate(b, y, n);
      var k' := Convolution(b, x[1..], y, n - 1);
      ColumnsShift(b, x, y, n - 1);
      ValueSplit(b, x, 1);
      ValueSingle(b, x);
      MulNonNegative(x[0], k0);
      k := x[0] * k0 + k';
      ConvolutionArith(x[0], Value(b, x[1..]), Value(b, y), Value(b, Fit(y, n, 0)), k0, Columns(b, x[1..], y, n - 1),
                       k', b, Pow(b, n - 1));
    }
  }

  lemma ValueSingle(b: nat, x: seq<nat>)
    requires |x| > 0
    ensures Value(b, x[..1]) == x[0] && Pow(b, 1) == b
  {
    assert x[..1][..0] == [];
  }

  lemma AccumulateArith(b: int, word: int, carry: int, total: int, low: int, high: int, word': int, c: bool)
    requires word + b * carry == total
    requires word' + If(c, b) == word + low
    ensures word' + b * (carry + high + If(c, 1)) == total + (high * b + low)
  {
    MulDistrib(b, carry, high + If(c, 1));
    MulDistrib(b, high, If(c, 1));
  }

  /** At most n products of words below b, on a carry of at most n * (b - 1), leave a carry of at most n * (b - 1). */
  lemma CarryBound(b: nat, n: nat, m: nat, word: nat, carry: nat, total: nat)
    requires b > 0 && m <= n
    requires Dword(b, word, carry) == total
    requires total <= CarryLimit(b, n) + m * ((b - 1) * (b - 1))
    ensures carry <= CarryLimit(b, n)
  {
    var d := b - 1;
    MulMonotone(m, n, d * d);
    MulAssoc(n, d, d);
    MulDistrib(n * d, d, 1);
    assert total <= (n * d) * b;
    MulCancelLe(carry, n * d, b);
  }

  lemma ProductBound(b: nat, x: nat, y: nat)
    requires x < b && y < b
    ensures 0 <= x * y <= (b - 1) * (b - 1) < b * b
  {
    MulNonNegative(x, y);
    MulMonotone(x, b - 1, y);
    MulMonotone(y, b - 1, b - 1);
    MulStrict(b - 1, b, b);
    MulMonotone(b - 1, b, b - 1);
  }

  /** The terms of column i outside [start, end) vanish. */
  lemma {:induction false} ColumnLow(x: seq<nat>, y: seq<nat>, i: int, j: nat)
    requires j == 0 || j <= i - |y| + 1
    ensures Column(x, y, i, j) == 0
  {
    if j > 0 {
      ColumnLow(x, y, i, j - 1);
    }
  }

  lemma {:induction false} ColumnHigh(x: seq<nat>, y: seq<nat>, i: int, j: nat)
    requires |x| <= j
    ensures Column(x, y, i, j) == Column(x, y, i, |x|)
  {
    if j > |x| {
      ColumnHigh(x, y, i, j - 1);
    }
  }

  lemma CarryFits(b: nat, n: nat, carry: nat, p: nat)
    requires b > 1 && n <= b && carry <= CarryLimit(b, n) && p <= (b - 1) * (b - 1)
    ensures carry + p / b + 1 < b * b
  {
    MulMonotone(n, b, b - 1);
    MulDistrib(b, b, 1);
    DivModEquation(p, b);
    MulDistrib(b - 1, b, 1);
    MulCancel(p / b, b - 1, b);
  }

  /** Adding one product into the column: the low half into the word, the high half into the double-word carry. */
  method AccumulateProduct(b: nat, word: nat, carry: nat, p: nat) returns (word': nat, carry': nat)
    requires b > 0 && word < b && carry + p / b + 1 < b * b
    ensures word' < b && Dword(b, word', carry') == Dword(b, word, carry) + p
  {
    DivModEquation(p, b);
    var sum := AddWords(b, word, p % b, false);
    word' := sum.0;
    carry' := (carry + p / b + If(sum.1, 1)) % (b * b);
    DivModUnique(carry + p / b + If(sum.1, 1), b * b, 0, carry + p / b + If(sum.1, 1));
    AccumulateArith(b, word, carry, word + b * carry, p % b, p / b, word', sum.1);
  }

  /** The part of column i that the loop covers is the whole column. */
  lemma ColumnCovered(x: seq<nat>, y: seq<nat>, i: nat, j: nat)
    requires j <= i + 1 && (j < i + 1 ==> |x| <= j)
    ensures Column(x, y, i, j) == Column(x, y, i, i + 1)
  {
    if j < i + 1 {
      ColumnHigh(x, y, i, j);
      ColumnHigh(x, y, i, i + 1);
    }
  }

  /** A product of two words fits on top of a bounded carry without overflow. */
  lemma ProductFits(b: nat, word1: nat, word2: nat, n: nat, carry: nat)
    requires b > 1 && word1 < b && word2 < b && n <= b && carry <= CarryLimit(b, n)
    ensures carry + WideMultiply(word1, word2) / b + 1 < b * b
  {
    ProductBound(b, word1, word2);
    CarryFits(b, n, carry, WideMultiply(word1, word2));
  }

  /** The first j - start products of a column keep the carry bounded. */
  lemma {:induction false} ColumnBound(b: nat, xs: seq<nat>, ys: seq<nat>, i: int, start: nat, j: nat)
    requires b > 0 && IsWords(b, xs) && IsWords(b, ys) && start <= j && Column(xs, ys, i, start) == 0
    ensures Column(xs, ys, i, j) <= (j - start) * ((b - 1) * (b - 1))
  {
    if j > start {
      ColumnBound(b, xs, ys, i, start, j - 1);
      ProductBound(b, WordAt(xs, j - 1), WordAt(ys, i - (j - 1)));
      MulDistrib((b - 1) * (b - 1), j - 1 - start, 1);
    }
  }

  lemma ColumnCarry(b: nat, xs: seq<nat>, ys: seq<nat>, i: int, start: nat, j: nat, n: nat, carryIn: nat, word: nat,
                    carry: nat)
    requires b > 0 && IsWords(b, xs) && IsWords(b, ys) && start <= j <= start + n && Column(xs, ys, i, start) == 0
    requires carryIn <= CarryLimit(b, n) && Dword(b, word, carry) == carryIn + Column(xs, ys, i, j)
    ensures carry <= CarryLimit(b, n)
  {
    ColumnBound(b, xs, ys, i, start, j);
    CarryBound(b, n, j - start, word, carry, carryIn + Column(xs, ys, i, j));
  }

  lemma SplitCarry(b: nat, carry: nat)
    requires b > 0
    ensures 0 <= carry % b < b && 0 <= carry / b && Dword(b, carry % b, carry / b) == carry
  {
    DivModEquation(carry, b);
  }

  /** One column of the product, accumulated into a word and a double-word carry that never overflows. */
  method AccumulateColumn(b: nat, x: Storage, size1: nat, y: Storage, size2: nat, i: nat,
                          carryIn: nat) returns (word: nat, carry: nat)
    requires x.Valid(b) && y.Valid(b)
    requires size1 <= x.size && size2 <= y.size && (size1 < x.size ==> i < size1) && (size2 < y.size ==> i < size2)
    requires b > 1 && size2 <= b && carryIn <= CarryLimit(b, size2)
    ensures word < b && carry <= CarryLimit(b, size2)
    ensures Dword(b, word, carry) == carryIn + Column(x.Contents(), y.Contents(), i, i + 1)
  {
    hide WideMultiply, Dword, CarryLimit;
    ghost var xs, ys := x.Contents(), y.Contents();
    SplitCarry(b, carryIn);
    word, carry := carryIn % b, carryIn / b;
    var start := if i >= size2 then i - size2 + 1 else 0;
    var end := Min(i + 1, size1);
    ColumnLow(xs, ys, i, start);
    ColumnCarry(b, xs, ys, i, start, start, size2, carryIn, word, carry);
    var j := start;
    while j < end
      invariant start <= j <= Max(start, end) && word < b
      invariant Dword(b, word, carry) == carryIn + Column(xs, ys, i, j)
      invariant carry <= CarryLimit(b, size2)
    {
      var word1, word2 := x.data[x.offset + j], y.data[y.offset + i - j];
      assert word1 == WordAt(xs, j) && word2 == WordAt(ys, i - j);
      ProductFits(b, word1, word2, size2, carry);
      word, carry := AccumulateProduct(b, word, carry, WideMultiply(word1, word2));
      j := j + 1;
      ColumnCarry(b, xs, ys, i, start, j, size2, carryIn, word, carry);
    }
    ColumnCovered(xs, ys, i, j);
  }

  lemma ColumnsStep(b: nat, x: seq<nat>, y: seq<nat>, i: nat, z: seq<nat>, carryIn: nat, word: nat, carry: nat)
    requires |z| == i
    requires Value(b, z) + WideMultiply(carryIn, Pow(b, i)) == Columns(b, x, y, i)
    requires Dword(b, word, carry) == carryIn + Column(x, y, i, i + 1)
    ensures Value(b, z + [word]) + WideMultiply(carry, Pow(b, i + 1)) == Columns(b, x, y, i + 1)
  {
    var p := Pow(b, i);
    ValueSnoc(b, z, word);
    calc {
      Value(b, z + [word]) + carry * Pow(b, i + 1);
      Value(b, z) + word * p + carry * (b * p);
      { MulAssoc(carry, b, p); MulDistrib(p, word, b * carry); }
      Value(b, z) + (word + b * carry) * p;
      { MulDistrib(p, carryIn, Column(x, y, i, i + 1)); }
      Value(b, z) + carryIn * p + Column(x, y, i, i + 1) * p;
      Columns(b, x, y, i + 1);
    }
  }

  /** The column loop: the first `size` words of the product, and the carry beyond them. */
  method MultiplyColumns(b: nat, x: Storage, y: Storage, r: Storage)
    requires x.Valid(b) && y.Valid(b) && r.offset + r.size <= r.data.Length
    requires r.data != x.data && r.data != y.data
    requires b > 1 && y.size <= x.size <= b
    modifies r.data
    ensures IsWords(b, r.Contents())
    ensures exists carry: nat ::
      Value(b, r.Contents()) + WideMultiply(carry, Pow(b, r.size)) == Columns(b, x.Contents(), y.Contents(), r.size)
    ensures forall k :: 0 <= k < r.data.Length && !(r.offset <= k < r.offset + r.size) ==> r.data[k] == old(r.data[k])
  {
    hide Column, Columns, Dword, CarryLimit, WideMultiply, Pow, Value;
    var size1, size2 := Min(x.size, r.size), Min(y.size, r.size);
    ghost var xs, ys, zs: seq<nat> := x.Contents(), y.Contents(), [];
    var carry: nat := 0;
    ColumnsStart(b, xs, ys, size2);
    for i := 0 to r.size
      invariant |zs| == i && IsWords(b, zs) && carry <= CarryLimit(b, size2)
      invariant Value(b, zs) + WideMultiply(carry, Pow(b, i)) == Columns(b, xs, ys, i)
      invariant forall k :: r.offset <= k < r.offset + i ==> r.data[k] == zs[k - r.offset]
      invariant forall k :: 0 <= k < r.data.Length && !(r.offset <= k < r.offset + i) ==> r.data[k] == old(r.data[k])
    {
      var word, carry' := AccumulateColumn(b, x, size1, y, size2, i, carry);
      ColumnsStep(b, xs, ys, i, zs, carry, word, carry');
      r.data[r.offset + i] := word;
      carry, zs := carry', zs + [word];
    }
    assert r.Contents() == zs;
  }

  lemma ColumnsStart(b: nat, x: seq<nat>, y: seq<nat>, n: nat)
    requires b > 0
    ensures Value(b, []) + WideMultiply(0, Pow(b, 0)) == Columns(b, x, y, 0)
    ensures 0 <= CarryLimit(b, n)
  {
  }

  lemma ProductModulo(b: nat, x: seq<nat>, y: seq<nat>, z: seq<nat>)
    requires b > 0 && IsWords(b, z)
    requires exists carry: nat :: Value(b, z) + WideMultiply(carry, Pow(b, |z|)) == Columns(b, x, y, |z|)
    ensures IsProduct(b, x, false, y, false, z)
  {
    var carry: nat :| Value(b, z) + WideMultiply(carry, Pow(b, |z|)) == Columns(b, x, y, |z|);
    var k := Convolution(b, x, y, |z|);
    PowPositive(b, |z|);
    ValueBound(b, z);
    MulDistrib(Pow(b, |z|), carry, k);
    DivModUnique(Value(b, x) * Value(b, y), Pow(b, |z|), carry + k, Value(b, z));
  }

  // ----- signs -----

  /** The product of the integers that two storages denote. */
  ghost function Product(b: nat, x: seq<nat>, signed1: bool, y: seq<nat>, signed2: bool): (p: int) {
    IntValue(b, x, signed1) * IntValue(b, y, signed2)
  }

  /** The result denotes the product, as far as its words reach. */
  ghost predicate IsProduct(b: nat, x: seq<nat>, signed1: bool, y: seq<nat>, signed2: bool, z: seq<nat>) {
    Pow(b, |z|) > 0 && Value(b, z) == Product(b, x, signed1, y, signed2) % Pow(b, |z|)
  }

  /**
   * The operands and result sizes that are multiplied right. Only the path for two one-word operands can go wrong: it
   * reads both words as unsigned, and then extends the two words of the product by the sign of the result.
   */
  predicate Multiplies(b: nat, x: seq<nat>, signed1: bool, y: seq<nat>, signed2: bool, size: nat) {
    var sign1, sign2 := Negative(b, x, signed1), Negative(b, y, signed2);
    || |x| != 1 || |y| != 1 || size == 1
    || (!sign1 && !sign2)
    || (sign1 && sign2 && 2 * x[0] == b && 2 * y[0] == b)
    || (sign1 != sign2 && size == 2 && (if sign1 then y[0] else x[0]) == 0)
  }

  lemma ModUnchanged(u: int, k: int, p: int)
    requires p > 0
    ensures (u + k * p) % p == u % p
  {
    DivModEquation(u, p);
    MulDistrib(p, u / p, k);
    DivModUnique(u + k * p, p, u / p + k, u % p);
  }

  /** Both operands one word: the double-word product, sign-extended or cut to the result. */
  method MultiplyWords(b: nat, word1: nat, word2: nat, negative: bool, r: Storage)
    requires word1 < b && word2 < b && r.size > 0 && r.offset + r.size <= r.data.Length
    modifies r.data
    ensures var value := WideMultiply(word1, word2);
            r.Contents() == Fit([value % b, value / b], r.size, ExtendSign(b, negative))
    ensures IsWords(b, r.Contents())
    ensures forall k :: 0 <= k < r.data.Length && !(r.offset <= k < r.offset + r.size) ==> r.data[k] == old(r.data[k])
  {
    var value := WideMultiply(word1, word2);
    WordProduct(b, word1, word2);
    r.data[r.offset] := value % b;
    if r.size > 1 {
      r.data[r.offset + 1] := value / b;
      var fill := ExtendSign(b, negative);
      for i := 2 to r.size
        invariant forall k :: r.offset + 2 <= k < r.offset + i ==> r.data[k] == fill
        invariant r.data[r.offset] == value % b && r.data[r.offset + 1] == value / b
        invariant forall k :: 0 <= k < r.data.Length && !(r.offset <= k < r.offset + i) ==> r.data[k] == old(r.data[k])
      {
        r.data[r.offset + i] := fill;
      }
    }
    assert r.Contents() == Fit([value % b, value / b], r.size, ExtendSign(b, negative));
  }

  lemma WordProduct(b: nat, word1: nat, word2: nat)
    requires word1 < b && word2 < b
    ensures var p := WideMultiply(word1, word2);
            0 <= p % b < b && 0 <= p / b < b && Value(b, [p % b, p / b]) == p < b * b
  {
    var p := WideMultiply(word1, word2);
    ProductBound(b, word1, word2);
    DivModEquation(p, b);
    DivBound(p, b, b);
    var s := [p % b, p / b];
    assert s[..1] == [p % b] && s[..1][..0] == [];
    ValueSingle(b, s);
  }

  /** One negative word: the code has v for the product v - b * word2. */
  lemma OneNegative(b: int, word1: int, word2: int, x: int, p: int, z: int)
    requires 0 <= word2 < b && 0 < word1 < b && p >= b * b && x == word1 - b
    requires z == word1 * word2 + p - b * b
    ensures z == (x * word2) % p <==> word2 == 0 && p == b * b
  {
    MulDistrib(word2, word1, b);
    if word2 == 0 {
      DivModUnique(x * word2, p, 0, 0);
    } else {
      MulStrict(word1, b, word2);
      MulMonotone(0, word1, word2);
      MulStrict(word2, b, b);
      DivModUnique(x * word2, p, -1, x * word2 + p);
    }
  }

  lemma NegativeRange(b: int, x: int, y: int)
    requires 0 < b && 0 - b < x <= 0 && 0 - b < y <= 0
    ensures 0 <= x * y < b * b
  {
    var d, e := 0 - x, 0 - y;
    assert x * y == d * e;
    MulNonNegative(d, e);
    MulMonotone(d, b, e);
    MulStrict(e, b, b);
  }

  lemma WordProductOffset(b: int, x: int, y: int)
    ensures (x + b) * (y + b) - x * y == b * (x + y + b)
  {
    MulDistrib(y + b, x, b);
    MulDistrib(x, y, b);
    MulDistrib(b, x, y + b);
  }

  /** Two negative words: the code has v for the product v - b * (word1 + word2 - b). */
  lemma BothNegative(b: int, word1: int, word2: int, x: int, y: int, p: int)
    requires word1 < b <= 2 * word1 && word2 < b <= 2 * word2 && 0 < b && b * b <= p
    requires x == word1 - b && y == word2 - b
    ensures word1 * word2 == (x * y) % p <==> 2 * word1 == b && 2 * word2 == b
  {
    NegativeRange(b, x, y);
    DivModUnique(x * y, p, 0, x * y);
    WordProductOffset(b, x, y);
    if x + y + b > 0 {
      MulMonotone(1, x + y + b, b);
    }
  }

  /** Exactly when the path for two one-word operands is right: always if only the lowest word is kept. */
  lemma LowWordProduct(b: nat, x: seq<nat>, signed1: bool, y: seq<nat>, signed2: bool, z: seq<nat>)
    requires b > 1 && |x| == 1 && |y| == 1 && |z| == 1 && z[0] == WideMultiply(x[0], y[0]) % b
    ensures IsProduct(b, x, signed1, y, signed2, z)
  {
    hide Value, Pow;
    ValueOfWord(b, x);
    ValueOfWord(b, y);
    ValueOfWord(b, z);
    OneWordBase(b);
    WrappedProduct(IntValue(b, x, signed1), Negative(b, x, signed1), 1, IntValue(b, y, signed2),
                   Negative(b, y, signed2), 1, b);
  }

  lemma WideProduct(b: nat, word1: nat, sign1: bool, word2: nat, sign2: bool, x: int, y: int, n: nat, z: nat)
    requires b > 1 && word1 < b && word2 < b && (sign1 ==> 2 * word1 >= b) && (sign2 ==> 2 * word2 >= b)
    requires x == word1 - If(sign1, b) && y == word2 - If(sign2, b)
    requires n >= 2 && z == WideMultiply(word1, word2) + If(sign1 != sign2, Pow(b, n) - b * b)
    ensures Pow(b, n) > 0
    ensures z == (x * y) % Pow(b, n)
       <==> || (!sign1 && !sign2)
            || (sign1 && sign2 && 2 * word1 == b && 2 * word2 == b)
            || (sign1 != sign2 && n == 2 && (if sign1 then word2 else word1) == 0)
  {
    hide Pow;
    PowPositive(b, n);
    TwoWordBase(b, n);
    if sign1 {
      if sign2 {
        BothNegative(b, word1, word2, x, y, Pow(b, n));
      } else {
        OneNegative(b, word1, word2, x, Pow(b, n), z);
      }
    } else if sign2 {
      OneNegative(b, word2, word1, y, Pow(b, n), z);
    } else {
      ProductBound(b, word1, word2);
      DivModUnique(x * y, Pow(b, n), 0, z);
    }
  }

  lemma OneWordProduct(b: nat, x: seq<nat>, signed1: bool, y: seq<nat>, signed2: bool, z: seq<nat>)
    requires b > 1 && |x| == 1 && |y| == 1 && x[0] < b && y[0] < b && |z| > 0
    requires var p := WideMultiply(x[0], y[0]);
             z == Fit([p % b, p / b], |z|, ExtendSign(b, Negative(b, x, signed1) != Negative(b, y, signed2)))
    ensures IsProduct(b, x, signed1, y, signed2, z) <==> Multiplies(b, x, signed1, y, signed2, |z|)
  {
    hide Value, Pow, WideMultiply;
    var sign1, sign2, p := Negative(b, x, signed1), Negative(b, y, signed2), WideMultiply(x[0], y[0]);
    if |z| == 1 {
      LowWordProduct(b, x, signed1, y, signed2, z);
    } else {
      ValueOfWord(b, x);
      ValueOfWord(b, y);
      OneWordBase(b);
      WordProduct(b, x[0], y[0]);
      ExtendedValue(b, [p % b, p / b], sign1 != sign2, |z|);
      TwoWordBase(b, 2);
      WideProduct(b, x[0], sign1, y[0], sign2, IntValue(b, x, signed1), IntValue(b, y, signed2), |z|, Value(b, z));
    }
  }

  lemma OneWordBase(b: nat)
    ensures Pow(b, 1) == b
  {
  }

  lemma TwoWordBase(b: nat, n: nat)
    requires b > 1 && n >= 2
    ensures Pow(b, n) >= b * b && (n == 2 <==> Pow(b, n) == b * b)
  {
    OneWordBase(b);
    assert Pow(b, 2) == b * Pow(b, 1);
    if n > 2 {
      assert Pow(b, 3) == b * Pow(b, 2);
      MulMonotone(2, b, b * b);
      PowMonotone(b, 3, n);
      MulStrict(1, b, b);
    }
  }

  /** With both signs normalized: the magnitudes are multiplied, and the result is negated if the signs differ. */
  lemma NormalizedProduct(x: int, sign1: bool, y: int, sign2: bool, p: int, z: int, r: int)
    requires p > 0 && z == (Signed(sign1, x) * Signed(sign2, y)) % p
    requires r == if sign1 != sign2 then If(z != 0, p) - z else z
    ensures r == (x * y) % p
  {
    var u := Signed(sign1, x) * Signed(sign2, y);
    assert x * y == if sign1 != sign2 then 0 - u else u;
    if sign1 != sign2 {
      DivModEquation(u, p);
      var q := u / p;
      MulDistrib(p, q, 1);
      DivModUnique(0 - u, p, if z != 0 then 0 - q - 1 else 0 - q, r);
    }
  }

  /** Without: operands at least as long as the result may be read as unsigned. */
  lemma WrappedProduct(x: int, sign1: bool, k1: int, y: int, sign2: bool, k2: int, p: int)
    requires p > 0
    ensures ((x + If(sign1, k1 * p)) * (y + If(sign2, k2 * p))) % p == (x * y) % p
  {
    var i, j := If(sign1, k1), If(sign2, k2);
    assert If(sign1, k1 * p) == i * p && If(sign2, k2 * p) == j * p;
    var v := y + j * p;
    calc {
      (x + i * p) * v;
      { MulDistrib(v, x, i * p); MulDistrib(x, y, j * p); }
      x * y + x * (j * p) + (i * p) * v;
      { MulAssoc(x, j, p); MulAssoc(i, p, v); MulAssoc(i, v, p); }
      x * y + (x * j) * p + (i * v) * p;
      { MulDistrib(p, x * j, i * v); }
      x * y + (x * j + i * v) * p;
    }
    ModUnchanged(x * y, x * j + i * v, p);
  }

  /** The magnitude of a negative operand, in a buffer of its own. */
  method Magnitude(b: nat, x: Storage) returns (m: Storage)
    requires b > 1 && x.Valid(b) && x.IsNegative(b)
    ensures fresh(m.data) && m.Valid(b) && !m.isSigned && m.size == x.size
    ensures Value(b, m.Contents()) == 0 - IntValue(b, x.Contents(), x.isSigned)
  {
    hide Value, Pow;
    var data := new nat[x.size];
    m := Storage(data, 0, x.size, false);
    ghost var s := x.Contents();
    var nonZero := Negate(b, x, m);
    if Value(b, s) == 0 {
      ValueIsZero(b, s);
    }
  }

  lemma LongerMultiple(b: nat, n: nat, m: nat) returns (k: nat)
    requires n <= m
    ensures Pow(b, m) == k * Pow(b, n)
  {
    PowAdd(b, m - n, n);
    k := Pow(b, m - n);
  }

  lemma ReadAsUnsigned(b: nat, x: seq<nat>, signed1: bool, y: seq<nat>, signed2: bool, z: seq<nat>)
    requires b > 0 && |z| <= |x| && |z| <= |y| && IsProduct(b, x, false, y, false, z)
    ensures IsProduct(b, x, signed1, y, signed2, z)
  {
    hide Value, Pow;
    var k1 := LongerMultiple(b, |z|, |x|);
    var k2 := LongerMultiple(b, |z|, |y|);
    WrappedProduct(IntValue(b, x, signed1), Negative(b, x, signed1), k1, IntValue(b, y, signed2),
                   Negative(b, y, signed2), k2, Pow(b, |z|));
  }

  /** The path for operands of any size, the first at least as long as the second: normalize, multiply, restore. */
  method MultiplyStorages(b: nat, x: Storage, y: Storage, r: Storage)
    requires x.Valid(b) && y.Valid(b)
    requires r.offset + r.size <= r.data.Length && r.data != x.data && r.data != y.data
    requires b > 1 && y.size <= x.size <= b
    modifies r.data
    ensures IsWords(b, r.Contents())
    ensures forall k :: 0 <= k < r.data.Length && !(r.offset <= k < r.offset + r.size) ==> r.data[k] == old(r.data[k])
    ensures IsProduct(b, x.Contents(), x.isSigned, y.Contents(), y.isSigned, r.Contents())
  {
    hide Columns, Pow, Value, WideMultiply, IsProduct;
    var sign1, sign2 := x.IsNegative(b), y.IsNegative(b);
    var data1, data2 := x, y;
    if y.size < r.size {
      if sign1 {
        data1 := Magnitude(b, x);
      }
      if sign2 {
        data2 := Magnitude(b, y);
      }
    }
    MultiplyColumns(b, data1, data2, r);
    ProductModulo(b, data1.Contents(), data2.Contents(), r.Contents());
    ghost var z := r.Contents();
    if y.size < r.size && sign1 != sign2 {
      var nonZero := Negate(b, r, r);
    }
    if y.size < r.size {
      Normalized(b, x.Contents(), x.isSigned, y.Contents(), y.isSigned, data1.Contents(), data2.Contents(), z,
                 r.Contents());
    } else {
      ReadAsUnsigned(b, x.Contents(), x.isSigned, y.Contents(), y.isSigned, z);
    }
  }

  lemma Normalized(b: nat, x: seq<nat>, signed1: bool, y: seq<nat>, signed2: bool, x': seq<nat>, y': seq<nat>,
                   z: seq<nat>, r: seq<nat>)
    requires var sign1, sign2 := Negative(b, x, signed1), Negative(b, y, signed2);
      && Value(b, x') == Signed(sign1, IntValue(b, x, signed1))
      && Value(b, y') == Signed(sign2, IntValue(b, y, signed2))
      && (if sign1 != sign2 then Value(b, r) == If(Value(b, z) != 0, Pow(b, |z|)) - Value(b, z) else r == z)
    requires |r| == |z| && IsProduct(b, x', false, y', false, z)
    ensures IsProduct(b, x, signed1, y, signed2, r)
  {
    hide Value, Pow;
    NormalizedProduct(IntValue(b, x, signed1), Negative(b, x, signed1), IntValue(b, y, signed2),
                      Negative(b, y, signed2), Pow(b, |z|), Value(b, z), Value(b, r));
  }

  method BaselineMul(b: nat, x: Storage, y: Storage, r: Storage)
    requires x.Valid(b) && y.Valid(b)
    requires r.offset + r.size <= r.data.Length && r.data != x.data && r.data != y.data
    requires b > 1 && x.size <= b && y.size <= b && (x.size == 1 && y.size == 1 ==> r.size > 0)
    modifies r.data
    ensures IsWords(b, r.Contents())
    ensures forall k :: 0 <= k < r.data.Length && !(r.offset <= k < r.offset + r.size) ==> r.data[k] == old(r.data[k])
    ensures IsProduct(b, x.Contents(), x.isSigned, y.Contents(), y.isSigned, r.Contents())
       <==> Multiplies(b, x.Contents(), x.isSigned, y.Contents(), y.isSigned, r.size)
    decreases x.size < y.size
  {
    hide Pow, Value, WideMultiply, IsProduct;
    if x.size == 1 && y.size == 1 {
      MultiplyWords(b, x.data[x.offset], y.data[y.offset], x.IsNegative(b) != y.IsNegative(b), r);
      OneWordProduct(b, x.Contents(), x.isSigned, y.Contents(), y.isSigned, r.Contents());
      return;
    }
    if x.size < y.size {
      BaselineMul(b, y, x, r);
      ProductCommutes(b, x.Contents(), x.isSigned, y.Contents(), y.isSigned, r.Contents());
      return;
    }
    MultiplyStorages(b, x, y, r);
  }

  lemma ProductCommutes(b: nat, x: seq<nat>, signed1: bool, y: seq<nat>, signed2: bool, z: seq<nat>)
    requires IsProduct(b, y, signed2, x, signed1, z)
    ensures IsProduct(b, x, signed1, y, signed2, z)
  {
  }

  /** -1 times 0, in three words: the code leaves a nonzero number. */
  method NegativeByZero(b: nat) returns (r: array<nat>)
    requires b > 1
    ensures r.Length == 3 && IsWords(b, r[..])
    ensures IntValue(b, [b - 1], true) == -1 && IntValue(b, [0], true) == 0 && Value(b, r[..]) != 0
  {
    hide Value, Pow;
    var x, y := new nat[1](_ => b - 1), new nat[1](_ => 0);
    r := new nat[3];
    BaselineMul(b, Storage(x, 0, 1, true), Storage(y, 0, 1, true), Storage(r, 0, 3, false));
    assert x[0..1] == [b - 1] && y[0..1] == [0] && r[0..3] == r[..];
    ValueOfWord(b, [b - 1]);
    ValueOfWord(b, [0]);
    OneWordBase(b);
    PowPositive(b, 3);
    DivModUnique(0, Pow(b, 3), 0, 0);
  }

  lemma ValueOfWord(b: nat, s: seq<nat>)
    requires |s| == 1
    ensures Value(b, s) == s[0]
  {
    ValueSingle(b, s);
    assert s[..1] == s;
  }
}
