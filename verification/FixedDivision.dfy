/** Division of fixed-size unsigned integers: the fast paths, and Algorithm D for the rest. */
module FixedDivision {
  import opened Arithmetic
  import opened BigIntBase
  import opened BigIntMul
  import opened KnuthDivision
  import opened QuotientDigit
  import opened Words

  /** n words are in use: the top one is nonzero, and those above are zero. */
  ghost predicate InUse(s: seq<nat>, n: nat) {
    n <= |s| && (n > 0 ==> s[n - 1] != 0) && (forall k :: n <= k < |s| ==> s[k] == 0)
  }

  /** The words below the zero words at the top. */
  function UsedWords(s: seq<nat>): (n: nat)
    ensures InUse(s, n)
  {
    if |s| == 0 || s[|s| - 1] != 0 then |s| else UsedWords(s[..|s| - 1])
  }

  lemma UsedWordsUnique(s: seq<nat>, n: nat)
    requires InUse(s, n)
    ensures n == UsedWords(s)
  {
    var m := UsedWords(s);
    assert m < n ==> n - 1 < |s|;
    assert n < m ==> m - 1 < |s|;
  }

  /** The scan from the top for the words in use. */
  method WordsInUse(a: array<nat>) returns (n: nat)
    ensures InUse(a[..], n) && n == UsedWords(a[..])
  {
    n := a.Length;
    while n > 0 && a[n - 1] == 0
      invariant n <= a.Length && (forall k :: n <= k < a.Length ==> a[k] == 0)
    {
      n := n - 1;
    }
    UsedWordsUnique(a[..], n);
  }

  lemma InUseValue(b: nat, s: seq<nat>, n: nat)
    requires b > 0 && IsWords(b, s) && InUse(s, n)
    ensures Value(b, s) == Value(b, s[..n]) < Pow(b, n)
    ensures n > 0 ==> Pow(b, n - 1) <= Value(b, s) && Value(b, s) > 0
    ensures n == 0 <==> Value(b, s) == 0
  {
    hide Value, Pow;
    ValueTrim(b, s, n);
    ValueBound(b, s[..n]);
    if n > 0 {
      ValueTop(b, s[..n]);
      PowPositive(b, n - 1);
      MulMonotone(1, s[n - 1], Pow(b, n - 1));
    } else {
      ValueZeros(b, s[..n]);
    }
  }

  /** q and r are the quotient and the remainder. */
  ghost predicate Divided(u: int, v: int, q: int, r: int) {
    u == q * v + r && 0 <= r < v
  }

  lemma DividedIsDivMod(u: nat, v: nat, q: int, r: int)
    requires Divided(u, v, q, r)
    ensures u / v == q && u % v == r
  {
    DivModUnique(u, v, q, r);
  }

  /** set: one word, and zeros above it. */
  method SetWord(b: nat, value: nat, result: array<nat>)
    requires value < b && result.Length > 0
    modifies result
    ensures IsWords(b, result[..]) && Value(b, result[..]) == value
    ensures forall k :: 1 <= k < result.Length ==> result[k] == 0
  {
    result[0] := value;
    for i := 1 to result.Length
      invariant result[0] == value && (forall k :: 1 <= k < i ==> result[k] == 0)
    {
      result[i] := 0;
    }
    ValueTrim(b, result[..], 1);
    ValueSingle(b, result[..]);
  }

  /** copy: the words of the operand from `offset` on that the result has room for, and its sign above them. */
  method CopyWords(b: nat, operand: array<nat>, isSigned: bool, result: array<nat>, offset: nat)
    requires operand != result && IsWords(b, operand[..]) && b > 1 && (isSigned ==> operand.Length > 0)
    modifies result
    ensures IsWords(b, result[..])
    ensures var negative := isSigned && 2 * operand[operand.Length - 1] >= b;
            forall k :: 0 <= k < result.Length ==>
              result[k] == if k + offset < operand.Length then operand[k + offset] else if negative then b - 1 else 0
    ensures Pow(b, offset) > 0 && Pow(b, result.Length) > 0
    ensures Value(b, result[..]) == (IntValue(b, operand[..], isSigned) / Pow(b, offset)) % Pow(b, result.Length)
  {
    hide Value, Pow;
    var fill := ExtendSign(b, isSigned && 2 * operand[operand.Length - 1] >= b);
    for i := 0 to result.Length
      invariant forall k :: 0 <= k < i ==>
                  result[k] == if k + offset < operand.Length then operand[k + offset] else fill
    {
      result[i] := if i + offset < operand.Length then operand[i + offset] else fill;
    }
    CopyDivides(b, operand[..], isSigned, offset, result[..]);
  }

  lemma QuotientOfParts(p: nat, low: nat, high: int, top: int, sign: bool)
    requires low < p
    ensures (low + p * high - If(sign, p * top)) / p == high - If(sign, top)
  {
    MulDistrib(p, high, if sign then 0 - top else 0);
    DivModUnique(low + p * high - If(sign, p * top), p, high - If(sign, top), low);
  }

  lemma QuotientBeyond(p: nat, value: nat, top: nat, sign: bool)
    requires value < top <= p
    ensures (value - If(sign, top)) / p == 0 - If(sign, 1)
  {
    DivModUnique(value - If(sign, top), p, 0 - If(sign, 1), if sign then value - top + p else value);
  }

  /** The words from `offset` on and the sign are the quotient by b^offset, rounded down. */
  lemma RestQuotient(b: nat, s: seq<nat>, isSigned: bool, offset: nat, rest: seq<nat>)
    requires b > 1 && IsWords(b, s) && rest == if offset <= |s| then s[offset..] else []
    ensures Pow(b, offset) > 0
    ensures IntValue(b, s, isSigned) / Pow(b, offset) == Value(b, rest) - If(Negative(b, s, isSigned), Pow(b, |rest|))
  {
    hide Value, Pow, Negative, IsWords;
    PowPositive(b, offset);
    if offset <= |s| {
      RestInside(b, s, Negative(b, s, isSigned), offset);
    } else {
      NoWords(b, rest);
      ValueBound(b, s);
      PowMonotone(b, |s|, offset);
      QuotientBeyond(Pow(b, offset), Value(b, s), Pow(b, |s|), Negative(b, s, isSigned));
    }
  }

  lemma RestInside(b: nat, s: seq<nat>, sign: bool, offset: nat)
    requires b > 1 && IsWords(b, s) && offset <= |s| && Pow(b, offset) > 0
    ensures (Value(b, s) - If(sign, Pow(b, |s|))) / Pow(b, offset)
         == Value(b, s[offset..]) - If(sign, Pow(b, |s| - offset))
  {
    hide Value, Pow;
    ValueSplit(b, s, offset);
    ValueBound(b, s[..offset]);
    PowAdd(b, offset, |s| - offset);
    QuotientOfParts(Pow(b, offset), Value(b, s[..offset]), Value(b, s[offset..]), Pow(b, |s| - offset), sign);
  }

  /** Cut to n words, or extended to them by the sign, a number is itself modulo b^n. */
  lemma FitModulo(b: nat, rest: seq<nat>, sign: bool, n: nat)
    requires b > 1 && IsWords(b, rest)
    ensures Pow(b, n) > 0
    ensures Value(b, Fit(rest, n, ExtendSign(b, sign))) == (Value(b, rest) - If(sign, Pow(b, |rest|))) % Pow(b, n)
  {
    hide Value, Pow;
    var t, p, q := Fit(rest, n, ExtendSign(b, sign)), Pow(b, n), Value(b, rest) - If(sign, Pow(b, |rest|));
    PowPositive(b, n);
    ValueBound(b, t);
    if |rest| <= n {
      ExtendedValue(b, rest, sign, n);
      DivModUnique(q, p, 0 - If(sign, 1), Value(b, t));
    } else {
      ValueSplit(b, rest, n);
      assert t == rest[..n];
      var m := |rest| - n;
      PowAdd(b, n, m);
      MulDistrib(p, Value(b, rest[n..]), If(sign, Pow(b, m)));
      DivModUnique(q, p, Value(b, rest[n..]) - If(sign, Pow(b, m)), Value(b, t));
    }
  }

  lemma CopyDivides(b: nat, s: seq<nat>, isSigned: bool, offset: nat, t: seq<nat>)
    requires b > 1 && IsWords(b, s)
    requires var fill := ExtendSign(b, Negative(b, s, isSigned));
             forall i :: 0 <= i < |t| ==> t[i] == if i + offset < |s| then s[i + offset] else fill
    ensures Pow(b, offset) > 0 && Pow(b, |t|) > 0
    ensures Value(b, t) == (IntValue(b, s, isSigned) / Pow(b, offset)) % Pow(b, |t|)
  {
    hide Value, Pow;
    var rest, sign := if offset <= |s| then s[offset..] else [], Negative(b, s, isSigned);
    RestQuotient(b, s, isSigned, offset, rest);
    FitModulo(b, rest, sign, |t|);
    assert t == Fit(rest, |t|, ExtendSign(b, sign));
  }

  /** A copy without offset into a result that is long enough keeps the integer. */
  lemma CopiedInteger(b: nat, s: seq<nat>, isSigned: bool, t: seq<nat>)
    requires b > 1 && |s| <= |t| && (isSigned ==> |s| > 0)
    requires var fill := ExtendSign(b, Negative(b, s, isSigned));
             forall i :: 0 <= i < |t| ==> t[i] == if i < |s| then s[i] else fill
    ensures IntValue(b, t, isSigned) == IntValue(b, s, isSigned)
  {
    hide Value, Pow;
    FitValue(b, s, isSigned, |t|);
    assert t == Fit(s, |t|, ExtendSign(b, Negative(b, s, isSigned)));
  }

  /** An unsigned copy keeps the number if the result holds all words in use. */
  lemma CopiedValue(b: nat, s: seq<nat>, n: nat, t: seq<nat>)
    requires b > 0 && InUse(s, n) && n <= |t| && (forall k :: 0 <= k < |t| ==> t[k] == if k < |s| then s[k] else 0)
    ensures Value(b, t) == Value(b, s)
  {
    ValueTrim(b, s, n);
    ValueTrim(b, t, n);
    assert t[..n] == s[..n];
  }

  // ----- by one word -----

  /** The words from i on are divided, and the carry is what remains of them. */
  ghost predicate DividedFrom(b: nat, s: seq<nat>, q: seq<nat>, divisor: nat, carry: nat) {
    IsWords(b, q) && Divided(Value(b, s), divisor, Value(b, q), carry)
  }

  lemma DivideWord(b: nat, s: seq<nat>, q: seq<nat>, divisor: nat, carry: nat, word: nat)
    requires DividedFrom(b, s, q, divisor, carry) && word < b && divisor > 0
    ensures var r := DivModWords(b, word, carry, divisor);
            DividedFrom(b, [word] + s, [r.0] + q, divisor, r.1)
  {
    hide Value;
    var r := DivModWords(b, word, carry, divisor);
    ValueConcat(b, [word], s);
    ValueConcat(b, [r.0], q);
    ValueOfWord(b, [word]);
    ValueOfWord(b, [r.0]);
    OneWordBase(b);
    DigitFits(b, word, carry, divisor);
    var x, y := Value(b, s), Value(b, q);
    calc {
      word + b * x;
      { MulDistrib(b, y * divisor, carry); }
      word + b * carry + b * (y * divisor);
      { MulAssoc(b, y, divisor); }
      r.0 * divisor + r.1 + (b * y) * divisor;
      { MulDistrib(divisor, r.0, b * y); }
      (r.0 + b * y) * divisor + r.1;
    }
  }

  /** A carry below the divisor makes the next digit a word. */
  lemma DigitFits(b: nat, word: nat, carry: nat, divisor: nat)
    requires word < b && carry < divisor
    ensures DivModWords(b, word, carry, divisor).0 < b
  {
    var q, u := DivModWords(b, word, carry, divisor).0, Dword(b, word, carry);
    MulMonotone(carry + 1, divisor, b);
    MulDistrib(b, carry, 1);
    if q >= b {
      MulMonotone(b, q, divisor);
    }
  }

  /** The first two words are divided together, the others one by one with the carry. */
  method DivideByWord(b: nat, x: array<nat>, m: nat, divisor: nat, quotient: array<nat>) returns (carry: nat)
    requires x != quotient && 2 <= m <= x.Length == quotient.Length && b > 0 && IsWords(b, x[..]) && 0 < divisor < b
    modifies quotient
    ensures DividedFrom(b, x[..m], quotient[..m], divisor, carry)
    ensures forall k :: m <= k < quotient.Length ==> quotient[k] == 0
  {
    hide Value, DividedFrom, Dword, DivModWords;
    var u := Dword(b, x[m - 2], x[m - 1]);
    DivModEquation(u, divisor);
    var top: nat := u / divisor;
    quotient[m - 1] := top / b;
    quotient[m - 2] := top % b;
    carry := u % divisor;
    DivModEquation(top, b);
    TopTwo(b, x[m - 2], x[m - 1], divisor, top % b, top / b, carry);
    ghost var qs: seq<nat> := [top % b, top / b];
    assert x[m - 2..m] == [x[m - 2], x[m - 1]];
    var i := m - 2;
    while i > 0
      invariant 0 <= i <= m - 2 && |qs| == m - i && DividedFrom(b, x[i..m], qs, divisor, carry)
      invariant forall k :: i <= k < m ==> quotient[k] == qs[k - i]
      modifies quotient
    {
      i := i - 1;
      DivideWord(b, x[i + 1..m], qs, divisor, carry, x[i]);
      assert x[i..m] == [x[i]] + x[i + 1..m];
      var digit := DivModWords(b, x[i], carry, divisor);
      quotient[i] := digit.0;
      qs := [digit.0] + qs;
      carry := digit.1;
    }
    assert quotient[..m] == qs && x[0..m] == x[..m];
    ClearAbove(quotient, m);
  }

  method ClearAbove(a: array<nat>, m: nat)
    requires m <= a.Length
    modifies a
    ensures a[..m] == old(a[..m]) && (forall k :: m <= k < a.Length ==> a[k] == 0)
  {
    for i := m to a.Length
      invariant a[..m] == old(a[..m]) && (forall k :: m <= k < i ==> a[k] == 0)
    {
      a[i] := 0;
    }
  }

  lemma TopTwo(b: nat, low: nat, high: nat, divisor: nat, q0: nat, q1: nat, carry: nat)
    requires low < b && high < b && divisor > 0 && q0 < b && Divided(Dword(b, low, high), divisor, q0 + b * q1, carry)
    ensures DividedFrom(b, [low, high], [q0, q1], divisor, carry)
  {
    hide Value;
    TwoWordValue(b, low, high);
    TwoWordValue(b, q0, q1);
    assert q1 < b by {
      MulMonotone(1, divisor, q0 + b * q1);
      MulMonotone(high, b - 1, b);
      MulDistrib(b, b, 1);
      MulCancel(q1, b, b);
    }
  }

  lemma TwoWordValue(b: nat, low: nat, high: nat)
    ensures Value(b, [low, high]) == low + b * high
  {
    ValueSnoc(b, [low], high);
    ValueOfWord(b, [low]);
    assert [low] + [high] == [low, high] && Pow(b, 1) == b;
  }

  // ----- the dispatch -----

  /** How many words of the remainder a division writes: Algorithm D writes no more than its dividend has. */
  function Written(dividendWords: nat, divisorWords: nat): (n: nat)
    requires dividendWords > 0 && divisorWords > 0
    ensures 1 <= n <= divisorWords
  {
    if dividendWords + 1 < divisorWords then dividendWords + 1 else divisorWords
  }

  /** The quotient words q and the first n remainder words of r divide u by v. */
  ghost predicate Correct(b: nat, u: nat, v: nat, q: seq<nat>, r: seq<nat>, n: nat)
    requires n <= |r|
  {
    IsWords(b, q) && IsWords(b, r[..n]) && Divided(u, v, Value(b, q), Value(b, r[..n]))
  }

  /** A remainder with zeros from n on. */
  lemma CorrectWhole(b: nat, u: nat, v: nat, q: seq<nat>, r: seq<nat>, n: nat)
    requires n <= |r| && IsWords(b, q) && IsWords(b, r) && (forall k :: n <= k < |r| ==> r[k] == 0)
    requires Divided(u, v, Value(b, q), Value(b, r))
    ensures Correct(b, u, v, q, r, n)
  {
    ValueTrim(b, r, n);
  }

  /** divisor == 1 */
  method DivideByOne(b: nat, x: array<nat>, quotient: array<nat>, remainder: array<nat>)
    requires b >= 2 && x != quotient && x != remainder && quotient != remainder && IsWords(b, x[..])
    requires x.Length == quotient.Length > 0 && remainder.Length > 0
    modifies quotient, remainder
    ensures Correct(b, Value(b, x[..]), 1, quotient[..], remainder[..], Written(x.Length, remainder.Length))
    ensures forall k :: 1 <= k < remainder.Length ==> remainder[k] == 0
  {
    hide Value;
    CopyWords(b, x, false, quotient, 0);
    assert quotient[..] == x[..];
    SetWord(b, 0, remainder);
    assert quotient[..] == x[..];
    CorrectWhole(b, Value(b, x[..]), 1, quotient[..], remainder[..], Written(x.Length, remainder.Length));
  }

  /** dividend < divisor */
  method DivideSmaller(b: nat, x: array<nat>, m: nat, quotient: array<nat>, remainder: array<nat>, ghost v: nat)
    requires b >= 2 && x != quotient && x != remainder && quotient != remainder && IsWords(b, x[..])
    requires x.Length == quotient.Length > 0 && InUse(x[..], m) && m < remainder.Length && Value(b, x[..]) < v
    modifies quotient, remainder
    ensures Correct(b, Value(b, x[..]), v, quotient[..], remainder[..], Written(x.Length, remainder.Length))
    ensures forall k :: Written(x.Length, remainder.Length) <= k < remainder.Length ==> remainder[k] == 0
  {
    hide Value;
    SetWord(b, 0, quotient);
    CopyWords(b, x, false, remainder, 0);
    CopiedValue(b, x[..], m, remainder[..]);
    CorrectWhole(b, Value(b, x[..]), v, quotient[..], remainder[..], Written(x.Length, remainder.Length));
  }

  /** One word by one word, or several by one. */
  method DivideBySingle(b: nat, x: array<nat>, m: nat, divisor: nat, quotient: array<nat>, remainder: array<nat>)
    requires b >= 2 && x != quotient && x != remainder && quotient != remainder && IsWords(b, x[..])
    requires x.Length == quotient.Length > 0 && remainder.Length > 0 && InUse(x[..], m) && m >= 1 && 0 < divisor < b
    modifies quotient, remainder
    ensures Correct(b, Value(b, x[..]), divisor, quotient[..], remainder[..], Written(x.Length, remainder.Length))
    ensures forall k :: 1 <= k < remainder.Length ==> remainder[k] == 0
  {
    hide Value;
    ValueTrim(b, x[..], m);
    assert x[..][..m] == x[..m];
    if m == 1 {
      ValueOfWord(b, x[..1]);
      DivModEquation(x[0], divisor);
      QuotientBelow(x[0], divisor);
      SetWord(b, x[0] / divisor, quotient);
      SetWord(b, x[0] % divisor, remainder);
    } else {
      var carry := DivideByWord(b, x, m, divisor, quotient);
      ValueTrim(b, quotient[..], m);
      assert quotient[..][..m] == quotient[..m];
      assert IsWords(b, quotient[..]);
      SetWord(b, carry, remainder);
    }
    CorrectWhole(b, Value(b, x[..]), divisor, quotient[..], remainder[..], Written(x.Length, remainder.Length));
  }

  lemma QuotientBelow(u: nat, v: nat)
    requires v > 0
    ensures 0 <= u / v <= u
  {
    DivModEquation(u, v);
    MulMonotone(1, v, u / v);
  }

  /** Algorithm D on copies, the dividend with a spare word. */
  method DivideByKnuth(w: nat, x: array<nat>, m: nat, y: array<nat>, n: nat, quotient: array<nat>,
                       remainder: array<nat>)
    requires w > 0 && x != quotient && x != remainder && y != quotient && y != remainder && quotient != remainder
    requires x.Length == quotient.Length > 0 && y.Length == remainder.Length > 0
    requires IsWords(Pow(2, w), x[..]) && IsWords(Pow(2, w), y[..]) && InUse(x[..], m) && InUse(y[..], n) && 2 <= n <= m
    modifies quotient, remainder
    ensures Correct(Pow(2, w), Value(Pow(2, w), x[..]), Value(Pow(2, w), y[..]), quotient[..], remainder[..],
                    Written(x.Length, y.Length))
    ensures forall k :: Written(x.Length, y.Length) <= k < remainder.Length ==> remainder[k] == old(remainder[k])
  {
    hide Value, Pow;
    var b := Pow(2, w);
    BaseFits(w);
    var dividend := new nat[x.Length + 1];
    CopyWords(b, x, false, dividend, 0);
    CopiedValue(b, x[..], m, dividend[..]);
    var divisor := new nat[y.Length];
    CopyWords(b, y, false, divisor, 0);
    assert divisor[..] == y[..];
    DivModInternal(w, dividend, divisor, quotient, remainder, m, n, true);
    var u, v := Value(b, x[..]), Value(b, y[..]);
    DivModEquation(u, v);
  }

  /**
   * Quotient and remainder of storages of any two sizes; the check for a zero divisor is the only one that can fail.
   * When the divisor has at least two words more than the dividend, Algorithm D leaves the words of the remainder
   * above `Written` as they are.
   */
  method DivMod(w: nat, x: array<nat>, y: array<nat>, quotient: array<nat>, remainder: array<nat>) returns (ok: bool)
    requires w > 0 && x != quotient && x != remainder && y != quotient && y != remainder && quotient != remainder
    requires x.Length == quotient.Length > 0 && y.Length == remainder.Length > 0
    requires IsWords(Pow(2, w), x[..]) && IsWords(Pow(2, w), y[..])
    modifies quotient, remainder
    ensures ok <==> Value(Pow(2, w), y[..]) != 0
    ensures ok ==>
              Correct(Pow(2, w), Value(Pow(2, w), x[..]), Value(Pow(2, w), y[..]), quotient[..], remainder[..],
                      Written(x.Length, y.Length))
    ensures ok ==>
              (Value(Pow(2, w), remainder[..]) == Value(Pow(2, w), x[..]) % Value(Pow(2, w), y[..])
               <==> || UsedWords(y[..]) < 2
                    || UsedWords(x[..]) < UsedWords(y[..])
                    || forall k :: Written(x.Length, y.Length) <= k < remainder.Length ==> old(remainder[k]) == 0)
  {
    hide Value, Pow, Correct, UsedWords;
    ghost var stale := remainder[..];
    var b := Pow(2, w);
    BaseFits(w);
    var n := WordsInUse(y);
    var m := WordsInUse(x);
    InUseValue(b, y[..], n);
    InUseValue(b, x[..], m);
    if n == 0 {
      return false;
    }
    ok := true;
    if n == 1 {
      ValueOfWord(b, y[..1]);
      assert y[..][..1] == y[..1];
    }
    if n == 1 && y[0] == 1 {
      DivideByOne(b, x, quotient, remainder);
    } else if m < n {
      PowMonotone(b, m, n - 1);
      DivideSmaller(b, x, m, quotient, remainder, Value(b, y[..]));
    } else if n == 1 {
      DivideBySingle(b, x, m, y[0], quotient, remainder);
    } else {
      DivideByKnuth(w, x, m, y, n, quotient, remainder);
    }
    WholeRemainder(b, Value(b, x[..]), Value(b, y[..]), quotient[..], remainder[..], Written(x.Length, y.Length));
  }

  /** Two words by four, of which two are in use: the top remainder word is never written. */
  method StaleRemainder() returns (remainder: array<nat>)
    ensures Value(2, [0, 1]) == 2 && Value(2, [0, 1, 0, 0]) == 2 && Value(2, remainder[..]) != 2 % 2
  {
    hide Value, Pow, Correct;
    var x, y, quotient := new nat[][0, 1], new nat[][0, 1, 0, 0], new nat[2];
    remainder := new nat[][0, 0, 0, 1];
    OneWordBase(2);
    TwoWordValue(2, 0, 1);
    ValueTrim(2, y[..], 2);
    assert x[..] == [0, 1] && y[..] == [0, 1, 0, 0] && y[..][..2] == [0, 1];
    UsedWordsUnique(x[..], 2);
    UsedWordsUnique(y[..], 2);
    assert remainder[3] == 1;
    var ok := DivMod(1, x, y, quotient, remainder);
  }

  /** With the words above `Written` zero beforehand the whole remainder storage denotes the remainder. */
  lemma WholeRemainder(b: nat, u: nat, v: nat, q: seq<nat>, r: seq<nat>, n: nat)
    requires n <= |r| && Correct(b, u, v, q, r, n) && v > 0
    ensures Value(b, q) == u / v && Value(b, r[..n]) == u % v
    ensures b > 0 ==> (Value(b, r) == u % v <==> forall k :: n <= k < |r| ==> r[k] == 0)
  {
    hide Value;
    DividedIsDivMod(u, v, Value(b, q), Value(b, r[..n]));
    ValueSplit(b, r, n);
    if b > 0 {
      PowPositive(b, n);
      ZeroValue(b, r[n..]);
      var high := Value(b, r[n..]);
      assert (forall k :: n <= k < |r| ==> r[k] == 0) <==> (forall k :: 0 <= k < |r[n..]| ==> r[n..][k] == 0) by {
        assert forall k :: n <= k < |r| ==> r[k] == r[n..][k - n];
      }
      if high > 0 {
        MulMonotone(1, high, Pow(b, n));
      }
    }
  }

  lemma ZeroValue(b: nat, s: seq<nat>)
    requires b > 0
    ensures Value(b, s) == 0 <==> forall k :: 0 <= k < |s| ==> s[k] == 0
  {
    hide Value;
    if Value(b, s) == 0 {
      ValueIsZero(b, s);
    }
    if forall k :: 0 <= k < |s| ==> s[k] == 0 {
      ValueZeros(b, s);
    }
  }

  lemma BaseFits(w: nat)
    requires w > 0
    ensures Pow(2, w) >= 2
  {
    PowMonotone(2, 1, w);
  }
}
