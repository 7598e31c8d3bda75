/** Accumulating the digits of a decimal text in a MinimalBigInt, up to a limit and with a sticky digit beyond it. */
module DecimalDigits {
  import opened Arithmetic
  import opened EightDigits
  import opened MinimalBigInt
  import opened Prelude
  import opened Words

  const MAX_DIGITS: nat := 769
  const MAX_GROUP: nat := 19
  const ZERO: Byte := 0x30

  // ----- what is kept -----

  /** The digits from the first that is not zero on. */
  function AfterZeros(s: seq<Byte>): (t: seq<Byte>)
    ensures t == [] || t[0] != ZERO
    ensures AllDigits(s) ==> AllDigits(t)
  {
    if s == [] || s[0] != ZERO then s else AfterZeros(s[1..])
  }

  predicate HasNonZero(s: seq<Byte>) {
    exists i :: 0 <= i < |s| && s[i] != ZERO
  }

  /** How many digits are kept. */
  function KeptCount(s: seq<Byte>, maxTotal: nat): (n: nat)
    ensures n <= |s| && n <= maxTotal
  {
    if |s| < maxTotal then |s| else maxTotal
  }

  /** The kept digits, followed by a digit 1 if a digit other than zero is dropped. */
  function Truncated(s: seq<Byte>, maxTotal: nat): (v: int) {
    var n := KeptCount(s, maxTotal);
    var kept := Spelled(s[..n]);
    if HasNonZero(s[n..]) then 10 * kept + 1 else kept
  }

  lemma {:induction false} AfterZerosSpells(s: seq<Byte>)
    ensures Spelled(AfterZeros(s)) == Spelled(s)
  {
    if s != [] && s[0] == ZERO {
      AfterZerosSpells(s[1..]);
      SpelledConcat([s[0]], s[1..]);
      assert s == [s[0]] + s[1..] && Spelled([s[0]]) == 0;
    }
  }

  lemma {:induction false} AfterZerosConcat(s: seq<Byte>, t: seq<Byte>)
    ensures AfterZeros(s + t) == if AfterZeros(s) == [] then AfterZeros(t) else AfterZeros(s) + t
  {
    if s == [] {
      assert s + t == t;
    } else if s[0] == ZERO {
      AfterZerosConcat(s[1..], t);
      assert (s + t)[1..] == s[1..] + t;
    }
  }

  lemma {:induction false} SkipZeros(s: seq<Byte>, n: nat)
    requires n <= |s| && (forall i :: 0 <= i < n ==> s[i] == ZERO) && (n < |s| ==> s[n] != ZERO)
    ensures AfterZeros(s) == s[n..]
  {
    if n > 0 {
      SkipZeros(s[1..], n - 1);
      assert s[1..][n - 1..] == s[n..];
    }
  }

  lemma {:induction false} NonZeroSpells(s: seq<Byte>)
    requires AllDigits(s)
    ensures HasNonZero(s) <==> Spelled(s) > 0
  {
    SpelledBound(s);
    if s != [] {
      var n := |s| - 1;
      NonZeroSpells(s[..n]);
      SpelledBound(s[..n]);
      assert HasNonZero(s) <==> HasNonZero(s[..n]) || s[n] != ZERO by {
        if HasNonZero(s[..n]) {
          var i :| 0 <= i < n && s[..n][i] != ZERO;
          assert s[i] != ZERO;
        }
        if HasNonZero(s) && s[n] == ZERO {
          var i :| 0 <= i < |s| && s[i] != ZERO;
          assert s[..n][i] != ZERO;
        }
      }
    }
  }

  lemma DigitsPart(s: seq<Byte>, n: nat)
    requires AllDigits(s) && n <= |s|
    ensures AllDigits(s[n..])
  {
  }

  /** Digits that reach the limit with nothing but zeros behind it, or not at all, lose nothing. */
  lemma TruncatedExactly(s: seq<Byte>, maxTotal: nat)
    requires AllDigits(s) && !HasNonZero(s[KeptCount(s, maxTotal)..])
    ensures Truncated(s, maxTotal) * Pow(10, |s| - KeptCount(s, maxTotal)) == Spelled(s)
  {
    hide Spelled, Pow, HasNonZero, KeptCount, AllDigits;
    var n := KeptCount(s, maxTotal);
    DigitsPart(s, n);
    NonZeroSpells(s[n..]);
    SpelledBound(s[n..]);
    SpelledConcat(s[..n], s[n..]);
    assert s == s[..n] + s[n..];
  }

  /** The sticky digit stands for what is dropped: no number of kept digits can tell the difference. */
  lemma TruncatedOrder(s: seq<Byte>, maxTotal: nat, t: int)
    requires AllDigits(s) && HasNonZero(s[KeptCount(s, maxTotal)..])
    ensures var scale := Pow(10, |s| - KeptCount(s, maxTotal));
            && (Spelled(s) < t * scale <==> Truncated(s, maxTotal) < 10 * t)
            && (Spelled(s) > t * scale <==> Truncated(s, maxTotal) > 10 * t)
  {
    hide Spelled, Pow, HasNonZero, KeptCount, AllDigits;
    var n := KeptCount(s, maxTotal);
    DigitsPart(s, n);
    var kept, rest, scale := Spelled(s[..n]), Spelled(s[n..]), Pow(10, |s| - n);
    NonZeroSpells(s[n..]);
    SpelledBound(s[n..]);
    SpelledConcat(s[..n], s[n..]);
    assert s == s[..n] + s[n..];
    if kept < t {
      MulMonotone(kept + 1, t, scale);
      MulDistrib(scale, kept, 1);
    } else {
      MulMonotone(t, kept, scale);
    }
  }

  // ----- reading -----

  /** All the digits that can be kept fit the words, with one more. */
  lemma DigitsFit(n: nat, v: nat)
    requires n <= MAX_DIGITS + 1 && v < Pow(10, n)
    ensures v < Pow(BASE, MAX_WORDS)
  {
    hide Pow;
    PowBaseMonotone(10, 16, n);
    TwoToTheFive();
    PowMul(2, 4, n);
    PowMonotone(2, 4 * n, WORD_BITS * MAX_WORDS);
    BaseIsPower();
    PowMul(2, WORD_BITS, MAX_WORDS);
  }

  lemma {:induction false} PackedZeros(s: seq<Byte>)
    ensures Pack(s) == Repeat(ZERO, |s|) <==> !HasNonZero(s)
  {
    if s != [] {
      PackedZeros(s[1..]);
      assert HasNonZero(s) <==> s[0] != ZERO || HasNonZero(s[1..]) by {
        if HasNonZero(s[1..]) {
          var i :| 0 <= i < |s| - 1 && s[1..][i] != ZERO;
          assert s[i + 1] != ZERO;
        }
        if HasNonZero(s) && s[0] == ZERO {
          var i :| 0 <= i < |s| && s[i] != ZERO;
          assert s[1..][i - 1] != ZERO;
        }
      }
    }
  }

  lemma EightZeros()
    ensures Repeat(ZERO, 8) == 0x3030303030303030
  {
    assert Repeat(ZERO, 4) == 0x30303030;
  }

  /** does_truncate_non_zero: eight bytes at a time, then one at a time. */
  method DoesTruncateNonZero(s: seq<Byte>) returns (r: bool)
    ensures r == HasNonZero(s)
  {
    hide Pack, Repeat;
    EightZeros();
    var head: nat := 0;
    while |s| - head >= 8
      invariant head <= |s| && !HasNonZero(s[..head])
    {
      var eight := s[head..head + 8];
      PackedZeros(eight);
      HasNonZeroSplit(s, head, head + 8);
      if Pack(eight) != 0x3030303030303030 {
        return true;
      }
      head := head + 8;
    }
    while head != |s|
      invariant head <= |s| && !HasNonZero(s[..head])
    {
      if s[head] != ZERO {
        return true;
      }
      head := head + 1;
    }
    assert s[..|s|] == s;
    return false;
  }

  lemma HasNonZeroSplit(s: seq<Byte>, m: nat, n: nat)
    requires m <= n <= |s|
    ensures HasNonZero(s[m..n]) ==> HasNonZero(s)
    ensures !HasNonZero(s[..m]) && !HasNonZero(s[m..n]) ==> !HasNonZero(s[..n])
  {
    if HasNonZero(s[m..n]) {
      var i :| 0 <= i < n - m && s[m..n][i] != ZERO;
      assert s[m + i] != ZERO;
    }
    if HasNonZero(s[..n]) {
      var i :| 0 <= i < n && s[..n][i] != ZERO;
      if i < m {
        assert s[..m][i] != ZERO;
      } else {
        assert s[m..n][i - m] != ZERO;
      }
    }
  }

  /** One group of at most 19 digits: eight at a time, then one at a time. */
  method ReadGroup(digits: seq<Byte>, start: nat, parsed: nat, maxTotal: nat) returns (word: nat, count: nat)
    requires AllDigits(digits) && start <= |digits| && parsed <= maxTotal
    ensures count == Min(MAX_GROUP, Min(|digits| - start, maxTotal - parsed))
    ensures word == Spelled(digits[start..start + count]) && word < Pow(10, count)
  {
    hide Spelled, Pow, EightDigitsToValue, Pack;
    word, count := 0, 0;
    GroupStarts(digits, start);
    while MAX_GROUP - count >= 8 && |digits| - (start + count) >= 8 && maxTotal - (parsed + count) >= 8
      invariant start + count <= |digits| && count <= MAX_GROUP && parsed + count <= maxTotal
      invariant word == Spelled(digits[start..start + count])
    {
      var eight := digits[start + count..start + count + 8];
      EightDigitsCorrect(eight);
      SpelledExtends(digits, start, start + count, start + count + 8);
      TenToTheEight();
      word := word * 100_000_000 + EightDigitsToValue(Pack(eight));
      count := count + 8;
    }
    while count < MAX_GROUP && start + count != |digits| && parsed + count < maxTotal
      invariant start + count <= |digits| && count <= MAX_GROUP && parsed + count <= maxTotal
      invariant word == Spelled(digits[start..start + count])
    {
      SpelledDigit(digits, start, start + count);
      word := word * 10 + (digits[start + count] - ZERO);
      count := count + 1;
    }
    SpelledBound(digits[start..start + count]);
  }

  lemma GroupStarts(digits: seq<Byte>, start: nat)
    requires start <= |digits|
    ensures Spelled(digits[start..start]) == 0
  {
  }

  /** The number accumulated so far: exact, canonical, and nothing at all until a nonzero digit comes. */
  ghost predicate Accumulated(value: MinimalBigInt, number: int, parsed: nat)
    reads value, value.words
  {
    && value.Valid() && value.Canonical() && value.Number() == number < Pow(10, parsed)
    && (parsed == 0 <==> value.used == 0)
  }

  /** One group appended. */
  method AppendGroup(value: MinimalBigInt, word: nat, count: nat, ghost number: int, ghost parsed: nat)
    requires Accumulated(value, number, parsed) && 1 <= count <= MAX_GROUP && word < Pow(10, count)
    requires parsed + count <= MAX_DIGITS + 1 && (parsed == 0 ==> word > 0)
    modifies value`used, value.words
    ensures Accumulated(value, number * Pow(10, count) + word, parsed + count)
  {
    hide Value, Pow;
    PowAdd(10, parsed, count);
    MulStrict(number, Pow(10, parsed), Pow(10, count));
    DigitsFit(parsed + count, number * Pow(10, count) + word);
    TenPowers(count);
    value.AddDigits(word, count);
  }

  /** A digit 1 behind a group goes into the same word if there is room in it, else it is appended on its own. */
  method AppendLast(value: MinimalBigInt, word: nat, count: nat, truncated: bool, ghost number: int,
                    ghost parsed: nat)
    requires Accumulated(value, number, parsed) && count <= MAX_GROUP && word < Pow(10, count)
    requires parsed + count <= MAX_DIGITS && (parsed == 0 && count > 0 ==> word > 0) && (count > 0 || truncated)
    modifies value`used, value.words
    ensures value.Valid() && value.Canonical()
    ensures var kept := number * Pow(10, count) + word;
            value.Number() == if truncated then 10 * kept + 1 else kept
  {
    hide Value, Pow;
    OneDigit(count);
    StickyDigit(number, word, count);
    if truncated && count != MAX_GROUP {
      AppendGroup(value, word * 10 + 1, count + 1, number, parsed);
    } else {
      AppendGroup(value, word, count, number, parsed);
      if truncated {
        AppendGroup(value, 1, 1, number * Pow(10, count) + word, parsed + count);
      }
    }
  }

  lemma StickyDigit(number: int, word: int, count: nat)
    ensures var kept := number * Pow(10, count) + word;
            && number * Pow(10, count + 1) + (word * 10 + 1) == 10 * kept + 1
            && kept * Pow(10, 1) + 1 == 10 * kept + 1
  {
    hide Pow;
    OneDigit(count);
    MulAssoc(number, 10, Pow(10, count));
    MulAssoc(10, number, Pow(10, count));
  }

  lemma OneDigit(count: nat)
    ensures Pow(10, count + 1) == 10 * Pow(10, count) && Pow(10, 1) == 10 && Pow(10, 0) == 1
  {
  }

  /** The number after digits that were added to another one. */
  ghost function Appended(number: int, s: seq<Byte>): (v: int) {
    number * Pow(10, |s|) + Spelled(s)
  }

  lemma AppendedTwice(number: int, s: seq<Byte>, m: nat, n: nat)
    requires m <= n <= |s|
    ensures Appended(Appended(number, s[..m]), s[m..n]) == Appended(number, s[..n])
  {
    hide Pow, Spelled;
    PowAdd(10, m, n - m);
    MulAssoc(number, Pow(10, m), Pow(10, n - m));
    MulDistrib(Pow(10, n - m), number * Pow(10, m), Spelled(s[..m]));
    SpelledConcat(s[..m], s[m..n]);
    assert s[..n] == s[..m] + s[m..n];
  }

  lemma AppendedAll(number: int, s: seq<Byte>)
    ensures Appended(number, s[..|s|]) == Appended(number, s)
  {
    assert s[..|s|] == s;
  }

  lemma AppendedNothing(number: int, s: seq<Byte>)
    ensures Appended(number, s[..0]) == number
  {
  }

  /**
   * The lambda add_digits after the leading zeros. At the limit the digits that remain, and those of the fraction
   * `beyond`, only count as a sticky digit.
   */
  method AddSignificant(value: MinimalBigInt, s: seq<Byte>, beyond: seq<Byte>, parsed: nat, maxTotal: nat,
                        ghost number: int) returns (after: nat, hit: bool)
    requires Accumulated(value, number, parsed) && AllDigits(s) && (parsed == 0 && s != [] ==> s[0] != ZERO)
    requires parsed <= maxTotal <= MAX_DIGITS && (parsed == maxTotal ==> parsed == 0)
    modifies value`used, value.words
    ensures hit <==> s != [] && |s| >= maxTotal - parsed
    ensures !hit ==> after == parsed + |s| && Accumulated(value, Appended(number, s), after)
    ensures hit ==>
              var room := maxTotal - parsed;
              var kept := Appended(number, s[..room]);
              && after == maxTotal && value.Valid() && value.Canonical()
              && value.Number() == if HasNonZero(s[room..]) || HasNonZero(beyond) then 10 * kept + 1 else kept
  {
    hide Accumulated, Pow, Spelled, HasNonZero, Appended, AllDigits;
    var head: nat := 0;
    after := parsed;
    AppendedNothing(number, s);
    while head != |s|
      invariant head <= |s| && after == parsed + head && (head > 0 ==> after < maxTotal)
      invariant Accumulated(value, Appended(number, s[..head]), after)
    {
      var word, count := ReadGroup(s, head, after, maxTotal);
      AppendedTwice(number, s, head, head + count);
      GroupNonZero(s, head, count, word);
      ghost var before := Appended(number, s[..head]);
      head := head + count;
      assert Appended(before, s[head - count..head]) == before * Pow(10, count) + word by {
        AppendedWord(before, s[head - count..head], count, word);
      }
      if after + count == maxTotal {
        var truncated := DoesTruncateNonZero(s[head..]);
        if !truncated {
          truncated := DoesTruncateNonZero(beyond);
        }
        FirstCounts(s);
        AppendLast(value, word, count, truncated, before, after);
        return maxTotal, true;
      }
      AppendGroup(value, word, count, before, after);
      after := after + count;
    }
    AppendedAll(number, s);
    return after, false;
  }

  lemma AppendedWord(number: int, s: seq<Byte>, count: nat, word: int)
    requires |s| == count && word == Spelled(s)
    ensures Appended(number, s) == number * Pow(10, count) + word
  {
  }

  lemma GroupNonZero(s: seq<Byte>, head: nat, count: nat, word: int)
    requires AllDigits(s) && head + count <= |s| && word == Spelled(s[head..head + count])
    ensures count > 0 && s[head] != ZERO ==> word > 0
  {
    SpelledBound(s[head..head + count]);
  }

  lemma FirstCounts(s: seq<Byte>)
    ensures s != [] && s[0] != ZERO ==> HasNonZero(s[0..])
  {
  }

  /** The lambda add_digits: leading zeros are skipped as long as no digit was parsed. */
  method AddRun(value: MinimalBigInt, digits: seq<Byte>, beyond: seq<Byte>, parsed: nat, maxTotal: nat,
                ghost number: int) returns (after: nat, hit: bool, ghost s: seq<Byte>)
    requires Accumulated(value, number, parsed) && AllDigits(digits)
    requires parsed <= maxTotal <= MAX_DIGITS && (parsed == maxTotal ==> parsed == 0)
    modifies value`used, value.words
    ensures s == if parsed == 0 then AfterZeros(digits) else digits
    ensures hit <==> s != [] && |s| >= maxTotal - parsed
    ensures !hit ==> after == parsed + |s| && Accumulated(value, Appended(number, s), after)
    ensures hit ==>
              var room := maxTotal - parsed;
              var kept := Appended(number, s[..room]);
              && after == maxTotal && value.Valid() && value.Canonical()
              && value.Number() == if HasNonZero(s[room..]) || HasNonZero(beyond) then 10 * kept + 1 else kept
  {
    hide Accumulated, Appended, HasNonZero, AfterZeros;
    var head: nat := 0;
    if parsed == 0 {
      while head != |digits| && digits[head] == ZERO
        invariant head <= |digits| && (forall i :: 0 <= i < head ==> digits[i] == ZERO)
        modifies {}
      {
        head := head + 1;
      }
      SkipZeros(digits, head);
    }
    assert digits[0..] == digits;
    s := digits[head..];
    after, hit := AddSignificant(value, digits[head..], beyond, parsed, maxTotal, number);
  }

  /** What from_decimal_floating_point makes of the digits. */
  ghost predicate Denotes(whole: seq<Byte>, fraction: seq<Byte>, maxTotal: nat, number: int, parsed: nat) {
    var s := AfterZeros(whole + fraction);
    number == Truncated(s, maxTotal) && parsed == KeptCount(s, maxTotal)
  }

  /** from_decimal_floating_point: the whole part, and the fraction if there is room for it. */
  method FromDecimal(whole: seq<Byte>, fraction: seq<Byte>, maxTotal: nat) returns (value: MinimalBigInt,
      digitsParsed: nat)
    requires AllDigits(whole) && AllDigits(fraction) && maxTotal <= MAX_DIGITS
    ensures fresh(value) && fresh(value.words) && value.Valid() && value.Canonical()
    ensures Denotes(whole, fraction, maxTotal, value.Number(), digitsParsed)
  {
    hide Appended, HasNonZero, AfterZeros, Truncated, Spelled;
    value := new MinimalBigInt();
    NothingAccumulated(value);
    AfterZerosConcat(whole, fraction);
    var hit: bool;
    ghost var w, f: seq<Byte>;
    digitsParsed, hit, w := AddRun(value, whole, fraction, 0, maxTotal, 0);
    if hit {
      StoppedWithin(w, fraction, maxTotal, value.Number());
      return;
    }
    digitsParsed, hit, f := AddRun(value, fraction, [], digitsParsed, maxTotal, Appended(0, w));
    assert w == [] ==> w + f == f;
    if hit {
      StoppedBehind(w, f, maxTotal, value.Number());
    } else {
      NotStopped(w, f, maxTotal);
    }
  }

  lemma NothingAccumulated(value: MinimalBigInt)
    requires value.Valid() && value.used == 0
    ensures Accumulated(value, 0, 0)
  {
  }

  lemma AppendedToNothing(s: seq<Byte>)
    ensures Appended(0, s) == Spelled(s)
  {
  }

  lemma HasNonZeroConcat(s: seq<Byte>, t: seq<Byte>)
    ensures HasNonZero(s + t) <==> HasNonZero(s) || HasNonZero(t)
  {
    if HasNonZero(s) {
      var i :| 0 <= i < |s| && s[i] != ZERO;
      assert (s + t)[i] != ZERO;
    }
    if HasNonZero(t) {
      var i :| 0 <= i < |t| && t[i] != ZERO;
      assert (s + t)[|s| + i] != ZERO;
    }
  }

  /** The limit was reached in the whole part. */
  lemma StoppedWithin(w: seq<Byte>, f: seq<Byte>, maxTotal: nat, number: int)
    requires |w| >= maxTotal
    requires var kept := Appended(0, w[..maxTotal]);
             number == if HasNonZero(w[maxTotal..]) || HasNonZero(f) then 10 * kept + 1 else kept
    ensures number == Truncated(w + f, maxTotal) && KeptCount(w + f, maxTotal) == maxTotal
  {
    hide Appended, HasNonZero, Spelled;
    assert (w + f)[..maxTotal] == w[..maxTotal] && (w + f)[maxTotal..] == w[maxTotal..] + f;
    HasNonZeroConcat(w[maxTotal..], f);
    AppendedToNothing(w[..maxTotal]);
  }

  /** The limit was reached in the fraction. */
  lemma StoppedBehind(w: seq<Byte>, f: seq<Byte>, maxTotal: nat, number: int)
    requires |w| <= maxTotal <= |w| + |f|
    requires var room := maxTotal - |w|;
             var kept := Appended(Appended(0, w), f[..room]);
             number == if HasNonZero(f[room..]) || HasNonZero([]) then 10 * kept + 1 else kept
    ensures number == Truncated(w + f, maxTotal) && KeptCount(w + f, maxTotal) == maxTotal
  {
    hide Appended, Spelled;
    var s, room := w + f, maxTotal - |w|;
    assert s[..|w|] == w && s[|w|..maxTotal] == f[..room] && s[maxTotal..] == f[room..];
    AppendedTwice(0, s, |w|, maxTotal);
    AppendedToNothing(s[..maxTotal]);
  }

  lemma NotStopped(w: seq<Byte>, f: seq<Byte>, maxTotal: nat)
    requires |w| + |f| <= maxTotal
    ensures Appended(Appended(0, w), f) == Truncated(w + f, maxTotal) && KeptCount(w + f, maxTotal) == |w| + |f|
  {
    hide Appended, Spelled;
    var s := w + f;
    assert s[..|w|] == w && s[|w|..|s|] == f && s[..|s|] == s;
    AppendedTwice(0, s, |w|, |s|);
    AppendedToNothing(s);
  }

  /** Without a digit other than zero behind the limit the number and the digits say the same. */
  lemma DenotesExactly(whole: seq<Byte>, fraction: seq<Byte>, maxTotal: nat, number: int, parsed: nat)
    requires AllDigits(whole) && AllDigits(fraction) && Denotes(whole, fraction, maxTotal, number, parsed)
    requires !HasNonZero(AfterZeros(whole + fraction)[parsed..])
    ensures number * Pow(10, |AfterZeros(whole + fraction)| - parsed) == Spelled(whole + fraction)
  {
    hide AfterZeros, HasNonZero, Spelled, Truncated, Pow;
    AfterZerosSpells(whole + fraction);
    TruncatedExactly(AfterZeros(whole + fraction), maxTotal);
  }

  /** With one, the number decides every comparison with a number of the kept digits as the digits do. */
  lemma DenotesOrder(whole: seq<Byte>, fraction: seq<Byte>, maxTotal: nat, number: int, parsed: nat, t: int)
    requires AllDigits(whole) && AllDigits(fraction) && Denotes(whole, fraction, maxTotal, number, parsed)
    requires HasNonZero(AfterZeros(whole + fraction)[parsed..])
    ensures var scale := Pow(10, |AfterZeros(whole + fraction)| - parsed);
            && (Spelled(whole + fraction) < t * scale <==> number < 10 * t)
            && (Spelled(whole + fraction) > t * scale <==> number > 10 * t)
  {
    hide AfterZeros, HasNonZero, Spelled, Truncated, Pow;
    AfterZerosSpells(whole + fraction);
    TruncatedOrder(AfterZeros(whole + fraction), maxTotal, t);
  }

  /**
   * The digits taken apart: leading zeros, those kept and those cut off because of the limit. The kept ones are the
   * number, with a digit 1 after them exactly if one of the others is not zero.
   */
  lemma DenotesPieces(whole: seq<Byte>, fraction: seq<Byte>, maxTotal: nat, number: int, parsed: nat,
                      zeros: seq<Byte>, kept: seq<Byte>, cut: seq<Byte>)
    requires AllDigits(whole) && AllDigits(fraction) && Denotes(whole, fraction, maxTotal, number, parsed)
    requires whole + fraction == zeros + (kept + cut) && (forall i :: 0 <= i < |zeros| ==> zeros[i] == 0x30)
    requires kept + cut != [] ==> (kept + cut)[0] != 0x30
    requires |kept| == maxTotal || (|kept| < maxTotal && cut == [])
    ensures parsed == |kept| && number == if Spelled(cut) > 0 then 10 * Spelled(kept) + 1 else Spelled(kept)
  {
    hide AfterZeros, HasNonZero, Spelled;
    var all, rest := whole + fraction, kept + cut;
    assert forall i :: 0 <= i < |zeros| ==> all[i] == zeros[i];
    assert |zeros| < |all| ==> all[|zeros|] == rest[0];
    SkipZeros(all, |zeros|);
    assert all[|zeros|..] == rest && rest[..|kept|] == kept && rest[|kept|..] == cut;
    assert AllDigits(cut) by {
      assert forall i :: 0 <= i < |cut| ==> cut[i] == all[|zeros| + |kept| + i];
    }
    NonZeroSpells(cut);
  }
}
