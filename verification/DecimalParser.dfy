/** The scanner of decimal floating-point text: 19 digits are kept, and what is cut off is bounded. */
module DecimalParser {
  import opened Arithmetic
  import opened EightDigits
  import opened Prelude

  const MAX_DIGITS: nat := 19
  const EXPONENT_CAP: nat := 0x10_000_000
  const NINETEEN_DIGITS: nat := 1_000_000_000_000_000_000
  const ELEVEN_DIGITS: nat := 10_000_000_000

  const ZERO: Byte := 0x30
  const MINUS: Byte := 0x2D
  const PLUS: Byte := 0x2B
  const DOT: Byte := 0x2E
  const LOWER_E: Byte := 0x65
  const UPPER_E: Byte := 0x45

  // ----- the text -----

  predicate IsDigit(b: Byte) {
    0x30 <= b <= 0x39
  }

  predicate DigitAt(text: seq<Byte>, i: nat) {
    i < |text| && IsDigit(text[i])
  }

  /** The end of the run of digits that starts at i. */
  ghost function DigitRun(text: seq<Byte>, i: nat): (end: nat)
    requires i <= |text|
    ensures i <= end <= |text| && AllDigits(text[i..end]) && !DigitAt(text, end)
    decreases |text| - i
  {
    if DigitAt(text, i)
    then
      var end := DigitRun(text, i + 1);
      assert text[i..end] == [text[i]] + text[i + 1..end];
      end
    else i
  }

  lemma {:induction false} DigitRunUnique(text: seq<Byte>, i: nat, end: nat)
    requires i <= end <= |text| && AllDigits(text[i..end]) && !DigitAt(text, end)
    ensures end == DigitRun(text, i)
    decreases |text| - i
  {
    if i < end {
      assert text[i..end][0] == text[i];
      assert text[i + 1..end] == text[i..end][1..];
      DigitRunUnique(text, i + 1, end);
    }
  }

  /** The parts of a decimal number: sign, digits before and after the point, exponent, and where it ends. */
  datatype Parts = Parts(negative: bool, start: nat, wholeEnd: nat, fractionStart: nat, fractionEnd: nat, power: int,
                         end: nat)

  /** Where the digits of an exponent start; it counts only with at least one, otherwise its letter is not read. */
  ghost function ExponentStart(text: seq<Byte>, i: nat): (start: Option<nat>)
    requires i <= |text|
    ensures start.Some? ==> i < start.value < |text|
  {
    if i < |text| && (text[i] == LOWER_E || text[i] == UPPER_E) then
      var sign := i + 1 < |text| && (text[i + 1] == MINUS || text[i + 1] == PLUS);
      var digits := if sign then i + 2 else i + 1;
      if DigitAt(text, digits) then Some(digits) else None
    else None
  }

  /** The exponent that starts at i, if one does, and where it ends. */
  ghost function ExponentAt(text: seq<Byte>, i: nat): (r: (int, nat))
    requires i <= |text|
    ensures i <= r.1 <= |text|
  {
    var start := ExponentStart(text, i);
    if start.None? then (0, i)
    else
      var end := DigitRun(text, start.value);
      var power := Spelled(text[start.value..end]);
      (if text[i + 1] == MINUS then 0 - power else power, end)
  }

  /** The digits of an exponent as far as they are read: the first number from the cap on stays. */
  ghost function Capped(s: seq<Byte>): (v: int) {
    if s == [] then 0
    else
      var v := Capped(s[..|s| - 1]);
      if v < EXPONENT_CAP then 10 * v + (s[|s| - 1] as int - 0x30) else v
  }

  /** The exponent as it is read. */
  ghost function CappedAt(text: seq<Byte>, i: nat): (power: int)
    requires i <= |text|
  {
    var start := ExponentStart(text, i);
    if start.None? then 0
    else
      var power := Capped(text[start.value..DigitRun(text, start.value)]);
      if text[i + 1] == MINUS then 0 - power else power
  }

  lemma {:induction false} CappedBelow(s: seq<Byte>)
    requires AllDigits(s)
    ensures 0 <= Capped(s) <= Spelled(s)
    ensures Capped(s) < EXPONENT_CAP <==> Spelled(s) < EXPONENT_CAP
    ensures Spelled(s) < EXPONENT_CAP ==> Capped(s) == Spelled(s)
  {
    if s != [] {
      CappedBelow(s[..|s| - 1]);
    }
  }

  /** Past the cap the number read is that of the first digits, as few as reach 0x10000000. */
  lemma {:induction false} CappedPrefix(s: seq<Byte>) returns (k: nat)
    requires AllDigits(s) && Spelled(s) >= 0x1000_0000
    ensures 0 < k <= |s| && Spelled(s[..k - 1]) < 0x1000_0000 <= Spelled(s[..k]) && Capped(s) == Spelled(s[..k])
  {
    var shorter := s[..|s| - 1];
    CappedBelow(shorter);
    if Spelled(shorter) < 0x1000_0000 {
      k := |s|;
      assert s[..k] == s;
    } else {
      k := CappedPrefix(shorter);
      assert shorter[..k] == s[..k] && shorter[..k - 1] == s[..k - 1];
    }
  }

  /** An exponent below the cap is read exactly, and no other is read as one. */
  lemma CappedExactly(text: seq<Byte>, i: nat)
    requires i <= |text|
    ensures var exact, read := ExponentAt(text, i).0, CappedAt(text, i);
            && (0 - EXPONENT_CAP < exact < EXPONENT_CAP ==> read == exact)
            && (exact >= EXPONENT_CAP <==> read >= EXPONENT_CAP)
            && (exact <= 0 - EXPONENT_CAP <==> read <= 0 - EXPONENT_CAP)
  {
    hide Spelled, Capped;
    var start := ExponentStart(text, i);
    if start.Some? {
      CappedBelow(text[start.value..DigitRun(text, start.value)]);
    }
  }

  ghost function Split(text: seq<Byte>): (p: Parts)
    ensures p.start <= p.wholeEnd <= p.fractionStart <= p.fractionEnd <= p.end <= |text|
    ensures AllDigits(text[p.start..p.wholeEnd]) && AllDigits(text[p.fractionStart..p.fractionEnd])
  {
    var sign := |text| > 0 && (text[0] == MINUS || text[0] == PLUS);
    var start := if sign then 1 else 0;
    var wholeEnd := DigitRun(text, start);
    var point := wholeEnd < |text| && text[wholeEnd] == DOT;
    var fractionStart := if point then wholeEnd + 1 else wholeEnd;
    var fractionEnd := if point then DigitRun(text, fractionStart) else fractionStart;
    var (power, end) := ExponentAt(text, fractionEnd);
    Parts(sign && text[0] == MINUS, start, wholeEnd, fractionStart, fractionEnd, power, end)
  }

  /** The digits of the number, without the point. */
  ghost function Digits(text: seq<Byte>, p: Parts): (s: seq<Byte>)
    requires p.start <= p.wholeEnd <= p.fractionStart <= p.fractionEnd <= |text|
  {
    text[p.start..p.wholeEnd] + text[p.fractionStart..p.fractionEnd]
  }

  // ----- what is kept -----

  /** The first digits kept, `dropped` digits cut off: the number lies between the kept digits and one more. */
  ghost predicate Kept(digits: seq<Byte>, mantissa: nat, dropped: nat)
  {
    dropped <= |digits| && mantissa == Spelled(digits[..|digits| - dropped])
  }

  lemma KeptBounds(digits: seq<Byte>, mantissa: nat, dropped: nat)
    requires AllDigits(digits) && Kept(digits, mantissa, dropped)
    ensures mantissa * Pow(10, dropped) <= Spelled(digits) < (mantissa + 1) * Pow(10, dropped)
  {
    hide Spelled, Pow;
    var k := |digits| - dropped;
    SpelledConcat(digits[..k], digits[k..]);
    assert digits == digits[..k] + digits[k..];
    SpelledBound(digits[k..]);
    MulDistrib(Pow(10, dropped), mantissa, 1);
  }

  // ----- the scans -----

  /** Digits appended to a 64-bit number, which wraps around. */
  ghost function Wrapped(value: nat, s: seq<Byte>): (v: int) {
    (value * Pow(10, |s|) + Spelled(s)) % U64
  }

  lemma WrappedAppend(value: nat, s: seq<Byte>, t: seq<Byte>)
    ensures (Pow(10, |t|) * Wrapped(value, s) + Spelled(t)) % U64 == Wrapped(value, s + t)
  {
    hide Spelled, Pow;
    var x, k := value * Pow(10, |s|) + Spelled(s), Pow(10, |t|);
    SpelledConcat(s, t);
    PowAdd(10, |s|, |t|);
    MulAssoc(value, Pow(10, |s|), k);
    MulDistrib(k, value * Pow(10, |s|), Spelled(s));
    WrapProduct(x, k, Spelled(t));
  }

  /** A factor may be reduced before it is multiplied. */
  lemma WrapProduct(x: int, k: int, c: int)
    ensures (k * (x % U64) + c) % U64 == (x * k + c) % U64
  {
    var q, r := x / U64, x % U64;
    MulDistrib(k, q * U64, r);
    MulAssoc(k, q, U64);
    var y := k * r + c;
    DivModEquation(y, U64);
    MulDistrib(U64, y / U64, k * q);
    DivModUnique(x * k + c, U64, y / U64 + k * q, y % U64);
  }

  /** fast_parse_decimal: all digits from ptr on, eight at a time and then one at a time. */
  method FastParseDecimal(text: seq<Byte>, ptr: nat, value: nat) returns (end: nat, v: nat)
    requires ptr <= |text| && value < U64
    ensures end == DigitRun(text, ptr) && v == Wrapped(value, text[ptr..end]) && v < U64
  {
    hide Spelled, Pow, Pack, EightDigitsToValue, HasEightDigits, Wrapped, DigitRun;
    end, v := ptr, value;
    WrappedNothing(text, ptr, value);
    while |text| - end >= 8 && HasEightDigits(Pack(text[end..end + 8]))
      invariant ptr <= end <= |text| && AllDigits(text[ptr..end]) && v == Wrapped(value, text[ptr..end]) && v < U64
    {
      var eight := text[end..end + 8];
      HasEightDigitsCorrect(eight);
      EightDigitsCorrect(eight);
      TenToTheEight();
      WrappedAppend(value, text[ptr..end], eight);
      assert text[ptr..end + 8] == text[ptr..end] + eight;
      v := (100_000_000 * v + EightDigitsToValue(Pack(eight))) % U64;
      end := end + 8;
    }
    while end < |text| && IsDigit(text[end])
      invariant ptr <= end <= |text| && AllDigits(text[ptr..end]) && v == Wrapped(value, text[ptr..end]) && v < U64
    {
      OneMore(text[end]);
      WrappedAppend(value, text[ptr..end], [text[end]]);
      assert text[ptr..end + 1] == text[ptr..end] + [text[end]];
      v := (10 * v + (text[end] - ZERO)) % U64;
      end := end + 1;
    }
    DigitRunUnique(text, ptr, end);
  }

  lemma WrappedNothing(text: seq<Byte>, ptr: nat, value: nat)
    requires ptr <= |text| && value < U64
    ensures Wrapped(value, text[ptr..ptr]) == value
  {
  }

  lemma OneMore(b: Byte)
    ensures Spelled([b]) == b as int - 0x30 && Pow(10, |[b]|) == 10
  {
    assert [b][..0] == [];
  }

  /** The digits of an exponent, read up to the cap. */
  method ExponentDigits(text: seq<Byte>, start: nat) returns (power: nat, end: nat)
    requires DigitAt(text, start)
    ensures end == DigitRun(text, start) && power == Capped(text[start..end])
  {
    hide DigitRun, Spelled;
    power, end := 0, start;
    while end < |text| && IsDigit(text[end])
      invariant start <= end <= |text| && AllDigits(text[start..end]) && power == Capped(text[start..end])
    {
      ghost var read := text[start..end + 1];
      assert read[..|read| - 1] == text[start..end] && read == text[start..end] + [text[end]];
      if power < EXPONENT_CAP {
        power := 10 * power + (text[end] - ZERO);
      }
      end := end + 1;
    }
    DigitRunUnique(text, start, end);
  }

  /** The exponent, or nothing of it: the position goes back before the letter if no digit follows. */
  method ParseExponent(text: seq<Byte>, ptr: nat) returns (power: int, end: nat)
    requires ptr <= |text|
    ensures power == CappedAt(text, ptr) && end == ExponentAt(text, ptr).1
  {
    hide Spelled, DigitRun, Capped;
    if ptr == |text| {
      return 0, ptr;
    }
    if text[ptr] != LOWER_E && text[ptr] != UPPER_E {
      return 0, ptr;
    }
    var at := ptr + 1;
    if at == |text| {
      return 0, ptr;
    }
    var negative := false;
    if text[at] == MINUS || text[at] == PLUS {
      negative := text[at] == MINUS;
      at := at + 1;
      if at == |text| {
        return 0, ptr;
      }
    }
    if !IsDigit(text[at]) {
      return 0, ptr;
    }
    var magnitude;
    magnitude, end := ExponentDigits(text, at);
    power := magnitude;
    if negative {
      power := 0 - power;
    }
  }

  /** Digits taken until there are nineteen, eight at a time while there are at most ten. */
  method TakeDigits(text: seq<Byte>, from: nat, to: nat, mantissa: nat) returns (m: nat, at: nat)
    requires from <= to <= |text| && AllDigits(text[from..to]) && mantissa < NINETEEN_DIGITS
    ensures from <= at <= to && m == mantissa * Pow(10, at - from) + Spelled(text[from..at])
    ensures m < 10 * NINETEEN_DIGITS && (m >= NINETEEN_DIGITS || at == to)
  {
    hide Spelled, Pow, Pack, EightDigitsToValue;
    m, at := mantissa, from;
    TakenNothing(text, from, mantissa);
    while m < ELEVEN_DIGITS && to - at >= 8
      invariant from <= at <= to && m == mantissa * Pow(10, at - from) + Spelled(text[from..at])
                && m < 10 * NINETEEN_DIGITS
    {
      var eight := text[at..at + 8];
      DigitsInside(text, from, to, at, 8);
      EightDigitsCorrect(eight);
      TenToTheEight();
      SpelledBound(eight);
      TakenMore(text, from, at, 8, mantissa);
      m := 100_000_000 * m + EightDigitsToValue(Pack(eight));
      at := at + 8;
    }
    while m < NINETEEN_DIGITS && at != to
      invariant from <= at <= to && m == mantissa * Pow(10, at - from) + Spelled(text[from..at])
                && m < 10 * NINETEEN_DIGITS
    {
      DigitsInside(text, from, to, at, 1);
      TakenMore(text, from, at, 1, mantissa);
      OneMore(text[at]);
      assert text[at..at + 1] == [text[at]];
      m := 10 * m + (text[at] - ZERO);
      at := at + 1;
    }
  }

  lemma DigitsInside(text: seq<Byte>, from: nat, to: nat, at: nat, n: nat)
    requires from <= at && at + n <= to <= |text| && AllDigits(text[from..to])
    ensures AllDigits(text[at..at + n]) && (n > 0 ==> IsDigit(text[at]))
  {
    var inner := text[at..at + n];
    forall i | 0 <= i < n ensures 0x30 <= inner[i] <= 0x39 {
      assert inner[i] == text[from..to][at - from + i];
    }
    if n > 0 {
      assert inner[0] == text[at];
    }
  }

  lemma TakenNothing(text: seq<Byte>, from: nat, mantissa: nat)
    requires from <= |text|
    ensures mantissa * Pow(10, 0) + Spelled(text[from..from]) == mantissa
  {
  }

  lemma TakenMore(text: seq<Byte>, from: nat, at: nat, n: nat, mantissa: nat)
    requires from <= at && at + n <= |text|
    ensures mantissa * Pow(10, at + n - from) + Spelled(text[from..at + n])
         == Pow(10, n) * (mantissa * Pow(10, at - from) + Spelled(text[from..at])) + Spelled(text[at..at + n])
  {
    hide Spelled, Pow;
    SpelledExtends(text, from, at, at + n);
    PowAdd(10, at - from, n);
    MulAssoc(mantissa, Pow(10, at - from), Pow(10, n));
    MulDistrib(Pow(10, n), mantissa * Pow(10, at - from), Spelled(text[from..at]));
  }

  // ----- leading zeros -----

  /** The first c digits are zeros. */
  ghost predicate ZerosFirst(digits: seq<Byte>, c: nat) {
    c <= |digits| && (forall i :: 0 <= i < c ==> digits[i] == ZERO)
  }

  lemma {:induction false} SpelledAtLeast(s: seq<Byte>)
    requires AllDigits(s) && s != [] && s[0] != ZERO
    ensures Spelled(s) >= Pow(10, |s| - 1)
  {
    if |s| > 1 {
      SpelledAtLeast(s[..|s| - 1]);
    } else {
      assert s[..0] == [];
    }
  }

  /** Without its leading zeros the number of digits tells the size. */
  lemma Significant(digits: seq<Byte>, c: nat)
    requires AllDigits(digits) && ZerosFirst(digits, c) && (c < |digits| ==> digits[c] != ZERO)
    ensures Spelled(digits) >= 10 * NINETEEN_DIGITS <==> |digits| - c > MAX_DIGITS
  {
    hide Spelled, Pow;
    var rest := digits[c..];
    SpelledZeros(digits[..c]);
    SpelledConcat(digits[..c], rest);
    assert digits == digits[..c] + rest;
    SpelledBound(rest);
    TenToTheNineteen();
    if |rest| > MAX_DIGITS {
      SpelledAtLeast(rest);
      PowMonotone(10, 19, |rest| - 1);
    } else {
      PowMonotone(10, |rest|, 19);
    }
  }

  lemma TenToTheNineteen()
    ensures Pow(10, 19) == 10 * NINETEEN_DIGITS
  {
    hide Pow;
    TenToTheEight();
    PowAdd(10, 8, 8);
    PowAdd(10, 16, 3);
  }

  /** Where the scan for leading zeros stands, and how many zeros it has passed. */
  ghost predicate Scanned(text: seq<Byte>, p: Parts, at: nat, c: nat)
    requires p.start <= p.wholeEnd <= p.fractionStart <= p.fractionEnd <= |text|
  {
    var digits, whole := Digits(text, p), p.wholeEnd - p.start;
    || (p.start <= at <= p.wholeEnd && c == at - p.start && ZerosFirst(digits, c))
    || (p.fractionStart <= at <= p.fractionEnd && c == whole + (at - p.fractionStart) && ZerosFirst(digits, c))
    || (p.fractionEnd < at && c >= |digits| && ZerosFirst(digits, |digits|))
  }

  /** Where the point is, and what is no digit. */
  lemma SplitShape(text: seq<Byte>)
    ensures var p := Split(text);
            && p.start <= p.wholeEnd <= p.fractionStart <= p.fractionEnd <= |text|
            && AllDigits(text[p.start..p.wholeEnd]) && AllDigits(text[p.fractionStart..p.fractionEnd])
            && !DigitAt(text, p.wholeEnd) && !DigitAt(text, p.fractionEnd)
            && (if p.wholeEnd < |text| && text[p.wholeEnd] == DOT then p.fractionStart == p.wholeEnd + 1
                else p.fractionStart == p.fractionEnd == p.wholeEnd)
  {
  }

  lemma ScannedNext(text: seq<Byte>, p: Parts, at: nat, c: nat)
    requires p == Split(text) && Scanned(text, p, at, c) && at < |text|
    ensures text[at] == ZERO ==> Scanned(text, p, at + 1, c + 1)
    ensures text[at] == DOT ==> Scanned(text, p, at + 1, c)
  {
    hide Split;
    SplitShape(text);
    var digits, whole := Digits(text, p), p.wholeEnd - p.start;
    if p.start <= at < p.wholeEnd {
      DigitsInside(text, p.start, p.wholeEnd, at, 1);
      assert digits[at - p.start] == text[at];
    } else if p.fractionStart <= at < p.fractionEnd {
      DigitsInside(text, p.fractionStart, p.fractionEnd, at, 1);
      assert digits[whole + (at - p.fractionStart)] == text[at];
    }
  }

  lemma ScannedEnd(text: seq<Byte>, p: Parts, at: nat, c: nat)
    requires p == Split(text) && Scanned(text, p, at, c) && (at < |text| ==> text[at] != ZERO && text[at] != DOT)
    ensures var digits := Digits(text, p);
            Spelled(digits) >= 10 * NINETEEN_DIGITS <==> |digits| - c > MAX_DIGITS
  {
    hide Spelled, Split;
    SplitShape(text);
    var digits, whole := Digits(text, p), p.wholeEnd - p.start;
    DigitsAll(text, p);
    if p.start <= at < p.wholeEnd {
      assert digits[at - p.start] == text[at];
      Significant(digits, c);
    } else if p.fractionStart <= at < p.fractionEnd {
      assert digits[whole + (at - p.fractionStart)] == text[at];
      Significant(digits, c);
    } else {
      Significant(digits, |digits|);
    }
  }

  lemma DigitsAll(text: seq<Byte>, p: Parts)
    requires p == Split(text)
    ensures AllDigits(Digits(text, p))
  {
  }

  /** The scan: the digits found, less the leading zeros. */
  method WithoutLeadingZeros(text: seq<Byte>, ghost p: Parts, start: nat, digitsFound: nat) returns (found: int)
    requires p == Split(text) && start == p.start && digitsFound == |Digits(text, p)|
    ensures found > MAX_DIGITS <==> Spelled(Digits(text, p)) >= 10 * NINETEEN_DIGITS
  {
    hide Spelled, Scanned, Split, Digits;
    var leading: nat := start;
    found := digitsFound;
    ghost var c: nat := 0;
    ScanStarts(text, p);
    while leading < |text| && (text[leading] == ZERO || text[leading] == DOT)
      invariant Scanned(text, p, leading, c) && found == digitsFound - c
    {
      ScannedNext(text, p, leading, c);
      if text[leading] == ZERO {
        found := found - 1;
        c := c + 1;
      }
      leading := leading + 1;
    }
    ScannedEnd(text, p, leading, c);
  }

  lemma ScanStarts(text: seq<Byte>, p: Parts)
    requires p == Split(text)
    ensures Scanned(text, p, p.start, 0)
  {
  }

  // ----- parse_numbers -----

  /** BasicParseResult, with the parts as positions in the text. */
  datatype ParseResult = ParseResult(valid: bool, negative: bool, mantissa: nat, exponent: int,
                                     moreThan19DigitsWithOverflow: bool,
                                     lastParsed: nat, wholeEnd: nat, fractionStart: nat, fractionEnd: nat)

  /**
   * What is kept of the digits: all of them, or the first nineteen significant ones with the exponent raised by
   * the number of digits dropped.
   */
  ghost predicate Faithful(digits: seq<Byte>, exact: int, mantissa: nat, exponent: int, overflow: bool) {
    && (overflow <==> Spelled(digits) >= 10 * NINETEEN_DIGITS)
    && (!overflow ==> mantissa == Spelled(digits) && exponent == exact)
    && (overflow ==> NINETEEN_DIGITS <= mantissa < 10 * NINETEEN_DIGITS)
    && (overflow ==> exponent >= exact && Kept(digits, mantissa, exponent - exact))
  }

  /** mantissa * 10^exponent is the value, or the last kept digit bounds it. */
  lemma FaithfulBounds(digits: seq<Byte>, exact: int, mantissa: nat, exponent: int, overflow: bool)
    requires AllDigits(digits) && Faithful(digits, exact, mantissa, exponent, overflow)
    ensures exponent >= exact
    ensures !overflow ==> mantissa * Pow(10, exponent - exact) == Spelled(digits)
    ensures mantissa * Pow(10, exponent - exact) <= Spelled(digits) < (mantissa + 1) * Pow(10, exponent - exact)
  {
    hide Spelled;
    if overflow {
      KeptBounds(digits, mantissa, exponent - exact);
    }
  }

  /** The digits again, from the start, until nineteen are kept. */
  method Reparse(text: seq<Byte>, ghost p: Parts, start: nat, wholeEnd: nat, fractionStart: nat, fractionEnd: nat,
                 power: int)
    returns (mantissa: nat, exponent: int)
    requires p == Split(text) && Spelled(Digits(text, p)) >= 10 * NINETEEN_DIGITS
    requires start == p.start && wholeEnd == p.wholeEnd && fractionStart == p.fractionStart
             && fractionEnd == p.fractionEnd
    ensures Faithful(Digits(text, p), power - (fractionEnd - fractionStart), mantissa, exponent, true)
  {
    hide Spelled, Pow, Split;
    SplitParts(text);
    var at;
    mantissa, at := TakeDigits(text, start, wholeEnd, 0);
    KeptWhole(text, p, at);
    if mantissa >= NINETEEN_DIGITS {
      exponent := power + (wholeEnd - at);
    } else {
      ghost var whole := mantissa;
      mantissa, at := TakeDigits(text, fractionStart, fractionEnd, mantissa);
      KeptFraction(text, p, at, whole);
      exponent := power - (at - fractionStart);
    }
  }

  lemma SplitParts(text: seq<Byte>)
    ensures var p := Split(text);
            && p.start <= p.wholeEnd <= p.fractionStart <= p.fractionEnd <= |text|
            && AllDigits(text[p.start..p.wholeEnd]) && AllDigits(text[p.fractionStart..p.fractionEnd])
  {
  }

  lemma KeptWhole(text: seq<Byte>, p: Parts, at: nat)
    requires p.start <= at <= p.wholeEnd <= p.fractionStart <= p.fractionEnd <= |text|
    ensures var digits, dropped := Digits(text, p), (p.wholeEnd - at) + (p.fractionEnd - p.fractionStart);
            digits[..|digits| - dropped] == text[p.start..at]
  {
  }

  lemma KeptFraction(text: seq<Byte>, p: Parts, at: nat, whole: nat)
    requires p.start <= p.wholeEnd <= p.fractionStart <= at <= p.fractionEnd <= |text|
             && whole == Spelled(text[p.start..p.wholeEnd])
    ensures var digits, dropped := Digits(text, p), p.fractionEnd - at;
            var kept := whole * Pow(10, at - p.fractionStart) + Spelled(text[p.fractionStart..at]);
            && Spelled(digits[..|digits| - dropped]) == kept
            && (at == p.fractionEnd ==> Spelled(digits) == kept)
  {
    hide Spelled, Pow;
    var digits, dropped := Digits(text, p), p.fractionEnd - at;
    SpelledConcat(text[p.start..p.wholeEnd], text[p.fractionStart..at]);
    assert digits[..|digits| - dropped] == text[p.start..p.wholeEnd] + text[p.fractionStart..at];
    assert at == p.fractionEnd ==> digits[..|digits| - dropped] == digits;
  }

  /** The sign and the digits; without a digit or a point after a sign there is nothing more to read. */
  method ScanDigits(text: seq<Byte>) returns (negative: bool, start: nat, wholeEnd: nat, fractionStart: nat,
                                              fractionEnd: nat, mantissa: nat)
    ensures var p := Split(text);
            && negative == p.negative == (|text| > 0 && text[0] == 0x2D) && start == p.start && wholeEnd == p.wholeEnd
            && fractionStart == p.fractionStart && fractionEnd == p.fractionEnd
            && (Spelled(Digits(text, p)) < 10 * NINETEEN_DIGITS ==> mantissa == Spelled(Digits(text, p)))
  {
    hide Spelled, Pow, DigitRun, ExponentAt, Wrapped;
    negative, start, mantissa := false, 0, 0;
    if |text| > 0 && (text[0] == MINUS || text[0] == PLUS) {
      negative, start := text[0] == MINUS, 1;
      if start == |text| || (!IsDigit(text[start]) && text[start] != DOT) {
        NoDigits(text);
        return negative, start, start, start, start, 0;
      }
    }
    wholeEnd, mantissa := FastParseDecimal(text, start, 0);
    fractionStart, fractionEnd := wholeEnd, wholeEnd;
    ghost var before := mantissa;
    if wholeEnd < |text| && text[wholeEnd] == DOT {
      fractionStart := wholeEnd + 1;
      fractionEnd, mantissa := FastParseDecimal(text, fractionStart, mantissa);
    }
    BothRuns(text, Split(text), before, mantissa);
  }

  lemma NoDigits(text: seq<Byte>)
    requires |text| > 0 && (text[0] == MINUS || text[0] == PLUS)
    requires |text| == 1 || (!IsDigit(text[1]) && text[1] != DOT)
    ensures var p := Split(text);
            p.start == p.wholeEnd == p.fractionStart == p.fractionEnd == 1 && Digits(text, p) == [] && Spelled([]) == 0
  {
  }

  /** The two runs of the first pass give the digits, modulo 2^64: exactly them if they are below 10^19. */
  lemma BothRuns(text: seq<Byte>, p: Parts, before: nat, mantissa: nat)
    requires p == Split(text) && before == Wrapped(0, text[p.start..p.wholeEnd])
    requires mantissa == Wrapped(before, text[p.fractionStart..p.fractionEnd])
             || (p.fractionStart == p.fractionEnd && mantissa == before)
    ensures Spelled(Digits(text, p)) < 10 * NINETEEN_DIGITS ==> mantissa == Spelled(Digits(text, p))
  {
    hide Spelled, Split;
    SplitParts(text);
    var whole, fraction := text[p.start..p.wholeEnd], text[p.fractionStart..p.fractionEnd];
    DigitsAll(text, p);
    SpelledBound(Digits(text, p));
    WrappedAppend(0, whole, fraction);
    assert p.fractionStart == p.fractionEnd ==> whole + fraction == whole;
  }

  /** parse_numbers */
  method ParseNumbers(text: seq<Byte>) returns (r: ParseResult)
    ensures var p := Split(text);
            r.valid <==> Digits(text, p) != []
    ensures r.valid <==> StartsWithNumber(text)
    ensures r.negative <==> |text| > 0 && text[0] == 0x2D
    ensures !r.valid ==> r.mantissa == 0 && r.exponent == 0 && !r.moreThan19DigitsWithOverflow
    ensures var p := Split(text);
            r.valid ==>
              && r.negative == p.negative && r.lastParsed == p.end
              && r.wholeEnd == p.wholeEnd && r.fractionStart == p.fractionStart && r.fractionEnd == p.fractionEnd
    ensures var p := Split(text);
            r.valid ==>
              Faithful(Digits(text, p), CappedAt(text, p.fractionEnd) - (p.fractionEnd - p.fractionStart), r.mantissa,
                       r.exponent, r.moreThan19DigitsWithOverflow)
  {
    hide Spelled, Pow, DigitRun, ExponentAt, CappedAt, Split, StartsWithNumber;
    ghost var p := Split(text);
    SplitEnds(text);
    NumberExactly(text);
    DigitsAll(text, p);
    var negative, start, wholeEnd, fractionStart, fractionEnd, mantissa := ScanDigits(text);
    var digitsFound := (wholeEnd - start) + (fractionEnd - fractionStart);
    if digitsFound == 0 {
      return ParseResult(false, negative, 0, 0, false, 0, wholeEnd, fractionStart, fractionEnd);
    }
    var power, end := ParseExponent(text, fractionEnd);
    var exponent := power - (fractionEnd - fractionStart);
    var overflow := false;
    if digitsFound > MAX_DIGITS {
      var found := WithoutLeadingZeros(text, p, start, digitsFound);
      if found > MAX_DIGITS {
        overflow := true;
        mantissa, exponent := Reparse(text, p, start, wholeEnd, fractionStart, fractionEnd, power);
      }
    } else {
      FewDigits(Digits(text, p));
    }
    r := ParseResult(true, negative, mantissa, exponent, overflow, end, wholeEnd, fractionStart, fractionEnd);
  }

  lemma SplitEnds(text: seq<Byte>)
    ensures var p := Split(text);
            p.start <= p.wholeEnd <= p.fractionStart <= p.fractionEnd <= |text|
                && (p.power, p.end) == ExponentAt(text, p.fractionEnd)
  {
  }

  lemma FewDigits(digits: seq<Byte>)
    requires |digits| <= MAX_DIGITS && AllDigits(digits)
    ensures Spelled(digits) < 10 * NINETEEN_DIGITS
  {
    hide Pow;
    SpelledBound(digits);
    PowMonotone(10, |digits|, 19);
    TenToTheNineteen();
  }

  // ----- numbers built from their parts -----

  /**
   * The parts of a number, and what follows and is not part of it: a sign, digits, a point with digits after it, and
   * an exponent of a letter, a sign and at least one digit. All but one digit is optional.
   */
  ghost predicate AreParts(sign: seq<Byte>, whole: seq<Byte>, point: seq<Byte>, fraction: seq<Byte>,
                           letter: seq<Byte>, powerSign: seq<Byte>, power: seq<Byte>, tail: seq<Byte>)
  {
    && (sign == [] || sign == [PLUS] || sign == [MINUS])
    && AllDigits(whole) && AllDigits(fraction) && AllDigits(power) && whole + fraction != []
    && (point == [DOT] || (point == [] && fraction == []))
    && (((letter == [LOWER_E] || letter == [UPPER_E]) && power != []) || (letter == powerSign == power == []))
    && (powerSign == [] || powerSign == [PLUS] || powerSign == [MINUS])
    && !DigitAt(tail, 0) && (letter == [] ==> ExponentStart(tail, 0) == None)
    && (letter == point == [] ==> tail == [] || tail[0] != DOT)
  }

  ghost predicate Spells(text: seq<Byte>, sign: seq<Byte>, whole: seq<Byte>, point: seq<Byte>, fraction: seq<Byte>,
                         letter: seq<Byte>, powerSign: seq<Byte>, power: seq<Byte>, tail: seq<Byte>)
  {
    && AreParts(sign, whole, point, fraction, letter, powerSign, power, tail)
    && text == sign + whole + point + fraction + letter + powerSign + power + tail
  }

  ghost predicate StartsWithNumber(text: seq<Byte>) {
    exists sign, whole, point, fraction, letter, powerSign, power, tail ::
      Spells(text, sign, whole, point, fraction, letter, powerSign, power, tail)
  }

  /** The same by positions: where each part ends. */
  ghost predicate SpellsAt(text: seq<Byte>, a: nat, b: nat, c: nat, d: nat, e: nat, f: nat, g: nat)
    requires a <= b <= c <= d <= e <= f <= g <= |text|
  {
    && (a == 0 || (a == 1 && (text[0] == PLUS || text[0] == MINUS)))
    && AllDigits(text[a..b]) && AllDigits(text[c..d]) && AllDigits(text[f..g]) && (a < b || c < d)
    && ((c == b + 1 && text[b] == DOT) || b == c == d)
    && ((e == d + 1 && (text[d] == LOWER_E || text[d] == UPPER_E) && f < g) || d == e == f == g)
    && (e == f || (f == e + 1 && (text[e] == PLUS || text[e] == MINUS)))
    && !DigitAt(text, g) && (d == g ==> ExponentStart(text, d) == None)
    && (b == g ==> b == |text| || text[b] != DOT)
  }

  /** A part of the text, and what is after it. */
  lemma Peel(text: seq<Byte>, i: nat, part: seq<Byte>, rest: seq<Byte>)
    requires i <= |text| && text[i..] == part + rest
    ensures i + |part| <= |text| && text[i..i + |part|] == part && text[i + |part|..] == rest
  {
    assert text[i..i + |part|] == text[i..][..|part|];
    assert text[i + |part|..] == text[i..][|part|..];
  }

  lemma Regroup(x: seq<Byte>, y: seq<Byte>, z: seq<Byte>)
    ensures (x + y) + z == x + (y + z)
  {
  }

  lemma FromTheFront(a: seq<Byte>, b: seq<Byte>, c: seq<Byte>, d: seq<Byte>, e: seq<Byte>, f: seq<Byte>, g: seq<Byte>,
                     h: seq<Byte>)
    ensures a + b + c + d + e + f + g + h == a + (b + (c + (d + (e + (f + (g + h))))))
  {
    Regroup(a + b + c + d + e + f, g, h);
    Regroup(a + b + c + d + e, f, g + h);
    Regroup(a + b + c + d, e, f + (g + h));
    Regroup(a + b + c, d, e + (f + (g + h)));
    Regroup(a + b, c, d + (e + (f + (g + h))));
    Regroup(a, b, c + (d + (e + (f + (g + h)))));
  }

  lemma FirstFour(text: seq<Byte>, sign: seq<Byte>, whole: seq<Byte>, point: seq<Byte>, fraction: seq<Byte>,
                  after: seq<Byte>)
    requires text == sign + (whole + (point + (fraction + after)))
    ensures var a := |sign|; var b := a + |whole|; var c := b + |point|; var d := c + |fraction|;
            d <= |text| && text[..a] == sign && text[a..b] == whole && text[b..c] == point && text[c..d] == fraction
            && text[d..] == after
  {
    var fromFraction := fraction + after;
    var fromPoint := point + fromFraction;
    Peel(text, 0, sign, whole + fromPoint);
    Peel(text, |sign|, whole, fromPoint);
    Peel(text, |sign| + |whole|, point, fromFraction);
    Peel(text, |sign| + |whole| + |point|, fraction, after);
  }

  lemma LastFour(text: seq<Byte>, d: nat, letter: seq<Byte>, powerSign: seq<Byte>, power: seq<Byte>, tail: seq<Byte>)
    requires d <= |text| && text[d..] == letter + (powerSign + (power + tail))
    ensures var e := d + |letter|; var f := e + |powerSign|; var g := f + |power|;
            g <= |text| && text[d..e] == letter && text[e..f] == powerSign && text[f..g] == power && text[g..] == tail
  {
    var fromPower := power + tail;
    Peel(text, d, letter, powerSign + fromPower);
    Peel(text, d + |letter|, powerSign, fromPower);
    Peel(text, d + |letter| + |powerSign|, power, tail);
  }

  /** The parts found at their positions in the text. */
  ghost predicate PartsFound(text: seq<Byte>, sign: seq<Byte>, whole: seq<Byte>, point: seq<Byte>, fraction: seq<Byte>,
                             letter: seq<Byte>, powerSign: seq<Byte>, power: seq<Byte>, tail: seq<Byte>)
  {
    var a := |sign|; var b := a + |whole|; var c := b + |point|; var d := c + |fraction|;
    var e := d + |letter|; var f := e + |powerSign|; var g := f + |power|;
    && g <= |text| && text[..a] == sign && text[a..b] == whole && text[b..c] == point && text[c..d] == fraction
    && text[d..e] == letter && text[e..f] == powerSign && text[f..g] == power && text[g..] == tail
  }

  lemma FindParts(text: seq<Byte>, sign: seq<Byte>, whole: seq<Byte>, point: seq<Byte>, fraction: seq<Byte>,
                  letter: seq<Byte>, powerSign: seq<Byte>, power: seq<Byte>, tail: seq<Byte>)
    requires text == sign + whole + point + fraction + letter + powerSign + power + tail
    ensures PartsFound(text, sign, whole, point, fraction, letter, powerSign, power, tail)
  {
    FromTheFront(sign, whole, point, fraction, letter, powerSign, power, tail);
    FirstFour(text, sign, whole, point, fraction, letter + (powerSign + (power + tail)));
    LastFour(text, |sign| + |whole| + |point| + |fraction|, letter, powerSign, power, tail);
  }

  lemma SpellsParts(text: seq<Byte>, sign: seq<Byte>, whole: seq<Byte>, point: seq<Byte>, fraction: seq<Byte>,
                    letter: seq<Byte>, powerSign: seq<Byte>, power: seq<Byte>, tail: seq<Byte>)
    requires Spells(text, sign, whole, point, fraction, letter, powerSign, power, tail)
    ensures AreParts(sign, whole, point, fraction, letter, powerSign, power, tail)
    ensures PartsFound(text, sign, whole, point, fraction, letter, powerSign, power, tail)
  {
    hide AreParts, PartsFound;
    FindParts(text, sign, whole, point, fraction, letter, powerSign, power, tail);
  }

  lemma PartsPositions(text: seq<Byte>, sign: seq<Byte>, whole: seq<Byte>, point: seq<Byte>, fraction: seq<Byte>,
                       letter: seq<Byte>, powerSign: seq<Byte>, power: seq<Byte>, tail: seq<Byte>)
    requires AreParts(sign, whole, point, fraction, letter, powerSign, power, tail)
    requires PartsFound(text, sign, whole, point, fraction, letter, powerSign, power, tail)
    ensures var a := |sign|; var b := a + |whole|; var c := b + |point|; var d := c + |fraction|;
            var e := d + |letter|; var f := e + |powerSign|; var g := f + |power|;
            && g <= |text| && SpellsAt(text, a, b, c, d, e, f, g)
            && text[a..b] == whole && text[c..d] == fraction && text[f..g] == power && whole + fraction != []
            && (sign == [MINUS] <==> a == 1 && text[0] == MINUS)
            && (powerSign == [MINUS] <==> e < f && text[e] == MINUS)
  {
    hide AllDigits, ExponentStart;
    var e := |sign| + |whole| + |point| + |fraction| + |letter|;
    var g := e + |powerSign| + |power|;
    ExponentStartThere(text, g);
    assert g < |text| ==> text[g] == text[g..][0];
    assert sign != [] ==> text[..|sign|][0] == text[0];
    assert powerSign != [] ==> text[e..e + |powerSign|][0] == text[e];
  }

  /** What starts at i does so in the text from i on. */
  lemma ExponentStartThere(text: seq<Byte>, i: nat)
    requires i <= |text|
    ensures ExponentStart(text, i).None? <==> ExponentStart(text[i..], 0).None?
  {
    var rest := text[i..];
    assert forall k :: 0 <= k < |rest| ==> rest[k] == text[i + k];
  }

  /** Splitting a number built from parts gives back the parts. */
  lemma SpelledSplit(text: seq<Byte>, a: nat, b: nat, c: nat, d: nat, e: nat, f: nat, g: nat)
    requires a <= b <= c <= d <= e <= f <= g <= |text| && SpellsAt(text, a, b, c, d, e, f, g)
    ensures var p := Split(text);
            && p.negative == (a == 1 && text[0] == MINUS) && p.start == a && p.wholeEnd == b
            && p.fractionStart == c && p.fractionEnd == d && p.end == g
    ensures var read := Capped(text[f..g]);
            CappedAt(text, d) == if e < f && text[e] == MINUS then 0 - read else read
  {
    hide DigitRun, Capped, Spelled;
    DigitRunUnique(text, a, b);
    DigitRunUnique(text, c, d);
    if f < g {
      DigitRunUnique(text, f, g);
    } else {
      NothingCapped();
    }
  }

  lemma NothingCapped()
    ensures Capped([]) == 0
  {
  }

  lemma Joined(text: seq<Byte>, a: nat, b: nat, c: nat, d: nat, e: nat, f: nat, g: nat)
    requires a <= b <= c <= d <= e <= f <= g <= |text|
    ensures text == text[..a] + text[a..b] + text[b..c] + text[c..d] + text[d..e] + text[e..f] + text[f..g] + text[g..]
  {
    assert text[..b] == text[..a] + text[a..b];
    assert text[..c] == text[..b] + text[b..c];
    assert text[..d] == text[..c] + text[c..d];
    assert text[..e] == text[..d] + text[d..e];
    assert text[..f] == text[..e] + text[e..f];
    assert text[..g] == text[..f] + text[f..g];
    assert text == text[..g] + text[g..];
  }

  lemma SplitSign(text: seq<Byte>)
    ensures var p := Split(text);
            p.start == 0 || (p.start == 1 && |text| > 0 && (text[0] == PLUS || text[0] == MINUS))
  {
  }

  /** Where the letter, the sign and the digits of an exponent end; all at i if there is none. */
  lemma ExponentShape(text: seq<Byte>, i: nat) returns (e: nat, f: nat)
    requires i <= |text| && !DigitAt(text, i)
    ensures var g := ExponentAt(text, i).1;
            && i <= e <= f <= g <= |text| && AllDigits(text[f..g]) && !DigitAt(text, g)
            && ((e == i + 1 && (text[i] == LOWER_E || text[i] == UPPER_E) && f < g) || i == e == f == g)
            && (e == f || (f == e + 1 && (text[e] == PLUS || text[e] == MINUS)))
            && (i == g ==> ExponentStart(text, i) == None)
  {
    var start := ExponentStart(text, i);
    if start.None? {
      e, f := i, i;
    } else {
      e, f := i + 1, start.value;
    }
  }

  /** The positions of the parts of a text that has a digit where a number has one. */
  lemma SplitSpells(text: seq<Byte>) returns (e: nat, f: nat)
    requires Digits(text, Split(text)) != []
    ensures var p := Split(text);
            && p.start <= p.wholeEnd <= p.fractionStart <= p.fractionEnd <= e <= f <= p.end <= |text|
            && SpellsAt(text, p.start, p.wholeEnd, p.fractionStart, p.fractionEnd, e, f, p.end)
  {
    hide Split, DigitAt, AllDigits, ExponentStart, ExponentAt;
    SplitShape(text);
    SplitEnds(text);
    SplitSign(text);
    e, f := ExponentShape(text, Split(text).fractionEnd);
  }

  /** Parts at positions are parts. */
  lemma AtSpells(text: seq<Byte>, a: nat, b: nat, c: nat, d: nat, e: nat, f: nat, g: nat)
    requires a <= b <= c <= d <= e <= f <= g <= |text| && SpellsAt(text, a, b, c, d, e, f, g)
    ensures Spells(text, text[..a], text[a..b], text[b..c], text[c..d], text[d..e], text[e..f], text[f..g], text[g..])
  {
    hide AllDigits, ExponentStart;
    Joined(text, a, b, c, d, e, f, g);
    ExponentStartThere(text, g);
    assert g < |text| ==> text[g..][0] == text[g];
  }

  /** There is a digit where a number has one exactly if the text starts with a number written in parts. */
  lemma NumberExactly(text: seq<Byte>)
    ensures Digits(text, Split(text)) != [] <==> StartsWithNumber(text)
  {
    hide Split, Digits, Spells, SpellsAt, AreParts, PartsFound;
    if Digits(text, Split(text)) != [] {
      var p := Split(text);
      var e, f := SplitSpells(text);
      AtSpells(text, p.start, p.wholeEnd, p.fractionStart, p.fractionEnd, e, f, p.end);
    } else {
      forall sign, whole, point, fraction, letter, powerSign, power, tail |
          Spells(text, sign, whole, point, fraction, letter, powerSign, power, tail)
        ensures false
      {
        SpellsParts(text, sign, whole, point, fraction, letter, powerSign, power, tail);
        SpelledParts(text, sign, whole, point, fraction, letter, powerSign, power, tail);
      }
    }
  }

  /** What parse_numbers is stated about, of a number built from its parts. */
  lemma SpelledParts(text: seq<Byte>, sign: seq<Byte>, whole: seq<Byte>, point: seq<Byte>, fraction: seq<Byte>,
                     letter: seq<Byte>, powerSign: seq<Byte>, power: seq<Byte>, tail: seq<Byte>)
    requires AreParts(sign, whole, point, fraction, letter, powerSign, power, tail)
    requires PartsFound(text, sign, whole, point, fraction, letter, powerSign, power, tail)
    ensures var p := Split(text);
            && p.negative == (sign == [MINUS]) && p.wholeEnd == |sign| + |whole|
            && p.fractionStart == p.wholeEnd + |point| && p.fractionEnd == p.fractionStart + |fraction|
            && p.end == p.fractionEnd + |letter| + |powerSign| + |power| && Digits(text, p) == whole + fraction != []
            && CappedAt(text, p.fractionEnd) == if powerSign == [MINUS] then 0 - Capped(power) else Capped(power)
  {
    hide Split, AreParts, PartsFound, SpellsAt, Capped, CappedAt;
    PartsPositions(text, sign, whole, point, fraction, letter, powerSign, power, tail);
    var a := |sign|;
    var b := a + |whole|;
    var c := b + |point|;
    var d := c + |fraction|;
    var e := d + |letter|;
    var f := e + |powerSign|;
    SpelledSplit(text, a, b, c, d, e, f, f + |power|);
  }

  method ParseParts(text: seq<Byte>, ghost sign: seq<Byte>, ghost whole: seq<Byte>, ghost point: seq<Byte>,
                    ghost fraction: seq<Byte>, ghost letter: seq<Byte>, ghost powerSign: seq<Byte>,
                    ghost power: seq<Byte>, ghost tail: seq<Byte>) returns (r: ParseResult)
    requires AreParts(sign, whole, point, fraction, letter, powerSign, power, tail)
    requires PartsFound(text, sign, whole, point, fraction, letter, powerSign, power, tail)
    ensures r.valid && (r.negative <==> sign == [MINUS])
    ensures r.wholeEnd == |sign| + |whole| && r.fractionStart == r.wholeEnd + |point|
            && r.fractionEnd == r.fractionStart + |fraction|
            && r.lastParsed == r.fractionEnd + |letter| + |powerSign| + |power|
    ensures var scale := (if powerSign == [MINUS] then 0 - Capped(power) else Capped(power)) - |fraction|;
            Faithful(whole + fraction, scale, r.mantissa, r.exponent, r.moreThan19DigitsWithOverflow)
  {
    hide Split, Capped, CappedAt, AreParts, PartsFound, Faithful, Digits, StartsWithNumber;
    SpelledParts(text, sign, whole, point, fraction, letter, powerSign, power, tail);
    r := ParseNumbers(text);
  }

  /**
   * parse_numbers on a number built from its parts: what it reports of each part. The number ends where it ends
   * because what follows starts with no digit, with no exponent if there is none yet, and with no point if there is
   * neither point nor exponent.
   */
  method ParseSpelled(sign: seq<Byte>, whole: seq<Byte>, point: seq<Byte>, fraction: seq<Byte>, letter: seq<Byte>,
                      powerSign: seq<Byte>, power: seq<Byte>, tail: seq<Byte>) returns (r: ParseResult)
    requires sign == [] || sign == [0x2B] || sign == [0x2D]
    requires AllDigits(whole) && AllDigits(fraction) && AllDigits(power) && whole + fraction != []
    requires point == [0x2E] || (point == [] && fraction == [])
    requires ((letter == [0x65] || letter == [0x45]) && power != []) || letter == powerSign == power == []
    requires powerSign == [] || powerSign == [0x2B] || powerSign == [0x2D]
    requires tail != [] ==> !(0x30 <= tail[0] <= 0x39)
    requires letter == [] && |tail| > 1 && (tail[0] == 0x65 || tail[0] == 0x45) ==>
               && !(0x30 <= tail[1] <= 0x39)
               && !(|tail| > 2 && (tail[1] == 0x2B || tail[1] == 0x2D) && 0x30 <= tail[2] <= 0x39)
    requires letter == point == [] && tail != [] ==> tail[0] != 0x2E
    ensures r.valid && (r.negative <==> sign == [0x2D])
    ensures r.wholeEnd == |sign| + |whole| && r.fractionStart == r.wholeEnd + |point|
            && r.fractionEnd == r.fractionStart + |fraction|
            && r.lastParsed == r.fractionEnd + |letter| + |powerSign| + |power|
    ensures r.moreThan19DigitsWithOverflow <==> Spelled(whole + fraction) >= 10_000_000_000_000_000_000
    ensures var scale := (if powerSign == [0x2D] then 0 - Capped(power) else Capped(power)) - |fraction|;
            if !r.moreThan19DigitsWithOverflow then r.mantissa == Spelled(whole + fraction) && r.exponent == scale
            else
              && 1_000_000_000_000_000_000 <= r.mantissa < 10_000_000_000_000_000_000
              && 0 <= r.exponent - scale <= |whole + fraction|
              && r.mantissa == Spelled((whole + fraction)[..|whole + fraction| - (r.exponent - scale)])
    ensures Spelled(power) < 0x1000_0000 ==> Capped(power) == Spelled(power)
  {
    hide Spelled, Capped, PartsFound, AllDigits;
    var text := sign + whole + point + fraction + letter + powerSign + power + tail;
    FindParts(text, sign, whole, point, fraction, letter, powerSign, power, tail);
    CappedBelow(power);
    r := ParseParts(text, sign, whole, point, fraction, letter, powerSign, power, tail);
  }
}
