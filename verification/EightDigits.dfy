/** Eight decimal digits at once: the byte-parallel test and conversion on a little-endian 64-bit word. */
module EightDigits {
  import opened Arithmetic
  import opened Bits
  import opened Prelude

  const U64: nat := 0x1_0000_0000_0000_0000

  // ----- words made of fields -----

  /** Masks act field by field. */
  lemma {:induction false} AndSplit(x: nat, X: nat, y: nat, Y: nat, k: nat)
    requires x < Pow(2, k) && y < Pow(2, k)
    ensures And(x + X * Pow(2, k), y + Y * Pow(2, k)) == And(x, y) + And(X, Y) * Pow(2, k)
    decreases k
  {
    hide And, Pow;
    if k == 0 {
      AndZero(0);
      NoPower(2);
    } else {
      var p := Pow(2, k - 1);
      HalveShifted(1, k);
      AndSplit(x / 2, X, y / 2, Y, k - 1);
      AndStep(x, y);
      MulNonNegative(X, p);
      MulNonNegative(Y, p);
      AndHalves(x, X * p, y, Y * p);
      HalveShifted(X, k);
      HalveShifted(Y, k);
      HalveShifted(And(X, Y), k);
    }
  }

  lemma {:induction false} OrSplit(x: nat, X: nat, y: nat, Y: nat, k: nat)
    requires x < Pow(2, k) && y < Pow(2, k)
    ensures Or(x + X * Pow(2, k), y + Y * Pow(2, k)) == Or(x, y) + Or(X, Y) * Pow(2, k)
    decreases k
  {
    if k == 0 {
      OrZero(0);
    } else {
      HalveShifted(X, k);
      HalveShifted(Y, k);
      HalveShifted(Or(X, Y), k);
      OrSplit(x / 2, X, y / 2, Y, k - 1);
    }
  }

  lemma {:induction false} OrBelow(x: nat, y: nat, k: nat)
    ensures Or(x, y) < Pow(2, k) <==> x < Pow(2, k) && y < Pow(2, k)
    decreases k
  {
    if k == 0 {
      if x > 0 || y > 0 {
        OrPositive(x, y);
      }
    } else {
      OrBelow(x / 2, y / 2, k - 1);
    }
  }

  lemma {:induction false} OrPositive(x: nat, y: nat)
    requires x > 0 || y > 0
    ensures Or(x, y) > 0
    decreases x + y
  {
    if x > 1 || y > 1 {
      OrPositive(x / 2, y / 2);
    }
  }

  /** The word that eight bytes in memory form on a little-endian host. */
  function Pack(s: seq<Byte>): (v: nat) {
    if s == [] then 0 else s[0] + 256 * Pack(s[1..])
  }

  function Repeat(b: Byte, n: nat): (v: nat) {
    if n == 0 then 0 else b + 256 * Repeat(b, n - 1)
  }

  ghost predicate AllDigits(s: seq<Byte>) {
    forall i :: 0 <= i < |s| ==> 0x30 <= s[i] <= 0x39
  }

  // ----- the test -----

  /** has_eight_digits */
  predicate HasEightDigits(value: nat) {
    And(Or((value + 0x4646464646464646) % U64, (value + U64 - 0x3030303030303030) % U64), 0x8080808080808080) == 0
  }

  lemma Powers()
    ensures Pow(2, 7) == 128 && Pow(2, 8) == 256 && Pow(2, 16) == 65536 && Pow(256, 8) == U64
  {
  }

  /** One byte of the test: adding 0x46 and subtracting 0x30 both leave the top bit clear exactly for a digit. */
  lemma ByteTest(b: Byte)
    ensures And(Or((b + 0x46) % 256, (b + 256 - 0x30) % 256), 0x80) == 0 <==> 0x30 <= b <= 0x39
  {
    hide And, Or, Pow;
    var x, y := (b + 0x46) % 256, (b + 256 - 0x30) % 256;
    Powers();
    OrBelow(x, y, 7);
    OrBelow(x, y, 8);
    TopBit(Or(x, y));
  }

  lemma TopBit(x: nat)
    requires x < 256
    ensures And(x, 0x80) == 0 <==> x < 128
  {
    var low, high := x % 128, x / 128;
    assert Pow(2, 7) == 128;
    AndSplit(low, high, 0, 1, 7);
    AndZero(low);
    assert high == 0 || high == 1;
    assert And(0, 1) == 0 && And(1, 1) == 1;
  }

  function Modulo(x: int, p: nat): (r: nat)
    requires p > 0
  {
    x % p
  }

  /** The remainder of a number by 256 * p, low byte first. */
  lemma LowByte(v: int, x: nat, X: int, p: nat)
    requires v == x + 256 * X && x < 256 && p > 0
    ensures Modulo(v, 256 * p) % 256 == x && Modulo(v, 256 * p) / 256 == Modulo(X, p)
  {
    DivModEquation(X, p);
    MulAssoc(256, X / p, p);
    MulAssoc(X / p, 256, p);
    DivModUnique(v, 256 * p, X / p, x + 256 * (X % p));
  }

  lemma {:induction false} RepeatBound(b: Byte, n: nat)
    ensures Repeat(b, n) < Pow(256, n)
  {
    if n > 0 {
      RepeatBound(b, n - 1);
    }
  }

  /** The bytes with 0x46 added to each, as a word; carries run upwards and the last is lost. */
  ghost function Up(s: seq<Byte>): (v: nat) {
    PowPositive(256, |s|);
    Modulo(Pack(s) + Repeat(0x46, |s|), Pow(256, |s|))
  }

  /** The bytes with 0x30 subtracted from each, as a word; borrows run upwards and the last is lost. */
  ghost function Down(s: seq<Byte>): (v: nat) {
    PowPositive(256, |s|);
    RepeatBound(0x30, |s|);
    Modulo(Pack(s) + Pow(256, |s|) - Repeat(0x30, |s|), Pow(256, |s|))
  }

  lemma UpStep(s: seq<Byte>)
    requires s != []
    ensures Up(s) % 256 == (s[0] as nat + 0x46) % 256 && (s[0] <= 0x39 ==> Up(s) / 256 == Up(s[1..]))
  {
    hide Modulo;
    var b: nat, n := s[0], |s| - 1;
    PowPositive(256, n);
    LowByte(Pack(s) + Repeat(0x46, |s|), (b + 0x46) % 256, Pack(s[1..]) + Repeat(0x46, n) + (b + 0x46) / 256,
            Pow(256, n));
  }

  lemma DownStep(s: seq<Byte>)
    requires s != []
    ensures Down(s) % 256 == (s[0] as nat + 256 - 0x30) % 256 && (s[0] >= 0x30 ==> Down(s) / 256 == Down(s[1..]))
  {
    hide Modulo;
    var b: nat, n := s[0], |s| - 1;
    PowPositive(256, n);
    RepeatBound(0x30, n);
    LowByte(Pack(s) + Pow(256, |s|) - Repeat(0x30, |s|), (b + 256 - 0x30) % 256,
            Pack(s[1..]) + Pow(256, n) - Repeat(0x30, n) - (1 - (b + 256 - 0x30) / 256), Pow(256, n));
  }

  /** The whole test, for any number of bytes: a byte that is no digit fails it whatever carries it causes. */
  lemma {:induction false} BytesTest(s: seq<Byte>)
    ensures And(Or(Up(s), Down(s)), Repeat(0x80, |s|)) == 0 <==> AllDigits(s)
  {
    if s == [] {
      AndZero(Or(Up(s), Down(s)));
    } else {
      BytesTest(s[1..]);
      TestStep(s);
    }
  }

  lemma TestStep(s: seq<Byte>)
    requires s != []
    requires And(Or(Up(s[1..]), Down(s[1..])), Repeat(0x80, |s| - 1)) == 0 <==> AllDigits(s[1..])
    ensures And(Or(Up(s), Down(s)), Repeat(0x80, |s|)) == 0 <==> AllDigits(s)
  {
    hide And, Or, Up, Down, AllDigits;
    UpStep(s);
    DownStep(s);
    FirstByte(Up(s) % 256, Up(s) / 256, Down(s) % 256, Down(s) / 256, Repeat(0x80, |s| - 1));
    ByteTest(s[0]);
    AllDigitsFirst(s);
  }

  lemma AllDigitsFirst(s: seq<Byte>)
    requires s != []
    ensures AllDigits(s) <==> 0x30 <= s[0] <= 0x39 && AllDigits(s[1..])
  {
    var rest := s[1..];
    assert forall i :: 1 <= i < |s| ==> s[i] == rest[i - 1];
  }

  lemma FirstByte(x: nat, X: nat, y: nat, Y: nat, M: nat)
    requires x < 256 && y < 256
    ensures And(Or(x + 256 * X, y + 256 * Y), 0x80 + 256 * M) == And(Or(x, y), 0x80) + 256 * And(Or(X, Y), M)
  {
    hide And, Or, Pow;
    Powers();
    OrSplit(x, X, y, Y, 8);
    OrBelow(x, y, 8);
    AndSplit(Or(x, y), Or(X, Y), 0x80, M, 8);
  }

  /** has_eight_digits tells exactly whether all eight bytes are ASCII digits. */
  lemma HasEightDigitsCorrect(s: seq<Byte>)
    requires |s| == 8
    ensures HasEightDigits(Pack(s)) <==> AllDigits(s)
  {
    hide And, Or, Pow, Pack;
    BytesTest(s);
    Powers();
    assert Repeat(0x46, 8) == 0x4646464646464646;
    assert Repeat(0x30, 8) == 0x3030303030303030;
    assert Repeat(0x80, 8) == 0x8080808080808080;
  }

  // ----- the conversion -----

  /** The number that ASCII digits spell. */
  function Spelled(s: seq<Byte>): (v: int) {
    if s == [] then 0 else 10 * Spelled(s[..|s| - 1]) + (s[|s| - 1] as int - 0x30)
  }

  /** The three multiplications: digits to pairs, pairs to groups of four, these to eight. */
  function ToPairs(digits: nat): (v: nat) {
    ((digits * (256 * 10 + 1)) % U64) / 256
  }

  function ToFours(pairs: nat): (v: nat) {
    ((And(pairs, 0x00FF_00FF_00FF_00FF) * (65536 * 100 + 1)) % U64) / 65536
  }

  function ToEight(fours: nat): (v: nat) {
    ((And(fours, 0x0000_FFFF_0000_FFFF) * (4294967296 * 10000 + 1)) % U64) / 4294967296
  }

  /** eight_digits_to_value, for a little-endian host. */
  function EightDigitsToValue(value: nat): (v: nat) {
    ToEight(ToFours(ToPairs((value + U64 - 0x3030303030303030) % U64))) % 4294967296
  }

  /** A mask that keeps the lower of two fields, at the bottom of a longer word. */
  lemma MaskField(low: nat, high: nat, X: nat, M: nat, k: nat)
    requires low < Pow(2, k) && high < Pow(2, k)
    ensures And(low + (high + X * Pow(2, k)) * Pow(2, k), Pow(2, k) - 1 + (M * Pow(2, k)) * Pow(2, k))
         == low + (And(X, M) * Pow(2, k)) * Pow(2, k)
  {
    hide And;
    var p := Pow(2, k);
    PowPositive(2, k);
    AndSplit(low, high + X * p, p - 1, M * p, k);
    AndMask(low, k);
    assert low % p == low by { DivModUnique(low, p, 0, low); }
    AndSplit(high, X, 0, M, k);
    AndZero(high);
  }

  lemma MaskBytes(a0: nat, a1: nat, a2: nat, a3: nat, a4: nat, a5: nat, a6: nat)
    requires a0 < 256 && a1 < 256 && a2 < 256 && a3 < 256 && a4 < 256 && a5 < 256 && a6 < 256
    ensures And(a0 + a1 * 0x100 + a2 * 0x1_0000 + a3 * 0x100_0000 + a4 * 0x1_0000_0000 + a5 * 0x100_0000_0000
                + a6 * 0x1_0000_0000_0000,
                0x00FF_00FF_00FF_00FF)
         == a0 + a2 * 0x1_0000 + a4 * 0x1_0000_0000 + a6 * 0x1_0000_0000_0000
  {
    hide And, Pow;
    Powers();
    MaskField(a0, a1, a2 + a3 * 0x100 + a4 * 0x1_0000 + a5 * 0x100_0000 + a6 * 0x1_0000_0000, 0x00FF_00FF_00FF, 8);
    MaskField(a2, a3, a4 + a5 * 0x100 + a6 * 0x1_0000, 0x00FF_00FF, 8);
    MaskField(a4, a5, a6, 0xFF, 8);
    MaskField(a6, 0, 0, 0, 8);
    AndZero(0);
  }

  lemma MaskWords(a0: nat, a1: nat, a2: nat)
    requires a0 < 65536 && a1 < 65536 && a2 < 65536
    ensures And(a0 + a1 * 0x1_0000 + a2 * 0x1_0000_0000, 0x0000_FFFF_0000_FFFF) == a0 + a2 * 0x1_0000_0000
  {
    hide And, Pow;
    Powers();
    MaskField(a0, a1, a2, 0xFFFF, 16);
    MaskField(a2, 0, 0, 0, 16);
    AndZero(0);
  }

  /** The middle part of a product: what overflows the word and the lowest field are dropped. */
  lemma Middle(v: nat, high: nat, X: nat, low: nat, k: nat)
    requires v == high * U64 + (X * k + low) && low < k && X * k + low < U64
    ensures (v % U64) / k == X
  {
    DivModUnique(v, U64, high, X * k + low);
    DivModUnique(X * k + low, k, X, low);
  }

  /** Eight fields of 8 bits. */
  function Fields(d0: nat, d1: nat, d2: nat, d3: nat, d4: nat, d5: nat, d6: nat, d7: nat): (v: nat) {
    d0 + d1 * 0x100 + d2 * 0x1_0000 + d3 * 0x100_0000 + d4 * 0x1_0000_0000
    + d5 * 0x100_0000_0000 + d6 * 0x1_0000_0000_0000 + d7 * 0x100_0000_0000_0000
  }

  /** Every field becomes itself plus ten times the one below. */
  lemma Pairs(d0: nat, d1: nat, d2: nat, d3: nat, d4: nat, d5: nat, d6: nat, d7: nat)
    requires d0 <= 9 && d1 <= 9 && d2 <= 9 && d3 <= 9 && d4 <= 9 && d5 <= 9 && d6 <= 9 && d7 <= 9
    ensures ToPairs(Fields(d0, d1, d2, d3, d4, d5, d6, d7))
         == Fields(d1 + 10 * d0, d2 + 10 * d1, d3 + 10 * d2, d4 + 10 * d3, d5 + 10 * d4, d6 + 10 * d5, d7 + 10 * d6, 0)
  {
    hide Fields;
    var digits := Fields(d0, d1, d2, d3, d4, d5, d6, d7);
    var pairs := Fields(d1 + 10 * d0, d2 + 10 * d1, d3 + 10 * d2, d4 + 10 * d3, d5 + 10 * d4, d6 + 10 * d5,
                        d7 + 10 * d6, 0);
    PairsEquation(d0, d1, d2, d3, d4, d5, d6, d7);
    FieldsBound(d1 + 10 * d0, d2 + 10 * d1, d3 + 10 * d2, d4 + 10 * d3, d5 + 10 * d4, d6 + 10 * d5, d7 + 10 * d6, 0);
    Middle(digits * (256 * 10 + 1), 10 * d7, pairs, d0, 256);
  }

  lemma PairsEquation(d0: nat, d1: nat, d2: nat, d3: nat, d4: nat, d5: nat, d6: nat, d7: nat)
    ensures Fields(d0, d1, d2, d3, d4, d5, d6, d7) * 2561
         == (10 * d7) * 0x1_0000_0000_0000_0000
            + (Fields(d1 + 10 * d0, d2 + 10 * d1, d3 + 10 * d2, d4 + 10 * d3, d5 + 10 * d4, d6 + 10 * d5, d7 + 10 * d6,
                      0) * 256 + d0)
  {
  }

  lemma FieldsBound(d0: nat, d1: nat, d2: nat, d3: nat, d4: nat, d5: nat, d6: nat, d7: nat)
    requires d0 < 256 && d1 < 256 && d2 < 256 && d3 < 256 && d4 < 256 && d5 < 256 && d6 < 256 && d7 < 256
    ensures Fields(d0, d1, d2, d3, d4, d5, d6, d7) < U64
    ensures d7 == 0 ==> Fields(d0, d1, d2, d3, d4, d5, d6, d7) < 0x100_0000_0000_0000
  {
  }

  /** With fields of 16 bits: a hundred times the one below. */
  lemma Fours(a0: nat, a1: nat, a2: nat, a3: nat, a4: nat, a5: nat, a6: nat)
    requires a0 <= 99 && a1 <= 99 && a2 <= 99 && a3 <= 99 && a4 <= 99 && a5 <= 99 && a6 <= 99
    ensures ToFours(Fields(a0, a1, a2, a3, a4, a5, a6, 0))
         == (a2 + 100 * a0) + (a4 + 100 * a2) * 0x1_0000 + (a6 + 100 * a4) * 0x1_0000_0000
  {
    hide And;
    MaskBytes(a0, a1, a2, a3, a4, a5, a6);
    var pairs := a0 + a2 * 0x1_0000 + a4 * 0x1_0000_0000 + a6 * 0x1_0000_0000_0000;
    var fours := (a2 + 100 * a0) + (a4 + 100 * a2) * 0x1_0000 + (a6 + 100 * a4) * 0x1_0000_0000;
    Middle(pairs * (65536 * 100 + 1), 100 * a6, fours, a0, 65536);
  }

  /** With fields of 32 bits: ten thousand times the one below. */
  lemma Eight(a0: nat, a1: nat, a2: nat)
    requires a0 <= 9999 && a1 <= 9999 && a2 <= 9999
    ensures ToEight(a0 + a1 * 0x1_0000 + a2 * 0x1_0000_0000) == a2 + 10000 * a0
  {
    hide And;
    MaskWords(a0, a1, a2);
    Middle((a0 + a2 * 0x1_0000_0000) * (4294967296 * 10000 + 1), 10000 * a2, a2 + 10000 * a0, a0, 4294967296);
  }

  lemma PackEight(s: seq<Byte>)
    requires |s| == 8
    ensures var b: seq<nat> := s;
            Pack(s) == b[0] + b[1] * 0x100 + b[2] * 0x1_0000 + b[3] * 0x100_0000 + b[4] * 0x1_0000_0000
                       + b[5] * 0x100_0000_0000 + b[6] * 0x1_0000_0000_0000 + b[7] * 0x100_0000_0000_0000
  {
    PackTwo(s);
    PackTwo(s[2..]);
    PackTwo(s[4..]);
    PackTwo(s[6..]);
    assert s[2..][2..] == s[4..] && s[4..][2..] == s[6..] && s[6..][2..] == [];
  }

  lemma PackTwo(s: seq<Byte>)
    requires |s| >= 2
    ensures var b: seq<nat> := s;
            Pack(s) == b[0] + b[1] * 0x100 + Pack(s[2..]) * 0x1_0000
  {
    assert s[1..][1..] == s[2..];
  }

  lemma SpelledFour(s: seq<Byte>)
    requires |s| == 4
    ensures Spelled(s) == 1000 * (s[0] as int - 0x30) + 100 * (s[1] as int - 0x30) + 10 * (s[2] as int - 0x30)
                          + (s[3] as int - 0x30)
  {
    var t1, t2, t3 := s[..1], s[..2], s[..3];
    assert t3[..2] == t2 && t2[..1] == t1 && t1[..0] == [];
    assert Spelled(t1) == s[0] as int - 0x30;
    assert Spelled(t2) == 10 * Spelled(t1) + (s[1] as int - 0x30);
    assert Spelled(t3) == 10 * Spelled(t2) + (s[2] as int - 0x30);
  }

  /** Digits appended to a number. */
  lemma {:induction false} SpelledConcat(s: seq<Byte>, t: seq<Byte>)
    ensures Spelled(s + t) == Pow(10, |t|) * Spelled(s) + Spelled(t)
  {
    if t == [] {
      assert s + t == s;
    } else {
      var n := |t| - 1;
      SpelledConcat(s, t[..n]);
      assert (s + t)[..|s| + n] == s + t[..n];
      MulAssoc(10, Pow(10, n), Spelled(s));
    }
  }

  /** Digits spell a number of their length, which is not zero if the first digit is not. */
  lemma {:induction false} SpelledBound(s: seq<Byte>)
    requires AllDigits(s)
    ensures 0 <= Spelled(s) < Pow(10, |s|)
    ensures s != [] && s[0] != 0x30 ==> Spelled(s) > 0
  {
    if s != [] {
      SpelledBound(s[..|s| - 1]);
    }
  }

  lemma {:induction false} SpelledZeros(s: seq<Byte>)
    requires forall i :: 0 <= i < |s| ==> s[i] == 0x30
    ensures Spelled(s) == 0
  {
    if s != [] {
      SpelledZeros(s[..|s| - 1]);
    }
  }

  lemma SpelledExtends(digits: seq<Byte>, from: nat, mid: nat, to: nat)
    requires from <= mid <= to <= |digits|
    ensures Spelled(digits[from..to]) == Pow(10, to - mid) * Spelled(digits[from..mid]) + Spelled(digits[mid..to])
  {
    SpelledConcat(digits[from..mid], digits[mid..to]);
    assert digits[from..to] == digits[from..mid] + digits[mid..to];
  }

  lemma SpelledDigit(digits: seq<Byte>, from: nat, at: nat)
    requires from <= at < |digits|
    ensures Spelled(digits[from..at + 1]) == 10 * Spelled(digits[from..at]) + (digits[at] as int - 0x30)
  {
    assert digits[from..at + 1][..at - from] == digits[from..at];
  }

  lemma Converted(d0: nat, d1: nat, d2: nat, d3: nat, d4: nat, d5: nat, d6: nat, d7: nat)
    requires d0 <= 9 && d1 <= 9 && d2 <= 9 && d3 <= 9 && d4 <= 9 && d5 <= 9 && d6 <= 9 && d7 <= 9
    ensures ToEight(ToFours(ToPairs(Fields(d0, d1, d2, d3, d4, d5, d6, d7))))
         == (1000 * d4 + 100 * d5 + 10 * d6 + d7) + 10000 * (1000 * d0 + 100 * d1 + 10 * d2 + d3)
  {
    hide ToPairs, ToFours, ToEight, Fields;
    Pairs(d0, d1, d2, d3, d4, d5, d6, d7);
    Fours(d1 + 10 * d0, d2 + 10 * d1, d3 + 10 * d2, d4 + 10 * d3, d5 + 10 * d4, d6 + 10 * d5, d7 + 10 * d6);
    Eight((d3 + 10 * d2) + 100 * (d1 + 10 * d0), (d5 + 10 * d4) + 100 * (d3 + 10 * d2),
          (d7 + 10 * d6) + 100 * (d5 + 10 * d4));
  }

  /** eight_digits_to_value gives the number the digits spell. */
  lemma EightDigitsCorrect(s: seq<Byte>)
    requires |s| == 8 && AllDigits(s)
    ensures EightDigitsToValue(Pack(s)) == Spelled(s)
  {
    hide Pack, Spelled, ToPairs, ToFours, ToEight, Fields, Pow;
    var d := seq(8, i requires 0 <= i < 8 => s[i] as int - 0x30);
    PackDigits(s, d);
    FieldsBound(d[0], d[1], d[2], d[3], d[4], d[5], d[6], d[7]);
    Converted(d[0], d[1], d[2], d[3], d[4], d[5], d[6], d[7]);
    SpelledEight(s, d);
    DivModUnique(Pack(s) + U64 - 0x3030303030303030, U64, 1, Fields(d[0], d[1], d[2], d[3], d[4], d[5], d[6], d[7]));
  }

  lemma SpelledEight(s: seq<Byte>, d: seq<nat>)
    requires |s| == |d| == 8 && (forall i :: 0 <= i < 8 ==> s[i] as int == d[i] + 0x30)
    ensures Spelled(s) == 10000 * (1000 * d[0] + 100 * d[1] + 10 * d[2] + d[3])
                          + (1000 * d[4] + 100 * d[5] + 10 * d[6] + d[7])
  {
    hide Spelled, Pow;
    var t, u := s[..4], s[4..];
    SpelledFour(t);
    SpelledFour(u);
    SpelledConcat(t, u);
    TenThousand();
    assert s == t + u;
    assert u[0] == s[4] && u[1] == s[5] && u[2] == s[6] && u[3] == s[7];
  }

  lemma PackDigits(s: seq<Byte>, d: seq<nat>)
    requires |s| == |d| == 8 && (forall i :: 0 <= i < 8 ==> s[i] as int == d[i] + 0x30)
    ensures Pack(s) == Fields(d[0], d[1], d[2], d[3], d[4], d[5], d[6], d[7]) + 0x3030303030303030
  {
    hide Pack;
    PackEight(s);
  }

  lemma TenToTheEight()
    ensures Pow(10, 8) == 100_000_000 && Pow(10, 3) == 1000
  {
  }

  lemma TenThousand()
    ensures Pow(10, 4) == 10000
  {
  }
}
