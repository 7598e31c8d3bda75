/** Little-endian arrays of words in base `b` and the integers they denote. */
module Words {
  import opened Arithmetic

  ghost predicate IsWords(b: nat, s: seq<nat>)
  {
    forall i :: 0 <= i < |s| ==> s[i] < b
  }

  ghost function Value(b: nat, s: seq<nat>): (v: nat)
  {
    if |s| == 0 then 0 else Value(b, s[..|s| - 1]) + s[|s| - 1] * Pow(b, |s| - 1)
  }

  lemma ValueSnoc(b: nat, s: seq<nat>, x: nat)
    ensures Value(b, s + [x]) == Value(b, s) + x * Pow(b, |s|)
  {
    assert (s + [x])[..|s|] == s;
  }

  lemma ValuePrefix(b: nat, s: seq<nat>, i: nat)
    requires i < |s|
    ensures Value(b, s[..i + 1]) == Value(b, s[..i]) + s[i] * Pow(b, i)
  {
    assert s[..i + 1][..i] == s[..i];
  }

  lemma AllWords(b: nat, s: seq<nat>, n: nat)
    requires n == |s|
    ensures Value(b, s[..n]) == Value(b, s)
  {
    assert s[..n] == s;
  }

  lemma NoWords(b: nat, s: seq<nat>)
    ensures Value(b, s[..0]) == 0 && Pow(b, 0) == 1
  {
  }

  lemma {:induction false} ValueBound(b: nat, s: seq<nat>)
    requires IsWords(b, s)
    ensures Value(b, s) < Pow(b, |s|)
  {
    if |s| > 0 {
      var n := |s| - 1;
      ValueBound(b, s[..n]);
      MulMonotone(s[n] + 1, b, Pow(b, n));
      MulDistrib(Pow(b, n), s[n], 1);
    }
  }

  lemma {:induction false} ValueConcat(b: nat, s: seq<nat>, t: seq<nat>)
    ensures Value(b, s + t) == Value(b, s) + Pow(b, |s|) * Value(b, t)
  {
    if |t| == 0 {
      assert s + t == s;
    } else {
      var n := |t| - 1;
      ValueConcat(b, s, t[..n]);
      assert (s + t)[..|s + t| - 1] == s + t[..n];
      PowAdd(b, |s|, n);
      calc {
        Value(b, s + t);
        Value(b, s + t[..n]) + t[n] * Pow(b, |s| + n);
        Value(b, s) + Pow(b, |s|) * Value(b, t[..n]) + t[n] * (Pow(b, |s|) * Pow(b, n));
        { MulAssoc(t[n], Pow(b, |s|), Pow(b, n)); MulAssoc(Pow(b, |s|), t[n], Pow(b, n)); }
        Value(b, s) + Pow(b, |s|) * Value(b, t[..n]) + Pow(b, |s|) * (t[n] * Pow(b, n));
        { MulDistrib(Pow(b, |s|), Value(b, t[..n]), t[n] * Pow(b, n)); }
        Value(b, s) + Pow(b, |s|) * Value(b, t);
      }
    }
  }

  lemma ValueSplit(b: nat, s: seq<nat>, i: nat)
    requires i <= |s|
    ensures Value(b, s) == Value(b, s[..i]) + Pow(b, i) * Value(b, s[i..])
  {
    assert s == s[..i] + s[i..];
    ValueConcat(b, s[..i], s[i..]);
  }

  lemma {:induction false} ValueZeros(b: nat, s: seq<nat>)
    requires forall i :: 0 <= i < |s| ==> s[i] == 0
    ensures Value(b, s) == 0
  {
    if |s| > 0 {
      ValueZeros(b, s[..|s| - 1]);
    }
  }

  /** Zero words above position `n` do not contribute. */
  lemma ValueTrim(b: nat, s: seq<nat>, n: nat)
    requires n <= |s|
    requires forall i :: n <= i < |s| ==> s[i] == 0
    ensures Value(b, s) == Value(b, s[..n])
  {
    ValueSplit(b, s, n);
    ValueZeros(b, s[n..]);
  }

  /** A value that fits in `n` words leaves the words above `n` zero. */
  lemma ValueSmall(b: nat, s: seq<nat>, n: nat)
    requires b > 0 && IsWords(b, s) && n <= |s| && Value(b, s) < Pow(b, n)
    ensures forall i :: n <= i < |s| ==> s[i] == 0
    ensures Value(b, s[..n]) == Value(b, s)
  {
    ValueSplit(b, s, n);
    PowPositive(b, n);
    if Value(b, s[n..]) > 0 {
      MulMonotone(1, Value(b, s[n..]), Pow(b, n));
      assert false;
    }
    ValueIsZero(b, s[n..]);
    forall i | n <= i < |s| ensures s[i] == 0 {
      assert s[i] == s[n..][i - n];
    }
  }

  lemma {:induction false} ValueIsZero(b: nat, s: seq<nat>)
    requires b > 0 && Value(b, s) == 0
    ensures forall i :: 0 <= i < |s| ==> s[i] == 0
  {
    if |s| > 0 {
      var n := |s| - 1;
      PowPositive(b, n);
      if s[n] > 0 {
        MulMonotone(1, s[n], Pow(b, n));
        assert false;
      }
      ValueIsZero(b, s[..n]);
      assert forall i :: 0 <= i < n ==> s[i] == s[..n][i];
    }
  }

  /** A nonzero top word bounds the value from below. */
  lemma ValueTop(b: nat, s: seq<nat>)
    requires |s| > 0
    ensures s[|s| - 1] * Pow(b, |s| - 1) <= Value(b, s)
  {
  }
}
