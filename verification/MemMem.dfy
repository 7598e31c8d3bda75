/** Substring search: chunked Knuth-Morris-Pratt, bit-parallel bitap, and the dispatch between them. */
module MemMem {
  import opened BitWords
  import opened Prelude

  // ----- the specification -----

  ghost predicate OccursAt(text: seq<Byte>, needle: seq<Byte>, i: nat) {
    i + |needle| <= |text| && text[i..i + |needle|] == needle
  }

  /** The least position of the needle, or none. */
  ghost predicate IsFirst(text: seq<Byte>, needle: seq<Byte>, found: Option<nat>) {
    match found
    case None => forall i: nat :: !OccursAt(text, needle, i)
    case Some(r) => OccursAt(text, needle, r) && (forall i: nat :: i < r ==> !OccursAt(text, needle, i))
  }

  function Concat(chunks: seq<seq<Byte>>): (text: seq<Byte>) {
    if chunks == [] then [] else chunks[0] + Concat(chunks[1..])
  }

  lemma {:induction false} ConcatSplit(chunks: seq<seq<Byte>>, k: nat)
    requires k < |chunks|
    ensures Concat(chunks) == Concat(chunks[..k]) + chunks[k] + Concat(chunks[k + 1..])
  {
    if k > 0 {
      var rest := chunks[1..];
      ConcatSplit(rest, k - 1);
      assert rest[..k - 1] == chunks[..k][1..] && rest[k..] == chunks[k + 1..];
      assert chunks[..k][0] == chunks[0];
    } else {
      assert chunks[..0] == [];
    }
  }

  // ----- borders -----

  /** The first k and the last k bytes of p[..i] are the same, k < i. */
  ghost predicate Border(p: seq<Byte>, i: nat, k: nat) {
    k < i <= |p| && p[..k] == p[i - k..i]
  }

  /** A border of a border is a border, and every shorter border is one. */
  lemma BorderOfBorder(p: seq<Byte>, i: nat, c: nat, k: nat)
    requires Border(p, i, c) && k < c
    ensures Border(p, i, k) <==> Border(p, c, k)
  {
    assert p[i - k..i] == p[i - c..i][c - k..] == p[..c][c - k..] == p[c - k..c];
  }

  lemma BorderExtends(p: seq<Byte>, i: nat, k: nat)
    requires k < i < |p|
    ensures Border(p, i + 1, k + 1) <==> Border(p, i, k) && p[k] == p[i]
  {
    assert p[..k + 1] == p[..k] + [p[k]];
    assert p[i - k..i + 1] == p[i - k..i] + [p[i]];
    if Border(p, i + 1, k + 1) {
      assert p[..k] == p[..k + 1][..k] == p[i - k..i + 1][..k] == p[i - k..i];
      assert p[k] == p[..k + 1][k] == p[i - k..i + 1][k];
    }
  }

  ghost predicate Longest(p: seq<Byte>, i: nat, c: nat) {
    Border(p, i, c) && (forall k :: c < k < i ==> !Border(p, i, k))
  }

  // ----- the partial table -----

  /**
   * The strong failure function: t is the longest border of p[..i] that is followed by another byte than p[i],
   * and -1 if there is none.
   */
  ghost predicate Failure(p: seq<Byte>, i: nat, t: int)
    requires i < |p|
  {
    && -1 <= t < i
    && (t >= 0 ==> Border(p, i, t) && p[t] != p[i])
    && (forall k: nat :: t < k < i && Border(p, i, k) ==> p[k] == p[i])
  }

  ghost predicate Table(p: seq<Byte>, table: seq<int>, n: nat) {
    n <= |table| == |p| && (forall i :: 0 <= i < n ==> Failure(p, i, table[i]))
  }

  /** The longest border continues: it shares the failure entry of the border. */
  lemma FailureShared(p: seq<Byte>, i: nat, c: nat, t: int)
    requires i < |p| && Longest(p, i, c) && p[i] == p[c] && Failure(p, c, t)
    ensures Failure(p, i, t)
  {
    if t >= 0 {
      BorderOfBorder(p, i, c, t);
    }
    forall k: nat | t < k < i && Border(p, i, k) ensures p[k] == p[i] {
      if k < c {
        BorderOfBorder(p, i, c, k);
      }
    }
  }

  /** c is -1 or a border of p[..i], and no longer border is followed by p[i]. */
  ghost predicate Falling(p: seq<Byte>, i: nat, c: int)
    requires i < |p|
  {
    && -1 <= c < i && (c >= 0 ==> Border(p, i, c))
    && (forall k: nat :: c < k < i && Border(p, i, k) ==> p[k] != p[i])
  }

  /** One step down the failure chain. */
  lemma FallingNext(p: seq<Byte>, i: nat, c: nat, t: int)
    requires i < |p| && Falling(p, i, c) && p[c] != p[i] && Failure(p, c, t)
    ensures Falling(p, i, t)
  {
    if t >= 0 {
      BorderOfBorder(p, i, c, t);
    }
    forall k: nat | t < k < i && Border(p, i, k) ensures p[k] != p[i] {
      if k < c {
        BorderOfBorder(p, i, c, k);
      }
    }
  }

  /** When the chain ends, one more byte gives the longest border of the next prefix. */
  lemma FallingEnds(p: seq<Byte>, i: nat, c: int)
    requires 0 < i < |p| && Falling(p, i, c) && (c >= 0 ==> p[c] == p[i])
    ensures Longest(p, i + 1, c + 1)
  {
    if c >= 0 {
      BorderExtends(p, i, c);
    }
    var next := i + 1;
    forall k | c + 1 < k < next ensures !Border(p, next, k) {
      BorderExtends(p, i, k - 1);
    }
  }

  /** prepare_kmp_partial_table */
  method PreparePartialTable(needle: seq<Byte>) returns (table: array<int>)
    requires |needle| > 0
    ensures fresh(table) && Table(needle, table[..], |needle|)
  {
    hide Border, Failure, Falling, Longest;
    table := new int[|needle|];
    var position, candidate := 1, 0;
    table[0] := -1;
    TableAtFirst(needle);
    while position < |needle|
      invariant 0 <= candidate < position <= |needle| && table.Length == |needle|
      invariant forall i :: 0 <= i < position ==> Failure(needle, i, table[i])
      invariant Longest(needle, position, candidate)
    {
      LongestFalls(needle, position, candidate);
      if needle[position] == needle[candidate] {
        FailureShared(needle, position, candidate, table[candidate]);
        table[position] := table[candidate];
      } else {
        table[position] := candidate;
        FallingNext(needle, position, candidate, table[candidate]);
        candidate := table[candidate];
        while candidate >= 0 && needle[candidate] != needle[position]
          invariant -1 <= candidate < position && Falling(needle, position, candidate)
          modifies {}
        {
          FallingNext(needle, position, candidate, table[candidate]);
          FailureRange(needle, candidate, table[candidate]);
          candidate := table[candidate];
        }
      }
      FallingEnds(needle, position, candidate);
      position := position + 1;
      candidate := candidate + 1;
    }
  }

  lemma FailureRange(p: seq<Byte>, i: nat, t: int)
    requires i < |p| && Failure(p, i, t)
    ensures -1 <= t < i
  {
  }

  lemma TableAtFirst(p: seq<Byte>)
    requires |p| > 0
    ensures Failure(p, 0, -1) && Longest(p, 1, 0)
  {
  }

  /** The longest border starts the chain, and is the failure entry if it is followed by another byte. */
  lemma LongestFalls(p: seq<Byte>, i: nat, c: nat)
    requires i < |p| && Longest(p, i, c)
    ensures Falling(p, i, c) && (p[c] != p[i] ==> Failure(p, i, c))
  {
  }

  // ----- the chunked search -----

  /** The last n bytes before position at match the needle, and no occurrence starts before them. */
  ghost predicate Matching(text: seq<Byte>, p: seq<Byte>, at: nat, n: nat) {
    && n <= at <= |text| && n <= |p| && text[at - n..at] == p[..n]
    && (forall i: nat :: i < at - n ==> !OccursAt(text, p, i))
  }

  lemma MatchingExtends(text: seq<Byte>, p: seq<Byte>, at: nat, n: nat)
    requires Matching(text, p, at, n) && at < |text| && n < |p| && p[n] == text[at]
    ensures Matching(text, p, at + 1, n + 1)
    ensures n + 1 == |p| ==> IsFirst(text, p, Some(at + 1 - |p|))
  {
    assert text[at - n..at + 1] == text[at - n..at] + [text[at]];
    assert p[..n + 1] == p[..n] + [p[n]];
    assert p == p[..|p|];
  }

  /** An occurrence that starts k bytes back needs a border of the matched part and its next byte. */
  lemma OccurrenceNeeds(text: seq<Byte>, p: seq<Byte>, at: nat, n: nat, k: nat)
    requires n <= at < |text| && k <= n < |p| && text[at - n..at] == p[..n]
    ensures OccursAt(text, p, at - k) ==> text[at] == p[k] && (k < n ==> Border(p, n, k))
  {
    if OccursAt(text, p, at - k) {
      var window := text[at - k..at - k + |p|];
      assert text[at] == window[k] && p[..k] == window[..k];
      assert window[..k] == text[at - n..at][n - k..] == p[..n][n - k..] == p[n - k..n];
    }
  }

  /** After a mismatch no occurrence starts at a skipped position. */
  lemma Skipped(text: seq<Byte>, p: seq<Byte>, at: nat, n: nat, t: int, k: nat)
    requires n <= at < |text| && n < |p| && text[at - n..at] == p[..n] && p[n] != text[at] && Failure(p, n, t)
    requires t < k <= n
    ensures !OccursAt(text, p, at - k)
  {
    hide OccursAt, Border;
    OccurrenceNeeds(text, p, at, n, k);
  }

  lemma MatchingFalls(text: seq<Byte>, p: seq<Byte>, at: nat, n: nat, t: int)
    requires Matching(text, p, at, n) && at < |text| && n < |p| && p[n] != text[at] && Failure(p, n, t)
    ensures t >= 0 ==> Matching(text, p, at, t)
    ensures t < 0 ==> Matching(text, p, at + 1, 0)
  {
    forall i: nat | at - n <= i < at - t ensures !OccursAt(text, p, i) {
      Skipped(text, p, at, n, t, at - i);
    }
    if t >= 0 {
      assert text[at - t..at] == text[at - n..at][n - t..] == p[..n][n - t..] == p[n - t..n];
    }
  }

  lemma NothingLeft(text: seq<Byte>, p: seq<Byte>, n: nat)
    requires Matching(text, p, |text|, n) && n < |p|
    ensures IsFirst(text, p, None)
  {
  }

  /** memmem over a haystack given as a list of spans. */
  method MemMemChunked(haystack: seq<seq<Byte>>, needle: seq<Byte>) returns (found: Option<nat>)
    requires |needle| > 0
    ensures IsFirst(Concat(haystack), needle, found)
  {
    hide Matching, Failure, IsFirst, Concat;
    var table := PreparePartialTable(needle);
    var total, current, n, it := 0, 0, 0, 0;
    ghost var text := Concat(haystack);
    MatchingNothing(haystack, needle);
    while it < |haystack|
      invariant 0 <= it <= |haystack| && 0 <= current && 0 <= n < |needle| && table.Length == |needle|
      invariant forall i :: 0 <= i < |needle| ==> Failure(needle, i, table[i])
      invariant it < |haystack| ==> current <= |haystack[it]|
      invariant it == |haystack| ==> current == 0
      invariant total == |Concat(haystack[..it])| + current && Matching(text, needle, total, n)
      decreases |haystack| - it, if it < |haystack| then |haystack[it]| - current else 0, n
    {
      var chunk := haystack[it];
      ChunkAt(haystack, it, current);
      if current >= |chunk| {
        current := 0;
        it := it + 1;
        continue;
      }
      if needle[n] == chunk[current] {
        MatchingExtends(text, needle, total, n);
        n := n + 1;
        current := current + 1;
        total := total + 1;
        if n == |needle| {
          return Some(total - n);
        }
        continue;
      }
      MatchingFalls(text, needle, total, n, table[n]);
      FailureRange(needle, n, table[n]);
      n := table[n];
      if n < 0 {
        n := n + 1;
        current := current + 1;
        total := total + 1;
      }
    }
    assert haystack[..it] == haystack;
    NothingLeft(text, needle, n);
    return None;
  }

  lemma MatchingNothing(haystack: seq<seq<Byte>>, needle: seq<Byte>)
    ensures Matching(Concat(haystack), needle, 0, 0) && |Concat(haystack[..0])| == 0
  {
    assert Concat(haystack)[0..0] == needle[..0];
  }

  /** Where byte `current` of span `it` lies in the whole text, and where the next span starts. */
  lemma ChunkAt(haystack: seq<seq<Byte>>, it: nat, current: nat)
    requires it < |haystack| && current <= |haystack[it]|
    ensures |Concat(haystack[..it + 1])| == |Concat(haystack[..it])| + |haystack[it]|
    ensures current < |haystack[it]| ==>
              && |Concat(haystack[..it])| + current < |Concat(haystack)|
              && Concat(haystack)[|Concat(haystack[..it])| + current] == haystack[it][current]
  {
    ConcatSplit(haystack, it);
    var upTo := haystack[..it + 1];
    ConcatSplit(upTo, it);
    assert upTo[..it] == haystack[..it] && upTo[it + 1..] == [];
  }

  // ----- bitap -----

  /** A u32 as its bits. */
  type Bits32 = s: Bits | |s| == 32 witness Zeros(32)

  /** needle_mask: bit i of the word for byte c is clear exactly if the needle has c at i. */
  ghost predicate Mask(mask: seq<Bits32>, needle: seq<Byte>, n: nat) {
    && |mask| == 256 && n <= |needle| < 32
    && (forall c: Byte, i: nat :: i < 32 ==> MaskBit(mask, needle, n, c, i))
  }

  /** Bit j of lookup is clear exactly if the last j bytes before `at` are the first j of the needle. */
  ghost predicate Lookup(lookup: Bits32, text: seq<Byte>, needle: seq<Byte>, at: nat) {
    && at <= |text| && |needle| < 32
    && (forall j :: 0 <= j <= |needle| ==> (!lookup[j] <==> j <= at && text[at - j..at] == needle[..j]))
  }

  /** The last j bytes are the first j of the needle exactly if the j - 1 before them are, and the last one fits. */
  lemma SuffixGrows(text: seq<Byte>, needle: seq<Byte>, at: nat, j: nat)
    requires at < |text| && 1 <= j <= |needle| && j <= at + 1
    ensures text[at + 1 - j..at + 1] == needle[..j]
       <==> text[at - (j - 1)..at] == needle[..j - 1] && text[at] == needle[j - 1]
  {
    var tail, head := text[at + 1 - j..at + 1], needle[..j];
    assert tail == text[at - (j - 1)..at] + [text[at]] && head == needle[..j - 1] + [needle[j - 1]];
    if tail == head {
      assert text[at - (j - 1)..at] == tail[..j - 1] && needle[..j - 1] == head[..j - 1];
      assert tail[j - 1] == head[j - 1];
    }
  }

  lemma LookupBit(lookup: Bits32, mask: seq<Bits32>, text: seq<Byte>, needle: seq<Byte>, at: nat, j: nat)
    requires Lookup(lookup, text, needle, at) && Mask(mask, needle, |needle|) && at < |text| && j <= |needle|
    ensures !ShiftLeft(OrBits(lookup, mask[text[at]]), 1)[j] <==> j <= at + 1 && text[at + 1 - j..at + 1] == needle[..j]
  {
    hide OrBits, ShiftLeft;
    if j == 0 {
      assert text[at + 1..at + 1] == needle[..0];
    } else {
      var word := mask[text[at]];
      assert MaskBit(mask, needle, |needle|, text[at], j - 1);
      assert ShiftLeft(OrBits(lookup, word), 1)[j] == (lookup[j - 1] || word[j - 1]);
      if j <= at + 1 {
        SuffixGrows(text, needle, at, j);
      }
    }
  }

  lemma LookupNext(lookup: Bits32, mask: seq<Bits32>, text: seq<Byte>, needle: seq<Byte>, at: nat)
    requires Lookup(lookup, text, needle, at) && Mask(mask, needle, |needle|) && at < |text|
    ensures Lookup(ShiftLeft(OrBits(lookup, mask[text[at]]), 1), text, needle, at + 1)
  {
    var next := ShiftLeft(OrBits(lookup, mask[text[at]]), 1);
    hide OrBits, ShiftLeft, Mask;
    forall j | 0 <= j <= |needle| ensures !next[j] <==> j <= at + 1 && text[at + 1 - j..at + 1] == needle[..j] {
      LookupBit(lookup, mask, text, needle, at, j);
    }
  }

  /** Bit i of the word for byte c, once the needle is known up to n. */
  ghost predicate MaskBit(mask: seq<Bits32>, needle: seq<Byte>, n: nat, c: Byte, i: nat)
    requires |mask| == 256 && n <= |needle| && i < 32
  {
    !mask[c][i] <==> i < n && needle[i] == c
  }

  lemma MaskNext(mask: seq<Bits32>, needle: seq<Byte>, n: nat)
    requires Mask(mask, needle, n) && n < |needle|
    ensures Mask(mask[needle[n] := mask[needle[n]][n := false]], needle, n + 1)
  {
    var after, m := mask[needle[n] := mask[needle[n]][n := false]], n + 1;
    forall c: Byte, i: nat | i < 32 ensures MaskBit(after, needle, m, c, i) {
      assert MaskBit(mask, needle, n, c, i);
      if c == needle[n] {
        assert after[c] == mask[c][n := false];
      }
    }
  }

  /** The mask words of the needle. */
  method PrepareMask(needle: seq<Byte>) returns (mask: array<Bits32>)
    requires |needle| < 32
    ensures fresh(mask) && Mask(mask[..], needle, |needle|)
  {
    mask := new Bits32[256](_ => Ones(32));
    for i := 0 to |needle|
      invariant Mask(mask[..], needle, i)
    {
      MaskNext(mask[..], needle, i);
      ghost var before := mask[..];
      var c := needle[i];
      mask[c] := mask[c][i := false];
      assert mask[..] == before[c := before[c][i := false]];
    }
  }

  /** Bit |needle| tells whether the needle ends here. */
  lemma LookupFinds(lookup: Bits32, text: seq<Byte>, needle: seq<Byte>, at: nat)
    requires Lookup(lookup, text, needle, at)
    ensures !lookup[|needle|] <==> |needle| <= at && OccursAt(text, needle, at - |needle|)
  {
    assert needle[..|needle|] == needle;
  }

  /** No occurrence ends at or before `at`. */
  ghost predicate NoneUpTo(text: seq<Byte>, needle: seq<Byte>, at: nat) {
    forall i: nat :: i + |needle| <= at ==> !OccursAt(text, needle, i)
  }

  lemma NoneNext(text: seq<Byte>, needle: seq<Byte>, at: nat)
    requires |needle| > 0 && NoneUpTo(text, needle, at) && at < |text|
    ensures |needle| > at + 1 ==> NoneUpTo(text, needle, at + 1)
    ensures |needle| <= at + 1 && !OccursAt(text, needle, at + 1 - |needle|) ==> NoneUpTo(text, needle, at + 1)
    ensures |needle| <= at + 1 && OccursAt(text, needle, at + 1 - |needle|) ==>
            IsFirst(text, needle, Some(at + 1 - |needle|))
  {
    hide OccursAt;
  }

  /**
   * bitap_bitwise. For the empty needle it does not report position 0: it returns the address after the first byte,
   * or null for an empty haystack.
   */
  method Bitap(haystack: seq<Byte>, needle: seq<Byte>) returns (found: Option<nat>)
    requires |needle| < 32
    ensures |needle| > 0 ==> IsFirst(haystack, needle, found)
    ensures |needle| == 0 ==> found == (if haystack == [] then None else Some(1))
  {
    hide Mask, Lookup, OrBits, ShiftLeft, Ones, OccursAt;
    var mask := PrepareMask(needle);
    var lookup: Bits32 := ShiftLeft(Ones(32), 1);
    LookupAtFirst(haystack, needle);
    for i := 0 to |haystack|
      invariant mask.Length == 256 && Mask(mask[..], needle, |needle|) && Lookup(lookup, haystack, needle, i)
      invariant if |needle| > 0 then NoneUpTo(haystack, needle, i) else i == 0
    {
      LookupNext(lookup, mask[..], haystack, needle, i);
      lookup := OrBits(lookup, mask[haystack[i]]);
      lookup := ShiftLeft(lookup, 1);
      LookupFinds(lookup, haystack, needle, i + 1);
      if |needle| > 0 {
        NoneNext(haystack, needle, i);
      } else {
        EmptyOccurs(haystack, needle, i + 1);
      }
      if !lookup[|needle|] {
        return Some(i + 1 - |needle|);
      }
    }
    NoneAtAll(haystack, needle);
    return None;
  }

  lemma EmptyOccurs(text: seq<Byte>, needle: seq<Byte>, at: nat)
    requires needle == [] && at <= |text|
    ensures OccursAt(text, needle, at)
  {
  }

  lemma NoneAtAll(text: seq<Byte>, needle: seq<Byte>)
    ensures |needle| > 0 && NoneUpTo(text, needle, |text|) ==> IsFirst(text, needle, None)
  {
  }

  lemma LookupAtFirst(text: seq<Byte>, needle: seq<Byte>)
    requires |needle| < 32
    ensures Lookup(ShiftLeft(Ones(32), 1), text, needle, 0)
  {
  }

  // ----- the dispatch -----

  /** memmem_optional */
  method MemMemOptional(haystack: seq<Byte>, needle: seq<Byte>) returns (found: Option<nat>)
    ensures IsFirst(haystack, needle, found)
  {
    if |needle| == 0 {
      return Some(0);
    }
    if |haystack| < |needle| {
      return None;
    }
    if |haystack| == |needle| {
      if haystack == needle {
        return Some(0);
      }
      return None;
    }
    if |needle| < 32 {
      found := Bitap(haystack, needle);
      return;
    }
    found := MemMemChunked([haystack], needle);
    assert Concat([haystack]) == haystack;
  }
}
