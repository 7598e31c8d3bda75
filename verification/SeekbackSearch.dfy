/** The match finder over a list of distances, and the copy that replays what it finds. */
module SeekbackSearch {
  import opened Arithmetic
  import opened Ring = CircularBuffer
  import opened Prelude

  datatype Match = Match(distance: nat, length: nat)

  /** How many bytes from position p on equal the byte d before them, up to `limit` bytes. */
  ghost function MatchLength(h: seq<Byte>, p: nat, d: nat, limit: nat): (n: nat)
    requires 1 <= d <= p && p + limit <= |h|
    ensures n <= limit && (forall i :: p <= i < p + n ==> h[i] == h[i - d])
    ensures n < limit ==> h[p + n] != h[p + n - d]
    decreases limit
  {
    if limit > 0 && h[p] == h[p - d] then 1 + MatchLength(h, p + 1, d, limit - 1) else 0
  }

  /** The two conditions fix the match length. */
  lemma MatchLengthUnique(h: seq<Byte>, p: nat, d: nat, limit: nat, n: nat)
    requires 1 <= d <= p && p + limit <= |h| && n <= limit
    requires forall i :: p <= i < p + n ==> h[i] == h[i - d]
    requires n < limit ==> h[p + n] != h[p + n - d]
    ensures n == MatchLength(h, p, d, limit)
  {
  }

  /** What a distance is worth: its match length, or 0 if it is out of range or too short. */
  ghost function Worth(h: seq<Byte>, p: nat, searchLimit: nat, maximum: nat, minimum: nat, d: nat): (n: nat)
    requires searchLimit <= p && p + maximum <= |h|
    ensures n <= maximum && n <= d && (n > 0 ==> n >= minimum && d <= searchLimit)
  {
    if d > searchLimit || d == 0 || d < minimum then 0
    else
      var n := MatchLength(h, p, d, Min(maximum, d));
      if n < minimum then 0 else n
  }

  /** The best of the distances, the first of them on ties; none if all are worth nothing. */
  ghost predicate IsBest(h: seq<Byte>, p: nat, searchLimit: nat, maximum: nat, minimum: nat, distances: seq<nat>,
                         best: Option<Match>)
    requires searchLimit <= p && p + maximum <= |h|
  {
    match best
    case None => forall k :: 0 <= k < |distances| ==> Worth(h, p, searchLimit, maximum, minimum, distances[k]) == 0
    case Some(m) =>
      exists k :: 0 <= k < |distances| && distances[k] == m.distance
        && m.length > 0 && m.length == Worth(h, p, searchLimit, maximum, minimum, distances[k])
        && (forall j :: 0 <= j < |distances| ==> Worth(h, p, searchLimit, maximum, minimum, distances[j]) <= m.length)
        && (forall j :: 0 <= j < k ==> Worth(h, p, searchLimit, maximum, minimum, distances[j]) < m.length)
  }

  /** matching_prefix_length of two spans of the same array. */
  method MatchingPrefixLength(a: array<Byte>, x: nat, xn: nat, y: nat, yn: nat) returns (n: nat)
    requires x + xn <= a.Length && y + yn <= a.Length
    ensures n <= xn && n <= yn && a[..][x..x + n] == a[..][y..y + n]
    ensures n < xn && n < yn ==> a[..][x + n] != a[..][y + n]
  {
    n := 0;
    while n < xn && n < yn && a[x + n] == a[y + n]
      invariant n <= xn && n <= yn && a[..][x..x + n] == a[..][y..y + n]
    {
      n := n + 1;
    }
  }

  /** next_search_span: the bytes that start `distance` before the read index, up to the end of the buffer. */
  function NextSearchSpan(b: CircularBuffer, distance: nat): (span: (nat, nat))
    requires b.readingHead < b.buffer.Length && b.usedSpace <= b.seekbackLimit <= b.buffer.Length
             && distance <= b.seekbackLimit - b.usedSpace
    reads b
    ensures distance > 0 ==>
              span.0 == Back(b.buffer.Length, Wrap(b.buffer.Length, b.readingHead + b.usedSpace),
                             distance + b.usedSpace)
    ensures span.0 + span.1 <= b.buffer.Length && span.1 == Min(b.buffer.Length - span.0, distance)
  {
    SeekIndex(b.buffer.Length, b.readingHead, distance);
    var offset := (b.buffer.Length + b.readingHead - distance) % b.buffer.Length;
    (offset, Min(b.buffer.Length - offset, distance))
  }

  /** The bytes of h in [lo, hi) equal the bytes d before them. */
  ghost predicate Agree(h: seq<Byte>, d: nat, lo: nat, hi: nat)
    requires d <= lo <= hi <= |h|
  {
    forall i :: lo <= i < hi ==> h[i] == h[i - d]
  }

  /** Equal spans of the ring are equal runs of the history, and a mismatch after them is one in the history. */
  lemma SpansAgree(s: seq<Byte>, w: nat, h: seq<Byte>, limit: nat, d: nat, back: nat, n: nat)
    requires Holds(s, w, h, limit) && 1 <= d && 1 <= back && d + back <= limit && 1 <= n <= Min(d, back)
    requires Back(|s|, w, d + back) + n <= |s| && Back(|s|, w, back) + n <= |s|
    ensures s[Back(|s|, w, d + back)..Back(|s|, w, d + back) + n] == s[Back(|s|, w, back)..Back(|s|, w, back) + n] ==>
            Agree(h, d, |h| - back, |h| - back + n)
    ensures s[Back(|s|, w, d + back)] == s[Back(|s|, w, back)] <==> h[|h| - back] == h[|h| - back - d]
  {
    SpanOfHistory(s, w, h, limit, d + back, n);
    SpanOfHistory(s, w, h, limit, back, n);
    var far, near := h[|h| - (d + back)..|h| - (d + back) + n], h[|h| - back..|h| - back + n];
    if far == near {
      forall i | |h| - back <= i < |h| - back + n ensures h[i] == h[i - d] {
        assert far[i - (|h| - back)] == near[i - (|h| - back)];
      }
    }
  }

  /** One comparison: the longest common run of the two spans at match length `at`. */
  method ExtendMatch(b: CircularBuffer, distance: nat, maximum: nat, at: nat) returns (n: nat)
    requires b.Valid() && 1 <= distance <= b.seekbackLimit - b.usedSpace && at <= distance
    requires at < maximum <= b.usedSpace
    ensures at + n <= Min(maximum, distance)
    ensures Agree(b.history, distance, |b.history| - b.usedSpace + at, |b.history| - b.usedSpace + at + n)
    ensures n == 0 && at < distance ==>
              b.history[|b.history| - b.usedSpace + at] != b.history[|b.history| - b.usedSpace + at - distance]
  {
    hide Holds, NextSearchSpan, Back, Wrap, CircularBuffer.NextReadSpan, Agree;
    var haystack, needle := NextSearchSpan(b, distance - at), b.NextReadSpan(at);
    n := MatchingPrefixLength(b.buffer, haystack.0, Min(haystack.1, maximum - at), needle.0,
                              Min(needle.1, maximum - at));
    if at < distance {
      Extended(b.buffer[..], Wrap(b.buffer.Length, b.readingHead + b.usedSpace), b.history, b.seekbackLimit, distance,
               b.usedSpace - at, n);
    } else {
      AgreeNothing(b.history, distance, |b.history| - b.usedSpace + at);
    }
  }

  /** What the common run of two spans says about the history, also when it is empty. */
  lemma Extended(s: seq<Byte>, w: nat, h: seq<Byte>, limit: nat, d: nat, back: nat, n: nat)
    requires Holds(s, w, h, limit) && 1 <= d && 1 <= back && d + back <= limit && n <= Min(d, back)
    requires Back(|s|, w, d + back) + n <= |s| && Back(|s|, w, back) + n <= |s|
    requires s[Back(|s|, w, d + back)..Back(|s|, w, d + back) + n] == s[Back(|s|, w, back)..Back(|s|, w, back) + n]
    requires n == 0 ==> s[Back(|s|, w, d + back)] != s[Back(|s|, w, back)]
    ensures d <= |h| - back && Agree(h, d, |h| - back, |h| - back + n)
    ensures n == 0 ==> h[|h| - back] != h[|h| - back - d]
  {
    HoldsParts(s, w, h, limit);
    hide Holds, Back, Agree;
    SpansAgree(s, w, h, limit, d, back, if n == 0 then 1 else n);
    if n == 0 {
      AgreeNothing(h, d, |h| - back);
    }
  }

  lemma HoldsParts(s: seq<Byte>, w: nat, h: seq<Byte>, limit: nat)
    requires Holds(s, w, h, limit)
    ensures w < |s| && limit <= |s| && limit <= |h|
  {
  }

  lemma AgreeNothing(h: seq<Byte>, d: nat, lo: nat)
    requires d <= lo <= |h|
    ensures Agree(h, d, lo, lo)
  {
  }

  /** The inner loop: the match length at one distance. */
  method MatchAt(b: CircularBuffer, distance: nat, maximum: nat) returns (n: nat)
    requires b.Valid() && 1 <= distance <= b.seekbackLimit - b.usedSpace && maximum <= b.usedSpace
    ensures n == MatchLength(b.history, |b.history| - b.usedSpace, distance, Min(maximum, distance))
  {
    hide Holds, MatchLength, Back, Wrap;
    n := 0;
    ghost var p := |b.history| - b.usedSpace;
    while n < maximum
      invariant n <= Min(maximum, distance) && Agree(b.history, distance, p, p + n)
    {
      var more := ExtendMatch(b, distance, maximum, n);
      if more == 0 {
        break;
      }
      n := n + more;
    }
    MatchLengthUnique(b.history, p, distance, Min(maximum, distance), n);
  }

  /** One distance of find_copy_in_seekback: it replaces the best match so far exactly if it is worth more. */
  method TryDistance(b: CircularBuffer, distance: nat, maximum: nat, minimum: nat, best: Option<Match>)
    returns (better: Option<Match>)
    requires b.Valid() && minimum > 0 && maximum <= b.usedSpace
    ensures var n := Worth(b.history, |b.history| - b.usedSpace, b.seekbackLimit - b.usedSpace, maximum, minimum,
                           distance);
            better == if n > 0 && (best.None? || best.value.length < n) then Some(Match(distance, n)) else best
  {
    hide Holds, MatchLength, Worth;
    WorthCases(b.history, |b.history| - b.usedSpace, b.seekbackLimit - b.usedSpace, maximum, minimum, distance);
    if distance > b.seekbackLimit - b.usedSpace || distance == 0 {
      return best;
    }
    if distance < minimum {
      return best;
    }
    var n := MatchAt(b, distance, maximum);
    if n < minimum {
      return best;
    }
    if best.None? || best.value.length < n {
      return Some(Match(distance, n));
    }
    return best;
  }

  /** find_copy_in_seekback over a list of distances. */
  method FindCopyInSeekback(b: CircularBuffer, distances: seq<nat>, maximumLength: nat,
                            minimum: nat) returns (best: Option<Match>)
    requires b.Valid() && minimum > 0
    ensures var h, p := b.history, |b.history| - b.usedSpace;
            best.Some? ==>
              var d, n := best.value.distance, best.value.length;
              && d in distances && 1 <= d <= b.seekbackLimit - b.usedSpace
              && minimum <= n <= d && n <= maximumLength && n <= b.usedSpace
              && (forall i :: p <= i < p + n ==> h[i] == h[i - d])
    ensures var h, p := b.history, |b.history| - b.usedSpace;
            forall j, e: nat ::
              && 0 <= j < |distances| && 1 <= distances[j] <= b.seekbackLimit - b.usedSpace
              && minimum <= e - p <= distances[j] && e - p <= maximumLength && e <= |h|
              && Agree(h, distances[j], p, e) ==>
                best.Some? && e - p <= best.value.length
    ensures var h, p := b.history, |b.history| - b.usedSpace;
            best.Some? ==>
              exists k :: 0 <= k < |distances| && distances[k] == best.value.distance && forall j, e: nat ::
                && 0 <= j < k && 1 <= distances[j] <= b.seekbackLimit - b.usedSpace
                && minimum <= e - p <= distances[j] && e - p <= maximumLength && e <= |h|
                && Agree(h, distances[j], p, e) ==>
                  e - p < best.value.length
    ensures IsBest(b.history, |b.history| - b.usedSpace, b.seekbackLimit - b.usedSpace,
                   Min(maximumLength, b.usedSpace), minimum, distances, best)
  {
    hide Holds, Back, Wrap, IsBest, Worth, Agree;
    var maximum := maximumLength;
    if maximum > b.usedSpace {
      maximum := b.usedSpace;
    }
    best := None;
    ghost var h, p, limit := b.history, |b.history| - b.usedSpace, b.seekbackLimit - b.usedSpace;
    if maximum < minimum {
      NothingBest(h, p, limit, maximum, minimum, distances);
      IsBestMeaning(h, p, limit, maximum, minimum, distances, best);
      return;
    }
    NothingBest(h, p, limit, maximum, minimum, distances[..0]);
    for i := 0 to |distances|
      invariant IsBest(h, p, limit, maximum, minimum, distances[..i], best)
    {
      IsBestNext(h, p, limit, maximum, minimum, distances, i, best);
      best := TryDistance(b, distances[i], maximum, minimum, best);
    }
    assert distances == distances[..|distances|];
    IsBestMeaning(h, p, limit, maximum, minimum, distances, best);
  }

  lemma WorthCases(h: seq<Byte>, p: nat, searchLimit: nat, maximum: nat, minimum: nat, d: nat)
    requires searchLimit <= p && p + maximum <= |h|
    ensures d > searchLimit || d == 0 || d < minimum ==> Worth(h, p, searchLimit, maximum, minimum, d) == 0
    ensures 1 <= d <= searchLimit && d >= minimum ==>
              var n := MatchLength(h, p, d, Min(maximum, d));
              Worth(h, p, searchLimit, maximum, minimum, d) == if n < minimum then 0 else n
  {
  }

  lemma NothingBest(h: seq<Byte>, p: nat, searchLimit: nat, maximum: nat, minimum: nat, distances: seq<nat>)
    requires searchLimit <= p && p + maximum <= |h| && (maximum < minimum || distances == [])
    ensures IsBest(h, p, searchLimit, maximum, minimum, distances, None)
  {
    hide MatchLength;
  }

  /** One more distance: it replaces the best exactly if it is worth more. */
  lemma IsBestNext(h: seq<Byte>, p: nat, searchLimit: nat, maximum: nat, minimum: nat, distances: seq<nat>, i: nat,
                   best: Option<Match>)
    requires searchLimit <= p && p + maximum <= |h| && i < |distances|
    requires IsBest(h, p, searchLimit, maximum, minimum, distances[..i], best)
    ensures var n := Worth(h, p, searchLimit, maximum, minimum, distances[i]);
            var replaced := n > 0 && (best.None? || best.value.length < n);
            IsBest(h, p, searchLimit, maximum, minimum, distances[..i + 1],
                   if replaced then Some(Match(distances[i], n)) else best)
  {
    hide Worth;
    var n := Worth(h, p, searchLimit, maximum, minimum, distances[i]);
    var shorter, longer := distances[..i], distances[..i + 1];
    assert forall j :: 0 <= j < i ==> longer[j] == shorter[j];
    if n > 0 && (best.None? || best.value.length < n) {
      assert longer[i] == distances[i];
    } else if best.Some? {
      var k :| 0 <= k < |shorter| && shorter[k] == best.value.distance
        && best.value.length == Worth(h, p, searchLimit, maximum, minimum, shorter[k])
        && (forall j :: 0 <= j < |shorter| ==> Worth(h, p, searchLimit, maximum, minimum,
                                                     shorter[j]) <= best.value.length)
        && (forall j :: 0 <= j < k ==> Worth(h, p, searchLimit, maximum, minimum, shorter[j]) < best.value.length);
      assert longer[k] == shorter[k];
    }
  }

  /** A distance in range is worth at least every length its bytes agree for. */
  lemma WorthAtLeast(h: seq<Byte>, p: nat, searchLimit: nat, maximum: nat, minimum: nat, d: nat, n: nat)
    requires searchLimit <= p && p + maximum <= |h| && 1 <= d <= searchLimit && minimum <= n <= d && n <= maximum
    requires Agree(h, d, p, p + n)
    ensures n <= Worth(h, p, searchLimit, maximum, minimum, d)
  {
    hide MatchLength;
    var length := MatchLength(h, p, d, Min(maximum, d));
  }

  /** The best match agrees for its length, and no distance in range agrees for more bytes. */
  lemma IsBestMeaning(h: seq<Byte>, p: nat, searchLimit: nat, maximum: nat, minimum: nat, distances: seq<nat>,
                      best: Option<Match>)
    requires searchLimit <= p && p + maximum <= |h| && minimum > 0
    requires IsBest(h, p, searchLimit, maximum, minimum, distances, best)
    ensures best.Some? ==>
              var d, n := best.value.distance, best.value.length;
              && d in distances && 1 <= d <= searchLimit && minimum <= n <= d && n <= maximum
              && (forall i :: p <= i < p + n ==> h[i] == h[i - d])
    ensures forall j, e: nat ::
              && 0 <= j < |distances| && 1 <= distances[j] <= searchLimit
              && minimum <= e - p <= distances[j] && e <= p + maximum && Agree(h, distances[j], p, e) ==>
                best.Some? && e - p <= best.value.length
    ensures best.Some? ==>
              exists k :: 0 <= k < |distances| && distances[k] == best.value.distance && forall j, e: nat ::
                && 0 <= j < k && 1 <= distances[j] <= searchLimit
                && minimum <= e - p <= distances[j] && e <= p + maximum && Agree(h, distances[j], p, e) ==>
                  e - p < best.value.length
  {
    if best.Some? {
      BestParts(h, p, searchLimit, maximum, minimum, distances, best.value);
    }
    hide MatchLength, Worth, Agree;
    forall j, e: nat |
        && 0 <= j < |distances| && 1 <= distances[j] <= searchLimit
        && minimum <= e - p <= distances[j] && e <= p + maximum && Agree(h, distances[j], p, e)
      ensures e - p <= Worth(h, p, searchLimit, maximum, minimum, distances[j])
    {
      WorthAtLeast(h, p, searchLimit, maximum, minimum, distances[j], e - p);
    }
  }

  lemma BestParts(h: seq<Byte>, p: nat, searchLimit: nat, maximum: nat, minimum: nat, distances: seq<nat>, m: Match)
    requires searchLimit <= p && p + maximum <= |h| && IsBest(h, p, searchLimit, maximum, minimum, distances, Some(m))
    ensures m.distance in distances
    ensures 1 <= m.distance <= searchLimit && minimum <= m.length <= Min(maximum, m.distance)
    ensures Agree(h, m.distance, p, p + m.length)
  {
    hide MatchLength;
  }

  /** Copying a match after the same bytes it was found in yields the bytes that follow them. */
  lemma MatchReplays(h: seq<Byte>, p: nat, d: nat, n: nat, g: seq<Byte>, e: seq<Byte>)
    requires 1 <= d <= p && n <= d && p + n <= |h| && Agree(h, d, p, p + n)
    requires Repeats(g, d, n, e) && g[|g| - d..] == h[p - d..p]
    ensures e == g + h[p..p + n]
  {
    forall i | |g| <= i < |e| ensures e[i] == h[p + (i - |g|)] {
      assert e[i] == e[i - d] == g[i - d] == g[|g| - d..][i - |g|];
      assert h[p - d..p][i - |g|] == h[p + (i - |g|) - d];
    }
  }

  lemma SuffixOfSuffix(g: seq<Byte>, c: seq<Byte>, limit: nat, d: nat)
    requires d <= limit <= |g| && limit <= |c| && g[|g| - limit..] == c[|c| - limit..]
    ensures g[|g| - d..] == c[|c| - d..]
  {
    assert g[|g| - d..] == g[|g| - limit..][limit - d..];
    assert c[|c| - d..] == c[|c| - limit..][limit - d..];
  }

  /**
   * A decoder that has just been given the bytes the encoder consumed copies the match the encoder found, and so
   * appends exactly the next bytes the encoder has yet to read.
   */
  method Replay(encoder: CircularBuffer, decoder: CircularBuffer, distances: seq<nat>, maximum: nat, minimum: nat)
    returns (replayed: Option<Match>)
    requires encoder.Valid() && decoder.Valid() && encoder != decoder && encoder.buffer != decoder.buffer && minimum > 0
    requires encoder.seekbackLimit - encoder.usedSpace <= decoder.seekbackLimit
    requires maximum <= decoder.buffer.Length - decoder.usedSpace
    requires var p, n := |encoder.history| - encoder.usedSpace, encoder.seekbackLimit - encoder.usedSpace;
             decoder.history[|decoder.history| - n..] == encoder.history[p - n..p]
    modifies decoder`usedSpace, decoder`seekbackLimit, decoder`history, decoder.buffer
    ensures encoder.Valid() && decoder.Valid()
    ensures replayed.None? ==> decoder.history == old(decoder.history)
    ensures replayed.Some? ==>
              && minimum <= replayed.value.length <= encoder.usedSpace
              && decoder.history == old(decoder.history) + encoder.Unread()[..replayed.value.length]
  {
    hide Holds, Back, Wrap, IsBest, Repeats, Agree, Last;
    replayed := FindCopyInSeekback(encoder, distances, maximum, minimum);
    if replayed.Some? {
      var m := replayed.value;
      ghost var h, g, used := encoder.history, decoder.history, encoder.usedSpace;
      ghost var p, limit := |h| - used, encoder.seekbackLimit - used;
      BestParts(h, p, limit, Min(maximum, encoder.usedSpace), minimum, distances, m);
      SuffixOfSuffix(g, h[..p], limit, m.distance);
      decoder.CopyFitting(m.distance, m.length);
      MatchReplays(h, p, m.distance, m.length, g, decoder.history);
      UnreadParts(h, encoder.usedSpace, m.length);
    }
  }
}
