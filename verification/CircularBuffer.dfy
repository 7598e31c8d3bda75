/** A ring buffer that keeps already-read bytes for seekback, refining the history of all bytes written. */
module CircularBuffer {
  import opened Arithmetic
  import opened Prelude

  // ----- positions on the ring -----

  /** x modulo c, for x below 2 * c. */
  function Wrap(c: nat, x: nat): (i: nat)
    requires x < 2 * c
    ensures i < c
  {
    if x >= c then x - c else x
  }

  lemma WrapAgain(c: nat, x: nat, n: nat)
    requires x + n < 2 * c
    ensures Wrap(c, x) + n < 2 * c && Wrap(c, Wrap(c, x) + n) == Wrap(c, x + n)
  {
  }

  lemma ModIsWrap(c: nat, x: nat)
    requires x < 2 * c
    ensures x % c == Wrap(c, x)
  {
    DivModUnique(x, c, if x >= c then 1 else 0, Wrap(c, x));
  }

  /** x % c */
  function Modulo(x: nat, c: nat): (i: nat)
    requires x < 2 * c
    ensures i == Wrap(c, x)
  {
    ModIsWrap(c, x);
    x % c
  }

  /** The write index after n more bytes, and that it stays outside what is left of a source it was outside of. */
  lemma WriteIndex(c: nat, head: nat, used: nat, n: nat, from: nat, hi: nat)
    requires head < c && used + n <= c && Wrap(c, head + used) + n <= c
    ensures Wrap(c, head + used + n) == Wrap(c, Wrap(c, head + used) + n)
    ensures Wrap(c, head + used) <= from || hi <= Wrap(c, head + used) ==>
              Wrap(c, head + used + n) <= from + n || hi <= Wrap(c, head + used + n)
  {
  }

  /** The index d places before the write index w. */
  function Back(c: nat, w: nat, d: nat): (i: nat)
    requires w < c && 1 <= d <= c
    ensures i < c
  {
    if d <= w then w - d else w + c - d
  }

  /** The index arithmetic of next_seekback_span and next_search_span, with one capacity added before the modulo. */
  lemma SeekIndex(c: nat, x: nat, d: nat)
    requires x < 2 * c && d <= c
    ensures (c + x - d) % c == if d == 0 then Wrap(c, x) else Back(c, Wrap(c, x), d)
  {
    var r := if d == 0 then Wrap(c, x) else Back(c, Wrap(c, x), d);
    DivModUnique(c + x - d, c, if c + x - d < c then 0 else if c + x - d < 2 * c then 1 else 2, r);
  }

  /** Reading forward by n moves the read index, d bytes before the write index, to d - n before it. */
  lemma ReadIndex(c: nat, head: nat, used: nat, n: nat)
    requires head < c && n <= used <= c
    ensures used > 0 ==> Back(c, Wrap(c, head + used), used) == head
    ensures Wrap(c, head + n) == if head + n >= c then head + n - c else head + n
    ensures Wrap(c, Wrap(c, head + n) + (used - n)) == Wrap(c, head + used)
  {
  }

  ghost function Last(h: seq<Byte>, n: nat): (bytes: seq<Byte>)
    requires n <= |h|
    ensures |bytes| == n
  {
    h[|h| - n..]
  }

  /** The ring holds the last `limit` bytes of the history, the newest just before w. */
  ghost predicate Holds(s: seq<Byte>, w: nat, h: seq<Byte>, limit: nat)
  {
    && w < |s| && limit <= |s| && limit <= |h|
    && (forall d :: 1 <= d <= limit ==> s[Back(|s|, w, d)] == h[|h| - d])
  }

  /** A run of bytes written at w, inside the buffer. */
  ghost function Written(s: seq<Byte>, w: nat, chunk: seq<Byte>): (t: seq<Byte>)
    requires w + |chunk| <= |s|
    ensures |t| == |s|
  {
    s[..w] + chunk + s[w + |chunk|..]
  }

  lemma WrittenParts(s: seq<Byte>, w: nat, chunk: seq<Byte>, t: seq<Byte>)
    requires w + |chunk| <= |s| && t == Written(s, w, chunk)
    ensures t[..w + |chunk|] == s[..w] + chunk && t[w + |chunk|..] == s[w + |chunk|..]
  {
  }

  /** Writing a run at the write index appends it to the history; the oldest bytes beyond the capacity are lost. */
  lemma WriteHolds(s: seq<Byte>, w: nat, h: seq<Byte>, limit: nat, chunk: seq<Byte>)
    requires Holds(s, w, h, limit) && w + |chunk| <= |s|
    ensures Holds(Written(s, w, chunk), Wrap(|s|, w + |chunk|), h + chunk, Min(|s|, limit + |chunk|))
  {
    var c, k := |s|, |chunk|;
    var t, w', h', limit' := Written(s, w, chunk), Wrap(c, w + k), h + chunk, Min(c, limit + k);
    forall d | 1 <= d <= limit' ensures t[Back(c, w', d)] == h'[|h'| - d] {
      if d <= k {
        assert Back(c, w', d) == w + k - d;
      } else {
        assert Back(c, w', d) == Back(c, w, d - k);
        assert s[Back(c, w, d - k)] == h[|h| - (d - k)];
      }
    }
  }

  /** An unwrapped span of n bytes that starts d bytes back is a run of the history. */
  lemma SpanOfHistory(s: seq<Byte>, w: nat, h: seq<Byte>, limit: nat, d: nat, n: nat)
    requires Holds(s, w, h, limit) && 1 <= d <= limit && n <= d && Back(|s|, w, d) + n <= |s|
    ensures s[Back(|s|, w, d)..Back(|s|, w, d) + n] == h[|h| - d..|h| - d + n]
  {
    var r := Back(|s|, w, d);
    var span, run := s[r..r + n], h[|h| - d..|h| - d + n];
    forall i | 0 <= i < n ensures span[i] == run[i] {
      assert Back(|s|, w, d - i) == r + i;
      assert s[Back(|s|, w, d - i)] == h[|h| - (d - i)];
    }
    assert span == run;
  }

  // ----- LZ77 -----

  /** e extends h by n bytes, each equal to the byte d places before it. */
  ghost predicate Repeats(h: seq<Byte>, d: nat, n: nat, e: seq<Byte>)
  {
    && 1 <= d <= |h| && |e| == |h| + n && h <= e
    && (forall i :: |h| <= i < |e| ==> e[i] == e[i - d])
  }

  /** Within a run of period d, positions a multiple of d apart hold the same byte. */
  lemma {:induction false} PeriodChain(e: seq<Byte>, d: nat, lo: nat, i: nat, c: nat)
    requires 1 <= d && lo + d <= i + d && i + c * d < |e|
    requires forall p :: lo + d <= p < |e| ==> e[p] == e[p - d]
    ensures e[i + c * d] == e[i]
  {
    if c > 0 {
      MulDistrib(d, c - 1, 1);
      MulNonNegative(c - 1, d);
      PeriodChain(e, d, lo, i, c - 1);
      assert e[i + c * d] == e[i + c * d - d];
    }
  }

  /** Copying m bytes from a multiple of the distance is the same as copying them one by one from the distance. */
  lemma RepeatFurther(h: seq<Byte>, d: nat, n: nat, e: seq<Byte>, c: nat, chunk: seq<Byte>)
    requires Repeats(h, d, n, e) && c >= 1 && c * d <= |e| && c * d - d <= n && |chunk| <= c * d
    requires forall t :: 0 <= t < |chunk| ==> chunk[t] == e[|e| - c * d + t]
    ensures Repeats(h, d, n + |chunk|, e + chunk)
  {
    var far := c * d;
    var e' := e + chunk;
    MulDistrib(d, c, 1);
    MulNonNegative(c - 1, d);
    forall i | |h| <= i < |e'| ensures e'[i] == e'[i - d] {
      if i < |e| {
        assert e[i] == e[i - d];
      } else {
        var t := i - |e|;
        var p := |e| - far + t;
        if t < d {
          PeriodChain(e, d, |e| - far, p, c - 1);
        } else {
          assert e[p] == e[p - d];
        }
      }
    }
  }

  /** A span read from the seekback area ends before the write index, or starts after it. */
  lemma SourceBehind(c: nat, w: nat, d: nat, n: nat)
    requires w < c && 1 <= d <= c && n <= d && Back(c, w, d) + n <= c
    ensures w <= Back(c, w, d) || Back(c, w, d) + n <= w
  {
  }

  // ----- how far a seekback copy can double its distance -----

  /** A copy of `length` bytes from `distance` back, into a ring with `space` free bytes and write index w. */
  datatype Request = Request(capacity: nat, w: nat, distance: nat, space: nat, length: nat)
  {
    ghost predicate Valid() {
      1 <= distance <= capacity && w < capacity && space <= capacity
    }

    /** Where the byte before the write index ends, in 1..capacity. */
    ghost function End(): nat {
      if w == 0 then capacity else w
    }

    /** The bytes of the source that lie at the end of the buffer, when it wraps. */
    ghost function Lead(): nat {
      if distance > End() then distance - End() else 0
    }

    /** Where the source starts once those are copied. */
    ghost function Start(): nat {
      if distance > End() then 0 else End() - distance
    }

    /** The largest doubling of the distance within the capacity. */
    ghost function Top(): nat
      requires Valid()
    {
      TopDoubling(distance, capacity)
    }

    /**
     * The request makes the copy double its distance once too often: the largest doubling is copied in one unwrapped
     * run, and then there are both free bytes and more than that many bytes left to copy.
     */
    ghost predicate Overruns()
      requires Valid()
    {
      && Start() + Top() <= capacity
      && space > Lead() + 2 * Top() - distance
      && length > Lead() + 3 * Top() - distance
    }
  }

  ghost function TopDoubling(d: nat, c: nat): (top: nat)
    requires 1 <= d <= c
    ensures d <= top <= c < 2 * top
    decreases c - d
  {
    if 2 * d > c then d else TopDoubling(2 * d, c)
  }

  /** No copy overruns that asks for at most one byte more than the capacity. */
  lemma ShortRequestsFit(q: Request)
    requires q.Valid() && q.length <= q.capacity + 1
    ensures !q.Overruns()
  {
  }

  /** A copy that does overrun: 10 bytes from 3 back into an empty ring of 4. */
  lemma LongRequestOverruns()
    ensures Request(4, 3, 3, 4, 10).Valid() && Request(4, 3, 3, 4, 10).Overruns()
  {
  }

  /** After `done` bytes the copy uses distance d: what the loop of copy_from_seekback can have reached. */
  ghost predicate Reached(q: Request, done: nat, d: nat)
    requires q.Valid()
  {
    && done <= q.space && done <= q.length && 1 <= d
    && (Leading(q, done, d) || Aligned(q, done, d) || Over(q, done, d) || Short(q, done, d) || Lost(q, done, d)
        || (done == q.space && !q.Overruns() && d <= q.capacity))
  }

  /** Nothing is copied, and the source wraps. */
  ghost predicate Leading(q: Request, done: nat, d: nat) {
    done == 0 && d == q.distance && q.Lead() > 0
  }

  /** Whole runs of each doubling so far, all from the same start. */
  ghost predicate Aligned(q: Request, done: nat, d: nat)
    requires q.Valid()
  {
    done == q.Lead() + d - q.distance && 1 <= d <= q.capacity && TopDoubling(d, q.capacity) == q.Top()
  }

  /** The distance has just been doubled beyond the capacity. */
  ghost predicate Over(q: Request, done: nat, d: nat)
    requires q.Valid()
  {
    && d == 2 * q.Top() && done == q.Lead() + d - q.distance
    && q.length > done + q.Top() && q.Start() + q.Top() <= q.capacity
  }

  /** Too little is left to copy for another doubling. */
  ghost predicate Short(q: Request, done: nat, d: nat)
    requires q.Valid()
  {
    && d <= q.capacity && d <= q.distance + done
    && q.length <= done + d && q.length <= q.Lead() + 3 * q.Top() - q.distance
  }

  /** A run was cut at the end of the buffer, so that the free bytes run out before the distance passes the capacity. */
  ghost predicate Lost(q: Request, done: nat, d: nat)
    requires q.Valid()
  {
    done + q.End() >= d + q.capacity && q.Start() + q.Top() > q.capacity
  }

  lemma ReachedAtFirst(q: Request)
    requires q.Valid()
    ensures Reached(q, 0, q.distance)
  {
    if q.Lead() == 0 {
      assert Aligned(q, 0, q.distance);
    }
  }

  /** The start of the source in the buffer, while the runs are whole. */
  lemma AlignedStart(q: Request, done: nat, d: nat)
    requires q.Valid() && Aligned(q, done, d) && done <= q.space
    ensures Back(q.capacity, Wrap(q.capacity, q.w + done), d) == q.Start()
  {
  }

  /** One run of the loop: `n` bytes, and the distance doubled after a whole run with more than that left. */
  lemma ReachedNext(q: Request, done: nat, d: nat, n: nat)
    requires q.Valid() && Reached(q, done, d) && d <= q.capacity && done < q.length && done < q.space
    requires var r := Back(q.capacity, Wrap(q.capacity, q.w + done), d);
             n == Min(Min(Min(q.capacity - r, d), q.length - done), q.space - done)
    ensures Reached(q, done + n, if q.length - (done + n) > d && n == d then 2 * d else d)
  {
    var d' := if q.length - (done + n) > d && n == d then 2 * d else d;
    if Aligned(q, done, d) {
      AlignedStart(q, done, d);
    }
  }

  lemma ReachedFailing(q: Request, done: nat, d: nat)
    requires q.Valid() && Reached(q, done, d) && done < q.length && done < q.space
             && d > Min(q.capacity, q.distance + done)
    ensures q.Overruns()
  {
  }

  lemma ReachedEnd(q: Request, done: nat, d: nat)
    requires q.Valid() && Reached(q, done, d) && (done == q.length || done == q.space)
    ensures !q.Overruns()
  {
  }

  /** The copy so far: `done` bytes appended to h give e, and the distance in use is a multiple of the requested one. */
  ghost predicate Progress(q: Request, h: seq<Byte>, e: seq<Byte>, done: nat, far: nat, factor: nat) {
    && q.Valid() && Reached(q, done, far) && Repeats(h, q.distance, done, e)
    && factor >= 1 && far == factor * q.distance && far <= q.distance + done
  }

  lemma ProgressAtFirst(q: Request, h: seq<Byte>)
    requires q.Valid() && q.distance <= |h|
    ensures Progress(q, h, h, 0, q.distance, 1)
  {
    ReachedAtFirst(q);
  }

  lemma ProgressStep(q: Request, h: seq<Byte>, e: seq<Byte>, done: nat, far: nat, factor: nat, n: nat)
    requires Progress(q, h, e, done, far, factor) && far <= q.capacity && done < q.length && done < q.space
    requires var r := Back(q.capacity, Wrap(q.capacity, q.w + done), far);
             n == Min(Min(Min(q.capacity - r, far), q.length - done), q.space - done)
    ensures far <= |e|
    ensures var doubled := q.length - (done + n) > far && n == far;
            Progress(q, h, e + e[|e| - far..|e| - far + n], done + n, if doubled then far * 2 else far,
                     if doubled then factor * 2 else factor)
  {
    ReachedNext(q, done, far, n);
    RepeatFurther(h, q.distance, done, e, factor, e[|e| - far..|e| - far + n]);
    MulAssoc(2, factor, q.distance);
  }

  lemma ProgressFails(q: Request, h: seq<Byte>, e: seq<Byte>, done: nat, far: nat, factor: nat)
    requires Progress(q, h, e, done, far, factor) && done < q.length && done < q.space
             && far > Min(q.capacity, q.distance + done)
    ensures q.Valid() && q.Overruns()
  {
    ReachedFailing(q, done, far);
  }

  lemma ProgressEnds(q: Request, h: seq<Byte>, e: seq<Byte>, done: nat, far: nat, factor: nat)
    requires Progress(q, h, e, done, far, factor) && (done == q.length || done == q.space)
    ensures q.Valid() && !q.Overruns() && Repeats(h, q.distance, done, e)
  {
    ReachedEnd(q, done, far);
  }

  // ----- the buffer -----

  /**
   * memmove between arrays: the source is read as it was before any byte is written, and source bytes
   * up to hi that lie outside the destination stay.
   */
  method Memmove(src: array<Byte>, from: nat, hi: nat, dst: array<Byte>, to: nat, n: nat)
    requires from + n <= hi <= src.Length && to + n <= dst.Length
    requires src == dst ==> to <= from || hi <= to
    modifies dst
    ensures dst[..] == Written(old(dst[..]), to, old(src[from..hi])[..n])
    ensures src[from + n..hi] == old(src[from..hi])[n..]
  {
    var snapshot := src[from..hi][..n];
    forall i | to <= i < to + n {
      dst[i] := snapshot[i - to];
    }
    assert dst[..] == Written(old(dst[..]), to, snapshot);
  }

  /** What a seekback copy comes to: a count, the reported error, or a failed VERIFY. */
  datatype CopyOutcome = Copied(count: nat) | BeyondLimit | VerifyFailed

  class CircularBuffer {
    var buffer: array<Byte>
    var readingHead: nat
    var usedSpace: nat
    var seekbackLimit: nat
    ghost var history: seq<Byte>

    ghost predicate Valid()
      reads this, buffer
    {
      && buffer.Length > 0 && readingHead < buffer.Length
      && usedSpace <= seekbackLimit <= buffer.Length && seekbackLimit <= |history|
      && Holds(buffer[..], Wrap(buffer.Length, readingHead + usedSpace), history, seekbackLimit)
    }

    /** The bytes written and not yet read. */
    ghost function Unread(): (bytes: seq<Byte>)
      requires Valid()
      reads this, buffer
      ensures |bytes| == usedSpace
    {
      Last(history, usedSpace)
    }

    ghost function WriteIndexNow(): (i: nat)
      requires Valid()
      reads this, buffer
    {
      Wrap(buffer.Length, readingHead + usedSpace)
    }

    constructor CreateEmpty(size: nat)
      requires size > 0
      ensures Valid() && history == [] && buffer.Length == size && fresh(buffer)
      ensures readingHead == usedSpace == seekbackLimit == 0
    {
      buffer := new Byte[size];
      readingHead, usedSpace, seekbackLimit, history := 0, 0, 0, [];
    }

    function EmptySpace(): (n: nat)
      requires usedSpace <= buffer.Length
      reads this
    {
      buffer.Length - usedSpace
    }

    /** next_write_span: where the next run of free bytes starts, and how long it is. */
    function NextWriteSpan(): (span: (nat, nat))
      requires usedSpace <= buffer.Length && readingHead < buffer.Length
      reads this
      ensures span.0 == Wrap(buffer.Length, readingHead + usedSpace) && span.0 + span.1 <= buffer.Length
      ensures span.1 <= buffer.Length - usedSpace && (span.1 == 0 <==> buffer.Length == usedSpace)
    {
      if buffer.Length <= readingHead + usedSpace
      then (readingHead + usedSpace - buffer.Length, buffer.Length - usedSpace)
      else (readingHead + usedSpace, buffer.Length - (readingHead + usedSpace))
    }

    /** The write index does not lie inside the source, so no run overwrites source bytes before they are read. */
    ghost predicate SourceSafe(src: array<Byte>, lo: nat, hi: nat)
      reads this
    {
      src == buffer && readingHead < buffer.Length && usedSpace <= buffer.Length ==>
        var w := Wrap(buffer.Length, readingHead + usedSpace);
        w <= lo || hi <= w
    }

    /** One run of `write`: as much of src[from..hi] as the free bytes at the write index take. */
    method WriteRun(src: array<Byte>, from: nat, hi: nat) returns (count: nat)
      requires Valid() && from <= hi <= src.Length && SourceSafe(src, from, hi)
      modifies this`usedSpace, this`seekbackLimit, this`history, buffer
      ensures Valid() && count == Min(hi - from, old(NextWriteSpan().1))
      ensures |history| == |old(history)| + count && history + src[from + count..hi] == old(history + src[from..hi])
      ensures usedSpace == old(usedSpace) + count && seekbackLimit == Min(buffer.Length, old(seekbackLimit) + count)
      ensures SourceSafe(src, from + count, hi)
    {
      hide Holds, Written, Back, Wrap, NextWriteSpan;
      var span := NextWriteSpan();
      count := Min(hi - from, span.1);
      WriteIndex(buffer.Length, readingHead, usedSpace, count, from, hi);
      ghost var rest := src[from..hi];
      WriteHolds(buffer[..], span.0, history, seekbackLimit, rest[..count]);
      Memmove(src, from, hi, buffer, span.0, count);
      Moved(history, rest, count);
      history := history + rest[..count];
      usedSpace := usedSpace + count;
      seekbackLimit := seekbackLimit + count;
      if seekbackLimit > buffer.Length {
        seekbackLimit := buffer.Length;
      }
    }

    /** write: as many bytes of the source as fit. The source may be a part of this buffer. */
    method Write(src: array<Byte>, lo: nat, hi: nat) returns (written: nat)
      requires Valid() && lo <= hi <= src.Length && SourceSafe(src, lo, hi)
      modifies this`usedSpace, this`seekbackLimit, this`history, buffer
      ensures Valid() && written == Min(hi - lo, buffer.Length - old(usedSpace))
      ensures history == old(history) + old(src[lo..hi])[..written]
      ensures usedSpace == old(usedSpace) + written && seekbackLimit == Min(buffer.Length, old(seekbackLimit) + written)
    {
      hide Holds, Wrap, Back, SourceSafe, NextWriteSpan;
      var remaining: nat := hi - lo;
      ghost var whole := history + src[lo..hi];
      while remaining > 0
        invariant Valid() && remaining <= hi - lo && SourceSafe(src, hi - remaining, hi)
        invariant usedSpace == old(usedSpace) + (hi - lo - remaining)
        invariant seekbackLimit == Min(buffer.Length, old(seekbackLimit) + (hi - lo - remaining))
        invariant |history| == |old(history)| + (hi - lo - remaining)
        invariant history + src[hi - remaining..hi] == whole
      {
        var count := WriteRun(src, hi - remaining, hi);
        if count == 0 {
          break;
        }
        remaining := remaining - count;
      }
      written := hi - lo - remaining;
      PrefixOf(old(history), old(src[lo..hi]), history, src[hi - remaining..hi], written);
    }

    /** next_read_span: the unread bytes from `offset` on, up to the end of the buffer. */
    function NextReadSpan(offset: nat): (span: (nat, nat))
      requires readingHead < buffer.Length && usedSpace <= buffer.Length
      reads this
      ensures offset < usedSpace ==> span.0 == Back(buffer.Length, Wrap(buffer.Length, readingHead + usedSpace),
                                                    usedSpace - offset)
      ensures offset < usedSpace ==> span.1 == Min(buffer.Length - span.0, usedSpace - offset) && span.1 > 0
      ensures offset >= usedSpace ==> span.1 == 0
      ensures offset == 0 ==> span.0 == readingHead && span.1 == Min(buffer.Length - readingHead, usedSpace)
    {
      if offset > 0 && offset >= usedSpace then (0, 0)
      else if offset > 0 then
        ReadIndex(buffer.Length, readingHead, usedSpace, offset);
        var head := Modulo(readingHead + offset, buffer.Length);
        (head, Min(buffer.Length - head, usedSpace - offset))
      else
        ReadIndex(buffer.Length, readingHead, usedSpace, 0);
        (readingHead, Min(buffer.Length - readingHead, usedSpace))
    }

    /** next_seekback_span: the bytes that start `distance` before the write index, up to the end of the buffer. */
    function NextSeekbackSpan(distance: nat): (span: (nat, nat))
      requires readingHead < buffer.Length && usedSpace <= buffer.Length && distance <= seekbackLimit <= buffer.Length
      reads this
      ensures distance > 0 ==> span.0 == Back(buffer.Length, Wrap(buffer.Length, readingHead + usedSpace), distance)
      ensures span.0 + span.1 <= buffer.Length && span.1 == Min(buffer.Length - span.0, distance)
    {
      SeekIndex(buffer.Length, readingHead + usedSpace, distance);
      var offset := (buffer.Length + readingHead + usedSpace - distance) % buffer.Length;
      (offset, Min(buffer.Length - offset, distance))
    }

    /** Copies a span of n bytes that starts `distance` before the write index to dst[at..]. */
    method CopyOut(distance: nat, from: nat, n: nat, dst: array<Byte>, at: nat)
      requires Valid() && dst != buffer && n <= distance && 1 <= distance <= seekbackLimit && at + n <= dst.Length
      requires from == Back(buffer.Length, Wrap(buffer.Length, readingHead + usedSpace), distance)
               && from + n <= buffer.Length
      modifies dst
      ensures dst[..at + n] == old(dst[..at]) + history[|history| - distance..|history| - distance + n]
      ensures dst[at + n..] == old(dst[at + n..])
    {
      hide Holds, Back, Written, Wrap;
      ghost var t, run := dst[..], history[|history| - distance..|history| - distance + n];
      SpanOfHistory(buffer[..], Wrap(buffer.Length, readingHead + usedSpace), history, seekbackLimit, distance, n);
      assert buffer[from..from + n][..n] == run;
      Memmove(buffer, from, from + n, dst, at, n);
      WrittenParts(t, at, run, dst[..]);
    }

    /** n unread bytes are read, and the read index behind them is `head`. */
    method MoveHead(n: nat, head: nat)
      requires Valid() && n <= usedSpace && head == Wrap(buffer.Length, readingHead + n)
      modifies this`readingHead, this`usedSpace
      ensures Valid() && usedSpace == old(usedSpace) - n && Unread() == old(Unread())[n..]
      ensures WriteIndexNow() == old(WriteIndexNow())
    {
      hide Holds, Back, Wrap, Last;
      ReadIndex(buffer.Length, readingHead, usedSpace, n);
      UnreadParts(history, usedSpace, n);
      usedSpace := usedSpace - n;
      readingHead := head;
    }

    /** Moves the read index past n unread bytes. */
    method Advance(n: nat)
      requires Valid() && n <= usedSpace
      modifies this`readingHead, this`usedSpace
      ensures Valid() && usedSpace == old(usedSpace) - n && Unread() == old(Unread())[n..]
      ensures WriteIndexNow() == old(WriteIndexNow())
    {
      hide Holds, Back, Last;
      MoveHead(n, if readingHead + n >= buffer.Length then readingHead + n - buffer.Length else readingHead + n);
    }

    /** One run of `read`: the n bytes at the read index go to dst[at..]. */
    method ReadRun(n: nat, dst: array<Byte>, at: nat)
      requires Valid() && dst != buffer && readingHead + n <= buffer.Length && 1 <= n <= usedSpace
               && at + n <= dst.Length
      modifies this`readingHead, this`usedSpace, dst
      ensures Valid() && usedSpace == old(usedSpace) - n
      ensures dst[..at + n] == old(dst[..at] + Unread()[..n]) && dst[at + n..] == old(dst[at + n..])
      ensures Unread() == old(Unread())[n..] && WriteIndexNow() == old(WriteIndexNow())
    {
      hide Holds, Back, Wrap, Last;
      ReadIndex(buffer.Length, readingHead, usedSpace, n);
      UnreadParts(history, usedSpace, n);
      CopyOut(usedSpace, readingHead, n, dst, at);
      Advance(n);
    }

    /** The same run, seen as progress of the whole read; no bytes if there are none left. */
    method ReadStep(dst: array<Byte>, done: nat, ghost bytes: seq<Byte>, ghost was: seq<Byte>) returns (n: nat)
      requires Valid() && dst != buffer && done < dst.Length && ReadSoFar(bytes, was, done, Unread(), dst[..])
      modifies this`readingHead, this`usedSpace, dst
      ensures Valid() && usedSpace == old(usedSpace) - n && n <= dst.Length - done && (n == 0 <==> old(usedSpace) == 0)
      ensures ReadSoFar(bytes, was, done + n, Unread(), dst[..]) && WriteIndexNow() == old(WriteIndexNow())
    {
      hide Holds, Back, Wrap, NextReadSpan, ReadSoFar, Unread;
      var span := NextReadSpan(0);
      if span.1 == 0 {
        return 0;
      }
      n := Min(span.1, dst.Length - done);
      ghost var unread, d := Unread(), dst[..];
      ReadRun(n, dst, done);
      assert dst[..][..done + n] == dst[..done + n];
      ReadMore(bytes, was, done, unread, d, n, Unread(), dst[..]);
    }

    /** read: the oldest unread bytes, as many as there are and dst has room for. */
    method Read(dst: array<Byte>) returns (count: nat)
      requires Valid() && dst != buffer
      modifies this`readingHead, this`usedSpace, dst
      ensures Valid() && count == Min(dst.Length, old(usedSpace)) && usedSpace == old(usedSpace) - count
      ensures WriteIndexNow() == old(WriteIndexNow())
      ensures dst[..count] == old(Unread())[..count] && dst[count..] == old(dst[count..])
      ensures Unread() == old(Unread())[count..]
    {
      hide Holds, Back, Wrap, ReadSoFar, Unread;
      var remaining := dst.Length;
      ghost var bytes, was := Unread(), dst[..];
      ReadNothing(bytes, was);
      while remaining > 0
        invariant Valid() && 0 <= remaining <= dst.Length && usedSpace == old(usedSpace) - (dst.Length - remaining)
        invariant ReadSoFar(bytes, was, dst.Length - remaining, Unread(), dst[..])
        invariant WriteIndexNow() == old(WriteIndexNow())
      {
        var n := ReadStep(dst, dst.Length - remaining, bytes, was);
        if n == 0 {
          break;
        }
        remaining := remaining - n;
      }
      count := dst.Length - remaining;
      ReadParts(bytes, was, count, Unread(), dst[..]);
    }

    /** One run of read_with_seekback, from `far` back; no bytes if it has come to the write index. */
    method SeekStep(dst: array<Byte>, done: nat, far: nat, ghost bytes: seq<Byte>, ghost was: seq<Byte>)
      returns (n: nat)
      requires Valid() && dst != buffer && done < dst.Length && far <= seekbackLimit
      requires far + done == |bytes| <= |history| && bytes == Last(history, far + done)
      requires Filled(bytes, was, done, dst[..])
      modifies dst
      ensures n <= dst.Length - done && n <= far && (n == 0 <==> far == 0)
      ensures Filled(bytes, was, done + n, dst[..])
    {
      hide Holds, Back, Wrap, NextSeekbackSpan, ReadSoFar, Last;
      var span := NextSeekbackSpan(far);
      if span.1 == 0 {
        return 0;
      }
      n := Min(span.1, dst.Length - done);
      ghost var unread, d := bytes[done..], dst[..];
      UnreadParts(history, far + done, done);
      UnreadParts(history, far, n);
      CopyOut(far, span.0, n, dst, done);
      assert dst[..][..done + n] == dst[..done + n];
      assert bytes[done + n..] == unread[n..];
      ReadMore(bytes, was, done, unread, d, n, bytes[done + n..], dst[..]);
    }

    /** read_with_seekback: bytes of the history that start `distance` back, or an error beyond the limit. */
    method ReadWithSeekback(dst: array<Byte>, distance: nat) returns (count: Option<nat>)
      requires Valid() && dst != buffer
      modifies dst
      ensures count.None? <==> distance > seekbackLimit
      ensures count.None? ==> dst[..] == old(dst[..])
      ensures count.Some? ==> count.value == Min(dst.Length, distance)
      ensures count.Some? ==> dst[..count.value] == history[|history| - distance..][..count.value]
      ensures count.Some? ==> dst[count.value..] == old(dst[count.value..])
    {
      hide Holds, Back, Wrap, Filled;
      if distance > seekbackLimit {
        return None;
      }
      ghost var bytes, was := Last(history, distance), dst[..];
      var remaining, far := dst.Length, distance;
      FilledNothing(bytes, was);
      while remaining > 0
        invariant 0 <= remaining <= dst.Length && 0 <= far == distance - (dst.Length - remaining)
        invariant Filled(bytes, was, dst.Length - remaining, dst[..])
      {
        var n := SeekStep(dst, dst.Length - remaining, far, bytes, was);
        if n == 0 {
          break;
        }
        far := far - n;
        remaining := remaining - n;
      }
      FilledParts(bytes, was, dst.Length - remaining, dst[..]);
      count := Some(dst.Length - remaining);
    }

    /** discard: drops unread bytes, or fails when there are too few. */
    method Discard(n: nat) returns (ok: bool)
      requires Valid()
      modifies this`readingHead, this`usedSpace
      ensures Valid() && (ok <==> n <= old(usedSpace))
      ensures Unread() == if ok then old(Unread())[n..] else old(Unread())
    {
      hide Holds, Back, Wrap, Last;
      if usedSpace < n {
        return false;
      }
      MoveHead(n, Modulo(readingHead + n, buffer.Length));
      ok := true;
    }

    /** The request that copy_from_seekback(distance, length) is in this state. */
    ghost function RequestFor(distance: nat, length: nat): (q: Request)
      requires Valid() && 1 <= distance <= seekbackLimit
      reads this, buffer
      ensures q.Valid()
    {
      Request(buffer.Length, Wrap(buffer.Length, readingHead + usedSpace), distance, buffer.Length - usedSpace, length)
    }

    /** One run of copy_from_seekback: part of the history is written again, inside the same buffer. */
    method CopyRun(far: nat, limit: nat) returns (n: nat)
      requires Valid() && 1 <= far <= seekbackLimit && limit > 0
      modifies this`usedSpace, this`seekbackLimit, this`history, buffer
      ensures Valid()
      ensures var r := Back(buffer.Length, Wrap(buffer.Length, readingHead + old(usedSpace)), far);
              n == Min(Min(Min(buffer.Length - r, far), limit), buffer.Length - old(usedSpace))
      ensures history == old(history) + old(history[|history| - far..|history| - far + n])
      ensures usedSpace == old(usedSpace) + n && seekbackLimit == Min(buffer.Length, old(seekbackLimit) + n)
    {
      hide Holds, NextSeekbackSpan, Back, Wrap;
      var span := NextSeekbackSpan(far);
      var hi := span.0 + Min(span.1, limit);
      ghost var m := Min(hi - span.0, buffer.Length - usedSpace);
      SpanOfHistory(buffer[..], Wrap(buffer.Length, readingHead + usedSpace), history, seekbackLimit, far, m);
      assert buffer[span.0..hi][..m] == buffer[..][span.0..span.0 + m];
      SourceBehind(buffer.Length, Wrap(buffer.Length, readingHead + usedSpace), far, hi - span.0);
      n := Write(buffer, span.0, hi);
    }

    /** The same run, seen as progress of the whole copy. */
    method CopyStep(ghost q: Request, ghost h: seq<Byte>, far: nat, remaining: nat, ghost factor: nat) returns (n: nat)
      requires Valid() && 1 <= far <= seekbackLimit && 0 < remaining <= q.length && usedSpace < buffer.Length
      requires Progress(q, h, history, q.length - remaining, far, factor)
      requires q.capacity == buffer.Length && q.length - remaining <= usedSpace
      requires q.w == Wrap(buffer.Length, readingHead + (usedSpace - (q.length - remaining)))
      requires q.space == buffer.Length - usedSpace + (q.length - remaining)
      modifies this`usedSpace, this`seekbackLimit, this`history, buffer
      ensures Valid() && 0 < n <= remaining
      ensures usedSpace == old(usedSpace) + n && seekbackLimit == Min(buffer.Length, old(seekbackLimit) + n)
      ensures var doubled := remaining - n > far && n == far;
              Progress(q, h, history, q.length - (remaining - n), if doubled then far * 2 else far,
                       if doubled then factor * 2 else factor)
    {
      hide Holds, Back, Wrap, Progress;
      ghost var done: nat := q.length - remaining;
      ghost var e := history;
      WrapAgain(buffer.Length, readingHead + (usedSpace - done), done);
      n := CopyRun(far, remaining);
      ProgressStep(q, h, e, done, far, factor, n);
    }

    /**
     * copy_from_seekback: appends bytes one `distance` back each, as LZ77 does. The distance check inside
     * next_seekback_span is the VERIFY that can fail.
     */
    method CopyFromSeekback(distance: nat, length: nat) returns (outcome: CopyOutcome)
      requires Valid()
      modifies this`usedSpace, this`seekbackLimit, this`history, buffer
      ensures Valid()
      ensures outcome.BeyondLimit? <==> distance > old(seekbackLimit)
      ensures outcome.BeyondLimit? || distance == 0 ==> history == old(history) && usedSpace == old(usedSpace)
      ensures outcome.BeyondLimit? ==> seekbackLimit == old(seekbackLimit) && buffer[..] == old(buffer[..])
      ensures distance == 0 ==> outcome == Copied(0)
      ensures 1 <= distance <= old(seekbackLimit) ==>
              (outcome.VerifyFailed? <==> old(RequestFor(distance, length)).Overruns())
      ensures outcome.Copied? && distance > 0 ==>
                && outcome.count == Min(length, buffer.Length - old(usedSpace))
                && usedSpace == old(usedSpace) + outcome.count
                && Repeats(old(history), distance, outcome.count, history)
      ensures outcome.Copied? ==> seekbackLimit == Min(buffer.Length, old(seekbackLimit) + outcome.count)
    {
      hide Holds, Back, Wrap, NextSeekbackSpan, Progress, Request.Overruns;
      if distance > seekbackLimit {
        return BeyondLimit;
      }
      var remaining, far := length, distance;
      ghost var factor: nat, h, used, limit := 1, history, usedSpace, seekbackLimit;
      ghost var q := if distance > 0 then RequestFor(distance, length) else Request(1, 0, 1, 0, 0);
      if distance > 0 {
        ProgressAtFirst(q, h);
      }
      while remaining > 0
        invariant 0 <= remaining <= length && Valid()
        invariant usedSpace == used + (length - remaining)
                  && seekbackLimit == Min(buffer.Length, limit + (length - remaining))
        invariant distance == 0 ==> far == 0 && remaining == length && history == h
        invariant distance > 0 ==> far > 0 && Progress(q, h, history, length - remaining, far, factor)
      {
        if EmptySpace() == 0 {
          break;
        }
        if far > seekbackLimit {
          ProgressFails(q, h, history, length - remaining, far, factor);
          return VerifyFailed;
        }
        var span := NextSeekbackSpan(far);
        if span.1 == 0 {
          break;
        }
        var n := CopyStep(q, h, far, remaining, factor);
        remaining := remaining - n;
        if remaining > far && n == far {
          far := far * 2;
          factor := factor * 2;
        }
      }
      if distance > 0 {
        ProgressEnds(q, h, history, length - remaining, far, factor);
      }
      return Copied(length - remaining);
    }

    /** A copy that fits the free bytes is always made in full. */
    method CopyFitting(distance: nat, length: nat)
      requires Valid() && 1 <= distance <= seekbackLimit && length <= buffer.Length - usedSpace
      modifies this`usedSpace, this`seekbackLimit, this`history, buffer
      ensures Valid() && usedSpace == old(usedSpace) + length && Repeats(old(history), distance, length, history)
    {
      hide Holds, Back, Wrap, Repeats, Request.Overruns;
      ShortRequestsFit(RequestFor(distance, length));
      var outcome := CopyFromSeekback(distance, length);
    }
  }

  /** The failed VERIFY is reached from an empty buffer by a write, a read and the copy. */
  method OverrunReached() returns (outcome: CopyOutcome)
    ensures outcome == VerifyFailed
  {
    hide Holds, Back, Repeats, Request.Overruns, CircularBuffer.Unread, CircularBuffer.SourceSafe;
    var ring := new CircularBuffer.CreateEmpty(4);
    var bytes, read := new Byte[3](_ => 0), new Byte[3];
    SourceApart(ring, bytes);
    var written := ring.Write(bytes, 0, 3);
    var count := ring.Read(read);
    assert ring.WriteIndexNow() == 3 && ring.usedSpace == 0;
    LongRequestOverruns();
    outcome := ring.CopyFromSeekback(3, 10);
  }

  lemma SourceApart(ring: CircularBuffer, bytes: array<Byte>)
    requires ring.buffer != bytes
    ensures ring.SourceSafe(bytes, 0, bytes.Length)
  {
  }

  lemma Moved(h: seq<Byte>, rest: seq<Byte>, count: nat)
    requires count <= |rest|
    ensures (h + rest[..count]) + rest[count..] == h + rest
  {
    assert rest == rest[..count] + rest[count..];
  }

  lemma UnreadParts(h: seq<Byte>, used: nat, n: nat)
    requires n <= used <= |h|
    ensures Last(h, used)[..n] == h[|h| - used..|h| - used + n] && Last(h, used)[n..] == Last(h, used - n)
  {
  }

  /** done of the bytes are read into d, which was `was`, and `unread` are left. */
  ghost predicate ReadSoFar(bytes: seq<Byte>, was: seq<Byte>, done: nat, unread: seq<Byte>, d: seq<Byte>) {
    && done <= |bytes| && done <= |was| && unread == bytes[done..]
    && d == bytes[..done] + was[done..]
  }

  lemma ReadNothing(bytes: seq<Byte>, was: seq<Byte>)
    ensures ReadSoFar(bytes, was, 0, bytes, was)
  {
  }

  lemma ReadMore(bytes: seq<Byte>, was: seq<Byte>, done: nat, unread: seq<Byte>, d: seq<Byte>, n: nat,
                 unread': seq<Byte>, d': seq<Byte>)
    requires ReadSoFar(bytes, was, done, unread, d) && n <= |unread| && done + n <= |d| == |d'|
    requires unread' == unread[n..]
    requires d'[..done + n] == d[..done] + unread[..n] && d'[done + n..] == d[done + n..]
    ensures ReadSoFar(bytes, was, done + n, unread', d')
  {
    SliceParts(bytes, done, n);
    assert d[..done] == bytes[..done];
    assert d[done + n..] == was[done + n..];
    assert d' == d'[..done + n] + d'[done + n..];
  }

  lemma ReadParts(bytes: seq<Byte>, was: seq<Byte>, done: nat, unread: seq<Byte>, d: seq<Byte>)
    requires ReadSoFar(bytes, was, done, unread, d)
    ensures done <= |bytes| && done <= |was| == |d| && unread == bytes[done..]
    ensures d[..done] == bytes[..done] && d[done..] == was[done..]
  {
  }

  lemma SliceParts(bytes: seq<Byte>, done: nat, n: nat)
    requires done + n <= |bytes|
    ensures bytes[..done] + bytes[done..][..n] == bytes[..done + n] && bytes[done..][n..] == bytes[done + n..]
  {
  }

  lemma PrefixOf(h: seq<Byte>, data: seq<Byte>, h': seq<Byte>, rest: seq<Byte>, n: nat)
    requires n <= |data| && h' + rest == h + data && |h'| == |h| + n
    ensures h' == h + data[..n]
  {
    assert h' == (h' + rest)[..|h'|];
    assert h + data[..n] == (h + data)[..|h| + n];
  }

  /** done of the bytes are in d, which was `was`. */
  ghost predicate Filled(bytes: seq<Byte>, was: seq<Byte>, done: nat, d: seq<Byte>) {
    done <= |bytes| && ReadSoFar(bytes, was, done, bytes[done..], d)
  }

  lemma FilledNothing(bytes: seq<Byte>, was: seq<Byte>)
    ensures Filled(bytes, was, 0, was)
  {
  }

  lemma FilledParts(bytes: seq<Byte>, was: seq<Byte>, done: nat, d: seq<Byte>)
    requires Filled(bytes, was, done, d)
    ensures done <= |bytes| && done <= |was| == |d| && d[..done] == bytes[..done] && d[done..] == was[done..]
  {
    ReadParts(bytes, was, done, bytes[done..], d);
  }
}
