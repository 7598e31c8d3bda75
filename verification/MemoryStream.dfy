/** The chunked in-memory stream, refining the sequence of its unread bytes. */
module MemoryStream {
  import opened Arithmetic
  import opened MemMem
  import opened Prelude

  const CHUNK_SIZE: nat := 4096

  // ----- the chunks as one text -----

  ghost predicate Whole(chunks: seq<seq<Byte>>) {
    forall i :: 0 <= i < |chunks| ==> |chunks[i]| == CHUNK_SIZE
  }

  lemma {:induction false} WholeLength(chunks: seq<seq<Byte>>)
    requires Whole(chunks)
    ensures |Concat(chunks)| == |chunks| * CHUNK_SIZE
  {
    if chunks != [] {
      WholeLength(chunks[1..]);
    }
  }

  /** The text before and after chunk k. */
  lemma Around(chunks: seq<seq<Byte>>, k: nat)
    requires Whole(chunks) && k < |chunks|
    ensures Concat(chunks) == Concat(chunks[..k]) + chunks[k] + Concat(chunks[k + 1..])
    ensures |Concat(chunks[..k])| == k * CHUNK_SIZE && |Concat(chunks)| == |chunks| * CHUNK_SIZE
  {
    ConcatSplit(chunks, k);
    WholeLength(chunks[..k]);
    WholeLength(chunks);
  }

  lemma Appended(chunks: seq<seq<Byte>>, chunk: seq<Byte>)
    ensures Concat(chunks + [chunk]) == Concat(chunks) + chunk
  {
    ConcatSplit(chunks + [chunk], |chunks|);
    assert (chunks + [chunk])[..|chunks|] == chunks;
  }

  /** A range inside chunk k is a range of the text. */
  lemma RangeOfText(chunks: seq<seq<Byte>>, k: nat, lo: nat, n: nat)
    requires Whole(chunks) && k < |chunks| && lo + n <= CHUNK_SIZE
    ensures |Concat(chunks)| == |chunks| * CHUNK_SIZE
    ensures Concat(chunks)[k * CHUNK_SIZE + lo..k * CHUNK_SIZE + lo + n] == chunks[k][lo..lo + n]
  {
    Around(chunks, k);
  }

  /** Bytes written into chunk k, after `lo` bytes of it, continue the text. */
  lemma TextWritten(chunks: seq<seq<Byte>>, k: nat, lo: nat, data: seq<Byte>)
    requires Whole(chunks) && k < |chunks| && lo + |data| <= CHUNK_SIZE
    ensures var at := k * CHUNK_SIZE + lo;
            var after := chunks[k := chunks[k][..lo] + data + chunks[k][lo + |data|..]];
            && Whole(after) && |Concat(after)| == |Concat(chunks)| == |chunks| * CHUNK_SIZE
            && Concat(after)[..at + |data|] == Concat(chunks)[..at] + data
  {
    var after := chunks[k := chunks[k][..lo] + data + chunks[k][lo + |data|..]];
    Around(chunks, k);
    Around(after, k);
    assert after[..k] == chunks[..k];
  }

  lemma FirstSliced(spans: seq<seq<Byte>>, n: nat)
    requires spans != [] && n <= |spans[0]|
    ensures n <= |Concat(spans)| && Concat(spans[0 := spans[0][n..]]) == Concat(spans)[n..]
  {
  }

  lemma LastTrimmed(spans: seq<seq<Byte>>, n: nat)
    requires spans != [] && n <= |spans[|spans| - 1]|
    ensures var last := |spans| - 1;
            && |Concat(spans)| == |Concat(spans[..last])| + |spans[last]|
            && Concat(spans[last := spans[last][..n]]) == Concat(spans)[..|Concat(spans[..last])| + n]
  {
    var last := |spans| - 1;
    var trimmed := spans[last := spans[last][..n]];
    ConcatSplit(spans, last);
    ConcatSplit(trimmed, last);
    assert trimmed[..last] == spans[..last];
  }

  // ----- the stream -----

  class AllocatingMemoryStream {
    var chunks: seq<seq<Byte>>
    var readOffset: nat
    var writeOffset: nat

    /** Chunks cover the written bytes and no more; the offsets need not be cleaned up yet. */
    ghost predicate Covered()
      reads this
    {
      && Whole(chunks) && readOffset <= writeOffset
      && writeOffset <= |chunks| * CHUNK_SIZE < writeOffset + CHUNK_SIZE
    }

    ghost predicate Valid()
      reads this
    {
      Covered() && readOffset < CHUNK_SIZE
    }

    ghost function Unread(): (bytes: seq<Byte>)
      requires Covered()
      reads this
      ensures |bytes| == writeOffset - readOffset
    {
      WholeLength(chunks);
      Concat(chunks)[readOffset..writeOffset]
    }

    constructor ()
      ensures Valid() && Unread() == []
    {
      chunks, readOffset, writeOffset := [], 0, 0;
    }

    /** next_write_range: makes sure that the chunk at the write offset exists. Its bytes are not initialised. */
    method NextWriteRange() returns (k: nat, lo: nat)
      requires Whole(chunks) && readOffset <= writeOffset <= |chunks| * CHUNK_SIZE < writeOffset + CHUNK_SIZE
      modifies this`chunks
      ensures Whole(chunks) && k < |chunks| && lo < CHUNK_SIZE && writeOffset == k * CHUNK_SIZE + lo
              && k == |chunks| - 1
      ensures writeOffset <= |Concat(chunks)| && writeOffset <= |old(Concat(chunks))|
      ensures Concat(chunks)[..writeOffset] == old(Concat(chunks))[..writeOffset]
    {
      WholeLength(chunks);
      k, lo := writeOffset / CHUNK_SIZE, writeOffset % CHUNK_SIZE;
      if k >= |chunks| {
        assert |seq(CHUNK_SIZE, _ => 0)| == CHUNK_SIZE;
        var blank: seq<Byte> :| |blank| == CHUNK_SIZE;
        Appended(chunks, blank);
        chunks := chunks + [blank];
        WholeLength(chunks);
      }
    }

    /** The bytes written so far, of which the first are read. */
    ghost function Text(): (bytes: seq<Byte>)
      requires Covered()
      reads this
      ensures |bytes| == writeOffset
    {
      WholeLength(chunks);
      Concat(chunks)[..writeOffset]
    }

    /** One run of write_some: as many bytes as the chunk takes. */
    method WriteRun(bytes: seq<Byte>, from: nat) returns (n: nat)
      requires Covered() && from < |bytes|
      modifies this`chunks, this`writeOffset
      ensures Covered() && 1 <= n <= |bytes| - from && writeOffset == old(writeOffset) + n
      ensures Text() == old(Text()) + bytes[from..from + n]
    {
      hide Concat;
      WholeLength(chunks);
      var k, lo := NextWriteRange();
      n := Min(|bytes| - from, CHUNK_SIZE - lo);
      TextWritten(chunks, k, lo, bytes[from..from + n]);
      chunks := chunks[k := chunks[k][..lo] + bytes[from..from + n] + chunks[k][lo + n..]];
      writeOffset := writeOffset + n;
    }

    /** write_some: all bytes are taken. */
    method WriteSome(bytes: seq<Byte>) returns (written: nat)
      requires Valid()
      modifies this`chunks, this`writeOffset
      ensures Valid() && written == |bytes| && Unread() == old(Unread()) + bytes
    {
      hide Concat, Whole, Text, Unread;
      written := 0;
      ghost var text := Text();
      while written < |bytes|
        invariant Covered() && written <= |bytes| && writeOffset == old(writeOffset) + written
        invariant Text() == text + bytes[..written]
      {
        var n := WriteRun(bytes, written);
        assert bytes[..written + n] == bytes[..written] + bytes[written..written + n];
        written := written + n;
      }
      assert bytes[..written] == bytes;
      UnreadIsRest();
      assert (text + bytes)[readOffset..] == text[readOffset..] + bytes;
    }

    twostate lemma UnreadIsRest()
      requires old(Covered()) && Covered()
      ensures old(Unread()) == old(Text()[readOffset..]) && Unread() == Text()[readOffset..]
    {
    }

    /** cleanup_unused_chunks: drops the chunks that are read completely. */
    method CleanupUnusedChunks()
      requires Covered()
      modifies this
      ensures Valid() && Unread() == old(Unread())
    {
      var n := readOffset / CHUNK_SIZE;
      WholeLength(chunks);
      TextDropped(chunks, n, readOffset, writeOffset);
      chunks := chunks[n..];
      readOffset := readOffset - CHUNK_SIZE * n;
      writeOffset := writeOffset - CHUNK_SIZE * n;
    }

    /** next_read_range: the unread bytes of one chunk. The check that the chunk exists never fails. */
    method NextReadRange() returns (range: seq<Byte>)
      requires Covered()
      ensures |range| == Min(CHUNK_SIZE - readOffset % CHUNK_SIZE, writeOffset - readOffset)
      ensures readOffset + |range| <= |Concat(chunks)| && range == Concat(chunks)[readOffset..readOffset + |range|]
    {
      var k, lo := readOffset / CHUNK_SIZE, readOffset % CHUNK_SIZE;
      var n := Min(CHUNK_SIZE - lo, writeOffset - readOffset);
      WholeLength(chunks);
      if n == 0 {
        return [];
      }
      RangeOfText(chunks, k, lo, n);
      range := chunks[k][lo..lo + n];
    }

    /** One run of read_some: unread bytes of one chunk, at most `limit`. */
    method ReadRun(limit: nat) returns (bytes: seq<Byte>)
      requires Covered() && limit > 0
      modifies this`readOffset
      ensures Covered() && |bytes| <= limit && old(Unread()) == bytes + Unread()
      ensures bytes == [] <==> old(Unread()) == []
    {
      hide Concat;
      WholeLength(chunks);
      var range := NextReadRange();
      var n := Min(|range|, limit);
      bytes := range[..n];
      RunTaken(Concat(chunks), readOffset, writeOffset, range, n);
      readOffset := readOffset + n;
    }

    /** read_some into a buffer of `size` bytes. */
    method ReadSome(size: nat) returns (bytes: seq<Byte>)
      requires Valid()
      modifies this
      ensures Valid() && |bytes| == Min(size, |old(Unread())|) && old(Unread()) == bytes + Unread()
    {
      hide Whole, Unread;
      bytes := [];
      while |bytes| < size
        invariant Covered() && |bytes| <= size && old(Unread()) == bytes + Unread()
        decreases size - |bytes|
      {
        var range := ReadRun(size - |bytes|);
        bytes := bytes + range;
        if |range| == 0 {
          break;
        }
      }
      CleanupUnusedChunks();
    }

    /** discard: drops unread bytes, or fails when there are too few. */
    method Discard(count: nat) returns (ok: bool)
      requires Valid()
      modifies this
      ensures Valid() && (ok <==> count <= |old(Unread())|)
      ensures Unread() == if ok then old(Unread())[count..] else old(Unread())
    {
      hide Concat;
      if count > writeOffset - readOffset {
        return false;
      }
      WholeLength(chunks);
      TakenFromText(Concat(chunks), readOffset, writeOffset, count);
      readOffset := readOffset + count;
      CleanupUnusedChunks();
      ok := true;
    }

    /** offset_of: searches the unread bytes, chunk by chunk. */
    method OffsetOf(needle: seq<Byte>) returns (found: Option<nat>)
      requires Valid() && |needle| > 0
      ensures IsFirst(Unread(), needle, found)
    {
      hide Concat;
      WholeLength(chunks);
      if |chunks| == 0 {
        return None;
      }
      var emptyChunksAtEnd := (|chunks| * CHUNK_SIZE - writeOffset) / CHUNK_SIZE;
      var count := |chunks| - emptyChunksAtEnd;
      var spans := chunks[..count];
      var used := writeOffset % CHUNK_SIZE;
      if writeOffset >= CHUNK_SIZE && used == 0 {
        used := CHUNK_SIZE;
      }
      assert spans == chunks;
      Around(chunks, count - 1);
      LastTrimmed(spans, used);
      spans := spans[count - 1 := spans[count - 1][..used]];
      FirstSliced(spans, readOffset);
      spans := spans[0 := spans[0][readOffset..]];
      found := MemMemChunked(spans, needle);
    }
  }

  lemma ConcatFirst(chunks: seq<seq<Byte>>)
    ensures Concat(chunks) == if chunks == [] then [] else chunks[0] + Concat(chunks[1..])
  {
  }

  lemma ChunkSlices(chunks: seq<seq<Byte>>, n: nat)
    requires 0 < n <= |chunks|
    ensures chunks[1..][..n - 1] == chunks[..n][1..] && chunks[1..][n - 1..] == chunks[n..]
    ensures chunks[..n][0] == chunks[0]
  {
  }

  lemma Associates(a: seq<Byte>, b: seq<Byte>, c: seq<Byte>)
    ensures a + (b + c) == (a + b) + c
  {
  }

  /** The text before and from chunk n on. */
  lemma {:induction false} ConcatFrom(chunks: seq<seq<Byte>>, n: nat)
    requires n <= |chunks|
    ensures Concat(chunks) == Concat(chunks[..n]) + Concat(chunks[n..])
  {
    hide Concat;
    if n == 0 {
      ConcatFirst(chunks[..0]);
      assert chunks[0..] == chunks;
    } else {
      ConcatFrom(chunks[1..], n - 1);
      ChunkSlices(chunks, n);
      ConcatFirst(chunks);
      ConcatFirst(chunks[..n]);
      Associates(chunks[0], Concat(chunks[..n][1..]), Concat(chunks[n..]));
    }
  }

  lemma SliceBehind(a: seq<Byte>, b: seq<Byte>, lo: nat, hi: nat)
    requires |a| <= lo <= hi <= |a| + |b|
    ensures (a + b)[lo..hi] == b[lo - |a|..hi - |a|]
  {
  }

  lemma TextDropped(chunks: seq<seq<Byte>>, n: nat, lo: nat, hi: nat)
    requires Whole(chunks) && n * CHUNK_SIZE <= lo <= hi <= |chunks| * CHUNK_SIZE
    ensures n <= |chunks| && |Concat(chunks)| == |chunks| * CHUNK_SIZE
            && |Concat(chunks[n..])| == |chunks[n..]| * CHUNK_SIZE
    ensures Concat(chunks[n..])[lo - n * CHUNK_SIZE..hi - n * CHUNK_SIZE] == Concat(chunks)[lo..hi]
  {
    hide Concat;
    WholeLength(chunks);
    WholeLength(chunks[..n]);
    WholeLength(chunks[n..]);
    ConcatFrom(chunks, n);
    SliceBehind(Concat(chunks[..n]), Concat(chunks[n..]), lo, hi);
  }

  lemma RunTaken(text: seq<Byte>, lo: nat, hi: nat, range: seq<Byte>, n: nat)
    requires n <= |range| && lo + |range| <= hi <= |text| && range == text[lo..lo + |range|]
    ensures range[..n] + text[lo + n..hi] == text[lo..hi]
  {
  }

  lemma TakenFromText(text: seq<Byte>, lo: nat, hi: nat, n: nat)
    requires lo + n <= hi <= |text|
    ensures text[lo..lo + n] + text[lo + n..hi] == text[lo..hi] && text[lo + n..hi] == text[lo..hi][n..]
  {
  }
}
