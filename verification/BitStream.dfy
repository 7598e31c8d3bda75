/** The little-endian bit writer and reader, each with a 64-bit staging buffer over a byte stream. */
module BitStream {
  import opened Arithmetic
  import opened BitWords
  import opened Prelude

  const BUFFER_BITS: nat := 64

  /** The first n bits of the buffer are in use, the rest is clear. */
  ghost predicate Staged(buffer: Bits, n: nat) {
    |buffer| == BUFFER_BITS && Fits(buffer, n)
  }

  /** More bits put above the ones in use. */
  lemma StageMore(buffer: Bits, n: nat, more: Bits, m: nat)
    requires Staged(buffer, n) && |more| == BUFFER_BITS && Fits(more, m) && n + m <= BUFFER_BITS
    ensures var after := OrBits(buffer, ShiftLeft(more, n));
            Staged(after, n + m) && after[..n + m] == buffer[..n] + more[..m]
  {
    Joined(buffer, n, more, m);
  }

  /** The same of any word: bits of it above those that count stay behind, as far as the buffer reaches. */
  lemma StageAny(buffer: Bits, n: nat, more: Bits, m: nat)
    requires Staged(buffer, n) && |more| == BUFFER_BITS && n + m <= BUFFER_BITS
    ensures var after := OrBits(buffer, ShiftLeft(more, n));
            && |after| == BUFFER_BITS && after[..n + m] == buffer[..n] + more[..m]
            && (Staged(after, n + m) <==> forall i :: m <= i < BUFFER_BITS - n ==> !more[i])
  {
    var after := OrBits(buffer, ShiftLeft(more, n));
    assert forall i :: n <= i < BUFFER_BITS ==> buffer[i] == buffer[n..][i - n];
    assert forall i :: n <= i < BUFFER_BITS ==> after[i] == more[i - n];
    assert after[..n + m] == buffer[..n] + more[..m];
    if Staged(after, n + m) {
      forall i | m <= i < BUFFER_BITS - n ensures !more[i] {
        assert after[n + i] == after[n + m..][i - m];
      }
    }
  }

  /** The lowest k bits taken away. */
  lemma Unstage(buffer: Bits, n: nat, k: nat)
    requires Staged(buffer, n) && k <= n
    ensures Staged(ShiftRight(buffer, k), n - k) && ShiftRight(buffer, k)[..n - k] == buffer[k..n]
  {
    var after := ShiftRight(buffer, k);
    assert after[..n - k] == buffer[k..n];
    assert after[n - k..] == buffer[n..] + Zeros(k);
  }

  // ----- the writer -----

  class Output {
    /** The bits of the bytes handed to the underlying stream. */
    var stream: Bits
    var bitBuffer: Bits
    var bitCount: nat

    /** The buffer has as many bits as are counted, whatever lies above them. */
    ghost predicate Counted()
      reads this
    {
      |stream| % 8 == 0 && |bitBuffer| == BUFFER_BITS && bitCount <= BUFFER_BITS
    }

    ghost predicate Valid()
      reads this
    {
      Counted() && Staged(bitBuffer, bitCount)
    }

    /** Every bit written so far. */
    ghost function Written(): (bits: Bits)
      requires Counted()
      reads this
      ensures |bits| == |stream| + bitCount
    {
      stream + bitBuffer[..bitCount]
    }

    constructor ()
      ensures Valid() && Written() == [] && stream == []
    {
      stream, bitBuffer, bitCount := [], Zeros(BUFFER_BITS), 0;
    }

    /** flush_buffer_to_stream: the whole bytes go out, less than a byte stays. */
    method FlushBufferToStream()
      requires Valid()
      modifies this
      ensures Valid() && Written() == old(Written()) && bitCount == old(bitCount) % 8
    {
      hide Staged;
      var n := bitCount / 8;
      StagedParts(bitBuffer, bitCount);
      Unstage(bitBuffer, bitCount, n * 8);
      stream := stream + bitBuffer[..n * 8];
      if bitCount == BUFFER_BITS {
        StagedNone();
        bitBuffer := Zeros(BUFFER_BITS);
        bitCount := 0;
      } else {
        bitBuffer := ShiftRight(bitBuffer, n * 8);
        bitCount := bitCount - n * 8;
      }
    }

    /** The low bits of a value fill the buffer up, which then goes out. */
    method TopUp(value: Bits)
      requires Valid() && bitCount < BUFFER_BITS && BUFFER_BITS - bitCount <= |value| <= BUFFER_BITS
      modifies this
      ensures Valid() && bitCount == 0 && Written() == old(Written()) + value[..BUFFER_BITS - old(bitCount)]
    {
      hide Staged;
      var remaining := BUFFER_BITS - bitCount;
      WholeBuffer(bitBuffer, bitCount, value);
      bitBuffer := OrBits(bitBuffer, ShiftLeft(AndBits(Extended(value), LowMask(BUFFER_BITS, remaining)), bitCount));
      bitCount := BUFFER_BITS;
      assert Written() == old(Written()) + value[..remaining];
      FlushBufferToStream();
    }

    /** Bits that there is room for are put above those in use. */
    method Put(value: Bits, count: nat)
      requires Valid() && count <= |value| <= BUFFER_BITS && bitCount + count <= BUFFER_BITS
      modifies this`bitBuffer, this`bitCount
      ensures Counted() && Written() == old(Written()) + value[..count]
      ensures Valid() <==> Clear(value, count, BUFFER_BITS - old(bitCount))
    {
      hide Staged, Clear;
      StageAny(bitBuffer, bitCount, Extended(value), count);
      ExtendedClear(value, count, BUFFER_BITS - bitCount);
      bitBuffer := OrBits(bitBuffer, ShiftLeft(Extended(value), bitCount));
      bitCount := bitCount + count;
    }

    /**
     * write_bits for a value of |value| bits, of which `count` count. The bits above them are not masked off, and stay
     * behind in the buffer unless they are clear or do not come to lie there.
     */
    method WriteBits(value: Bits, count: nat)
      requires Valid() && count <= |value| <= BUFFER_BITS
      modifies this
      ensures Counted() && Written() == old(Written()) + value[..count]
      ensures Valid() <==> LeavesNothing(old(bitCount), value, count)
    {
      hide Staged, Clear, ShiftRight;
      var rest, left := value, count;
      if bitCount == BUFFER_BITS {
        FlushBufferToStream();
      } else if count >= BUFFER_BITS - bitCount {
        var remaining := BUFFER_BITS - bitCount;
        TopUp(value);
        ShiftedValue(value, count, remaining);
        if remaining != |value| {
          rest := ShiftRight(value, remaining);
        }
        left := count - remaining;
        assert value[..count] == value[..remaining] + value[remaining..count];
      }
      if left == 0 {
        return;
      }
      Put(rest, left);
    }

    /** align_to_byte_boundary: zeros up to the next whole byte. */
    method AlignToByteBoundary()
      requires Valid()
      modifies this
      ensures Valid() && |Written()| % 8 == 0 && |old(Written())| <= |Written()| < |old(Written())| + 8
      ensures Written() == old(Written()) + Zeros(|Written()| - |old(Written())|)
    {
      hide Staged, LeavesNothing;
      var offset := bitCount % 8;
      if offset != 0 {
        ZerosLeaveNothing(bitCount, 8 - offset);
        WriteBits(Zeros(8), 8 - offset);
      }
    }
  }

  lemma StagedParts(buffer: Bits, n: nat)
    requires Staged(buffer, n)
    ensures |buffer| == BUFFER_BITS && n <= BUFFER_BITS
  {
  }

  lemma StagedNone()
    ensures Staged(Zeros(BUFFER_BITS), 0)
  {
  }

  /** A value converted to the type of the buffer. */
  function Extended(value: Bits): (w: Bits)
    requires |value| <= BUFFER_BITS
    ensures |w| == BUFFER_BITS
  {
    value + Zeros(BUFFER_BITS - |value|)
  }

  lemma ExtendedWhole(value: Bits)
    requires |value| <= BUFFER_BITS
    ensures Fits(Extended(value), |value|) && Extended(value)[..|value|] == value
  {
  }

  /** The bits from `count` up to `limit` are clear. */
  predicate Clear(value: Bits, count: nat, limit: nat) {
    forall i :: count <= i < |value| && i < limit ==> !value[i]
  }

  lemma ExtendedClear(value: Bits, count: nat, limit: nat)
    requires count <= |value| <= BUFFER_BITS && limit <= BUFFER_BITS
    ensures Extended(value)[..count] == value[..count]
    ensures Clear(value, count, limit) <==> forall i :: count <= i < limit ==> !Extended(value)[i]
  {
    var w := Extended(value);
    assert w[..count] == value[..count];
    if forall i :: count <= i < limit ==> !w[i] {
      forall i | count <= i < |value| && i < limit ensures !value[i] {
        assert w[i] == value[i];
      }
    }
  }

  /**
   * What makes a write leave nothing behind above the bits it counts: there is nothing to put into the buffer after
   * it was filled up, or the bits that come to lie there are clear.
   */
  predicate LeavesNothing(bitCount: nat, value: Bits, count: nat) {
    || count == 0
    || bitCount + count == BUFFER_BITS
    || Clear(value, count, if bitCount + count < BUFFER_BITS then BUFFER_BITS - bitCount else BUFFER_BITS)
  }

  /** The low bits of the value fill the buffer. */
  lemma WholeBuffer(buffer: Bits, n: nat, value: Bits)
    requires Staged(buffer, n) && n < BUFFER_BITS && BUFFER_BITS - n <= |value| <= BUFFER_BITS
    ensures var after := OrBits(buffer, ShiftLeft(AndBits(Extended(value), LowMask(BUFFER_BITS, BUFFER_BITS - n)), n));
            Staged(after, BUFFER_BITS) && after == buffer[..n] + value[..BUFFER_BITS - n]
  {
    var r := BUFFER_BITS - n;
    var low := AndBits(Extended(value), LowMask(BUFFER_BITS, r));
    Masked(Extended(value), r);
    assert Fits(low, r) && low[..r] == value[..r];
    StageMore(buffer, n, low, r);
    var after := OrBits(buffer, ShiftLeft(low, n));
    assert after[..BUFFER_BITS] == after;
  }

  lemma ZerosLeaveNothing(bitCount: nat, count: nat)
    requires count <= 8
    ensures LeavesNothing(bitCount, Zeros(8), count) && Zeros(8)[..count] == Zeros(count)
  {
  }

  lemma ShiftedValue(value: Bits, count: nat, k: nat)
    requires k <= count <= |value| <= BUFFER_BITS
    ensures ShiftRight(value, k)[..count - k] == value[k..count]
    ensures Clear(ShiftRight(value, k), count - k, BUFFER_BITS) <==> Clear(value, count, BUFFER_BITS)
  {
    var w := ShiftRight(value, k);
    assert forall i :: k <= i < |value| ==> w[i - k] == value[i];
    if Clear(w, count - k, BUFFER_BITS) {
      forall i | count <= i < |value| ensures !value[i] {
        assert !w[i - k];
      }
    }
  }

  /** Two bits set, of which one is written: the other stays behind. */
  method StrayBit() returns (out: Output)
    ensures out.Counted() && out.Written() == [true] && !out.Valid()
  {
    out := new Output();
    assert [true, true][1];
    out.WriteBits([true, true], 1);
  }

  // ----- the reader -----

  datatype Unsatisfiable = Reject | FillWithZero

  /** A read: its result, the reported error, or a loop that asks for no bytes again and again. */
  datatype ReadOutcome<T> = Ok(value: T) | EndOfStream | Endless

  /** How many whole bytes there is room for. */
  function FreeBytes(bitCount: nat): (n: nat)
    requires bitCount <= BUFFER_BITS
    ensures 8 * n <= BUFFER_BITS - bitCount < 8 * n + 8
  {
    (BUFFER_BITS - bitCount) / 8
  }

  /** How many bits whole bytes can bring the buffer to, from `bitCount` on. */
  function Reach(bitCount: nat): (n: nat)
    ensures 57 <= n <= BUFFER_BITS
  {
    if bitCount % 8 == 0 then BUFFER_BITS else 56 + bitCount % 8
  }

  /** Whether a read of `count` bits with `pending` bits left never ends. */
  predicate NeverEnds(bitCount: nat, count: nat, pending: nat) {
    count > Reach(bitCount) && pending > Reach(bitCount)
  }

  class Input {
    /** The bits of the bytes the underlying stream has yet to deliver. */
    var stream: Bits
    var bitBuffer: Bits
    var bitCount: nat
    const behavior: Unsatisfiable

    ghost predicate Valid()
      reads this
    {
      |stream| % 8 == 0 && Staged(bitBuffer, bitCount)
    }

    /** Every bit not read yet. */
    ghost function Pending(): (bits: Bits)
      requires Valid()
      reads this
      ensures |bits| == |stream| + bitCount
    {
      bitBuffer[..bitCount] + stream
    }

    constructor (bits: Bits, behavior: Unsatisfiable)
      requires |bits| % 8 == 0
      ensures Valid() && Pending() == bits && this.behavior == behavior
    {
      stream, bitBuffer, bitCount := bits, Zeros(BUFFER_BITS), 0;
      this.behavior := behavior;
    }

    /** read_some of the underlying stream: any number of bytes, from one to what is asked for and there is. */
    method ReadSome(bytes: nat) returns (read: Bits)
      requires bytes >= 1 && |stream| >= 8 && |stream| % 8 == 0
      modifies this`stream
      ensures 8 <= |read| <= 8 * bytes && |read| % 8 == 0 && read + stream == old(stream)
    {
      var n: nat :| 1 <= n <= bytes && 8 * n <= |stream|;
      read := stream[..8 * n];
      stream := stream[8 * n..];
    }

    /** One round of refill_buffer_from_stream. */
    method Refill()
      requires Valid() && bitCount <= 56 && |stream| > 0
      modifies this
      ensures Valid() && bitCount > old(bitCount) && bitCount % 8 == old(bitCount) % 8 && Pending() == old(Pending())
    {
      hide Staged;
      StagedParts(bitBuffer, bitCount);
      var read := ReadSome(FreeBytes(bitCount));
      ExtendedWhole(read);
      StageMore(bitBuffer, bitCount, Extended(read), |read|);
      WholeBytes(bitCount, |read|);
      bitBuffer := OrBits(bitBuffer, ShiftLeft(Extended(read), bitCount));
      bitCount := bitCount + |read|;
    }

    /** refill_buffer_from_stream: at least the requested bits, or the end of the stream is met. */
    method RefillBufferFromStream(requested: nat) returns (outcome: ReadOutcome<()>)
      requires Valid() && requested <= BUFFER_BITS
      modifies this
      ensures Valid() && (outcome.Endless? <==> NeverEnds(old(bitCount), requested, |old(Pending())|))
      ensures outcome.Ok? ==> (requested <= |old(Pending())| || behavior.FillWithZero?) && bitCount >= requested
      ensures outcome.EndOfStream? ==> requested > |old(Pending())| && behavior.Reject?
      ensures requested <= |old(Pending())| || !outcome.Ok? ==> Pending() == old(Pending())
      ensures requested > |old(Pending())| && outcome.Ok? ==>
                Pending() == old(Pending()) + Zeros(requested - |old(Pending())|)
    {
      hide Staged;
      StagedParts(bitBuffer, bitCount);
      while requested > bitCount
        invariant Valid() && Pending() == old(Pending()) && bitCount <= BUFFER_BITS
        invariant bitCount % 8 == old(bitCount) % 8 && Reach(bitCount) == Reach(old(bitCount))
        decreases requested - bitCount
      {
        if |stream| == 0 {
          if behavior == FillWithZero {
            FilledWithZero(bitBuffer, bitCount, requested);
            bitCount := requested;
            return Ok(());
          }
          return EndOfStream;
        }
        if FreeBytes(bitCount) == 0 {
          return Endless;
        }
        Refill();
        StagedParts(bitBuffer, bitCount);
      }
      return Ok(());
    }

    /** peek_bits for a 64-bit result. */
    method PeekBits(count: nat) returns (result: ReadOutcome<Bits>)
      requires Valid() && count <= BUFFER_BITS
      modifies this
      ensures Valid() && (result.Endless? <==> NeverEnds(old(bitCount), count, |old(Pending())|))
      ensures result.Ok? ==> count <= |old(Pending())| || behavior.FillWithZero?
      ensures result.EndOfStream? ==> count > |old(Pending())| && behavior.Reject?
      ensures count <= |old(Pending())| || !result.Ok? ==> Pending() == old(Pending())
      ensures count > |old(Pending())| && result.Ok? ==> Pending() == old(Pending()) + Zeros(count - |old(Pending())|)
      ensures result.Ok? ==> bitCount >= count && result.value == Extended(Pending()[..count])
    {
      hide Staged;
      StagedParts(bitBuffer, bitCount);
      if count > bitCount {
        var refilled := RefillBufferFromStream(count);
        if refilled.EndOfStream? {
          return EndOfStream;
        }
        if refilled.Endless? {
          return Endless;
        }
      }
      StagedParts(bitBuffer, bitCount);
      Masked(bitBuffer, count);
      result := Ok(AndBits(bitBuffer, LowMask(BUFFER_BITS, Min(count, bitCount))));
      assert bitBuffer[..count] == Pending()[..count];
    }

    method DiscardPreviouslyPeekedBits(count: nat)
      requires Valid()
      modifies this`bitBuffer, this`bitCount
      ensures Valid() && bitCount == old(bitCount) - Min(count, old(bitCount))
              && Pending() == old(Pending())[Min(count, old(bitCount))..]
    {
      hide Staged;
      StagedParts(bitBuffer, bitCount);
      var n := if count > bitCount then bitCount else count;
      Unstage(bitBuffer, bitCount, n);
      bitBuffer := ShiftRight(bitBuffer, n);
      bitCount := bitCount - n;
    }

    /** read_bits: the next bits, with zeros after the end if the reader fills in. */
    method ReadBits(count: nat) returns (result: ReadOutcome<Bits>)
      requires Valid() && count <= BUFFER_BITS
      modifies this
      ensures Valid() && (result.Endless? <==> NeverEnds(old(bitCount), count, |old(Pending())|))
      ensures !result.Endless? ==> (result.Ok? <==> count <= |old(Pending())| || behavior.FillWithZero?)
      ensures !result.Ok? ==> Pending() == old(Pending())
      ensures count <= |old(Pending())| && !result.Endless? ==>
                result == Ok(Extended(old(Pending())[..count])) && Pending() == old(Pending())[count..]
      ensures count > |old(Pending())| && result.Ok? ==> result.value == Extended(old(Pending())) && Pending() == []
    {
      result := PeekBits(count);
      if result.Ok? {
        if count > |old(Pending())| {
          assert Extended(Pending()[..count]) == Extended(old(Pending()));
        }
        DiscardPreviouslyPeekedBits(count);
      }
    }

    /** align_to_byte_boundary: drops, and returns, the bits up to the next byte boundary of the source. */
    method AlignToByteBoundary() returns (remaining: Bits)
      requires Valid()
      modifies this
      ensures Valid() && |Pending()| % 8 == 0 && |old(Pending())| - |Pending()| == |remaining| < 8
      ensures old(Pending()) == remaining + Pending()
    {
      hide Staged;
      StagedParts(bitBuffer, bitCount);
      var offset := bitCount % 8;
      remaining := bitBuffer[..offset];
      if offset != 0 {
        DiscardPreviouslyPeekedBits(offset);
      }
    }
  }

  lemma WholeBytes(n: nat, m: nat)
    requires m % 8 == 0
    ensures (n + m) % 8 == n % 8
  {
  }

  lemma FilledWithZero(buffer: Bits, n: nat, m: nat)
    requires Staged(buffer, n) && n <= m <= BUFFER_BITS
    ensures Staged(buffer, m) && buffer[..m] == buffer[..n] + Zeros(m - n)
  {
    assert buffer[m..] == buffer[n..][m - n..];
    assert buffer[n..m] == buffer[n..][..m - n];
    assert buffer[..m] == buffer[..n] + buffer[n..m];
  }

  /** 64 bits after a single one: no whole byte fits the buffer any more, and 63 bits are not enough. */
  method EndlessRead(bits: Bits) returns (result: ReadOutcome<Bits>)
    requires |bits| % 8 == 0 && |bits| >= 72
    ensures result.Endless?
  {
    var reader := new Input(bits, Reject);
    result := reader.ReadBits(1);
    result := reader.ReadBits(64);
  }

  // ----- the round trip -----

  /** A number and how many bits it takes; after it the writer may be flushed. */
  datatype Item = Item(value: nat, count: nat, flush: bool)

  ghost predicate Writable(items: seq<Item>) {
    forall i :: 0 <= i < |items| ==> items[i].count <= BUFFER_BITS && items[i].value < Pow(2, items[i].count)
  }

  ghost function BitsOf(items: seq<Item>): (bits: Bits) {
    if items == [] then [] else ToBits(items[0].value, items[0].count) + BitsOf(items[1..])
  }

  lemma {:induction false} BitsOfNext(items: seq<Item>, i: nat)
    requires i < |items|
    ensures BitsOf(items[..i + 1]) == BitsOf(items[..i]) + ToBits(items[i].value, items[i].count)
    ensures BitsOf(items[i..]) == ToBits(items[i].value, items[i].count) + BitsOf(items[i + 1..])
  {
    assert items[i..][1..] == items[i + 1..];
    if i == 0 {
      assert items[..1] == [items[0]] && items[..0] == [];
    } else {
      BitsOfNext(items[1..], i - 1);
      assert items[..i + 1][1..] == items[1..][..i] && items[..i][1..] == items[1..][..i - 1];
    }
  }

  /** A number that fits its width, as the writer is given it and as the reader returns it. */
  lemma ItemBits(value: nat, count: nat)
    requires count <= BUFFER_BITS && value < Pow(2, count)
    ensures Fits(ToBits(value, BUFFER_BITS), count) && ToBits(value, BUFFER_BITS)[..count] == ToBits(value, count)
    ensures Number(Extended(ToBits(value, count))) == value
  {
    SmallFits(value, count, BUFFER_BITS);
    NumberPadded(ToBits(value, count), BUFFER_BITS - count);
    NumberOfBits(value, count);
    assert ToBits(value, BUFFER_BITS)[count..] == Zeros(BUFFER_BITS - count);
  }

  /** The numbers side by side in one, the first lowest. */
  ghost function Packed(items: seq<Item>): (v: nat) {
    if items == [] then 0 else items[0].value + Pow(2, items[0].count) * Packed(items[1..])
  }

  lemma {:induction false} PackedBits(items: seq<Item>)
    requires Writable(items)
    ensures Number(BitsOf(items)) == Packed(items)
  {
    hide Number, ToBits, Pow;
    if items == [] {
      NumberOfNone();
    } else {
      PackedBits(items[1..]);
      NumberOfBits(items[0].value, items[0].count);
      NumberConcat(ToBits(items[0].value, items[0].count), BitsOf(items[1..]));
    }
  }

  lemma NumberOfNone()
    ensures Number([]) == 0
  {
  }

  /** The last byte is filled with zeros, and everything goes out. */
  method Finish(out: Output) returns (stream: Bits)
    requires out.Valid()
    modifies out
    ensures |stream| % 8 == 0 && |old(out.Written())| <= |stream| < |old(out.Written())| + 8
    ensures stream == old(out.Written()) + Zeros(|stream| - |old(out.Written())|)
  {
    hide Staged;
    out.AlignToByteBoundary();
    out.FlushBufferToStream();
    stream := out.stream;
    assert stream == out.Written();
  }

  /** Writes all numbers, with a flush wherever an item asks for one, and finishes the last byte. */
  method WriteAll(items: seq<Item>) returns (stream: Bits)
    requires Writable(items)
    ensures |stream| % 8 == 0 && Width(items) <= |stream| < Width(items) + 8 && Number(stream) == Packed(items)
    ensures |BitsOf(items)| <= |stream| && stream[..|BitsOf(items)|] == BitsOf(items)
  {
    hide Staged, ToBits, Fits, BitsOf, Pow, Number, Packed;
    WidthIsLength(items);
    PackedBits(items);
    var out := new Output();
    assert items[..0] == [];
    BitsOfNone();
    for i := 0 to |items|
      invariant out.Valid() && out.Written() == BitsOf(items[..i])
    {
      ItemBits(items[i].value, items[i].count);
      BitsOfNext(items, i);
      out.WriteBits(ToBits(items[i].value, BUFFER_BITS), items[i].count);
      if items[i].flush {
        out.FlushBufferToStream();
      }
    }
    assert items[..|items|] == items;
    stream := Finish(out);
    NumberPadded(BitsOf(items), |stream| - |BitsOf(items)|);
  }

  lemma Leading(bits: Bits, rest: Bits, padding: Bits)
    ensures (bits + rest + padding)[..|bits|] == bits && (bits + rest + padding)[|bits|..] == rest + padding
  {
  }

  lemma BitsOfNone()
    ensures BitsOf([]) == []
  {
  }

  /** How many bits the items take. */
  function Width(items: seq<Item>): (n: nat) {
    if items == [] then 0 else items[0].count + Width(items[1..])
  }

  lemma {:induction false} WidthIsLength(items: seq<Item>)
    ensures |BitsOf(items)| == Width(items)
  {
    if items != [] {
      WidthIsLength(items[1..]);
    }
  }

  /** No item reaches beyond the eight bytes from the one that it starts in. */
  predicate Readable(items: seq<Item>) {
    forall i :: 0 <= i < |items| ==> Width(items[..i]) % 8 + items[i].count <= BUFFER_BITS
  }

  /** Where in its byte an item starts decides how many bits a reader can collect for it. */
  lemma ReachAt(bitCount: nat, consumed: nat, count: nat, pending: nat)
    requires (bitCount + consumed) % 8 == 0 && count <= pending
    ensures NeverEnds(bitCount, count, pending) <==> consumed % 8 + count > BUFFER_BITS
  {
  }

  /** One item read back. */
  method ReadItem(reader: Input, item: Item, ghost consumed: nat, ghost rest: Bits) returns (value: Option<nat>)
    requires reader.Valid() && item.count <= BUFFER_BITS && item.value < Pow(2, item.count)
    requires reader.Pending() == ToBits(item.value, item.count) + rest && (|reader.Pending()| + consumed) % 8 == 0
    modifies reader
    ensures reader.Valid() && (value.Some? <==> consumed % 8 + item.count <= BUFFER_BITS)
    ensures value.Some? ==> value.value == item.value && reader.Pending() == rest
  {
    hide Staged, ToBits, Fits, Pow, Extended, Number;
    ItemBits(item.value, item.count);
    SameOffset(reader, consumed);
    ReachAt(reader.bitCount, consumed, item.count, |reader.Pending()|);
    var result := reader.ReadBits(item.count);
    if result.Endless? {
      return None;
    }
    value := Some(Number(result.value));
  }

  lemma SameOffset(reader: Input, consumed: nat)
    requires reader.Valid() && (|reader.Pending()| + consumed) % 8 == 0
    ensures (reader.bitCount + consumed) % 8 == 0
  {
  }

  /**
   * What was written is read back, whatever short reads the source of the reader makes; a reader never ends exactly if
   * some item reaches beyond eight bytes.
   */
  method RoundTrip(items: seq<Item>, behavior: Unsatisfiable) returns (values: Option<seq<nat>>)
    requires Writable(items)
    ensures values.Some? <==> Readable(items)
    ensures values.Some? ==> values.value == seq(|items|, i requires 0 <= i < |items| => items[i].value)
  {
    hide Staged, ToBits, Fits, BitsOf, Pow, Extended, Number, Width;
    var stream := WriteAll(items);
    var reader := new Input(stream, behavior);
    var found: seq<nat> := [];
    ghost var padding := stream[|BitsOf(items)|..];
    assert items[0..] == items && items[..0] == [];
    WidthIsLength(items[..0]);
    BitsOfNone();
    for i := 0 to |items|
      invariant reader.Valid() && reader.Pending() == BitsOf(items[i..]) + padding
      invariant (|reader.Pending()| + Width(items[..i])) % 8 == 0
      invariant |found| == i && (forall k :: 0 <= k < i ==> found[k] == items[k].value)
      invariant forall k :: 0 <= k < i ==> Width(items[..k]) % 8 + items[k].count <= BUFFER_BITS
    {
      BitsOfNext(items, i);
      WidthNext(items, i);
      Leading(ToBits(items[i].value, items[i].count), BitsOf(items[i + 1..]), padding);
      var value := ReadItem(reader, items[i], Width(items[..i]), BitsOf(items[i + 1..]) + padding);
      if value.None? {
        return None;
      }
      found := found + [value.value];
    }
    values := Some(found);
  }

  lemma WidthNext(items: seq<Item>, i: nat)
    requires i < |items|
    ensures Width(items[..i + 1]) == Width(items[..i]) + items[i].count
  {
    hide BitsOf, Width;
    BitsOfNext(items, i);
    WidthIsLength(items[..i]);
    WidthIsLength(items[..i + 1]);
  }
}
