/** The bit-granular buffer of Common/RakNet/BitStream.cpp. BitSize_t is a 32-bit unsigned integer;
    the only places where it can wrap are the size computations of AddBitsAndReallocate. */
module Streams {
  import opened Bits
  import opened Compression
  import opened Words

  const STACK_BYTES: nat := 256
  const GROWTH_CAP: nat := 1048576
  // The largest number of bits a growing stream can hold: see GrowthSuffices
  const MAX_BITS: nat := TWO32 - GROWTH_CAP - 8

  lemma Limit()
    ensures MAX_BITS == 4_293_918_712
  {}

  /** The growth test; capacity - 1 wraps when capacity is 0. */
  predicate NeedsGrowth(capacity: nat, total: nat) {
    total > 0 && U32(capacity - 1) / 8 < U32(total - 1) / 8
  }

  /** The new allocation in bits: twice the need, or a megabit above it. */
  function GrownBits(total: nat): nat {
    var doubled := U32(total * 2);
    if U32(doubled - total) > GROWTH_CAP then U32(total + GROWTH_CAP) else doubled
  }

  function BytesFor32(bits: nat): nat { U32(bits + 7) / 8 }

  /** Growing to hold total bits succeeds exactly up to MAX_BITS: above it the 32-bit sizes wrap. */
  lemma GrowthSuffices(total: nat)
    requires 0 < total < TWO32
    ensures total <= 8 * BytesFor32(GrownBits(total)) <==> total <= MAX_BITS
    ensures total <= MAX_BITS ==>
              BytesFor32(GrownBits(total)) == BytesFor(GrownBits(total)) && GrownBits(total) >= total
  {
    if total < TWO32 / 2 {
      assert U32(total * 2) == 2 * total;
    } else {
      assert U32(total * 2) == 2 * total - TWO32;
      assert U32(total * 2 - TWO32 - total) == total;
    }
  }

  /** When no growth is asked for, the bytes already there suffice, except for a stream that owns none:
      its capacity is never seen as too small. */
  lemma NoGrowthSuffices(capacity: nat, total: nat)
    requires capacity < TWO32 && 0 < total < TWO32 && !NeedsGrowth(capacity, total)
    ensures total <= 8 * BytesFor(capacity) <==> capacity > 0
  {}

  /** Growth doubles what is asked for, or adds a megabit if that is less, and is asked for whenever the bytes in use do
      not suffice. */
  lemma GrowthIs(capacity: nat, total: nat)
    requires capacity < TWO32 && 0 < total <= MAX_BITS
    ensures GrownBits(total) == if total <= 1048576 then 2 * total else total + 1048576
    ensures NeedsGrowth(capacity, total) <==> capacity > 0 && (capacity + 7) / 8 < (total + 7) / 8
  {
    if total < TWO32 / 2 {
      assert U32(total * 2) == 2 * total;
    } else {
      assert U32(total * 2) == 2 * total - TWO32;
      assert U32(total * 2 - TWO32 - total) == total;
    }
    if capacity > 0 {
      assert U32(capacity - 1) == capacity - 1 && U32(total - 1) == total - 1;
    }
  }

  lemma GrownFits(total: nat)
    requires 0 < total <= MAX_BITS
    ensures GrownBits(total) < TWO32
  {}

  lemma BytesGrow(capacity: nat, total: nat)
    requires capacity < TWO32 && 0 < total < TWO32 && NeedsGrowth(capacity, total)
    ensures 0 < capacity && BytesFor(capacity) < BytesFor(total)
  {
    if capacity > 0 {
      assert U32(capacity - 1) == capacity - 1 && U32(total - 1) == total - 1;
    }
  }

  /** How many bits a stream with that many allocated can come to hold. It grows only if the buffer is its own, and not
      at all if it has none. */
  function MostBitsOf(capacity: nat, owned: bool): (bits: nat)
    ensures bits < TWO32
  {
    if capacity == 0 then 0
    else
      var held := if 8 * BytesFor(capacity) < TWO32 then 8 * BytesFor(capacity) else TWO32 - 1;
      if owned && held < MAX_BITS then MAX_BITS else held
  }

  /** The bits asked for fit exactly when the growth step, where it is taken, is allowed and gives a large enough
      buffer,
      and where it is not taken, the buffer is large enough already. */
  lemma MostBitsExactly(capacity: nat, owned: bool, total: nat)
    requires capacity < TWO32 && 0 < total < TWO32
    ensures total <= MostBitsOf(capacity, owned) <==>
            if NeedsGrowth(capacity, total) then owned && total <= 8 * BytesFor32(GrownBits(total))
            else total <= 8 * BytesFor(capacity)
  {
    hide NeedsGrowth, GrownBits, BytesFor32;
    if NeedsGrowth(capacity, total) {
      GrowthSuffices(total);
      BytesGrow(capacity, total);
    } else {
      NoGrowthSuffices(capacity, total);
    }
  }

  /** What AddBitsAndReallocate relies on: the buffer it ends with covers the bits asked for and keeps the old bytes. */
  lemma GrowthPlan(capacity: nat, owned: bool, total: nat)
    requires capacity < TWO32 && total <= MostBitsOf(capacity, owned)
    ensures NeedsGrowth(capacity, total) ==>
              && owned && GrownBits(total) < TWO32 && BytesFor32(GrownBits(total)) == BytesFor(GrownBits(total))
              && BytesFor(total) <= BytesFor(GrownBits(total)) && BytesFor(capacity) < BytesFor(GrownBits(total))
    ensures !NeedsGrowth(capacity, total) ==> BytesFor(total) <= BytesFor(capacity)
  {
    hide GrownBits, NeedsGrowth;
    if total > 0 {
      MostBitsExactly(capacity, owned, total);
      if NeedsGrowth(capacity, total) {
        GrowthSuffices(total);
        GrownFits(total);
        BytesGrow(capacity, total);
      }
    } else {
      NothingNeeded(capacity);
    }
  }

  lemma GrowthSize(capacity: nat, total: nat)
    requires capacity < TWO32
    ensures total <= MAX_BITS && NeedsGrowth(capacity, total) ==>
              && GrownBits(total) == (if total <= 1048576 then 2 * total else total + 1048576)
              && GrownBits(total) > capacity
    ensures total <= MAX_BITS ==>
              (NeedsGrowth(capacity, total) <==> capacity > 0 && (capacity + 7) / 8 < (total + 7) / 8)
  {
    hide GrownBits, NeedsGrowth;
    if 0 < total <= MAX_BITS {
      GrowthIs(capacity, total);
    } else {
      NothingNeeded(capacity);
    }
  }

  lemma NothingNeeded(capacity: nat)
    ensures !NeedsGrowth(capacity, 0)
  {}

  lemma MostBitsGrow(capacity: nat, larger: nat, owned: bool)
    requires BytesFor(capacity) <= BytesFor(larger)
    ensures MostBitsOf(capacity, owned) <= MostBitsOf(larger, owned)
  {}

  class BitStream {
    var data: array<byte>
    var numberOfBitsUsed: nat
    var numberOfBitsAllocated: nat
    var readOffset: nat
    var copyData: bool

    ghost predicate Valid()
      reads this`data, this`numberOfBitsUsed, this`numberOfBitsAllocated, data
    {
      && BytesFor(numberOfBitsUsed) <= BytesFor(numberOfBitsAllocated) <= data.Length
      && numberOfBitsAllocated < TWO32
    }

    /** The largest number of bits this stream can come to hold. */
    ghost function MostBits(): nat
      reads this`numberOfBitsAllocated, this`copyData
    {
      MostBitsOf(numberOfBitsAllocated, copyData)
    }

    ghost function Bits(): (bits: seq<bool>)
      reads this`data, this`numberOfBitsUsed, this`numberOfBitsAllocated, data
      requires Valid()
      ensures |bits| == numberOfBitsUsed
    {
      BitsOf(data[..], numberOfBitsUsed)
    }

    /** The unused bits of the last byte are zero, as every write assumes that starts inside a byte. */
    ghost predicate Clean()
      reads this`data, this`numberOfBitsUsed, this`numberOfBitsAllocated, data
      requires Valid()
    {
      CleanAfter(data[..], numberOfBitsUsed)
    }

    /** At a byte boundary there is no unused bit. */
    lemma AlignedIsClean()
      requires Valid() && numberOfBitsUsed % 8 == 0
      ensures Clean()
    {}

    constructor ()
      ensures Valid() && Clean() && fresh(data)
      ensures Bits() == [] && readOffset == 0 && copyData && MostBits() == MAX_BITS
      ensures numberOfBitsAllocated == 8 * STACK_BYTES
    {
      numberOfBitsUsed := 0;
      numberOfBitsAllocated := STACK_BYTES * 8;
      readOffset := 0;
      data := new byte[STACK_BYTES];
      copyData := true;
    }

    /** The stream over the first bytes of a caller's buffer, which is not copied. */
    constructor Over(buffer: array<byte>, lengthInBytes: nat)
      requires lengthInBytes <= buffer.Length && 8 * lengthInBytes < TWO32
      ensures Valid() && Clean() && data == buffer
      ensures numberOfBitsUsed == 8 * lengthInBytes && Bits() == BitsOf(buffer[..], 8 * lengthInBytes)
      ensures readOffset == 0 && !copyData && numberOfBitsAllocated == 8 * lengthInBytes
    {
      numberOfBitsUsed := 8 * lengthInBytes;
      numberOfBitsAllocated := 8 * lengthInBytes;
      readOffset := 0;
      copyData := false;
      data := buffer;
    }

    method Reset()
      requires Valid()
      modifies this`numberOfBitsUsed, this`readOffset
      ensures Valid() && Clean() && Bits() == [] && readOffset == 0
    {
      numberOfBitsUsed := 0;
      readOffset := 0;
    }

    method AddBitsAndReallocate(n: nat)
      requires Valid() && numberOfBitsUsed + n <= MostBits()
      modifies this`data, this`numberOfBitsAllocated
      ensures Valid() && Bits() == old(Bits()) && (old(Clean()) ==> Clean()) && MostBits() >= old(MostBits())
      ensures BytesFor(numberOfBitsUsed + n) <= BytesFor(numberOfBitsAllocated)
      ensures data == old(data) || fresh(data)
      ensures BytesFor(old(numberOfBitsAllocated)) <= BytesFor(numberOfBitsAllocated)
      ensures data[..BytesFor(old(numberOfBitsAllocated))] == old(data[..BytesFor(numberOfBitsAllocated)])
      ensures var total, before := numberOfBitsUsed + n, old(numberOfBitsAllocated);
              total <= MAX_BITS ==>
                numberOfBitsAllocated ==
                  if before > 0 && (before + 7) / 8 < (total + 7) / 8
                  then if total <= 1048576 then 2 * total else total + 1048576
                  else if total > before then total else before
    {
      hide BitsOf, CleanAfter, NeedsGrowth, GrownBits, BytesFor32, MostBitsOf;
      var total := numberOfBitsUsed + n;
      GrowthSize(numberOfBitsAllocated, total);
      var newNumberOfBitsAllocated := total;
      GrowthPlan(numberOfBitsAllocated, copyData, total);
      if NeedsGrowth(numberOfBitsAllocated, total) {
        newNumberOfBitsAllocated := GrownBits(total);
        ghost var before := data[..];
        Reallocate(BytesFor32(newNumberOfBitsAllocated));
        SamePrefix(before, data[..], numberOfBitsUsed);
      }
      if newNumberOfBitsAllocated > numberOfBitsAllocated {
        MostBitsGrow(numberOfBitsAllocated, newNumberOfBitsAllocated, copyData);
        numberOfBitsAllocated := newNumberOfBitsAllocated;
      }
    }

    /** Moves the allocated bytes to a larger buffer. */
    method Reallocate(amountToAllocate: nat)
      requires BytesFor(numberOfBitsUsed) <= BytesFor(numberOfBitsAllocated) <= data.Length
      requires BytesFor(numberOfBitsAllocated) <= amountToAllocate
      modifies this`data
      ensures fresh(data) && data.Length == amountToAllocate
      ensures data[..BytesFor(numberOfBitsAllocated)] == old(data[..BytesFor(numberOfBitsAllocated)])
      ensures data[..][..BytesFor(numberOfBitsUsed)] == old(data[..])[..BytesFor(numberOfBitsUsed)]
    {
      var grown := new byte[amountToAllocate];
      var keep := BytesFor(numberOfBitsAllocated);
      forall i | 0 <= i < keep {
        grown[i] := data[i];
      }
      assert grown[..keep] == data[..keep];
      assert grown[..][..BytesFor(numberOfBitsUsed)] == grown[..keep][..BytesFor(numberOfBitsUsed)];
      data := grown;
    }

    method Write0()
      requires Valid() && Clean() && numberOfBitsUsed + 1 <= MostBits()
      modifies this`data, this`numberOfBitsAllocated, this`numberOfBitsUsed, data
      ensures Valid() && Clean() && Bits() == old(Bits()) + [false]
      ensures (data == old(data) || fresh(data)) && MostBits() >= old(MostBits())
    {
      hide BitOf, PutByte, MostBitsOf;
      AddBitsAndReallocate(1);
      ghost var before := data[..];
      if numberOfBitsUsed % 8 == 0 {
        data[numberOfBitsUsed / 8] := 0;
      }
      BitOfZero(0);
      StoreBit(before, numberOfBitsUsed, false);
      assert data[..] == WithBit(before, numberOfBitsUsed, false);
      numberOfBitsUsed := numberOfBitsUsed + 1;
    }

    method Write1()
      requires Valid() && Clean() && numberOfBitsUsed + 1 <= MostBits()
      modifies this`data, this`numberOfBitsAllocated, this`numberOfBitsUsed, data
      ensures Valid() && Clean() && Bits() == old(Bits()) + [true]
      ensures (data == old(data) || fresh(data)) && MostBits() >= old(MostBits())
    {
      hide BitsOf, CleanAfter, Mask, MostBitsOf;
      AddBitsAndReallocate(1);
      ghost var before := data[..];
      var numberOfBitsMod8 := numberOfBitsUsed % 8;
      if numberOfBitsMod8 == 0 {
        data[numberOfBitsUsed / 8] := 0x80;
      } else {
        data[numberOfBitsUsed / 8] := data[numberOfBitsUsed / 8] | Mask(numberOfBitsMod8);
      }
      StoreBit(before, numberOfBitsUsed, true);
      assert data[..] == WithBit(before, numberOfBitsUsed, true);
      numberOfBitsUsed := numberOfBitsUsed + 1;
    }

    /** The bool form of Write. */
    method WriteBool(b: bool)
      requires Valid() && Clean() && numberOfBitsUsed + 1 <= MostBits()
      modifies this`data, this`numberOfBitsAllocated, this`numberOfBitsUsed, data
      ensures Valid() && Clean() && Bits() == old(Bits()) + [b]
      ensures (data == old(data) || fresh(data)) && MostBits() >= old(MostBits())
    {
      if b {
        Write1();
      } else {
        Write0();
      }
    }

    /** Reads a bit without looking at numberOfBitsUsed, as the source does. */
    method ReadBit() returns (result: bool)
      requires Valid() && readOffset < 8 * data.Length
      modifies this`readOffset
      ensures Valid() && readOffset == old(readOffset) + 1
      ensures result == BitAt(data[..], old(readOffset))
      ensures old(readOffset) < numberOfBitsUsed ==> result == Bits()[old(readOffset)]
    {
      result := data[readOffset / 8] & Mask(readOffset % 8) != 0;
      readOffset := readOffset + 1;
    }

    /** The bool form of Read: fails at the end of the stream. */
    method ReadBool() returns (ok: bool, b: bool)
      requires Valid()
      modifies this`readOffset
      ensures Valid() && ok == (old(readOffset) < numberOfBitsUsed)
      ensures ok ==> readOffset == old(readOffset) + 1 && b == Bits()[old(readOffset)]
      ensures !ok ==> readOffset == old(readOffset)
    {
      if readOffset + 1 > numberOfBitsUsed {
        return false, false;
      }
      b := data[readOffset / 8] & Mask(readOffset % 8) != 0;
      readOffset := readOffset + 1;
      ok := true;
    }

    /** Appends the payload of input. The byte-copy path and the shifting path promise the same. */
    method WriteBits(input: seq<byte>, numberOfBitsToWrite: nat, rightAlignedBits: bool)
      requires Valid() && Clean() && numberOfBitsUsed + numberOfBitsToWrite <= MostBits()
      requires numberOfBitsToWrite <= 8 * |input|
      modifies this`data, this`numberOfBitsAllocated, this`numberOfBitsUsed, data
      ensures Valid() && Bits() == old(Bits()) + Payload(input, numberOfBitsToWrite, rightAlignedBits)
      ensures rightAlignedBits || CleanAfter(input, numberOfBitsToWrite) ==> Clean()
      ensures (data == old(data) || fresh(data)) && MostBits() >= old(MostBits())
      ensures BytesFor(old(numberOfBitsAllocated)) <= BytesFor(numberOfBitsAllocated)
      ensures forall j :: BytesFor(numberOfBitsUsed) <= j < BytesFor(old(numberOfBitsAllocated)) ==>
                            data[j] == old(data[j])
    {
      hide BitsOf, CleanAfter, Payload, MostBitsOf;
      AddBitsAndReallocate(numberOfBitsToWrite);
      ghost var grown, kept := data[..], BytesFor(old(numberOfBitsAllocated));
      if numberOfBitsUsed % 8 == 0 && numberOfBitsToWrite % 8 == 0 {
        AlignedIn(input, numberOfBitsToWrite, rightAlignedBits);
      } else {
        ShiftIn(input, numberOfBitsToWrite, rightAlignedBits);
      }
      TailKept(old(data[..]), grown, data[..], BytesFor(numberOfBitsUsed), kept);
    }

    /** The byte-copy path of WriteBits. */
    method AlignedIn(input: seq<byte>, n: nat, rightAlignedBits: bool)
      requires Valid() && numberOfBitsUsed % 8 == 0 && n % 8 == 0
      requires BytesFor(numberOfBitsUsed + n) <= BytesFor(numberOfBitsAllocated) && n <= 8 * |input|
      modifies this`numberOfBitsUsed, data
      ensures Valid() && Clean() && Bits() == old(Bits()) + Payload(input, n, rightAlignedBits)
      ensures numberOfBitsUsed == old(numberOfBitsUsed) + n
      ensures data[BytesFor(numberOfBitsUsed)..] == old(data[..])[BytesFor(numberOfBitsUsed)..]
    {
      hide BitsOf, CleanAfter, Payload, MostBitsOf;
      ghost var before := data[..];
      var p, count := numberOfBitsUsed / 8, n / 8;
      CopyIn(p, input[..count]);
      CopiedBytes(before, data[..], p, input, count, rightAlignedBits);
      numberOfBitsUsed := numberOfBitsUsed + n;
    }

    /** The shifting loop of WriteBits, once the capacity is there. */
    method ShiftIn(input: seq<byte>, n: nat, rightAlignedBits: bool)
      requires n <= 8 * |input| && numberOfBitsUsed + n <= 8 * data.Length && CleanAfter(data[..], numberOfBitsUsed)
      modifies this`numberOfBitsUsed, data
      ensures numberOfBitsUsed == old(numberOfBitsUsed) + n
      ensures BitsOf(data[..], numberOfBitsUsed) == old(BitsOf(data[..], numberOfBitsUsed))
              + Payload(input, n, rightAlignedBits)
      ensures rightAlignedBits || CleanAfter(input, n) ==> CleanAfter(data[..], numberOfBitsUsed)
      ensures data[BytesFor(numberOfBitsUsed)..] == old(data[..])[BytesFor(numberOfBitsUsed)..]
    {
      hide BitsOf, CleanAfter, Payload, Written, MostBitsOf;
      ghost var start, before := numberOfBitsUsed, data[..];
      WrittenNothing(before, start, input, n, rightAlignedBits);
      var mod8 := numberOfBitsUsed % 8;
      var remaining: nat, next: nat := n, 0;
      while remaining > 0
        invariant numberOfBitsUsed + remaining == start + n
        invariant remaining > 0 ==> remaining + 8 * next == n && numberOfBitsUsed % 8 == mod8
        invariant Written(before, data[..], start, input, n, rightAlignedBits, n - remaining)
      {
        remaining := ShiftRound(before, start, input, n, rightAlignedBits, next, mod8, remaining);
        next := next + 1;
      }
      WrittenAll(before, data[..], start, input, n, rightAlignedBits);
    }

    /** One round of ShiftIn. */
    method ShiftRound(ghost before: seq<byte>, ghost start: nat, input: seq<byte>, n: nat, rightAlignedBits: bool,
                      next: nat, mod8: nat, remaining: nat)
      returns (left: nat)
      requires 0 < remaining && 8 * next + remaining == n <= 8 * |input| && mod8 == numberOfBitsUsed % 8
      requires numberOfBitsUsed == start + 8 * next && start + n <= 8 * data.Length && |before| == data.Length
      requires Written(before, data[..], start, input, n, rightAlignedBits, 8 * next)
      modifies this`numberOfBitsUsed, data
      ensures left == if remaining >= 8 then remaining - 8 else 0
      ensures numberOfBitsUsed + left == start + n
      ensures left > 0 ==> left + 8 * (next + 1) == n && numberOfBitsUsed % 8 == mod8
      ensures Written(before, data[..], start, input, n, rightAlignedBits, n - left)
    {
      hide BitOf, BitsOf, CleanAfter, Payload, PutByte, RoundByte, Written, MostBitsOf;
      ghost var now := data[..];
      StoreRound(input, n, rightAlignedBits, next, mod8, remaining);
      WrittenRound(before, now, start, input, n, rightAlignedBits, next);
      if remaining >= 8 {
        numberOfBitsUsed := numberOfBitsUsed + 8;
        left := remaining - 8;
      } else {
        numberOfBitsUsed := numberOfBitsUsed + remaining;
        left := 0;
      }
    }

    /** memcpy into the buffer. */
    method CopyIn(p: nat, bytes: seq<byte>)
      requires p + |bytes| <= data.Length
      modifies data
      ensures forall j :: 0 <= j < data.Length ==> data[j] == if p <= j < p + |bytes| then bytes[j - p]
              else old(data[j])
    {
      forall i | 0 <= i < |bytes| {
        data[p + i] := bytes[i];
      }
    }

    /** One round of WriteBits: takes the next byte and stores it in one byte of the buffer, or in two
        when it straddles a byte boundary. */
    method StoreRound(input: seq<byte>, n: nat, rightAlignedBits: bool, next: nat, mod8: nat, remaining: nat)
      requires 0 < remaining && 8 * next + remaining == n <= 8 * |input|
      requires mod8 == numberOfBitsUsed % 8 && numberOfBitsUsed + remaining <= 8 * data.Length
      modifies data
      ensures data[..] == PutByte(old(data[..]), numberOfBitsUsed, RoundByte(input, n, rightAlignedBits, next),
                                  if remaining < 8 then remaining else 8)
    {
      hide Shr, Shl, PutByte, MostBitsOf;
      var dataByte := input[next];
      if remaining < 8 && rightAlignedBits {
        dataByte := Shl(dataByte, 8 - remaining);
      }
      StoreByte(dataByte, mod8, remaining);
    }

    method StoreByte(dataByte: byte, mod8: nat, remaining: nat)
      requires 0 < remaining && mod8 == numberOfBitsUsed % 8 && numberOfBitsUsed + remaining <= 8 * data.Length
      modifies data
      ensures data[..] == PutByte(old(data[..]), numberOfBitsUsed, dataByte, if remaining < 8 then remaining else 8)
    {
      hide Shr, Shl, MostBitsOf;
      var p := numberOfBitsUsed / 8;
      if mod8 == 0 {
        data[p] := dataByte;
      } else {
        data[p] := data[p] | Shr(dataByte, mod8);
        if 8 - mod8 < 8 && 8 - mod8 < remaining {
          data[p + 1] := Shl(dataByte, 8 - mod8);
        }
      }
    }

    /** Reads n bits into out at position at. Both paths deliver the same; alignBitsToRight moves a final
        partial byte to its right end. */
    method ReadBits(out: array<byte>, at: nat, numberOfBitsToRead: nat, alignBitsToRight: bool) returns (ok: bool)
      requires Valid() && out != data && at + BytesFor(numberOfBitsToRead) <= out.Length
      requires readOffset + numberOfBitsToRead < TWO32
      modifies this`readOffset, out
      ensures ok == (0 < numberOfBitsToRead && old(readOffset) + numberOfBitsToRead <= numberOfBitsUsed)
      ensures ok ==> readOffset == old(readOffset) + numberOfBitsToRead
      ensures ok ==> Unpacked(out[at..at + BytesFor(numberOfBitsToRead)], Bits()[old(readOffset)..readOffset],
              alignBitsToRight)
      ensures !ok ==> readOffset == old(readOffset) && out[..] == old(out[..])
      ensures forall k :: 0 <= k < out.Length && !(at <= k < at + BytesFor(numberOfBitsToRead)) ==>
                            out[k] == old(out[k])
    {
      hide BitOf, BitsOf, TakeByte, Shr, Shl, Unpacked, MostBitsOf;
      var n := numberOfBitsToRead;
      if n <= 0 {
        return false;
      }
      if readOffset + n > numberOfBitsUsed {
        return false;
      }
      ghost var start := readOffset;
      if readOffset % 8 == 0 && n % 8 == 0 {
        var p := readOffset / 8;
        forall k | 0 <= k < n / 8 {
          out[at + k] := data[p + k];
        }
        readOffset := readOffset + n;
        AlignedTake(out[at..at + BytesFor(n)], data[..], start, n, alignBitsToRight);
      } else {
        ShiftOut(out, at, n, alignBitsToRight);
      }
      UnpackedRounds(out[at..at + BytesFor(n)], data[..], start, n, alignBitsToRight);
      SubBits(data[..], start + n, numberOfBitsUsed, start);
      ok := true;
    }

    /** The shifting loop of ReadBits. */
    method ShiftOut(out: array<byte>, at: nat, n: nat, alignBitsToRight: bool)
      requires out != data && at + BytesFor(n) <= out.Length && readOffset + n <= 8 * data.Length && n > 0
      modifies this`readOffset, out
      ensures readOffset == old(readOffset) + n
      ensures forall k :: 0 <= k < BytesFor(n) ==>
                            out[at + k] == TakeByte(data[..], old(readOffset) + 8 * k, n - 8 * k, alignBitsToRight)
      ensures forall k :: 0 <= k < out.Length && !(at <= k < at + BytesFor(n)) ==> out[k] == old(out[k])
    {
      hide BitOf, TakeByte, BytesFor, Assembled, MostBitsOf;
      ghost var start, source, total, before := readOffset, data[..], BytesFor(n), out[..];
      var mod8 := readOffset % 8;
      forall k | 0 <= k < BytesFor(n) {
        out[at + k] := 0;
      }
      var remaining: nat, offset: nat := n, 0;
      AssembledNone(out[..], before, at, source, start, n, alignBitsToRight);
      while remaining > 0
        invariant readOffset + remaining == start + n && data[..] == source
        invariant remaining > 0 ==> remaining + 8 * offset == n && readOffset % 8 == mod8
        invariant remaining == 0 ==> offset == total
        invariant Assembled(out[..], before, at, source, start, n, alignBitsToRight, offset)
      {
        remaining := OutRound(out, before, at, source, start, n, alignBitsToRight, offset, mod8, remaining);
        offset := offset + 1;
      }
      AssembledAll(out[..], before, at, source, start, n, alignBitsToRight);
    }

    /** One round of ShiftOut. */
    method OutRound(out: array<byte>, ghost before: seq<byte>, at: nat, ghost source: seq<byte>, ghost start: nat,
        ghost n: nat,
                    alignBitsToRight: bool, offset: nat, mod8: nat, remaining: nat)
      returns (left: nat)
      requires out != data && data[..] == source && 0 < remaining && remaining + 8 * offset == n
      requires readOffset == start + 8 * offset && mod8 == readOffset % 8
      requires Assembled(out[..], before, at, source, start, n, alignBitsToRight, offset)
      modifies this`readOffset, out
      ensures left == if remaining >= 8 then remaining - 8 else 0
      ensures readOffset + left == start + n && (left > 0 ==> left + 8 * (offset + 1) == n && readOffset % 8 == mod8)
      ensures left == 0 ==> offset + 1 == BytesFor(n)
      ensures Assembled(out[..], before, at, source, start, n, alignBitsToRight, offset + 1)
    {
      hide BitOf, TakeByte, BytesFor, Assembled, MostBitsOf;
      RoundsLeft(n, offset, remaining);
      AssembledOne(out[..], before, at, source, start, n, alignBitsToRight, offset);
      TakeRound(out, at + offset, mod8, remaining, alignBitsToRight);
      if remaining >= 8 {
        left := remaining - 8;
        readOffset := readOffset + 8;
      } else {
        readOffset := readOffset + remaining;
        left := 0;
      }
    }

    /** The stores of one round of ReadBits, into a cell that is still zero. */
    method TakeRound(out: array<byte>, q: nat, mod8: nat, remaining: nat, alignBitsToRight: bool)
      requires out != data && q < out.Length && out[q] == 0
      requires mod8 == readOffset % 8 && 0 < remaining && readOffset + remaining <= 8 * data.Length
      modifies out
      ensures out[..] == old(out[..])[q := TakeByte(data[..], readOffset, remaining, alignBitsToRight)]
    {
      hide Shr, Shl, MostBitsOf;
      var p := readOffset / 8;
      var b := out[q] | Shl(data[p], mod8);
      ZeroOr(Shl(data[p], mod8));
      if mod8 > 0 && remaining > 8 - mod8 {
        b := b | Shr(data[p + 1], 8 - mod8);
      }
      if remaining < 8 && alignBitsToRight {
        b := Shr(b, 8 - remaining);
      }
      out[q] := b;
    }

    /** Moves the write position to the next byte boundary; nothing is allocated yet. */
    method AlignWriteToByteBoundary()
      requires Valid() && Clean() && numberOfBitsUsed <= TWO32 - 8
      modifies this`numberOfBitsUsed
      ensures Valid() && Clean()
      ensures numberOfBitsUsed == 8 * BytesFor(old(numberOfBitsUsed))
      ensures Bits() == old(Bits()) + Zeros(numberOfBitsUsed - old(numberOfBitsUsed))
    {
      hide BitOf, BitsOf, CleanAfter, BytesFor, U32, Zeros, MostBitsOf;
      AlignUp(numberOfBitsUsed);
      CleanBits(data[..], numberOfBitsUsed);
      numberOfBitsUsed := numberOfBitsUsed + 8 - (U32(numberOfBitsUsed - 1) % 8 + 1);
    }

    method AlignReadToByteBoundary()
      requires readOffset <= TWO32 - 8
      modifies this`readOffset
      ensures readOffset == 8 * BytesFor(old(readOffset))
    {
      readOffset := readOffset + 8 - (U32(readOffset - 1) % 8 + 1);
    }

    /** Moves the write position anywhere in the allocated buffer. */
    method SetWriteOffset(offset: nat)
      requires Valid() && BytesFor(offset) <= BytesFor(numberOfBitsAllocated)
      modifies this`numberOfBitsUsed
      ensures Valid() && numberOfBitsUsed == offset && Bits() == BitsOf(data[..], offset)
    {
      numberOfBitsUsed := offset;
    }

    /** A copy of the bytes in use. */
    method CopyData() returns (bytes: seq<byte>, bitLength: nat)
      requires Valid()
      ensures bitLength == numberOfBitsUsed && |bytes| == BytesFor(bitLength)
      ensures BitsOf(bytes, bitLength) == Bits()
      ensures Clean() ==> CleanAfter(bytes, bitLength)
    {
      hide BitsOf, CleanAfter, MostBitsOf;
      bytes := data[..BytesFor(numberOfBitsUsed)];
      bitLength := numberOfBitsUsed;
      assert bytes[..BytesFor(bitLength)] == data[..][..BytesFor(bitLength)];
      SamePrefix(bytes, data[..], bitLength);
    }

    /** Writes the variable-length code of input (low byte first). */
    method WriteCompressed(input: seq<byte>, unsignedData: bool)
      requires Valid() && Clean() && |input| > 0
      requires numberOfBitsUsed + |CompressedBits(input, unsignedData)| <= MostBits()
      modifies this`data, this`numberOfBitsAllocated, this`numberOfBitsUsed, data
      ensures Valid() && Clean() && Bits() == old(Bits()) + CompressedBits(input, unsignedData)
      ensures (data == old(data) || fresh(data)) && MostBits() >= old(MostBits())
    {
      hide Payload, CleanAfter, BitsOf, CompressedBits, MostBitsOf;
      var currentByte := |input| - 1;
      var byteMatch: byte := ByteMatch(unsignedData);
      ghost var goal := Bits() + CompressedBits(input, unsignedData);
      assert input[..currentByte + 1] == input;
      while currentByte > 0
        invariant 0 <= currentByte < |input|
        invariant Valid() && Clean() && MostBits() >= old(MostBits())
        invariant Bits() + CompressedBits(input[..currentByte + 1], unsignedData) == goal
        invariant data == old(data) || fresh(data)
      {
        ghost var left, bits := input[..currentByte + 1], Bits();
        assert |bits| + |CompressedBits(left, unsignedData)| == |goal|;
        if input[currentByte] == byteMatch {
          CompressedOne(input, currentByte, unsignedData);
          WriteBool(true);
          assert Bits() + CompressedBits(input[..currentByte], unsignedData)
              == bits + CompressedBits(left, unsignedData);
        } else {
          CompressedWhole(input, currentByte, unsignedData);
          WriteRest(input, currentByte + 1, unsignedData);
          return;
        }
        currentByte := currentByte - 1;
      }
      assert input[..1] == [input[0]];
      WriteLowByte(input[0], unsignedData);
    }

    /** WriteCompressed at the first byte that is not the fill byte: a zero bit and the bytes as they are. */
    method WriteRest(input: seq<byte>, count: nat, unsignedData: bool)
      requires Valid() && Clean() && 1 < count <= |input|
      requires numberOfBitsUsed + 8 * count + 1 <= MostBits()
      requires input[count - 1] != ByteMatch(unsignedData)
      modifies this`data, this`numberOfBitsAllocated, this`numberOfBitsUsed, data
      ensures Valid() && Clean() && Bits() == old(Bits()) + CompressedBits(input[..count], unsignedData)
      ensures (data == old(data) || fresh(data)) && MostBits() >= old(MostBits())
    {
      hide Payload, CleanAfter, BitsOf, MostBitsOf;
      WriteBool(false);
      WriteBits(input, count * 8, true);
      PayloadPrefix(input, input[..count], count);
    }

    /** The end of WriteCompressed: the low byte costs five or nine bits. */
    method WriteLowByte(b: byte, unsignedData: bool)
      requires Valid() && Clean() && numberOfBitsUsed + |CompressedBits([b], unsignedData)| <= MostBits()
      modifies this`data, this`numberOfBitsAllocated, this`numberOfBitsUsed, data
      ensures Valid() && Clean() && Bits() == old(Bits()) + CompressedBits([b], unsignedData)
      ensures (data == old(data) || fresh(data)) && MostBits() >= old(MostBits())
    {
      hide Payload, CleanAfter, BitsOf, MostBitsOf;
      if (unsignedData && b & 0xF0 == 0x00) || (!unsignedData && b & 0xF0 == 0xF0) {
        WriteBool(true);
        WriteBits([b], 4, true);
      } else {
        WriteBool(false);
        WriteBits([b], 8, true);
      }
    }

    /** Reads size bytes written by WriteCompressed; fails exactly when the stream ends too early. */
    method ReadCompressed(out: array<byte>, size: nat, unsignedData: bool) returns (ok: bool)
      requires Valid() && out != data && 0 < size <= out.Length
      requires readOffset <= numberOfBitsUsed && numberOfBitsUsed + 8 * size + 1 < TWO32
      modifies this`readOffset, out
      ensures ok == (Needed(Bits()[old(readOffset)..], size) <= numberOfBitsUsed - old(readOffset))
      ensures ok ==> readOffset == old(readOffset) + Needed(Bits()[old(readOffset)..], size)
      ensures ok ==> Decodes(Bits()[old(readOffset)..readOffset], out[..size], unsignedData)
      ensures old(readOffset) <= readOffset <= numberOfBitsUsed
      ensures forall k :: size <= k < out.Length ==> out[k] == old(out[k])
    {
      hide Payload, BitsOf, HighNibbleMatches, Needed, Decodes, MostBitsOf;
      ghost var bits, start := Bits(), readOffset;
      var currentByte := size - 1;
      var byteMatch: byte := ByteMatch(unsignedData);
      while currentByte > 0
        invariant 0 <= currentByte < size
        invariant start <= readOffset <= numberOfBitsUsed && Bits() == bits
        invariant readOffset - start == size - 1 - currentByte
        invariant forall i :: start <= i < readOffset ==> bits[i]
        invariant forall k :: currentByte < k < size ==> out[k] == byteMatch
        invariant forall k :: size <= k < out.Length ==> out[k] == old(out[k])
      {
        var ok1, b := ReadBool();
        if !ok1 {
          SkipOnes(bits[start..], out[..size], unsignedData, readOffset - start);
          return false;
        }
        if b {
          out[currentByte] := byteMatch;
          currentByte := currentByte - 1;
        } else {
          ghost var from := readOffset - 1;
          ok := ReadRest(out, currentByte + 1, unsignedData);
          assert out[..size][..currentByte + 1] == out[..currentByte + 1];
          FinishRead(bits, start, from, readOffset, out[..size], unsignedData, ok);
          return ok;
        }
      }
      ghost var from := readOffset;
      ok := ReadLowByte(out, unsignedData);
      assert out[..size][..1] == [out[0]];
      FinishRead(bits, start, from, readOffset, out[..size], unsignedData, ok);
    }

    /** ReadCompressed after a zero bit: the remaining bytes as they are. */
    method ReadRest(out: array<byte>, count: nat, unsignedData: bool) returns (ok: bool)
      requires Valid() && out != data && 1 < count <= out.Length
      requires 0 < readOffset <= numberOfBitsUsed && numberOfBitsUsed + 8 * count < TWO32 && !Bits()[readOffset - 1]
      modifies this`readOffset, out
      ensures ok == (Needed(Bits()[old(readOffset) - 1..], count) <= numberOfBitsUsed - old(readOffset) + 1)
      ensures ok ==> readOffset == old(readOffset) - 1 + Needed(Bits()[old(readOffset) - 1..], count)
      ensures ok ==> Decodes(Bits()[old(readOffset) - 1..readOffset], out[..count], unsignedData)
      ensures old(readOffset) <= readOffset <= numberOfBitsUsed
      ensures forall k :: count <= k < out.Length ==> out[k] == old(out[k])
    {
      hide Payload, BitsOf, MostBitsOf;
      ghost var bits, from := Bits(), readOffset - 1;
      ok := ReadBits(out, 0, count * 8, true);
      if ok {
        assert out[0..count] == out[..count];
        WholeRead(bits, from, readOffset, out[..count], unsignedData);
      }
    }

    /** The end of ReadCompressed. */
    method ReadLowByte(out: array<byte>, unsignedData: bool) returns (ok: bool)
      requires Valid() && out != data && out.Length > 0
      requires readOffset <= numberOfBitsUsed && numberOfBitsUsed + 9 < TWO32
      modifies this`readOffset, out
      ensures ok == (Needed(Bits()[old(readOffset)..], 1) <= numberOfBitsUsed - old(readOffset))
      ensures ok ==> readOffset == old(readOffset) + Needed(Bits()[old(readOffset)..], 1)
      ensures ok ==> Decodes(Bits()[old(readOffset)..readOffset], [out[0]], unsignedData)
      ensures old(readOffset) <= readOffset <= numberOfBitsUsed
      ensures forall k :: 1 <= k < out.Length ==> out[k] == old(out[k])
    {
      hide Payload, BitsOf, HighNibbleMatches, Unpacked, HalfByteMatch, Needed, Decodes, MostBitsOf;
      ghost var bits, from := Bits(), readOffset;
      NeededOne(bits, from);
      if readOffset + 1 > numberOfBitsUsed {
        return false;
      }
      var _, b := ReadBool();
      if b {
        ok := ReadBits(out, 0, 4, true);
        if !ok {
          return false;
        }
        assert out[0..1] == [out[0]];
        FillNibblePayload(out[0], bits[from + 1..readOffset], unsignedData);
        out[0] := out[0] | HalfByteMatch(unsignedData);
        NibbleRead(bits, from, readOffset, out[0], unsignedData);
      } else {
        ok := ReadBits(out, 0, 8, true);
        if ok {
          assert out[0..1] == [out[0]];
          WholeRead(bits, from, readOffset, [out[0]], unsignedData);
        }
      }
    }

    /** Appends the next n unread bits of another stream, or what is left of it, and advances that stream. The byte-copy
        path for two aligned streams does not look at the end of the source, only the rest of the bits does. */
    method WriteStream(source: BitStream, n: nat)
      requires Valid() && Clean() && numberOfBitsUsed + n <= MostBits()
      requires source.Valid() && source != this && source.data != data && source.readOffset + 1 < TWO32
      requires BothAligned(source) ==>
                 source.readOffset + 8 * (n / 8) <= 8 * source.data.Length
                     && source.readOffset + 8 * (n / 8) + 1 < TWO32
      modifies this`data, this`numberOfBitsAllocated, this`numberOfBitsUsed, data, source`readOffset
      ensures Valid() && Clean() && source.Valid() && source.data[..] == old(source.data[..])
      ensures (data == old(data) || fresh(data)) && MostBits() >= old(MostBits())
      ensures source.readOffset == CopiedTo(n, old(source.readOffset), source.numberOfBitsUsed,
              old(BothAligned(source)))
      ensures Bits() == old(Bits()) + Delivered(source.data[..], old(source.readOffset), source.readOffset)
      ensures old(source.readOffset) + n <= source.numberOfBitsUsed ==>
                && source.readOffset == old(source.readOffset) + n
                && Bits() == old(Bits()) + source.Bits()[old(source.readOffset)..source.readOffset]
    {
      hide BitsOf, CleanAfter, BytesFor, MostBitsOf, CopiedTo, Delivered;
      ghost var from, used := source.readOffset, source.numberOfBitsUsed;
      if from + n <= used {
        CopiedWithin(n, from, used, BothAligned(source));
      }
      AddBitsAndReallocate(n);
      CopyUnread(source, n);
      if from + n <= used {
        DeliveredBits(source.data[..], from, from + n, used);
      }
    }

    /** Both streams stand at a byte boundary. */
    predicate BothAligned(source: BitStream)
      reads this`numberOfBitsUsed, source`readOffset
    {
      source.readOffset % 8 == 0 && numberOfBitsUsed % 8 == 0
    }

    /** WriteStream once the capacity is there. */
    method CopyUnread(source: BitStream, n: nat)
      requires Valid() && Clean() && BytesFor(numberOfBitsUsed + n) <= BytesFor(numberOfBitsAllocated)
      requires source.Valid() && source != this && source.data != data
      requires BothAligned(source) ==> source.readOffset + 8 * (n / 8) <= 8 * source.data.Length
      modifies this`numberOfBitsUsed, data, source`readOffset
      ensures Valid() && Clean() && source.Valid() && source.data[..] == old(source.data[..])
      ensures source.readOffset == CopiedTo(n, old(source.readOffset), source.numberOfBitsUsed,
              old(BothAligned(source)))
      ensures Bits() == old(Bits()) + Delivered(source.data[..], old(source.readOffset), source.readOffset)
    {
      hide BitOf, BitsOf, CleanAfter, Delivered;
      ghost var bits, buffer, from := Bits(), source.data[..], source.readOffset;
      var numberOfBits: nat := n;
      NothingDelivered(buffer, from);
      assert bits + [] == bits;
      if BothAligned(source) {
        var numBytes := numberOfBits / 8;
        CopyWholeBytes(source, numBytes);
        numberOfBits := numberOfBits - 8 * numBytes;
      }
      ghost var start := source.readOffset;
      while numberOfBits > 0 && source.readOffset + 1 <= source.numberOfBitsUsed
        invariant Valid() && Clean() && source.Valid() && source.data[..] == buffer && from <= start
        invariant source.readOffset + numberOfBits == from + n
        invariant source.readOffset == start || start < source.readOffset <= source.numberOfBitsUsed
        invariant BytesFor(numberOfBitsUsed + numberOfBits) <= BytesFor(numberOfBitsAllocated)
        invariant Bits() == bits + Delivered(buffer, from, source.readOffset)
        decreases numberOfBits
      {
        OneMoreDelivered(buffer, from, source.readOffset);
        CopyBit(source);
        numberOfBits := numberOfBits - 1;
      }
    }

    method CopyWholeBytes(source: BitStream, numBytes: nat)
      requires Valid() && source.Valid() && source != this && source.data != data && BothAligned(source)
      requires source.readOffset + 8 * numBytes <= 8 * source.data.Length
      requires BytesFor(numberOfBitsUsed + 8 * numBytes) <= BytesFor(numberOfBitsAllocated)
      modifies this`numberOfBitsUsed, data, source`readOffset
      ensures Valid() && Clean() && source.Valid() && source.data[..] == old(source.data[..])
      ensures numberOfBitsUsed == old(numberOfBitsUsed) + 8 * numBytes
      ensures source.readOffset == old(source.readOffset) + 8 * numBytes
      ensures Bits() == old(Bits()) + Delivered(source.data[..], old(source.readOffset), source.readOffset)
    {
      hide BitOf, BitsOf, CleanAfter, Payload;
      ghost var before, from := data[..], source.readOffset;
      var readOffsetBytes := source.readOffset / 8;
      var bytes := source.data[readOffsetBytes..readOffsetBytes + numBytes];
      CopyIn(numberOfBitsUsed / 8, bytes);
      CopiedBytes(before, data[..], numberOfBitsUsed / 8, bytes, numBytes, true);
      SliceBits(source.data[..], readOffsetBytes, numBytes);
      assert bytes == source.data[..][readOffsetBytes..readOffsetBytes + numBytes];
      source.readOffset := 8 * (numBytes + readOffsetBytes);
      numberOfBitsUsed := numberOfBitsUsed + 8 * numBytes;
    }

    method CopyBit(source: BitStream)
      requires Valid() && Clean() && source.Valid() && source != this && source.data != data
      requires source.readOffset < source.numberOfBitsUsed
      requires BytesFor(numberOfBitsUsed + 1) <= BytesFor(numberOfBitsAllocated)
      modifies this`numberOfBitsUsed, data, source`readOffset
      ensures Valid() && Clean() && source.Valid() && source.data[..] == old(source.data[..])
      ensures source.readOffset == old(source.readOffset) + 1
      ensures Bits() == old(Bits()) + [BitAt(source.data[..], old(source.readOffset))]
    {
      hide BitsOf, BitOf, CleanAfter, Mask, MostBitsOf;
      var one := BitOf(source.data[source.readOffset / 8], source.readOffset % 8);
      StoreNext(one);
      source.readOffset := source.readOffset + 1;
    }

    method StoreNext(one: bool)
      requires Valid() && Clean() && BytesFor(numberOfBitsUsed + 1) <= BytesFor(numberOfBitsAllocated)
      modifies this`numberOfBitsUsed, data
      ensures Valid() && Clean() && Bits() == old(Bits()) + [one]
    {
      hide BitsOf, CleanAfter, Mask, MostBitsOf;
      ghost var before := data[..];
      var numberOfBitsMod8, p := numberOfBitsUsed % 8, numberOfBitsUsed / 8;
      if numberOfBitsMod8 == 0 {
        data[p] := if one then 0x80 else 0;
      } else if one {
        data[p] := data[p] | Mask(numberOfBitsMod8);
      }
      assert data[..] == WithBit(before, numberOfBitsUsed, one);
      StoreBit(before, numberOfBitsUsed, one);
      numberOfBitsUsed := numberOfBitsUsed + 1;
    }

    /** Write(unsigned int): four bytes in network order. */
    method WriteUint(v: nat)
      requires Valid() && Clean() && v < TWO32 && numberOfBitsUsed + 32 <= MostBits()
      modifies this`data, this`numberOfBitsAllocated, this`numberOfBitsUsed, data
      ensures Valid() && Clean() && Bits() == old(Bits()) + UintBits(v)
      ensures (data == old(data) || fresh(data)) && MostBits() >= old(MostBits())
      ensures BytesFor(old(numberOfBitsAllocated)) <= BytesFor(numberOfBitsAllocated)
      ensures forall j :: BytesFor(numberOfBitsUsed) <= j < BytesFor(old(numberOfBitsAllocated)) ==>
                            data[j] == old(data[j])
    {
      hide Payload, BitsOf, CleanAfter, BytesOf, MostBitsOf;
      WriteBits(BytesOf(v), 32, true);
    }

    /** Read(unsigned int). */
    method ReadUint() returns (ok: bool, v: nat)
      requires Valid() && readOffset + 32 < TWO32
      modifies this`readOffset
      ensures ok == (old(readOffset) + 32 <= numberOfBitsUsed) && v < TWO32
      ensures ok ==> readOffset == old(readOffset) + 32 && Bits()[old(readOffset)..readOffset] == UintBits(v)
      ensures !ok ==> readOffset == old(readOffset)
    {
      hide Payload, BitsOf, BytesOf, UintOf, MostBitsOf;
      var out := new byte[4];
      ok := ReadBits(out, 0, 32, true);
      v := UintOf(out[..]);
      BytesOfUintOf(out[..]);
      assert out[0..4] == out[..];
    }

    /** WriteCompressed(unsigned int). */
    method WriteCompressedUint(v: nat)
      requires Valid() && Clean() && v < TWO32
      requires numberOfBitsUsed + |CompressedUint(v)| <= MostBits()
      modifies this`data, this`numberOfBitsAllocated, this`numberOfBitsUsed, data
      ensures Valid() && Clean() && Bits() == old(Bits()) + CompressedUint(v)
      ensures (data == old(data) || fresh(data)) && MostBits() >= old(MostBits())
    {
      hide Payload, BitsOf, CleanAfter, CompressedBits, BytesOf, MostBitsOf;
      WriteCompressed(BytesOf(v), true);
    }

    /** ReadCompressed(unsigned int): fails exactly when the stream ends too early, else the bits consumed decode to the
        number; in particular it inverts WriteCompressedUint. */
    method ReadCompressedUint() returns (ok: bool, r: nat)
      requires Valid() && readOffset <= numberOfBitsUsed && numberOfBitsUsed + 33 < TWO32
      modifies this`readOffset
      ensures ok == (Needed(Bits()[old(readOffset)..], 4) <= numberOfBitsUsed - old(readOffset)) && r < TWO32
      ensures ok ==> readOffset == old(readOffset) + Needed(Bits()[old(readOffset)..], 4)
      ensures ok ==> Decodes(Bits()[old(readOffset)..readOffset], BytesOf(r), true)
      ensures old(readOffset) <= readOffset <= numberOfBitsUsed
      ensures forall v: nat :: v < TWO32 && CompressedUint(v) <= Bits()[old(readOffset)..] ==>
                ok && r == v && readOffset == old(readOffset) + |CompressedUint(v)|
    {
      hide Payload, BitsOf, CompressedBits, BytesOf, UintOf, Decodes, Needed, CompressedUint;
      ghost var rest := Bits()[readOffset..];
      var out := new byte[4];
      ok := ReadCompressed(out, 4, true);
      r := UintOf(out[..]);
      assert out[..4] == out[..];
      BytesOfUintOf(out[..]);
      assert ok ==> Bits()[old(readOffset)..readOffset] == rest[..readOffset - old(readOffset)];
      forall v: nat | v < TWO32 && CompressedUint(v) <= rest
        ensures ok && r == v && readOffset == old(readOffset) + |CompressedUint(v)|
      {
        UintComesBack(rest, v, r);
      }
    }
  }

  /** A 32-bit number in network order, as both byte orders of host put it on the wire. */
  function BytesOf(v: nat): (b: seq<byte>)
    requires v < TWO32
    ensures |b| == 4
  {
    var high := v / 256;
    var higher := high / 256;
    [AsByte(higher / 256), AsByte(higher % 256), AsByte(high % 256), AsByte(v % 256)]
  }

  /** Byte k of a number in network order. */
  lemma NetworkOrder(v: nat)
    requires v < TWO32
    ensures BytesOf(v)[0] as int == v / 0x100_0000 && BytesOf(v)[1] as int == v / 0x1_0000 % 0x100
    ensures BytesOf(v)[2] as int == v / 0x100 % 0x100 && BytesOf(v)[3] as int == v % 0x100
  {
    hide AsByte;
    var high := v / 256;
    var higher := high / 256;
    assert v / 0x1_0000 == higher && v / 0x100_0000 == higher / 256;
    ValueAsByte(higher / 256);
    ValueAsByte(higher % 256);
    ValueAsByte(high % 256);
    ValueAsByte(v % 256);
  }

  function Positional(d3: nat, d2: nat, d1: nat, d0: nat): (v: nat)
    requires d3 < 256 && d2 < 256 && d1 < 256 && d0 < 256
    ensures v < TWO32
  {
    ((d3 * 256 + d2) * 256 + d1) * 256 + d0
  }

  function UintOf(b: seq<byte>): (v: nat)
    requires |b| == 4
    ensures v < TWO32
  {
    Positional(Value(b[0]), Value(b[1]), Value(b[2]), Value(b[3]))
  }

  lemma UintOfBytesOf(v: nat)
    requires v < TWO32
    ensures UintOf(BytesOf(v)) == v
  {
    hide AsByte, Value;
    var high := v / 256;
    var higher := high / 256;
    ValueAsByte(higher / 256);
    ValueAsByte(higher % 256);
    ValueAsByte(high % 256);
    ValueAsByte(v % 256);
  }

  lemma BytesOfUintOf(b: seq<byte>)
    requires |b| == 4
    ensures BytesOf(UintOf(b)) == b
  {
    hide AsByte, Value;
    var v := UintOf(b);
    var high := v / 256;
    assert high == (Value(b[0]) * 256 + Value(b[1])) * 256 + Value(b[2]) && v % 256 == Value(b[3]);
    var higher := high / 256;
    assert higher == Value(b[0]) * 256 + Value(b[1]) && high % 256 == Value(b[2]);
    assert higher / 256 == Value(b[0]) && higher % 256 == Value(b[1]);
    AsByteValue(b[0]);
    AsByteValue(b[1]);
    AsByteValue(b[2]);
    AsByteValue(b[3]);
  }

  /** The state of the shifting read loop: the first offset bytes at position at are done, the others of the target
      still zero, and everything else is as before. */
  ghost predicate Assembled(out: seq<byte>, before: seq<byte>, at: nat, source: seq<byte>, start: nat, n: nat,
                            rightAligned: bool, offset: nat)
  {
    var total := BytesFor(n);
    && |out| == |before| && at + total <= |out| && start + n <= 8 * |source| && offset <= total && n > 0
    && (forall k :: 0 <= k < offset ==> out[at + k] == TakeByte(source, start + 8 * k, n - 8 * k, rightAligned))
    && (forall k :: at + offset <= k < at + total ==> out[k] == 0)
    && (forall k :: 0 <= k < |out| && !(at <= k < at + total) ==> out[k] == before[k])
  }

  lemma AssembledNone(out: seq<byte>, before: seq<byte>, at: nat, source: seq<byte>, start: nat, n: nat,
      rightAligned: bool)
    requires |out| == |before| && at + BytesFor(n) <= |out| && start + n <= 8 * |source| && n > 0
    requires forall k :: at <= k < at + BytesFor(n) ==> out[k] == 0
    requires forall k :: 0 <= k < |out| && !(at <= k < at + BytesFor(n)) ==> out[k] == before[k]
    ensures Assembled(out, before, at, source, start, n, rightAligned, 0)
  {}

  lemma AssembledOne(out: seq<byte>, before: seq<byte>, at: nat, source: seq<byte>, start: nat, n: nat,
                     rightAligned: bool, offset: nat)
    requires Assembled(out, before, at, source, start, n, rightAligned, offset) && offset < BytesFor(n)
    ensures at + offset < |out| && out[at + offset] == 0 && 8 * offset < n && start + n <= 8 * |source|
    ensures var b := TakeByte(source, start + 8 * offset, n - 8 * offset, rightAligned);
            Assembled(out[at + offset := b], before, at, source, start, n, rightAligned, offset + 1)
  {
    hide TakeByte;
  }

  lemma AssembledAll(out: seq<byte>, before: seq<byte>, at: nat, source: seq<byte>, start: nat, n: nat,
      rightAligned: bool)
    requires Assembled(out, before, at, source, start, n, rightAligned, BytesFor(n))
    ensures |out| == |before| && at + BytesFor(n) <= |out| && start + n <= 8 * |source|
    ensures forall k :: 0 <= k < BytesFor(n) ==>
                          8 * k < n && out[at + k] == TakeByte(source, start + 8 * k, n - 8 * k, rightAligned)
    ensures forall k :: 0 <= k < |out| && !(at <= k < at + BytesFor(n)) ==> out[k] == before[k]
  {
    hide TakeByte;
  }

  lemma AlignUp(n: nat)
    requires n <= TWO32 - 8
    ensures n + 8 - (U32(n - 1) % 8 + 1) == 8 * BytesFor(n) && BytesFor(8 * BytesFor(n)) == BytesFor(n)
            && n <= 8 * BytesFor(n)
  {
    if n > 0 {
      var q, r := (n - 1) / 8, (n - 1) % 8;
      assert U32(n - 1) == n - 1 == 8 * q + r;
      Eighths(q, r);
      Eighths(q + 1, r);
      Eighths(q + 1, 7);
      hide U32, BytesFor;
      assert BytesFor(n) == (8 * (q + 1) + r) / 8 by {
        BytesForIs(n);
      }
      BytesForIs(8 * (q + 1));
    }
  }

  lemma BytesForIs(n: nat)
    ensures BytesFor(n) == (n + 7) / 8
  {}

  lemma CleanBits(s: seq<byte>, n: nat)
    requires BytesFor(n) <= |s| && CleanAfter(s, n)
    ensures 8 * BytesFor(n) >= n && BitsOf(s, 8 * BytesFor(n)) == BitsOf(s, n) + Zeros(8 * BytesFor(n) - n)
    ensures CleanAfter(s, 8 * BytesFor(n))
  {
    hide BitAt;
  }

  lemma RoundsLeft(n: nat, offset: nat, remaining: nat)
    requires 0 < remaining && remaining + 8 * offset == n
    ensures offset < BytesFor(n) && (remaining <= 8 <==> offset + 1 == BytesFor(n))
  {}

  lemma TailKept(before: seq<byte>, grown: seq<byte>, after: seq<byte>, tail: nat, kept: nat)
    requires tail <= |after| == |grown| && kept <= |before| && kept <= |grown|
    requires after[tail..] == grown[tail..] && grown[..kept] == before[..kept]
    ensures forall j :: tail <= j < kept ==> after[j] == before[j]
  {
    forall j | tail <= j < kept
      ensures after[j] == before[j]
    {
      assert after[j] == after[tail..][j - tail] && grown[j] == grown[tail..][j - tail];
      assert grown[j] == grown[..kept][j] && before[j] == before[..kept][j];
    }
  }

  ghost function UintBits(v: nat): (bits: seq<bool>)
    requires v < TWO32
    ensures |bits| == 32
  {
    Payload(BytesOf(v), 32, true)
  }

  ghost function CompressedUint(v: nat): (bits: seq<bool>)
    requires v < TWO32
    ensures |bits| <= 33
  {
    CompressedLength(BytesOf(v), true);
    CompressedBits(BytesOf(v), true)
  }

  /** The 32 bits of a number are its binary digits, the most significant first. */
  lemma UintBitsNumeral(v: nat)
    requires v < TWO32
    ensures Numeral(UintBits(v)) == v
  {
    hide BytesOf, Payload, Numeral, Number;
    PayloadNumeral(BytesOf(v), true);
    NumberOfUint(v);
  }

  lemma NumberOfUint(v: nat)
    requires v < TWO32
    ensures Number(BytesOf(v)) == v
  {
    hide BytesOf, Number;
    NumberOfFour(BytesOf(v));
    NetworkOrder(v);
    SplitWord(v);
  }

  lemma NumberOfFour(s: seq<byte>)
    requires |s| == 4
    ensures Number(s) == ((s[0] as int * 0x100 + s[1] as int) * 0x100 + s[2] as int) * 0x100 + s[3] as int
  {
    assert s[..3][..2] == s[..2] && s[..2][..1] == s[..1] && s[..1][..0] == [];
    assert Number(s[..1]) == s[0] as int && Number(s[..2]) == s[0] as int * 0x100 + s[1] as int;
  }

  /** Numbers are compressed in network order, so the byte looked at first is the lowest: what a number costs. */
  lemma CompressedUintLength(v: nat)
    requires v < TWO32
    ensures |CompressedUint(v)| ==
              if v % 0x100 != 0 then 33 else if v / 0x100 % 0x100 != 0 then 26 else if v / 0x1_0000 % 0x100 != 0 then 19
              else if v / 0x1000_0000 != 0 then 12 else 8
  {
    hide BytesOf, CompressedBits;
    var b := BytesOf(v);
    NetworkOrder(v);
    HighNibble(b[0]);
    CodeIs(b, true, if b[3] != 0 then 0 else if b[2] != 0 then 1 else if b[1] != 0 then 2 else 3);
  }

  lemma HighNibble(b: byte)
    ensures b & 0xF0 == 0 <==> b as int / 16 == 0
  {}

  lemma UintBitsUnique(v: nat, w: nat)
    requires v < TWO32 && w < TWO32 && UintBits(v) == UintBits(w)
    ensures v == w
  {
    PayloadDetermines(BytesOf(v), BytesOf(w), 4, true);
    UintOfBytesOf(v);
    UintOfBytesOf(w);
  }

  lemma NeededOne(bits: seq<bool>, from: nat)
    requires from <= |bits|
    ensures Needed(bits[from..], 1) == if from == |bits| then 1 else if bits[from] then 5 else 9
  {}

  lemma NibbleRead(bits: seq<bool>, from: nat, to: nat, b: byte, unsignedData: bool)
    requires from < to <= |bits| && bits[from] && to - from == 5
    requires HighNibbleMatches(b, unsignedData) && Payload([b], 4, true) == bits[from + 1..to]
    ensures Decodes(bits[from..to], [b], unsignedData)
  {
    assert bits[from..to][1..] == bits[from + 1..to];
  }

  lemma WholeRead(bits: seq<bool>, from: nat, to: nat, bytes: seq<byte>, unsignedData: bool)
    requires from < to <= |bits| && !bits[from] && |bytes| > 0 && to - from == 8 * |bytes| + 1
    requires Unpacked(bytes, bits[from + 1..to], true)
    ensures Decodes(bits[from..to], bytes, unsignedData)
  {
    assert bits[from..to][1..] == bits[from + 1..to];
  }

  lemma FinishRead(bits: seq<bool>, start: nat, from: nat, to: nat, bytes: seq<byte>, unsignedData: bool, ok: bool)
    requires start <= from <= to <= |bits| && from - start < |bytes|
    requires forall i :: start <= i < from ==> bits[i]
    requires forall k :: |bytes| - (from - start) <= k < |bytes| ==> bytes[k] == ByteMatch(unsignedData)
    requires var k := |bytes| - (from - start);
             && (ok <==> Needed(bits[from..], k) <= |bits| - from)
             && (ok ==> to == from + Needed(bits[from..], k) && Decodes(bits[from..to], bytes[..k], unsignedData))
    ensures ok <==> Needed(bits[start..], |bytes|) <= |bits| - start
    ensures ok ==> to == start + Needed(bits[start..], |bytes|) && Decodes(bits[start..to], bytes, unsignedData)
  {
    hide Needed, Decodes;
    SkipOnes(bits[start..], bytes, unsignedData, from - start);
    assert bits[start..][from - start..] == bits[from..];
    if ok {
      SkipOnes(bits[start..to], bytes, unsignedData, from - start);
      assert bits[start..to][from - start..] == bits[from..to];
    }
  }

  /** Where copying n bits from position from leaves off in a stream of used bits; whole bytes are copied without a look
      at the end when aligned. */
  function CopiedTo(n: nat, from: nat, used: nat, aligned: bool): (to: nat)
    ensures from <= to <= from + n
  {
    var start := if aligned then from + 8 * (n / 8) else from;
    if start >= used then start else if from + n <= used then from + n else used
  }

  lemma CopiedWithin(n: nat, from: nat, used: nat, aligned: bool)
    requires from + n <= used
    ensures CopiedTo(n, from, used, aligned) == from + n
  {}

  /** The bits of a buffer between two positions. */
  ghost function Delivered(buffer: seq<byte>, from: nat, to: nat): seq<bool>
    requires from == to || from < to <= 8 * |buffer|
  {
    if from == to then [] else BitsOf(buffer, to)[from..]
  }

  lemma NothingDelivered(buffer: seq<byte>, from: nat)
    ensures Delivered(buffer, from, from) == []
  {}

  lemma OneMoreDelivered(buffer: seq<byte>, from: nat, to: nat)
    requires from <= to < 8 * |buffer|
    ensures Delivered(buffer, from, to + 1) == Delivered(buffer, from, to) + [BitAt(buffer, to)]
  {
    hide BitAt;
  }

  lemma DeliveredBits(buffer: seq<byte>, from: nat, to: nat, used: nat)
    requires from <= to <= used && BytesFor(used) <= |buffer|
    ensures Delivered(buffer, from, to) == BitsOf(buffer, used)[from..to]
  {
    hide BitAt;
  }

  lemma SliceBits(s: seq<byte>, p: nat, count: nat)
    requires p + count <= |s|
    ensures Payload(s[p..p + count], 8 * count, true) == Delivered(s, 8 * p, 8 * (p + count))
  {
    hide BitOf;
    var piece, bits := Payload(s[p..p + count], 8 * count, true), BitsOf(s, 8 * (p + count))[8 * p..];
    forall i | 0 <= i < 8 * count
      ensures piece[i] == bits[i]
    {
      var j := 8 * p + i;
      assert j / 8 == p + i / 8 && j % 8 == i % 8;
      assert bits[i] == BitAt(s, j);
    }
  }

  /** A stream that goes on with the code of v: the number read is v and exactly its code is consumed. */
  lemma UintComesBack(rest: seq<bool>, v: nat, r: nat)
    requires v < TWO32 && r < TWO32 && CompressedUint(v) <= rest
    ensures Needed(rest, 4) == |CompressedUint(v)|
    ensures Decodes(rest[..|CompressedUint(v)|], BytesOf(r), true) ==> r == v
  {
    hide CompressedBits, BytesOf, UintOf, Decodes, Needed;
    var code := CompressedUint(v);
    assert code + rest[|code|..] == rest;
    CompressedRoundTrip(BytesOf(v), BytesOf(r), true, rest[|code|..]);
    UintOfBytesOf(v);
    UintOfBytesOf(r);
  }

  ghost function Zeros(n: nat): (bits: seq<bool>)
    ensures |bits| == n
  {
    seq(n, _ => false)
  }

  lemma AlignedTake(out: seq<byte>, s: seq<byte>, from: nat, n: nat, rightAligned: bool)
    requires from % 8 == 0 && n % 8 == 0 && from + n <= 8 * |s| && |out| == n / 8
    requires forall k :: 0 <= k < n / 8 ==> out[k] == s[from / 8 + k]
    ensures forall k :: 0 <= k < |out| ==> out[k] == TakeByte(s, from + 8 * k, n - 8 * k, rightAligned)
  {
    forall k | 0 <= k < |out|
      ensures out[k] == TakeByte(s, from + 8 * k, n - 8 * k, rightAligned)
    {
      assert (from + 8 * k) / 8 == from / 8 + k && (from + 8 * k) % 8 == 0;
    }
  }

  lemma SubBits(s: seq<byte>, n: nat, m: nat, from: nat)
    requires from <= n <= m <= 8 * |s|
    ensures BitsOf(s, n)[from..] == BitsOf(s, m)[from..n]
  {
    hide BitAt;
  }

  ghost function WithBit(s: seq<byte>, used: nat, bit: bool): (s': seq<byte>)
    requires used < 8 * |s|
    ensures |s'| == |s|
  {
    var p, m := used / 8, used % 8;
    if m == 0 then s[p := if bit then 0x80 else 0] else if bit then s[p := s[p] | Mask(m)] else s
  }

  lemma StoreBit(s: seq<byte>, used: nat, bit: bool)
    requires used < 8 * |s| && CleanAfter(s, used)
    ensures BitsOf(WithBit(s, used, bit), used + 1) == BitsOf(s, used) + [bit]
    ensures CleanAfter(WithBit(s, used, bit), used + 1)
  {
    hide BitOf;
    var s' := WithBit(s, used, bit);
    forall i | 0 <= i < 8 * BytesFor(used + 1)
      ensures BitAt(s', i) == if i < used then BitAt(s, i) else bit && i == used
    {
      var p, m, q, k := used / 8, used % 8, i / 8, i % 8;
      BitOfZero(k);
      BitOfMask(m, k);
      if q == p {
        BitOfOr(s[p], Mask(m), k);
        assert k > m ==> i > used;
        assert k >= m ==> !BitAt(s, i) || m == 0;
      }
    }
  }
}
