/** Common/RakNet/DS_ByteQueue.cpp: a growing circular buffer that behaves as a first-in first-out byte sequence. */
module ByteQueues {
  import opened Bits
  import opened Words

  /** Whether a write of length bytes has to grow a buffer of allocation bytes holding stored bytes;
      one byte is always left unused. */
  predicate MustGrow(allocation: nat, stored: nat, length: nat) {
    allocation == 0 || length > allocation - stored - 1
  }

  function GrowBy(allocation: nat, length: nat): nat {
    if length + allocation + 1 < 256 then 256 else length + allocation + 1
  }

  function NewLength(allocation: nat, stored: nat, length: nat): nat {
    if MustGrow(allocation, stored, length) then allocation + GrowBy(allocation, length) else allocation
  }

  // ----- Sequences around a circle -----

  /** The bytes of s from position r up to position w, around the end if need be. */
  function Ring(s: seq<byte>, r: nat, w: nat): (bytes: seq<byte>)
    requires r <= |s| && w <= |s|
    ensures |bytes| == if w >= r then w - r else |s| - r + w
  {
    if w >= r then s[r..w] else s[r..] + s[..w]
  }

  function Step(s: seq<byte>, x: nat): nat
    requires x <= 2 * |s|
  {
    if x < |s| then x else x - |s|
  }

  lemma StepIsMod(s: seq<byte>, x: nat)
    requires 0 < |s| && x < 2 * |s|
    ensures x % |s| == Step(s, x)
  {
    if x >= |s| {
      assert x == 1 * |s| + (x - |s|);
      ModUnique(x, |s|, x - |s|);
    }
  }

  lemma ModUnique(x: nat, m: nat, r: nat)
    requires m > 0 && r < m && x == m + r
    ensures x % m == r
  {}

  lemma RingAt(s: seq<byte>, r: nat, w: nat, i: nat)
    requires r < |s| && w < |s| && i < |Ring(s, r, w)|
    ensures Ring(s, r, w)[i] == s[Step(s, r + i)]
  {}

  /** Storing input from w on, around the end, appends it. */
  lemma RingAppend(s: seq<byte>, s': seq<byte>, r: nat, w: nat, input: seq<byte>)
    requires |s| == |s'| && r < |s| && w < |s| && |input| < |s| - |Ring(s, r, w)|
    requires forall i :: 0 <= i < |s| && !Covered(s, w, |input|, i) ==> s'[i] == s[i]
    requires forall i :: 0 <= i < |input| ==> s'[Step(s, w + i)] == input[i]
    ensures Ring(s', r, Step(s, w + |input|)) == Ring(s, r, w) + input
  {
    hide Ring;
    var n := |Ring(s, r, w)|;
    forall i | 0 <= i < n + |input|
      ensures Ring(s', r, Step(s, w + |input|))[i] == (Ring(s, r, w) + input)[i]
    {
      RingAt(s', r, Step(s, w + |input|), i);
      if i < n {
        RingAt(s, r, w, i);
      } else {
        assert Step(s, r + i) == Step(s, w + (i - n));
      }
    }
  }

  /** Position i is one of the n positions from w on. */
  predicate Covered(s: seq<byte>, w: nat, n: nat, i: nat)
    requires w < |s|
  {
    w <= i < w + n || i < w + n - |s|
  }

  lemma RingAdvance(s: seq<byte>, r: nat, w: nat, n: nat)
    requires r < |s| && w < |s| && n <= |Ring(s, r, w)|
    ensures Ring(s, Step(s, r + n), w) == Ring(s, r, w)[n..]
  {}

  /** The n bytes of s before position r, around the start if need be. */
  function Behind(s: seq<byte>, r: nat, n: nat): (bytes: seq<byte>)
    requires r <= |s| && n <= |s|
    ensures |bytes| == n
  {
    if n <= r then s[r - n..r] else s[|s| - (n - r)..] + s[..r]
  }

  lemma BehindAt(s: seq<byte>, r: nat, n: nat, i: nat)
    requires r <= |s| && n <= |s| && i < n
    ensures Behind(s, r, n)[i] == s[if r + i >= n then r + i - n else |s| + r + i - n]
  {}

  lemma BehindAdvance(s: seq<byte>, r: nat, w: nat, m: nat, n: nat)
    requires r < |s| && w < |s| && n <= |Ring(s, r, w)| && m + |Ring(s, r, w)| < |s|
    ensures Behind(s, Step(s, r + n), m + n) == Behind(s, r, m) + Ring(s, r, w)[..n]
  {
    hide Behind, Ring;
    var far := Step(s, r + n);
    forall i | 0 <= i < m + n
      ensures Behind(s, far, m + n)[i] == (Behind(s, r, m) + Ring(s, r, w)[..n])[i]
    {
      BehindAt(s, far, m + n, i);
      if i < m {
        BehindAt(s, r, m, i);
      } else {
        RingAt(s, r, w, i - m);
      }
    }
  }

  lemma BehindRetreat(s: seq<byte>, r: nat, m: nat, n: nat)
    requires r < |s| && 0 < n <= m < |s|
    ensures Behind(s, if n > r then |s| - (n - r) else r - n, m - n) == Behind(s, r, m)[..m - n]
    ensures Behind(s, r, n) == Behind(s, r, m)[m - n..]
  {
    hide Behind;
    var back := if n > r then |s| - (n - r) else r - n;
    forall i | 0 <= i < m - n
      ensures Behind(s, back, m - n)[i] == Behind(s, r, m)[i]
    {
      BehindAt(s, back, m - n, i);
      BehindAt(s, r, m, i);
    }
    forall i | 0 <= i < n
      ensures Behind(s, r, n)[i] == Behind(s, r, m)[m - n + i]
    {
      BehindAt(s, r, n, i);
      BehindAt(s, r, m, m - n + i);
    }
  }

  lemma RingRetreat(s: seq<byte>, r: nat, w: nat, n: nat)
    requires r < |s| && w < |s| && n + |Ring(s, r, w)| < |s|
    ensures Ring(s, if n > r then |s| - (n - r) else r - n, w) == Behind(s, r, n) + Ring(s, r, w)
  {}

  class ByteQueue {
    var data: array<byte>
    var readOffset: nat
    var writeOffset: nat
    var lengthAllocated: nat

    ghost predicate Valid()
      reads this, data
    {
      && data.Length == lengthAllocated
      && (lengthAllocated == 0 ==> readOffset == writeOffset == 0)
      && (lengthAllocated > 0 ==> readOffset < lengthAllocated && writeOffset < lengthAllocated)
    }

    /** The bytes waiting to be read. */
    ghost function Contents(): seq<byte>
      reads this, data
      requires Valid()
    {
      Ring(data[..], readOffset, writeOffset)
    }

    /** The n bytes that stand before the read position, around the circle. */
    ghost function Before(n: nat): seq<byte>
      reads this, data
      requires Valid() && n + |Contents()| < lengthAllocated
    {
      Behind(data[..], readOffset, n)
    }

    constructor ()
      ensures Valid() && Contents() == [] && lengthAllocated == 0 && fresh(data)
    {
      readOffset, writeOffset, lengthAllocated := 0, 0, 0;
      data := new byte[0];
    }

    method GetBytesWritten() returns (n: nat)
      requires Valid()
      ensures n == |Contents()|
    {
      if writeOffset >= readOffset {
        return writeOffset - readOffset;
      } else {
        return writeOffset + (lengthAllocated - readOffset);
      }
    }

    method WriteBytes(input: seq<byte>)
      requires Valid() && NewLength(lengthAllocated, |Contents()|, |input|) < TWO32
      modifies this, data
      ensures Valid() && Contents() == old(Contents()) + input
      ensures lengthAllocated == NewLength(old(lengthAllocated), |old(Contents())|, |input|)
      ensures var length, stored := old(lengthAllocated), |old(Contents())|;
              lengthAllocated ==
                if length > 0 && stored + |input| < length then length
                else if |input| + length + 1 < 256 then length + 256 else |input| + 2 * length + 1
      ensures data == old(data) || fresh(data)
    {
      var length := |input|;
      var bytesWritten := GetBytesWritten();
      if lengthAllocated == 0 || length > lengthAllocated - bytesWritten - 1 {
        Grow(length, bytesWritten);
      }
      CopyIn(input);
    }

    /** The reallocation of WriteBytes; wrapped contents are unrolled into the new space. */
    method Grow(length: nat, bytesWritten: nat)
      requires Valid() && bytesWritten == |Contents()|
      modifies this
      ensures Valid() && Contents() == old(Contents()) && fresh(data)
      ensures lengthAllocated == old(lengthAllocated) + GrowBy(old(lengthAllocated), length)
    {
      var oldLengthAllocated := lengthAllocated;
      var newAmountToAllocate := length + oldLengthAllocated + 1;
      if newAmountToAllocate < 256 {
        newAmountToAllocate := 256;
      }
      lengthAllocated := lengthAllocated + newAmountToAllocate;
      var grown := new byte[lengthAllocated];
      forall i | 0 <= i < oldLengthAllocated {
        grown[i] := data[i];
      }
      if writeOffset < readOffset {
        if writeOffset <= newAmountToAllocate {
          forall i | 0 <= i < writeOffset {
            grown[oldLengthAllocated + i] := grown[i];
          }
          writeOffset := readOffset + bytesWritten;
        } else {
          // more wrapped bytes than new space: cannot happen, as the new space exceeds the old buffer
          assert false;
        }
      }
      data := grown;
    }

    /** The copy of WriteBytes, in one piece or two. */
    method CopyIn(input: seq<byte>)
      requires Valid() && lengthAllocated > 0 && |input| <= lengthAllocated - |Contents()| - 1
      modifies this`writeOffset, data
      ensures Valid() && Contents() == old(Contents()) + input
    {
      hide Ring;
      ghost var before := data[..];
      var length := |input|;
      if length <= lengthAllocated - writeOffset {
        forall i | 0 <= i < length {
          data[writeOffset + i] := input[i];
        }
      } else {
        var first := lengthAllocated - writeOffset;
        forall i | 0 <= i < first {
          data[writeOffset + i] := input[i];
        }
        forall i | 0 <= i < length - first {
          data[i] := input[first + i];
        }
      }
      RingAppend(before, data[..], readOffset, writeOffset, input);
      StepIsMod(before, writeOffset + length);
      writeOffset := (writeOffset + length) % lengthAllocated;
    }

    /** Copies up to maxLengthToRead bytes out and, unless peeking, removes them. */
    method ReadBytes(out: array<byte>, maxLengthToRead: nat, peek: bool) returns (ok: bool)
      requires Valid() && out != data
      requires maxLengthToRead <= out.Length || |Contents()| <= out.Length
      modifies this`readOffset, out
      ensures Valid()
      ensures var n := Least(|old(Contents())|, maxLengthToRead);
              && ok == (n > 0)
              && out[..] == old(Contents())[..n] + old(out[..])[n..]
              && Contents() == (if peek then old(Contents()) else old(Contents())[n..])
              && readOffset == if peek || n == 0 then old(readOffset) else Step(data[..], old(readOffset) + n)
    {
      var bytesWritten := GetBytesWritten();
      var bytesToRead := if bytesWritten < maxLengthToRead then bytesWritten else maxLengthToRead;
      if bytesToRead == 0 {
        return false;
      }
      CopyOut(out, bytesToRead);
      if !peek {
        IncrementReadOffset(bytesToRead);
      }
      ok := true;
    }

    /** The copy of ReadBytes, in one piece or two. */
    method CopyOut(out: array<byte>, bytesToRead: nat)
      requires Valid() && out != data && 0 < bytesToRead <= |Contents()| && bytesToRead <= out.Length
      modifies out
      ensures out[..] == Contents()[..bytesToRead] + old(out[..])[bytesToRead..]
    {
      if writeOffset >= readOffset {
        forall i | 0 <= i < bytesToRead {
          out[i] := data[readOffset + i];
        }
      } else {
        var availableUntilWrap := lengthAllocated - readOffset;
        if bytesToRead <= availableUntilWrap {
          forall i | 0 <= i < bytesToRead {
            out[i] := data[readOffset + i];
          }
        } else {
          forall i | 0 <= i < availableUntilWrap {
            out[i] := data[readOffset + i];
          }
          forall i | 0 <= i < bytesToRead - availableUntilWrap {
            out[availableUntilWrap + i] := data[i];
          }
        }
      }
    }

    method IncrementReadOffset(length: nat)
      requires Valid() && 0 < lengthAllocated && length <= |Contents()|
      modifies this`readOffset
      ensures Valid() && Contents() == old(Contents())[length..]
      ensures Before(length) == old(Contents())[..length]
      ensures readOffset == Step(data[..], old(readOffset) + length)
    {
      hide Ring, Behind;
      RingAdvance(data[..], readOffset, writeOffset, length);
      BehindAdvance(data[..], readOffset, writeOffset, 0, length);
      BehindNothing(data[..], readOffset);
      StepIsMod(data[..], readOffset + length);
      readOffset := (readOffset + length) % lengthAllocated;
    }

    /** Puts the bytes before the read position back in front. */
    method DecrementReadOffset(length: nat)
      requires Valid() && length + |Contents()| < lengthAllocated
      modifies this`readOffset
      ensures Valid() && Contents() == old(Before(length)) + old(Contents())
      ensures readOffset == if length > old(readOffset) then lengthAllocated - (length - old(readOffset))
                            else old(readOffset) - length
    {
      hide Ring, Behind;
      RingRetreat(data[..], readOffset, writeOffset, length);
      if length > readOffset {
        readOffset := lengthAllocated - (length - readOffset);
      } else {
        readOffset := readOffset - length;
      }
    }

    /** The longest run of waiting bytes that is in one piece. */
    method PeekContiguousBytes() returns (start: nat, outLength: nat)
      requires Valid()
      ensures start + outLength <= data.Length && outLength <= |Contents()|
      ensures data[start..start + outLength] == Contents()[..outLength]
      ensures outLength == 0 <==> Contents() == []
      ensures outLength < |Contents()| ==> start + outLength == lengthAllocated
    {
      if writeOffset >= readOffset {
        outLength := writeOffset - readOffset;
      } else {
        outLength := lengthAllocated - readOffset;
      }
      start := readOffset;
    }

    method Clear()
      requires Valid()
      modifies this
      ensures Valid() && Contents() == [] && lengthAllocated == 0 && fresh(data)
    {
      readOffset, writeOffset, lengthAllocated := 0, 0, 0;
      data := new byte[0];
    }
  }

  // ----- Whole runs -----

  /** A call of a client. Undo gives back the last n bytes read since the last write. */
  datatype Op = Put(bytes: seq<byte>) | Get(n: nat) | Look(n: nat) | Undo(n: nat)

  datatype Effects = Effects(out: seq<byte>, q: seq<byte>, recent: seq<byte>)

  /** What a call does when the queue is just a sequence q; recent holds what was read since the last write. */
  function Effect(op: Op, q: seq<byte>, recent: seq<byte>): Effects {
    match op
    case Put(b) => Effects([], q + b, [])
    case Get(n) => var m := Least(|q|, n); Effects(q[..m], q[m..], recent + q[..m])
    case Look(n) => Effects(q[..Least(|q|, n)], q, recent)
    case Undo(n) =>
      var m := if n <= |recent| then |recent| - n else 0;
      Effects([], recent[m..] + q, recent[..m])
  }

  /** What a run delivers. */
  function Outputs(q: seq<byte>, recent: seq<byte>, ops: seq<Op>): seq<seq<byte>>
    decreases |ops|
  {
    if ops == [] then []
    else
      var e := Effect(ops[0], q, recent);
      [e.out] + Outputs(e.q, e.recent, ops[1..])
  }

  function AllocationAfter(op: Op, allocation: nat, q: seq<byte>): nat {
    if op.Put? then NewLength(allocation, |q|, |op.bytes|) else allocation
  }

  /** The run never asks for more than 32 bits of space and never takes back more than was read. */
  ghost predicate Allowed(allocation: nat, q: seq<byte>, recent: seq<byte>, ops: seq<Op>)
    decreases |ops|
  {
    ops != [] ==>
      var e := Effect(ops[0], q, recent);
      && AllocationAfter(ops[0], allocation, q) < TWO32 && (ops[0].Undo? ==> ops[0].n <= |recent|)
      && Allowed(AllocationAfter(ops[0], allocation, q), e.q, e.recent, ops[1..])
  }

  /** The bytes read since the last write are still in the buffer, right behind the read position. */
  ghost predicate Keeps(queue: ByteQueue, recent: seq<byte>)
    reads queue, queue.data
    requires queue.Valid()
  {
    && (recent != [] ==> |recent| + |queue.Contents()| < queue.lengthAllocated)
    && (recent != [] ==> queue.Before(|recent|) == recent)
  }

  lemma KeepsNothing(queue: ByteQueue)
    requires queue.Valid()
    ensures Keeps(queue, [])
  {}

  /** One client call on the real queue. */
  method Perform(queue: ByteQueue, op: Op, ghost recent: seq<byte>) returns (out: seq<byte>, ghost recent': seq<byte>)
    requires queue.Valid() && Keeps(queue, recent)
    requires AllocationAfter(op, queue.lengthAllocated, queue.Contents()) < TWO32 && (op.Undo? ==> op.n <= |recent|)
    modifies queue, queue.data
    ensures queue.Valid() && Keeps(queue, recent') && (queue.data == old(queue.data) || fresh(queue.data))
    ensures queue.lengthAllocated == AllocationAfter(op, old(queue.lengthAllocated), old(queue.Contents()))
    ensures Effects(out, queue.Contents(), recent') == Effect(op, old(queue.Contents()), recent)
  {
    hide Ring, Behind;
    out, recent' := [], recent;
    match op
    case Put(b) =>
      queue.WriteBytes(b);
      recent' := [];
    case Get(n) =>
      out, recent' := Take(queue, n, recent);
    case Look(n) =>
      var buffer := new byte[n](_ => 0);
      var m := queue.GetBytesWritten();
      var _ := queue.ReadBytes(buffer, n, true);
      out := buffer[..Least(m, n)];
    case Undo(n) =>
      if n > 0 {
        recent' := recent[..|recent| - n];
        BehindRetreat(queue.data[..], queue.readOffset, |recent|, n);
        queue.DecrementReadOffset(n);
      } else {
        assert recent[|recent|..] + queue.Contents() == queue.Contents() && recent[..|recent|] == recent;
      }
  }

  method Take(queue: ByteQueue, n: nat, ghost recent: seq<byte>) returns (out: seq<byte>, ghost recent': seq<byte>)
    requires queue.Valid() && Keeps(queue, recent)
    modifies queue`readOffset
    ensures queue.Valid() && Keeps(queue, recent')
    ensures var q := old(queue.Contents());
            var m := Least(|q|, n);
            out == q[..m] && queue.Contents() == q[m..] && recent' == recent + q[..m]
  {
    hide Ring, Behind;
    ghost var q := queue.Contents();
    var buffer := new byte[n](_ => 0);
    var m := queue.GetBytesWritten();
    m := Least(m, n);
    if m > 0 {
      BehindAdvance(queue.data[..], queue.readOffset, queue.writeOffset, |recent|, m);
      BehindNothing(queue.data[..], queue.readOffset);
    }
    var _ := queue.ReadBytes(buffer, n, false);
    out := buffer[..m];
    recent' := recent + q[..m];
  }

  lemma BehindNothing(s: seq<byte>, r: nat)
    requires r <= |s|
    ensures Behind(s, r, 0) == []
  {}

  /** Every allowed run of the circular buffer delivers exactly what the plain sequence delivers. */
  method Run(queue: ByteQueue, ops: seq<Op>) returns (outs: seq<seq<byte>>)
    requires queue.Valid() && Allowed(queue.lengthAllocated, queue.Contents(), [], ops)
    modifies queue, queue.data
    ensures queue.Valid() && outs == Outputs(old(queue.Contents()), [], ops)
  {
    hide Ring, Behind, AllocationAfter, Keeps, Effect;
    KeepsNothing(queue);
    ghost var recent: seq<byte> := [];
    ghost var goal := Outputs(queue.Contents(), recent, ops);
    outs := [];
    assert ops[0..] == ops && [] + goal == goal;
    for i := 0 to |ops|
      invariant queue.Valid() && Keeps(queue, recent) && (queue.data == old(queue.data) || fresh(queue.data))
      invariant Allowed(queue.lengthAllocated, queue.Contents(), recent, ops[i..])
      invariant outs + Outputs(queue.Contents(), recent, ops[i..]) == goal
    {
      assert ops[i..][1..] == ops[i + 1..];
      ghost var rest := Outputs(queue.Contents(), recent, ops[i..]);
      var out: seq<byte>;
      out, recent := Perform(queue, ops[i], recent);
      assert rest == [out] + Outputs(queue.Contents(), recent, ops[i + 1..]);
      outs := outs + [out];
    }
    assert ops[|ops|..] == [] && outs + [] == outs;
  }

  function Least(a: nat, b: nat): nat { if a < b then a else b }
}
