/** The variable-length code of BitStream::WriteCompressed: high bytes equal to the fill byte cost one bit. */
module Compression {
  import opened Bits

  function ByteMatch(unsignedData: bool): byte { if unsignedData then 0 else 0xFF }

  function HalfByteMatch(unsignedData: bool): byte { if unsignedData then 0 else 0xF0 }

  predicate HighNibbleMatches(b: byte, unsignedData: bool) { b & 0xF0 == HalfByteMatch(unsignedData) }

  /** The code written for bytes, stored low byte first. */
  ghost function CompressedBits(bytes: seq<byte>, unsignedData: bool): (bits: seq<bool>)
    requires |bytes| > 0
  {
    var top := |bytes| - 1;
    if top > 0 then
      if bytes[top] == ByteMatch(unsignedData)
      then [true] + CompressedBits(bytes[..top], unsignedData)
      else [false] + Payload(bytes, 8 * |bytes|, true)
    else if HighNibbleMatches(bytes[0], unsignedData)
    then [true] + Payload(bytes, 4, true)
    else [false] + Payload(bytes, 8, true)
  }

  lemma CompressedOne(bytes: seq<byte>, top: nat, unsignedData: bool)
    requires 0 < top < |bytes| && bytes[top] == ByteMatch(unsignedData)
    ensures CompressedBits(bytes[..top + 1], unsignedData) == [true] + CompressedBits(bytes[..top], unsignedData)
  {
    hide Payload;
    assert bytes[..top + 1][..top] == bytes[..top];
  }

  lemma CompressedWhole(bytes: seq<byte>, top: nat, unsignedData: bool)
    requires 0 < top < |bytes| && bytes[top] != ByteMatch(unsignedData)
    ensures |CompressedBits(bytes[..top + 1], unsignedData)| == 1 + 8 * (top + 1)
  {
    hide Payload;
  }

  /** How many bits a reader of k bytes asks for, given the bits it can see. */
  ghost function Needed(bits: seq<bool>, k: nat): (n: nat)
    requires k > 0
    ensures n > 0
  {
    if bits == [] then 1
    else if k == 1 then if bits[0] then 5 else 9
    else if bits[0] then 1 + Needed(bits[1..], k - 1)
    else 1 + 8 * k
  }

  /** The bits decode to bytes. */
  ghost predicate Decodes(bits: seq<bool>, bytes: seq<byte>, unsignedData: bool)
    requires |bytes| > 0
  {
    var top := |bytes| - 1;
    && bits != []
    && if top > 0 then
         if bits[0]
         then bytes[top] == ByteMatch(unsignedData) && Decodes(bits[1..], bytes[..top], unsignedData)
         else bits[1..] == Payload(bytes, 8 * |bytes|, true)
       else if bits[0]
       then HighNibbleMatches(bytes[0], unsignedData) && bits[1..] == Payload(bytes, 4, true)
       else bits[1..] == Payload(bytes, 8, true)
  }

  /** A reader facing the code of bytes asks for exactly the code, and the code decodes to bytes. */
  lemma {:induction false} CompressedDecodes(bytes: seq<byte>, unsignedData: bool, rest: seq<bool>)
    requires |bytes| > 0
    ensures Decodes(CompressedBits(bytes, unsignedData), bytes, unsignedData)
    ensures Needed(CompressedBits(bytes, unsignedData) + rest, |bytes|) == |CompressedBits(bytes, unsignedData)|
  {
    hide Payload, HighNibbleMatches;
    var bits, top := CompressedBits(bytes, unsignedData), |bytes| - 1;
    assert (bits + rest)[1..] == bits[1..] + rest;
    if top > 0 && bytes[top] == ByteMatch(unsignedData) {
      assert bits[1..] == CompressedBits(bytes[..top], unsignedData);
      CompressedDecodes(bytes[..top], unsignedData, rest);
    }
  }

  /** No two byte strings of one length share a decoding. */
  lemma {:induction false} DecodesUnique(bits: seq<bool>, a: seq<byte>, b: seq<byte>, unsignedData: bool)
    requires |a| == |b| > 0
    requires Decodes(bits, a, unsignedData) && Decodes(bits, b, unsignedData)
    ensures a == b
  {
    hide Payload, HighNibbleMatches;
    var top := |a| - 1;
    if top > 0 && bits[0] {
      DecodesUnique(bits[1..], a[..top], b[..top], unsignedData);
      assert a == a[..top] + [a[top]] && b == b[..top] + [b[top]];
    } else if bits[0] {
      NibbleDetermines(a[0], b[0], unsignedData) by {
        assert a == [a[0]] && b == [b[0]];
      }
    } else {
      PayloadDetermines(a, b, |a|, true);
    }
  }

  lemma NibbleDetermines(a: byte, b: byte, unsignedData: bool)
    requires Payload([a], 4, true) == Payload([b], 4, true)
    requires HighNibbleMatches(a, unsignedData) && HighNibbleMatches(b, unsignedData)
    ensures a == b
  {
    forall k | 4 <= k < 8
      ensures BitOf(a, k) == BitOf(b, k)
    {
      hide BitOf;
      assert Payload([a], 4, true)[k - 4] == Payload([b], 4, true)[k - 4];
    }
    assert BitOf(a, 4) == BitOf(b, 4) && BitOf(a, 5) == BitOf(b, 5);
    assert BitOf(a, 6) == BitOf(b, 6) && BitOf(a, 7) == BitOf(b, 7);
  }

  /** What a reader of a stream that goes on with the code of bytes gets: it asks for exactly the code, which is there,
      and the only bytes it can decode are the ones written. */
  lemma CompressedRoundTrip(bytes: seq<byte>, out: seq<byte>, unsignedData: bool, rest: seq<bool>)
    requires |bytes| == |out| > 0
    ensures Needed(CompressedBits(bytes, unsignedData) + rest, |out|) == |CompressedBits(bytes, unsignedData)|
    ensures Decodes((CompressedBits(bytes, unsignedData) + rest)[..|CompressedBits(bytes, unsignedData)|], out,
            unsignedData)
            <==> out == bytes
  {
    hide CompressedBits, Decodes, Needed;
    var code := CompressedBits(bytes, unsignedData);
    CompressedDecodes(bytes, unsignedData, rest);
    assert (code + rest)[..|code|] == code;
    if Decodes(code, out, unsignedData) {
      DecodesUnique(code, out, bytes, unsignedData);
    }
  }

  /** Between k + 4 and 8k + 1 bits for k bytes. */
  lemma {:induction false} CompressedLength(bytes: seq<byte>, unsignedData: bool)
    requires |bytes| > 0
    ensures |bytes| + 4 <= |CompressedBits(bytes, unsignedData)| <= 8 * |bytes| + 1
  {
    hide Payload, HighNibbleMatches;
    var top := |bytes| - 1;
    if top > 0 && bytes[top] == ByteMatch(unsignedData) {
      CompressedLength(bytes[..top], unsignedData);
    }
  }

  /** The code bit by bit: a one for each of the j top bytes that are 0x00, or 0xFF in the signed form, then a zero and
      the other bytes as they are. Only the lowest byte is treated apart: there the high nibble decides. */
  lemma {:induction false} CodeIs(bytes: seq<byte>, unsignedData: bool, j: nat)
    requires j < |bytes|
    requires forall i :: |bytes| - j <= i < |bytes| ==> bytes[i] == if unsignedData then 0x00 else 0xFF
    requires j + 1 < |bytes| ==> bytes[|bytes| - 1 - j] != if unsignedData then 0x00 else 0xFF
    ensures var code, left := CompressedBits(bytes, unsignedData), |bytes| - j;
            && j < |code| && (forall i :: 0 <= i < j ==> code[i])
            && (left > 1 ==>
                  |code| == j + 1 + 8 * left && !code[j] && code[j + 1..] == Payload(bytes[..left], 8 * left, true))
            && (left == 1 && bytes[0] & 0xF0 == (if unsignedData then 0x00 else 0xF0) ==>
                  |code| == j + 5 && code[j] && code[j + 1..] == Payload([bytes[0]], 4, true))
            && (left == 1 && bytes[0] & 0xF0 != (if unsignedData then 0x00 else 0xF0) ==>
                  |code| == j + 9 && !code[j] && code[j + 1..] == Payload([bytes[0]], 8, true))
  {
    hide Payload;
    var code, top := CompressedBits(bytes, unsignedData), |bytes| - 1;
    if j == 0 {
      assert bytes[..|bytes|] == bytes && (|bytes| == 1 ==> bytes == [bytes[0]]);
    } else {
      var less := CompressedBits(bytes[..top], unsignedData);
      CodeIs(bytes[..top], unsignedData, j - 1);
      assert code == [true] + less;
      assert bytes[..top][..|bytes| - j] == bytes[..|bytes| - j];
      assert code[j + 1..] == less[j..];
    }
  }

  /** The nibble read back and filled up to a whole byte. */
  lemma FillNibble(b: byte, unsignedData: bool)
    requires forall k :: 0 <= k < 4 ==> !BitOf(b, k)
    ensures HighNibbleMatches(b | HalfByteMatch(unsignedData), unsignedData)
    ensures forall k :: 4 <= k < 8 ==> BitOf(b | HalfByteMatch(unsignedData), k) == BitOf(b, k)
  {
    assert !BitOf(b, 0) && !BitOf(b, 1) && !BitOf(b, 2) && !BitOf(b, 3);
  }

  lemma FillNibblePayload(b: byte, bits: seq<bool>, unsignedData: bool)
    requires |bits| == 4 && Unpacked([b], bits, true)
    ensures HighNibbleMatches(b | HalfByteMatch(unsignedData), unsignedData)
    ensures Payload([b | HalfByteMatch(unsignedData)], 4, true) == bits
  {
    hide BitOf, HighNibbleMatches, HalfByteMatch;
    var c := b | HalfByteMatch(unsignedData);
    FillNibble(b, unsignedData);
    assert forall i :: 0 <= i < 4 ==> Payload([c], 4, true)[i] == Payload([b], 4, true)[i];
  }

  /** Leading ones stand for high bytes equal to the fill byte. */
  lemma {:induction false} SkipOnes(bits: seq<bool>, bytes: seq<byte>, unsignedData: bool, j: nat)
    requires j < |bytes| && j <= |bits|
    requires forall i :: 0 <= i < j ==> bits[i]
    requires forall k :: |bytes| - j <= k < |bytes| ==> bytes[k] == ByteMatch(unsignedData)
    ensures Needed(bits, |bytes|) == j + Needed(bits[j..], |bytes| - j)
    ensures Decodes(bits[j..], bytes[..|bytes| - j], unsignedData) ==> Decodes(bits, bytes, unsignedData)
  {
    hide Payload, HighNibbleMatches;
    if j == 0 {
      assert bits[0..] == bits && bytes[..|bytes|] == bytes;
    } else {
      var top := |bytes| - 1;
      SkipOnes(bits[1..], bytes[..top], unsignedData, j - 1);
      assert bits[1..][j - 1..] == bits[j..];
      assert bytes[..top][..top - (j - 1)] == bytes[..|bytes| - j];
    }
  }
}
