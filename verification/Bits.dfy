/** Bytes as 8-bit vectors, and the flat bit sequence a byte buffer stands for: bit 0 is the
    most significant bit (0x80) of the first byte. */
module Bits {

  type byte = bv8

  /** The unsigned char with value n mod 256, and the value of an unsigned char. */
  function AsByte(n: nat): byte { if n < 256 then n as byte else (n % 256) as byte }

  function Value(b: byte): (n: nat)
    ensures n < 256
  {
    b as nat
  }

  lemma AsByteValue(b: byte)
    ensures AsByte(Value(b)) == b
  {}

  lemma ValueAsByte(n: nat)
    requires n < 256
    ensures Value(AsByte(n)) == n
  {
    CastBack(n);
  }

  lemma CastBack(n: nat)
    requires n < 256
    ensures (n as byte) as nat == n
  {
    var b := ByteOf(n);
    assert (b as nat) as byte == b;
  }

  /** Every number below 256 is the value of a byte. */
  lemma {:induction false} ByteOf(n: nat) returns (b: byte)
    requires n < 256
    ensures b as nat == n
  {
    if n == 0 {
      b := 0;
    } else {
      var less := ByteOf(n - 1);
      b := less + 1;
    }
  }

  function Mask(k: nat): byte
    requires k < 8
  {
    if k == 0 then 0x80 else if k == 1 then 0x40 else if k == 2 then 0x20 else if k == 3 then 0x10
    else if k == 4 then 0x08 else if k == 5 then 0x04 else if k == 6 then 0x02 else 0x01
  }

  predicate BitOf(b: byte, k: nat)
    requires k < 8
  {
    b & Mask(k) != 0
  }

  function OneIf(bit: bool): nat { if bit then 1 else 0 }

  /** The bits of a byte are its binary digits, the most significant first. */
  lemma ByteDigits(b: byte)
    ensures b as int == 128 * OneIf(BitOf(b, 0)) + 64 * OneIf(BitOf(b, 1)) + 32 * OneIf(BitOf(b, 2))
                        + 16 * OneIf(BitOf(b, 3)) + 8 * OneIf(BitOf(b, 4)) + 4 * OneIf(BitOf(b, 5))
                        + 2 * OneIf(BitOf(b, 6)) + OneIf(BitOf(b, 7))
  {}

  /** b >> m and b << m for a variable shift amount. */
  function Shr(b: byte, m: nat): byte
    requires m <= 8
  {
    if m == 0 then b else if m == 1 then b >> 1 else if m == 2 then b >> 2 else if m == 3 then b >> 3
    else if m == 4 then b >> 4 else if m == 5 then b >> 5 else if m == 6 then b >> 6 else if m == 7 then b >> 7
    else 0
  }

  function Shl(b: byte, m: nat): byte
    requires m <= 8
  {
    if m == 0 then b else if m == 1 then b << 1 else if m == 2 then b << 2 else if m == 3 then b << 3
    else if m == 4 then b << 4 else if m == 5 then b << 5 else if m == 6 then b << 6 else if m == 7 then b << 7
    else 0
  }

  lemma BitOfOr(a: byte, b: byte, k: nat)
    requires k < 8
    ensures BitOf(a | b, k) <==> BitOf(a, k) || BitOf(b, k)
  {}

  lemma BitOfShr(b: byte, m: nat, k: nat)
    requires k < 8 && m <= 8
    ensures BitOf(Shr(b, m), k) <==> k >= m && BitOf(b, k - m)
  {}

  lemma BitOfShl(b: byte, m: nat, k: nat)
    requires k < 8 && m <= 8
    ensures BitOf(Shl(b, m), k) <==> k + m < 8 && BitOf(b, k + m)
  {}

  lemma BitOfMask(j: nat, k: nat)
    requires j < 8 && k < 8
    ensures BitOf(Mask(j), k) <==> j == k
  {}

  lemma ZeroOr(b: byte)
    ensures 0 | b == b
  {}

  lemma BitOfZero(k: nat)
    requires k < 8
    ensures !BitOf(0, k)
  {}

  /** A byte is determined by its eight bits. */
  lemma SameBits(a: byte, b: byte)
    requires forall k :: 0 <= k < 8 ==> BitOf(a, k) == BitOf(b, k)
    ensures a == b
  {
    assert BitOf(a, 0) == BitOf(b, 0) && BitOf(a, 1) == BitOf(b, 1);
    assert BitOf(a, 2) == BitOf(b, 2) && BitOf(a, 3) == BitOf(b, 3);
    assert BitOf(a, 4) == BitOf(b, 4) && BitOf(a, 5) == BitOf(b, 5);
    assert BitOf(a, 6) == BitOf(b, 6) && BitOf(a, 7) == BitOf(b, 7);
  }

  function BytesFor(bits: nat): nat { (bits + 7) / 8 }

  predicate BitAt(s: seq<byte>, i: nat)
    requires i < 8 * |s|
  {
    BitOf(s[i / 8], i % 8)
  }

  /** The first n bits of a buffer. */
  ghost function BitsOf(s: seq<byte>, n: nat): (bits: seq<bool>)
    requires n <= 8 * |s|
    ensures |bits| == n
  {
    seq(n, i requires 0 <= i < n => BitAt(s, i))
  }

  /** The bits from n to the end of n's byte are zero. */
  ghost predicate CleanAfter(s: seq<byte>, n: nat)
    requires n <= 8 * |s|
  {
    forall i :: n <= i < 8 * BytesFor(n) ==> !BitAt(s, i)
  }

  /** The n bits meant by a caller's buffer. A final partial byte holds them at its right end when
      rightAligned, otherwise at its left end. */
  ghost function Payload(input: seq<byte>, n: nat, rightAligned: bool): (bits: seq<bool>)
    requires n <= 8 * |input|
    ensures |bits| == n
  {
    seq(n, i requires 0 <= i < n =>
      if rightAligned && i >= n / 8 * 8 then BitOf(input[i / 8], 8 - n % 8 + i % 8) else BitAt(input, i))
  }

  /** What one round of the shifting write loop stores: the top cnt bits of b at bit offset used. */
  function PutByte(s: seq<byte>, used: nat, b: byte, cnt: nat): (s': seq<byte>)
    requires 0 < cnt <= 8 && used + cnt <= 8 * |s|
    ensures |s'| == |s|
  {
    var p, m := used / 8, used % 8;
    if m == 0 then s[p := b]
    else
      var first := s[p := s[p] | Shr(b, m)];
      if 8 - m < cnt then first[p + 1 := Shl(b, 8 - m)] else first
  }

  lemma BitAtIndex(s: seq<byte>, p: nat, k: nat)
    requires p < |s| && k < 8
    ensures 8 * p + k < 8 * |s| && BitAt(s, 8 * p + k) == BitOf(s[p], k)
  {}

  /** The byte that the top of b goes to, bit by bit. */
  lemma FirstByteBit(s: seq<byte>, used: nat, b: byte, k: nat)
    requires used < 8 * |s| && CleanAfter(s, used) && k < 8 && used % 8 > 0
    ensures var m := used % 8; BitOf(s[used / 8] | Shr(b, m), k) == if k < m then BitOf(s[used / 8], k)
            else BitOf(b, k - m)
  {
    hide BitOf, Shr;
    var p, m := used / 8, used % 8;
    BitOfOr(s[p], Shr(b, m), k);
    BitOfShr(b, m, k);
    BitAtIndex(s, p, k);
    assert k >= m ==> used <= 8 * p + k < 8 * BytesFor(used);
  }

  /** Round of the write loop, bit by bit. */
  lemma PutByteBit(s: seq<byte>, used: nat, b: byte, cnt: nat, i: nat)
    requires 0 < cnt <= 8 && used + cnt <= 8 * |s| && i < 8 * |s|
    requires CleanAfter(s, used)
    ensures i < used ==> BitAt(PutByte(s, used, b, cnt), i) == BitAt(s, i)
    ensures used <= i < used + 8 && i < 8 * BytesFor(used + cnt) ==>
              BitAt(PutByte(s, used, b, cnt), i) == BitOf(b, i - used)
    ensures used + 8 <= i && i < 8 * BytesFor(used + cnt) ==> !BitAt(PutByte(s, used, b, cnt), i)
  {
    hide BitOf, Shr, Shl, CleanAfter;
    var p, m, q, k := used / 8, used % 8, i / 8, i % 8;
    var s' := PutByte(s, used, b, cnt);
    if q == p && m > 0 {
      FirstByteBit(s, used, b, k);
      assert s'[p] == s[p] | Shr(b, m);
    } else if q == p + 1 && m > 0 && 8 - m < cnt {
      BitOfShl(b, 8 - m, k);
      assert s'[q] == Shl(b, 8 - m);
    }
  }

  lemma PutByteBits(s: seq<byte>, used: nat, b: byte, cnt: nat)
    requires 0 < cnt <= 8 && used + cnt <= 8 * |s|
    requires CleanAfter(s, used)
    ensures var s' := PutByte(s, used, b, cnt);
            BitsOf(s', used + cnt) == BitsOf(s, used) + BitsOf([b], cnt)
    ensures CleanAfter([b], cnt) ==> CleanAfter(PutByte(s, used, b, cnt), used + cnt)
    ensures cnt == 8 ==> CleanAfter(PutByte(s, used, b, cnt), used + cnt)
  {
    hide BitOf, PutByte;
    var s' := PutByte(s, used, b, cnt);
    forall i | 0 <= i < used + cnt
      ensures BitsOf(s', used + cnt)[i] == (BitsOf(s, used) + BitsOf([b], cnt))[i]
    {
      PutByteBit(s, used, b, cnt, i);
    }
    forall i | used + cnt <= i < 8 * BytesFor(used + cnt) && (cnt == 8 || CleanAfter([b], cnt))
      ensures !BitAt(s', i)
    {
      PutByteBit(s, used, b, cnt, i);
      if i < used + 8 {
        assert BitAt([b], i - used) == BitOf(b, i - used);
      }
    }
  }

  /** Only the bytes that hold the first n bits matter. */
  lemma SamePrefix(s: seq<byte>, t: seq<byte>, n: nat)
    requires BytesFor(n) <= |s| && BytesFor(n) <= |t|
    requires s[..BytesFor(n)] == t[..BytesFor(n)]
    ensures BitsOf(s, n) == BitsOf(t, n)
    ensures CleanAfter(s, n) <==> CleanAfter(t, n)
  {
    hide BitOf;
    forall i | 0 <= i < 8 * BytesFor(n)
      ensures BitAt(s, i) == BitAt(t, i)
    {
      assert s[i / 8] == s[..BytesFor(n)][i / 8] == t[..BytesFor(n)][i / 8];
    }
  }

  lemma Eighths(q: nat, r: nat)
    requires r < 8
    ensures (8 * q + r) / 8 == q && (8 * q + r) % 8 == r
  {}

  /** Whole bytes copied to a byte boundary. */
  lemma CopiedBytes(s: seq<byte>, s': seq<byte>, p: nat, input: seq<byte>, count: nat, rightAligned: bool)
    requires |s| == |s'| && count <= |input| && p + count <= |s|
    requires forall i :: 0 <= i < p ==> s'[i] == s[i]
    requires forall i :: 0 <= i < count ==> s'[p + i] == input[i]
    ensures BitsOf(s', 8 * (p + count)) == BitsOf(s, 8 * p) + Payload(input, 8 * count, rightAligned)
    ensures CleanAfter(s', 8 * (p + count))
  {
    hide BitOf, BitsOf, Payload;
    BitsOfIndex(s', 8 * (p + count));
    BitsOfIndex(s, 8 * p);
    Eighths(count, 0);
    forall i | 0 <= i < 8 * (p + count)
      ensures BitsOf(s', 8 * (p + count))[i] == (BitsOf(s, 8 * p) + Payload(input, 8 * count, rightAligned))[i]
    {
      if i >= 8 * p {
        var j := i - 8 * p;
        var q, r := j / 8, j % 8;
        PayloadAt(input, 8 * count, rightAligned, j);
        Eighths(p + q, r);
        assert i == 8 * (p + q) + r && s'[p + q] == input[q];
      }
    }
  }

  /** One round of the shifting loop appends the next cnt (at most eight) payload bits. */
  lemma WriteRound(s: seq<byte>, used: nat, input: seq<byte>, n: nat, rightAligned: bool, next: nat, cnt: nat)
    requires 8 * next < n <= 8 * |input| && cnt == (if n - 8 * next < 8 then n - 8 * next else 8)
    requires used + cnt <= 8 * |s| && CleanAfter(s, used)
    ensures var s' := PutByte(s, used, RoundByte(input, n, rightAligned, next), cnt);
            && BitsOf(s', used + cnt) == BitsOf(s, used) + Payload(input, n, rightAligned)[8 * next..8 * next + cnt]
            && (cnt == 8 || rightAligned || CleanAfter(input, n) ==> CleanAfter(s', used + cnt))
  {
    hide *;
    PutByteBits(s, used, RoundByte(input, n, rightAligned, next), cnt);
    PayloadByte(input, n, rightAligned, next, cnt);
  }

  /** The byte a round works with: a right-aligned partial byte is moved to the left first. */
  function RoundByte(input: seq<byte>, n: nat, rightAligned: bool, next: nat): byte
    requires 8 * next < n <= 8 * |input|
  {
    if n - 8 * next < 8 && rightAligned then Shl(input[next], 8 - (n - 8 * next)) else input[next]
  }

  lemma OneByteClean(b: byte, cnt: nat)
    requires 0 < cnt <= 8
    ensures CleanAfter([b], cnt) <==> forall k :: cnt <= k < 8 ==> !BitAt([b], k)
  {}

  lemma PayloadByte(input: seq<byte>, n: nat, rightAligned: bool, next: nat, cnt: nat)
    requires 8 * next < n <= 8 * |input| && cnt == (if n - 8 * next < 8 then n - 8 * next else 8)
    ensures BitsOf([RoundByte(input, n, rightAligned, next)], cnt)
            == Payload(input, n, rightAligned)[8 * next..8 * next + cnt]
    ensures cnt == 8 || rightAligned || CleanAfter(input, n)
            ==> CleanAfter([RoundByte(input, n, rightAligned, next)], cnt)
  {
    hide BitOf, Shl, RoundByte, Payload, CleanAfter, BytesFor;
    OneByteClean(RoundByte(input, n, rightAligned, next), cnt);
    var b := RoundByte(input, n, rightAligned, next);
    forall k: nat | k < 8
      ensures BitAt([b], k) == BitOf(b, k)
      ensures k < cnt ==> BitOf(b, k) == Payload(input, n, rightAligned)[8 * next + k]
      ensures k >= cnt && (rightAligned || CleanAfter(input, n)) ==> !BitOf(b, k)
    {
      PayloadBit(input, n, rightAligned, next, k);
    }
  }

  lemma PayloadBit(input: seq<byte>, n: nat, rightAligned: bool, next: nat, k: nat)
    requires 8 * next < n <= 8 * |input| && k < 8
    ensures 8 * next + k < n ==>
              BitOf(RoundByte(input, n, rightAligned, next), k) == Payload(input, n, rightAligned)[8 * next + k]
    ensures 8 * next + k >= n && (rightAligned || CleanAfter(input, n))
            ==> !BitOf(RoundByte(input, n, rightAligned, next), k)
  {
    hide BitOf, Shl;
    var left := n - 8 * next;
    assert (8 * next + k) / 8 == next && (8 * next + k) % 8 == k;
    if left < 8 {
      assert n / 8 == next && n % 8 == left;
      if rightAligned {
        BitOfShl(input[next], 8 - left, k);
      } else if k >= left {
        assert BitAt(input, 8 * next + k) == BitOf(input[next], k);
      }
    } else if 8 * next + k < n {
      assert n / 8 >= next + 1;
    }
  }

  /** The state of the shifting loop after done bits: s is before with those payload bits appended at start. */
  ghost predicate Written(before: seq<byte>, s: seq<byte>, start: nat, input: seq<byte>, n: nat, rightAligned: bool,
      done: nat)
    requires done <= n <= 8 * |input| && start + n <= 8 * |before|
  {
    && |s| == |before|
    && BitsOf(s, start + done) == BitsOf(before, start) + Payload(input, n, rightAligned)[..done]
    && (done < n || rightAligned || CleanAfter(input, n) ==> CleanAfter(s, start + done))
    && s[BytesFor(start + n)..] == before[BytesFor(start + n)..]
  }

  lemma WrittenNothing(before: seq<byte>, start: nat, input: seq<byte>, n: nat, rightAligned: bool)
    requires n <= 8 * |input| && start + n <= 8 * |before| && CleanAfter(before, start)
    ensures Written(before, before, start, input, n, rightAligned, 0)
  {}

  lemma PutByteTail(s: seq<byte>, used: nat, b: byte, cnt: nat, end: nat)
    requires 0 < cnt <= 8 && used + cnt <= end <= 8 * |s|
    ensures PutByte(s, used, b, cnt)[BytesFor(end)..] == s[BytesFor(end)..]
  {
    hide Shr, Shl;
  }

  lemma WrittenRound(before: seq<byte>, s: seq<byte>, start: nat, input: seq<byte>, n: nat, rightAligned: bool,
      next: nat)
    requires 8 * next < n <= 8 * |input| && start + n <= 8 * |before| && |s| == |before|
    requires Written(before, s, start, input, n, rightAligned, 8 * next)
    ensures var cnt := if n - 8 * next < 8 then n - 8 * next else 8;
            Written(before, PutByte(s, start + 8 * next, RoundByte(input, n, rightAligned, next), cnt),
                    start, input, n, rightAligned, 8 * next + cnt)
  {
    hide BitsOf, CleanAfter, Payload, RoundByte, PutByte, BytesFor;
    var cnt := if n - 8 * next < 8 then n - 8 * next else 8;
    var payload := Payload(input, n, rightAligned);
    WriteRound(s, start + 8 * next, input, n, rightAligned, next, cnt);
    PutByteTail(s, start + 8 * next, RoundByte(input, n, rightAligned, next), cnt, start + n);
    assert payload[..8 * next] + payload[8 * next..8 * next + cnt] == payload[..8 * next + cnt];
  }

  lemma WrittenAll(before: seq<byte>, s: seq<byte>, start: nat, input: seq<byte>, n: nat, rightAligned: bool)
    requires n <= 8 * |input| && start + n <= 8 * |before| && |s| == |before|
    requires Written(before, s, start, input, n, rightAligned, n)
    ensures BitsOf(s, start + n) == BitsOf(before, start) + Payload(input, n, rightAligned)
    ensures rightAligned || CleanAfter(input, n) ==> CleanAfter(s, start + n)
    ensures s[BytesFor(start + n)..] == before[BytesFor(start + n)..]
  {}

  // ----- Reading -----

  /** What one round of the read loop assembles from bit offset from, with left bits still to read. */
  function TakeByte(s: seq<byte>, from: nat, left: nat, rightAligned: bool): byte
    requires 0 < left && from + left <= 8 * |s|
  {
    var p, m := from / 8, from % 8;
    var whole := if m > 0 && left > 8 - m then Shl(s[p], m) | Shr(s[p + 1], 8 - m) else Shl(s[p], m);
    if left < 8 && rightAligned then Shr(whole, 8 - left) else whole
  }

  lemma TakeByteBit(s: seq<byte>, from: nat, left: nat, k: nat)
    requires 0 < left && from + left <= 8 * |s| && k < 8 && k < left
    ensures BitOf(TakeByte(s, from, left, false), k) == BitAt(s, from + k)
  {
    hide BitOf, Shr, Shl;
    var p, m := from / 8, from % 8;
    BitOfShl(s[p], m, k);
    if m + k < 8 {
      assert BitAt(s, from + k) == BitOf(s[p], m + k);
    } else {
      assert BitAt(s, from + k) == BitOf(s[p + 1], m + k - 8);
    }
    if m > 0 && left > 8 - m {
      BitOfShr(s[p + 1], 8 - m, k);
      BitOfOr(Shl(s[p], m), Shr(s[p + 1], 8 - m), k);
    }
  }

  /** A partial byte moved to the right end holds its bits there and zeros before them. */
  lemma TakeByteRight(s: seq<byte>, from: nat, left: nat, k: nat)
    requires 0 < left < 8 && from + left <= 8 * |s| && k < 8
    ensures BitOf(TakeByte(s, from, left, true), k) == (k >= 8 - left && BitAt(s, from + k - (8 - left)))
  {
    hide BitOf, Shr, Shl;
    var whole := TakeByte(s, from, left, false);
    BitOfShr(whole, 8 - left, k);
    if k >= 8 - left {
      TakeByteBit(s, from, left, k - (8 - left));
    }
  }

  /** out holds the n given bits in a caller's form; the spare bits of a right-aligned partial byte are zero. */
  ghost predicate Unpacked(out: seq<byte>, bits: seq<bool>, rightAligned: bool)
    requires |out| == BytesFor(|bits|)
  {
    && Payload(out, |bits|, rightAligned) == bits
    && (rightAligned ==> forall k :: 0 <= k < 8 && |bits| % 8 != 0 && k < 8 - |bits| % 8 ==> !BitOf(out[|bits| / 8], k))
  }

  lemma UnpackedRounds(out: seq<byte>, s: seq<byte>, from: nat, n: nat, rightAligned: bool)
    requires 0 < n && from + n <= 8 * |s| && |out| == BytesFor(n)
    requires forall k :: 0 <= k < |out| ==> out[k] == TakeByte(s, from + 8 * k, n - 8 * k, rightAligned)
    ensures Unpacked(out, BitsOf(s, from + n)[from..], rightAligned)
  {
    hide BitOf, TakeByte, BitsOf;
    var bits := BitsOf(s, from + n)[from..];
    forall i | 0 <= i < n
      ensures Payload(out, n, rightAligned)[i] == BitAt(s, from + i)
    {
      UnpackedBit(out, s, from, n, rightAligned, i);
    }
    BitsOfIndex(s, from + n);
    assert Payload(out, n, rightAligned) == bits;
    if rightAligned && n % 8 != 0 {
      forall k | 0 <= k < 8 - n % 8
        ensures !BitOf(out[n / 8], k)
      {
        TakeByteRight(s, from + 8 * (n / 8), n % 8, k);
      }
    }
  }

  lemma BitsOfIndex(s: seq<byte>, n: nat)
    requires n <= 8 * |s|
    ensures forall i :: 0 <= i < n ==> BitsOf(s, n)[i] == BitAt(s, i)
  {}

  lemma PayloadAt(input: seq<byte>, n: nat, rightAligned: bool, i: nat)
    requires i < n <= 8 * |input|
    ensures Payload(input, n, rightAligned)[i]
         == if rightAligned && i >= n / 8 * 8 then BitOf(input[i / 8], 8 - n % 8 + i % 8) else BitAt(input, i)
  {}

  lemma TakeAligned(s: seq<byte>, from: nat, left: nat, rightAligned: bool)
    requires 0 < left && from + left <= 8 * |s| && !(left < 8 && rightAligned)
    ensures TakeByte(s, from, left, rightAligned) == TakeByte(s, from, left, false)
  {}

  lemma UnpackedBit(out: seq<byte>, s: seq<byte>, from: nat, n: nat, rightAligned: bool, i: nat)
    requires 0 < n && from + n <= 8 * |s| && |out| == BytesFor(n) && i < n
    requires forall k :: 0 <= k < |out| ==> out[k] == TakeByte(s, from + 8 * k, n - 8 * k, rightAligned)
    ensures Payload(out, n, rightAligned)[i] == BitAt(s, from + i)
  {
    hide BitOf, BitAt, TakeByte, Payload;
    var q, k := i / 8, i % 8;
    var left := n - 8 * q;
    PayloadAt(out, n, rightAligned, i);
    if left < 8 && rightAligned {
      assert q == n / 8 && left == n % 8;
      TakeByteRight(s, from + 8 * q, left, 8 - left + k);
    } else {
      assert !(rightAligned && i >= n / 8 * 8);
      TakeAligned(s, from + 8 * q, left, rightAligned);
      TakeByteBit(s, from + 8 * q, left, k);
      BitAtIndex(out, q, k);
    }
  }

  lemma PayloadDetermines(a: seq<byte>, b: seq<byte>, n: nat, rightAligned: bool)
    requires |a| == |b| == n
    requires Payload(a, 8 * n, rightAligned) == Payload(b, 8 * n, rightAligned)
    ensures a == b
  {
    hide BitOf;
    forall q | 0 <= q < n
      ensures a[q] == b[q]
    {
      forall k | 0 <= k < 8
        ensures BitOf(a[q], k) == BitOf(b[q], k)
      {
        assert Payload(a, 8 * n, rightAligned)[8 * q + k] == Payload(b, 8 * n, rightAligned)[8 * q + k];
        BitAtIndex(a, q, k);
        BitAtIndex(b, q, k);
      }
      SameBits(a[q], b[q]);
    }
  }

  /** Whole bytes of a longer buffer. */
  lemma PayloadPrefix(a: seq<byte>, b: seq<byte>, n: nat)
    requires n <= |a| && n <= |b| && a[..n] == b[..n]
    ensures Payload(a, 8 * n, true) == Payload(b, 8 * n, true)
  {
    hide BitOf;
    forall i | 0 <= i < 8 * n
      ensures BitAt(a, i) == BitAt(b, i)
    {
      assert a[i / 8] == a[..n][i / 8] == b[..n][i / 8];
    }
  }

  // ----- Numbers -----

  /** The number a bit string stands for, most significant bit first. */
  function Numeral(bits: seq<bool>): nat {
    if bits == [] then 0 else 2 * Numeral(bits[..|bits| - 1]) + OneIf(bits[|bits| - 1])
  }

  /** The number a byte string stands for, most significant byte first. */
  function Number(s: seq<byte>): nat {
    if s == [] then 0 else 0x100 * Number(s[..|s| - 1]) + s[|s| - 1] as nat
  }

  lemma NumeralMore(bits: seq<bool>, b: bool)
    ensures Numeral(bits + [b]) == 2 * Numeral(bits) + OneIf(b)
  {
    assert (bits + [b])[..|bits|] == bits;
  }

  lemma NumeralByte(front: seq<bool>, b: byte)
    ensures Numeral(front + BitsOf([b], 8)) == 0x100 * Numeral(front) + b as int
  {
    hide BitOf, Numeral, OneIf;
    ByteDigits(b);
    var bits := BitsOf([b], 8);
    assert forall k: nat :: k < 8 ==> bits[k] == BitAt([b], k) == BitOf(b, k);
    forall k: nat | k < 8
      ensures Numeral(front + bits[..k + 1]) == 2 * Numeral(front + bits[..k]) + OneIf(BitOf(b, k))
    {
      NumeralMore(front + bits[..k], bits[k]);
      assert front + bits[..k] + [bits[k]] == front + bits[..k + 1];
    }
    assert front + bits[..0] == front && bits[..8] == bits;
  }

  /** Whole bytes are written so that their bits are the binary digits of the number they stand for. */
  lemma {:induction false} PayloadNumeral(s: seq<byte>, rightAligned: bool)
    ensures Numeral(Payload(s, 8 * |s|, rightAligned)) == Number(s)
  {
    hide BitOf;
    if s != [] {
      var init, last := s[..|s| - 1], s[|s| - 1];
      PayloadNumeral(init, rightAligned);
      NumeralByte(Payload(init, 8 * |init|, rightAligned), last);
      LastByte(s, rightAligned);
    }
  }

  lemma LastByte(s: seq<byte>, rightAligned: bool)
    requires s != []
    ensures Payload(s, 8 * |s|, rightAligned)
         == Payload(s[..|s| - 1], 8 * (|s| - 1), rightAligned) + BitsOf([s[|s| - 1]], 8)
  {
    hide BitOf;
    var front := Payload(s[..|s| - 1], 8 * (|s| - 1), rightAligned);
    forall i | 0 <= i < 8 * |s|
      ensures Payload(s, 8 * |s|, rightAligned)[i] == (front + BitsOf([s[|s| - 1]], 8))[i]
    {
      Eighths(|s|, 0);
      if i >= 8 * (|s| - 1) {
        Eighths(|s| - 1, i - 8 * (|s| - 1));
      } else {
        Eighths(|s| - 1, 0);
      }
    }
  }
}
