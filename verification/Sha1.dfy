/** Common/RakNet/DR_SHA1.cpp against the Secure Hash Standard, FIPS 180-4. */
module Sha1 {
  import opened Bits
  import opened Streams
  import opened Words

  /** A 32-bit word; additions are modulo 2^32, bitwise operations go through the bit vector. */
  type word = n: nat | n < 0x1_0000_0000

  function Vec(x: word): bv32 { x as bv32 }

  function Num(v: bv32): word { v as nat }

  lemma VecNum(v: bv32)
    ensures Vec(Num(v)) == v
  {}

  // ----- FIPS 180-4, sections 3.2, 4.1.1, 4.2.1 and 6.1 -----

  function Mod(n: nat): word { n % TWO32 }

  function Add(x: word, y: word): word { Mod(x + y) }

  function Rotl1(x: word): word { Num((Vec(x) << 1) | (Vec(x) >> 31)) }
  function Rotl5(x: word): word { Num((Vec(x) << 5) | (Vec(x) >> 27)) }
  function Rotl30(x: word): word { Num((Vec(x) << 30) | (Vec(x) >> 2)) }

  function Xor4(p: word, q: word, r: word, s: word): word { Num(Vec(p) ^ Vec(q) ^ Vec(r) ^ Vec(s)) }

  function Ch(x: word, y: word, z: word): word { Num((Vec(x) & Vec(y)) ^ (!Vec(x) & Vec(z))) }
  function Parity(x: word, y: word, z: word): word { Num(Vec(x) ^ Vec(y) ^ Vec(z)) }
  function Maj(x: word, y: word, z: word): word { Num((Vec(x) & Vec(y)) ^ (Vec(x) & Vec(z)) ^ (Vec(y) & Vec(z))) }

  function F(t: nat, x: word, y: word, z: word): word {
    if t < 20 then Ch(x, y, z) else if t < 40 then Parity(x, y, z) else if t < 60 then Maj(x, y, z) else Parity(x, y, z)
  }

  function K(t: nat): word {
    if t < 20 then 0x5A827999 else if t < 40 then 0x6ED9EBA1 else if t < 60 then 0x8F1BBCDC else 0xCA62C1D6
  }

  /** A word from four bytes, most significant first. */
  function BigEndian(b0: byte, b1: byte, b2: byte, b3: byte): word {
    Num(((b0 as bv32) << 24) | ((b1 as bv32) << 16) | ((b2 as bv32) << 8) | (b3 as bv32))
  }

  /** Word t of a 64-byte block. */
  function M(block: seq<byte>, t: nat): word
    requires |block| == 64 && t < 16
  {
    BigEndian(block[4 * t], block[4 * t + 1], block[4 * t + 2], block[4 * t + 3])
  }

  /** The message schedule of 80 words. */
  function W(block: seq<byte>, t: nat): word
    requires |block| == 64
  {
    if t < 16 then M(block, t)
    else Rotl1(Xor4(W(block, t - 3), W(block, t - 8), W(block, t - 14), W(block, t - 16)))
  }

  datatype Registers = Registers(a: word, b: word, c: word, d: word, e: word)

  function Sum(r: word, f: word, e: word, k: word, w: word): word { Add(Add(Add(Add(r, f), e), k), w) }

  function Round(r: Registers, block: seq<byte>, t: nat): Registers
    requires |block| == 64
  {
    Registers(Sum(Rotl5(r.a), F(t, r.b, r.c, r.d), r.e, K(t), W(block, t)), r.a, Rotl30(r.b), r.c, r.d)
  }

  function Rounds(r: Registers, block: seq<byte>, t: nat): Registers
    requires |block| == 64
    decreases |block|, t
  {
    if t == 0 then r else Round(Rounds(r, block, t - 1), block, t - 1)
  }

  function Plus(h: Registers, r: Registers): Registers {
    Registers(Add(h.a, r.a), Add(h.b, r.b), Add(h.c, r.c), Add(h.d, r.d), Add(h.e, r.e))
  }

  /** One block of the hash computation. */
  function HashBlock(h: Registers, block: seq<byte>): Registers
    requires |block| == 64
  {
    Plus(h, Rounds(h, block, 80))
  }

  function HashBlocks(h: Registers, s: seq<byte>): Registers
    requires |s| % 64 == 0
    decreases |s|
  {
    if |s| < 64 then h else HashBlock(HashBlocks(h, s[..|s| - 64]), s[|s| - 64..])
  }

  const H0: Registers := Registers(0x67452301, 0xEFCDAB89, 0x98BADCFE, 0x10325476, 0xC3D2E1F0)

  const TWO64: nat := 0x1_0000_0000_0000_0000

  /** How many zero bytes the padding of n bytes needs. */
  function PadZeros(n: nat): (k: nat)
    ensures k < 64 && (n + 1 + k) % 64 == 56
  {
    (119 - n % 64) % 64
  }

  function ZeroBytes(n: nat): (s: seq<byte>)
    ensures |s| == n
  {
    seq(n, _ => 0)
  }

  /** The length in bits as eight bytes, most significant first. */
  function LengthBytes(n: nat): (s: seq<byte>)
    ensures |s| == 8
  {
    BytesOf(8 * n / TWO32 % TWO32) + BytesOf(8 * n % TWO32)
  }

  lemma PadFills(n: nat)
    ensures (n + (1 + PadZeros(n) + 8)) % 64 == 0
  {}

  /** Section 5.1.1 (for messages below 2^64 bits): a one bit, zeros, and the length in bits. */
  function Padded(m: seq<byte>): (s: seq<byte>)
    ensures |s| % 64 == 0
  {
    PadFills(|m|);
    m + ([0x80] + ZeroBytes(PadZeros(|m|)) + LengthBytes(|m|))
  }

  function Digest(h: Registers): (s: seq<byte>)
    ensures |s| == 20
  {
    BytesOf(h.a) + BytesOf(h.b) + BytesOf(h.c) + BytesOf(h.d) + BytesOf(h.e)
  }

  function Hash(m: seq<byte>): (s: seq<byte>)
    ensures |s| == 20
  { Digest(HashBlocks(H0, Padded(m))) }

  /** The keyed hash of RFC 2104, section 2, with keys longer than a block hashed first. */
  function Hmac(key: seq<byte>, text: seq<byte>): seq<byte> {
    Hash(KeyBlock(key, 0x5C) + Hash(KeyBlock(key, 0x36) + text))
  }

  function KeyBlock(key: seq<byte>, pad: byte): (s: seq<byte>)
    ensures |s| == 64
  {
    var short := if |key| > 64 then Hash(key) else key;
    seq(64, i requires 0 <= i < 64 => (if i < |short| then short[i] else 0) ^ pad)
  }

  // ----- The forms the code uses -----

  /** The choice and majority expressions of the round macros. */
  lemma ChoiceForm(w: bv32, x: bv32, y: bv32)
    ensures (w & (x ^ y)) ^ y == (w & x) ^ (!w & y)
  {}

  lemma MajorityForm(w: bv32, x: bv32, y: bv32)
    ensures ((w | x) & y) | (w & x) == (w & x) ^ (w & y) ^ (x & y)
  {}

  /** A word as a little-endian host loads it from memory. */
  function Loaded(b0: byte, b1: byte, b2: byte, b3: byte): word {
    Num((b0 as bv32) | ((b1 as bv32) << 8) | ((b2 as bv32) << 16) | ((b3 as bv32) << 24))
  }

  function Swapped(l: word): word {
    Num((((Vec(l) << 24) | (Vec(l) >> 8)) & 0xFF00FF00) | (((Vec(l) << 8) | (Vec(l) >> 24)) & 0x00FF00FF))
  }

  /** SHABLK0 turns a loaded word into a big-endian one. */
  lemma SwapLoads(b0: byte, b1: byte, b2: byte, b3: byte)
    ensures Swapped(Loaded(b0, b1, b2, b3)) == BigEndian(b0, b1, b2, b3)
  {
    VecNum((b0 as bv32) | ((b1 as bv32) << 8) | ((b2 as bv32) << 16) | ((b3 as bv32) << 24));
  }

  /** What a round macro adds to its last register. */
  function MacroSum(f: word, w: word, k: word, r: word): word { Add(Add(Add(f, w), k), r) }

  lemma SumOrder(z: word, f: word, w: word, k: word, r: word)
    ensures Add(z, MacroSum(f, w, k, r)) == Sum(r, f, z, k, w)
  {
    hide Mod;
    ModAdd(r + f, z);
    ModAdd(r + f + z, k);
    ModAdd(r + f + z + k, w);
    ModAdd(f + w, k);
    ModAdd(f + w + k, r);
    ModAdd(f + w + k + r, z);
  }

  lemma ModAdd(a: nat, b: nat)
    ensures Mod(Mod(a) + b) == Mod(a + b)
  {}

  /** The function part of the round macro that stands at position i of the unrolled code. */
  function MacroF(i: nat, w: word, x: word, y: word): word {
    if i < 20 then Num((Vec(w) & (Vec(x) ^ Vec(y))) ^ Vec(y))
    else if i < 40 then Num(Vec(w) ^ Vec(x) ^ Vec(y))
    else if i < 60 then Num(((Vec(w) | Vec(x)) & Vec(y)) | (Vec(w) & Vec(x)))
    else Num(Vec(w) ^ Vec(x) ^ Vec(y))
  }

  lemma MacroFIsF(i: nat, w: word, x: word, y: word)
    ensures MacroF(i, w, x, y) == F(i, w, x, y)
  {
    hide Vec, Num;
    ChoiceForm(Vec(w), Vec(x), Vec(y));
    MajorityForm(Vec(w), Vec(x), Vec(y));
    assert i < 20 ==> MacroF(i, w, x, y) == Ch(w, x, y);
    assert 40 <= i < 60 ==> MacroF(i, w, x, y) == Maj(w, x, y);
  }

  // ----- The rolling workspace -----

  /** After t rounds the 16 cells hold the last 16 schedule words, and the words not yet reached as loaded. */
  ghost predicate Rolling(cells: seq<word>, block: seq<byte>, t: nat)
    requires |cells| == 16 && |block| == 64
  {
    && (forall s: nat :: s < t <= s + 16 ==> cells[s % 16] == W(block, s))
    && (forall s: nat :: t <= s < 16 ==> cells[s] == Loaded(block[4 * s], block[4 * s + 1], block[4 * s + 2],
        block[4 * s + 3]))
  }

  /** The value SHABLK0 or SHABLK stores for round t. */
  function Scheduled(cells: seq<word>, t: nat): word
    requires |cells| == 16
  {
    if t < 16 then Swapped(cells[t])
    else Rotl1(Xor4(cells[(t + 13) % 16], cells[(t + 8) % 16], cells[(t + 2) % 16], cells[t % 16]))
  }

  lemma ScheduledIsW(cells: seq<word>, block: seq<byte>, t: nat)
    requires |cells| == 16 && |block| == 64 && Rolling(cells, block, t)
    ensures Scheduled(cells, t) == W(block, t)
    ensures Rolling(cells[t % 16 := W(block, t)], block, t + 1)
  {
    hide Rotl1, Swapped, Loaded, BigEndian, Xor4;
    if t < 16 {
      SwapLoads(block[4 * t], block[4 * t + 1], block[4 * t + 2], block[4 * t + 3]);
    } else {
      assert (t + 13) % 16 == (t - 3) % 16 && (t + 8) % 16 == (t - 8) % 16
          && (t + 2) % 16 == (t - 14) % 16 && t % 16 == (t - 16) % 16;
    }
    RollOn(cells, block, t);
  }

  lemma RollOn(cells: seq<word>, block: seq<byte>, t: nat)
    requires |cells| == 16 && |block| == 64 && Rolling(cells, block, t)
    ensures Rolling(cells[t % 16 := W(block, t)], block, t + 1)
  {
    hide W, Loaded;
    var next := cells[t % 16 := W(block, t)];
    forall s: nat | s < t + 1 <= s + 16
      ensures next[s % 16] == W(block, s)
    {
      if s < t {
        DifferentCells(s, t);
        assert cells[s % 16] == W(block, s);
      }
    }
    forall s: nat | t + 1 <= s < 16
      ensures next[s] == Loaded(block[4 * s], block[4 * s + 1], block[4 * s + 2], block[4 * s + 3])
    {
      assert t % 16 == t;
    }
  }

  lemma DifferentCells(s: nat, t: nat)
    requires s < t < s + 16
    ensures s % 16 != t % 16
  {}

  /** One application of a round macro with its roles in place. */
  lemma MacroIsRound(r: Registers, block: seq<byte>, t: nat)
    requires |block| == 64
    ensures Round(r, block, t)
         == Registers(Add(r.e, MacroSum(MacroF(t, r.b, r.c, r.d), W(block, t), K(t), Rotl5(r.a))), r.a, Rotl30(r.b),
             r.c, r.d)
  {
    hide Add, MacroSum, Sum, MacroF, F, K, W, Rotl5, Rotl30;
    MacroFIsF(t, r.b, r.c, r.d);
    SumOrder(r.e, F(t, r.b, r.c, r.d), W(block, t), K(t), Rotl5(r.a));
  }

  /** What a file gives: nothing, or bytes up to its end or, when damaged, up to a read error. */
  datatype File = Unopened | Opened(bytes: seq<byte>, damaged: bool)

  class CSHA1 {
    const state: array<word>
    const buffer: array<byte>
    const workspace: array<word>
    const digest: array<byte>
    var count0: nat
    var count1: nat
    ghost var message: seq<byte>

    ghost predicate Shape() {
      && state.Length == 5 && buffer.Length == 64 && workspace.Length == 16 && digest.Length == 20
      && state != workspace && buffer != digest
    }

    ghost function Regs(): Registers
      reads state
      requires Shape()
    {
      Registers(state[0], state[1], state[2], state[3], state[4])
    }

    /** The state has absorbed the whole blocks of the message, the buffer holds the rest, the count its length in
        bits. */
    ghost predicate Valid()
      reads this, state, buffer
    {
      && Shape() && Absorbed(Regs(), buffer[..], message)
      && count0 == 8 * |message| % TWO32 && count1 == 8 * |message| / TWO32 % TWO32
    }

    constructor ()
      ensures Valid() && message == [] && fresh(state) && fresh(buffer) && fresh(workspace) && fresh(digest)
    {
      state, buffer := new word[5], new byte[64];
      workspace, digest := new word[16], new byte[20];
      new;
      Reset();
    }

    method Reset()
      requires Shape()
      modifies this, state
      ensures Valid() && message == []
    {
      hide *;
      FiveWords();
      state[0] := 0x67452301;
      state[1] := 0xEFCDAB89;
      state[2] := 0x98BADCFE;
      state[3] := 0x10325476;
      state[4] := 0xC3D2E1F0;
      count0, count1 := 0, 0;
      message := [];
      ValidAtStart();
    }

    lemma FiveWords()
      requires Shape()
      ensures state.Length == 5 && state != workspace && buffer != digest
    {}

    lemma ValidAtStart()
      requires Shape() && message == [] && count0 == 0 && count1 == 0
      requires state.Length == 5 && state[0] == 0x67452301 && state[1] == 0xEFCDAB89 && state[2] == 0x98BADCFE
      requires state[3] == 0x10325476 && state[4] == 0xC3D2E1F0
      ensures Valid()
    {
      hide HashBlock;
      assert buffer[..0] == [] && message[..0] == [];
      assert Regs() == H0;
    }

    /** The round macro at position i of the unrolled code, on whatever registers stand in its five roles. */
    method R(v: word, w: word, x: word, y: word, z: word, i: nat, ghost block: seq<byte>) returns (w': word, z': word)
      requires Shape() && |block| == 64 && Rolling(workspace[..], block, i)
      modifies workspace
      ensures Rolling(workspace[..], block, i + 1)
      ensures Round(Registers(v, w, x, y, z), block, i) == Registers(z', v, w', x, y)
    {
      hide Rotl1, Rotl5, Rotl30, Swapped, W, MacroF, MacroSum, Add, Xor4, K, Rolling, Round;
      ghost var cells := workspace[..];
      ScheduledIsW(cells, block, i);
      if i < 16 {
        workspace[i] := Swapped(workspace[i]);
      } else {
        workspace[i % 16] := Rotl1(Xor4(workspace[(i + 13) % 16], workspace[(i + 8) % 16],
                                        workspace[(i + 2) % 16], workspace[i % 16]));
      }
      assert workspace[..] == cells[i % 16 := W(block, i)];
      MacroIsRound(Registers(v, w, x, y, z), block, i);
      z' := Add(z, MacroSum(MacroF(i, w, x, y), workspace[i % 16], K(i), Rotl5(v)));
      w' := Rotl30(w);
    }

    /** Mixes one block into the state: eighty macro applications, with the five registers changing roles. */
    method Transform(block: seq<byte>)
      requires Shape() && |block| == 64
      modifies state, workspace
      ensures Regs() == HashBlock(old(Regs()), block)
    {
      hide Rotl1, Rotl5, Rotl30, Loaded, W, F, K, Rolling, Round, Plus, Add;
      ghost var h := Regs();
      var a, b, c, d, e := state[0], state[1], state[2], state[3], state[4];
      Load(block);
      var i := 0;
      while i < 80
        invariant 0 <= i <= 80 && i % 5 == 0
        invariant Rolling(workspace[..], block, i) && Regs() == h
        invariant Registers(a, b, c, d, e) == Rounds(h, block, i)
      {
        b, e := R(a, b, c, d, e, i, block);
        a, d := R(e, a, b, c, d, i + 1, block);
        e, c := R(d, e, a, b, c, i + 2, block);
        d, b := R(c, d, e, a, b, i + 3, block);
        c, a := R(b, c, d, e, a, i + 4, block);
        FiveRounds(h, block, i);
        i := i + 5;
      }
      assert i == 80;
      AddBack(a, b, c, d, e);
      HashBlockIs(h, block);
    }

    /** memcpy of the block into the workspace of a little-endian host. */
    method Load(block: seq<byte>)
      requires Shape() && |block| == 64
      modifies workspace
      ensures Rolling(workspace[..], block, 0)
    {
      hide Loaded, W;
      forall s | 0 <= s < 16 {
        workspace[s] := Loaded(block[4 * s], block[4 * s + 1], block[4 * s + 2], block[4 * s + 3]);
      }
    }

    method AddBack(a: word, b: word, c: word, d: word, e: word)
      requires Shape()
      modifies state
      ensures Regs() == Plus(old(Regs()), Registers(a, b, c, d, e))
    {
      hide Add;
      state[0] := Add(state[0], a);
      state[1] := Add(state[1], b);
      state[2] := Add(state[2], c);
      state[3] := Add(state[3], d);
      state[4] := Add(state[4], e);
    }

    /** Absorbs data; below 2^32 - 64 bytes the 32-bit sums here do not wrap. */
    method Update(data: seq<byte>)
      requires Valid() && |data| < TWO32 - 64
      modifies state, workspace, buffer, this`count0, this`count1, this`message
      ensures Valid() && message == old(message) + data
    {
      hide HashBlock, HashBlocks, Absorbed, Pending, Regs;
      var j := count0 / 8 % 64;
      BufferedIs(|message|);
      Count(|data|);
      var i := 0;
      if j + |data| > 63 {
        i := TransformWhole(data, j);
        j := 0;
      } else {
        Unchanged(Regs(), buffer[..], message, data);
      }
      ghost var before := buffer[..];
      if |data| - i != 0 {
        Store(j, data[i..]);
      }
      Kept(Regs(), before, buffer[..], message, data, i, j);
      message := message + data;
    }

    /** The bit count in two words; the carry is told by the sum being below the number added. */
    method Count(uLen: nat)
      requires uLen < TWO32 && count0 == 8 * |message| % TWO32 && count1 == 8 * |message| / TWO32 % TWO32
      modifies this`count0, this`count1
      ensures count0 == 8 * (|message| + uLen) % TWO32 && count1 == 8 * (|message| + uLen) / TWO32 % TWO32
    {
      CountAdds(|message|, uLen);
      count0 := U32(count0 + U32(uLen * 8));
      if count0 < U32(uLen * 8) {
        count1 := U32(count1 + 1);
      }
      count1 := U32(count1 + uLen / 0x2000_0000);
    }

    /** The first half of Update: fills the buffer from data, then transforms straight from data. */
    method TransformWhole(data: seq<byte>, j: nat) returns (i: nat)
      requires Shape() && Absorbed(Regs(), buffer[..], message) && |data| < TWO32 - 64
      requires j == |message| % 64 && j + |data| > 63
      modifies state, workspace, buffer
      ensures Shape() && i <= |data| < i + 64 && Pending(Regs(), buffer[..], message, data, i, 0)
    {
      hide HashBlock, HashBlocks;
      ghost var m, all := message, message + data;
      i := 64 - j;
      Store(j, data[..i]);
      assert buffer[..] == m[|m| - j..] + data[..i];
      WholeBlocks(|m|, j);
      FirstBlock(m, data, j);
      Transform(buffer[..]);
      while i + 63 < |data|
        invariant 64 - j <= i <= |data| && (|m| + i) % 64 == 0 && message == m
        invariant Regs() == HashBlocks(H0, all[..|m| + i])
      {
        NextBlock(m, data, i);
        Transform(data[i..i + 64]);
        i := i + 64;
      }
    }

    /** Pads the message, closes the digest and wipes everything but the digest; Reset has to follow. */
    method Final()
      requires Valid()
      modifies state, workspace, buffer, digest, this`count0, this`count1, this`message
      ensures Shape() && digest[..] == Hash(old(message))
      ensures count0 == 0 && count1 == 0 && (forall i :: 0 <= i < 64 ==> buffer[i] == 0)
      ensures Regs() == HashBlock(Registers(0, 0, 0, 0, 0), ZeroBytes(64))
    {
      hide HashBlock, HashBlocks, Hash, Absorbed, Regs, ZeroBytes, Padded, PadZeros;
      ghost var m, zeros := message, 0;
      var pbFinalCount := FinalCount();
      Update([0x80]);
      NoZeros(m);
      while count0 / 8 % 64 != 56
        invariant Valid() && zeros <= PadZeros(|m|) && message == m + [0x80] + ZeroBytes(zeros)
        decreases PadZeros(|m|) - zeros
      {
        OneMoreZero(m, zeros);
        BufferedIs(|message|);
        Update([0]);
        zeros := zeros + 1;
      }
      BufferedIs(|message|);
      AllZeros(m, zeros);
      Update(pbFinalCount);
      assert message == Padded(m);
      WriteDigest(m);
      Wipe();
    }

    /** The count as eight bytes, most significant first. */
    method FinalCount() returns (bytes: seq<byte>)
      requires count0 == 8 * |message| % TWO32 && count1 == 8 * |message| / TWO32 % TWO32
      ensures bytes == LengthBytes(|message|)
    {
      hide BytesOf, ByteAt;
      var pbFinalCount := new byte[8];
      for i := 0 to 8
        invariant forall k :: 0 <= k < i ==> pbFinalCount[k] == ByteAt(if k >= 4 then count0 else count1, 3 - k % 4)
      {
        pbFinalCount[i] := ByteAt(if i >= 4 then count0 else count1, 3 - i % 4);
      }
      bytes := pbFinalCount[..];
      BytesAt(count0);
      BytesAt(count1);
    }

    method WriteDigest(ghost m: seq<byte>)
      requires Shape() && Absorbed(Regs(), buffer[..], Padded(m))
      modifies digest
      ensures digest[..] == Hash(m)
    {
      hide BytesOf, ByteAt, HashBlocks;
      for i := 0 to 20
        invariant forall k :: 0 <= k < i ==> digest[k] == ByteAt(state[k / 4], 3 - k % 4)
      {
        digest[i] := ByteAt(state[i / 4], 3 - i % 4);
      }
      assert Padded(m)[..|Padded(m)|] == Padded(m);
      DigestAt(Regs());
    }

    method Wipe()
      requires Shape()
      modifies state, workspace, buffer, this`count0, this`count1
      ensures count0 == 0 && count1 == 0 && (forall i :: 0 <= i < 64 ==> buffer[i] == 0)
      ensures Regs() == HashBlock(Registers(0, 0, 0, 0, 0), ZeroBytes(64))
    {
      hide HashBlock;
      forall i | 0 <= i < 64 {
        buffer[i] := 0;
      }
      forall i | 0 <= i < 5 {
        state[i] := 0;
      }
      count0, count1 := 0, 0;
      assert buffer[..] == ZeroBytes(64);
      Transform(buffer[..]);
    }

    /** Absorbs a file in pieces of MAX_FILE_BUFFER bytes; fails if it cannot be opened or a read error ends it. */
    method HashFile(file: File) returns (success: bool)
      requires Valid()
      modifies state, workspace, buffer, this`count0, this`count1, this`message
      ensures Valid() && success == (file.Opened? && !file.damaged)
      ensures message == old(message) + if file.Opened? then file.bytes else []
    {
      hide HashBlock, HashBlocks, Absorbed, Regs;
      if file.Unopened? {
        assert message + [] == message;
        return false;
      }
      success := true;
      var at := 0;
      while true
        invariant Valid() && at <= |file.bytes| && message == old(message) + file.bytes[..at] && success
        decreases |file.bytes| - at
      {
        var uRead := if |file.bytes| - at < MAX_FILE_BUFFER then |file.bytes| - at else MAX_FILE_BUFFER;
        if uRead > 0 {
          Update(file.bytes[at..at + uRead]);
        }
        assert file.bytes[..at] + file.bytes[at..at + uRead] == file.bytes[..at + uRead];
        at := at + uRead;
        if uRead < MAX_FILE_BUFFER {
          if file.damaged {
            success := false;
          }
          break;
        }
      }
      assert file.bytes[..at] == file.bytes;
    }

    /** The keyed hash; a key of more than 64 bytes is cut to 64, where RFC 2104 hashes it. */
    static method HMAC(sharedKey: seq<byte>, data: seq<byte>) returns (output: seq<byte>)
      requires |data| < TWO32 / 2
      ensures output == Hmac(if |sharedKey| > 64 then sharedKey[..64] else sharedKey, data)
    {
      hide Hash, KeyBlock;
      var key := if |sharedKey| > 64 then sharedKey[..64] else sharedKey;
      var keyWithIpad := KeyWith(key, 0x36);
      var keyWithOpad := KeyWith(key, 0x5C);
      var first := HashOfTwo(keyWithIpad, data);
      output := HashOfTwo(keyWithOpad, first);
    }

    static method HashOfTwo(a: seq<byte>, b: seq<byte>) returns (output: seq<byte>)
      requires |a| < TWO32 - 64 && |b| < TWO32 - 64
      ensures output == Hash(a + b) && |output| == 20
    {
      hide *;
      var hash := new CSHA1();
      hash.Update(a);
      hash.Update(b);
      hash.Final();
      output := hash.digest[..];
      assert [] + a + b == a + b;
    }

    static method KeyWith(key: seq<byte>, pad: byte) returns (bytes: seq<byte>)
      requires |key| <= 64
      ensures bytes == KeyBlock(key, pad)
    {
      var padded := new byte[64](i => if 0 <= i < |key| then key[i] else 0);
      for i := 0 to 64
        invariant forall k :: 0 <= k < i ==> padded[k] == KeyBlock(key, pad)[k]
        invariant forall k :: i <= k < 64 ==> padded[k] == if k < |key| then key[k] else 0
      {
        padded[i] := padded[i] ^ pad;
      }
      bytes := padded[..];
    }

    /** memcpy into the buffer. */
    method Store(at: nat, bytes: seq<byte>)
      requires buffer.Length == 64 && at + |bytes| <= 64
      modifies buffer
      ensures buffer[..] == old(buffer[..at]) + bytes + old(buffer[at + |bytes|..])
    {
      forall k | 0 <= k < |bytes| {
        buffer[at + k] := bytes[k];
      }
    }
  }

  lemma HashBlockIs(h: Registers, block: seq<byte>)
    requires |block| == 64
    ensures HashBlock(h, block) == Plus(h, Rounds(h, block, 80))
  {}

  lemma FiveRounds(h: Registers, block: seq<byte>, t: nat)
    requires |block| == 64
    ensures Rounds(h, block, t + 1) == Round(Rounds(h, block, t), block, t)
    ensures Rounds(h, block, t + 2) == Round(Rounds(h, block, t + 1), block, t + 1)
    ensures Rounds(h, block, t + 3) == Round(Rounds(h, block, t + 2), block, t + 2)
    ensures Rounds(h, block, t + 4) == Round(Rounds(h, block, t + 3), block, t + 3)
    ensures Rounds(h, block, t + 5) == Round(Rounds(h, block, t + 4), block, t + 4)
  {}

  /** regs has absorbed the whole blocks of m; the rest of m stands at the front of the buffer. */
  ghost predicate Absorbed(regs: Registers, buffer: seq<byte>, m: seq<byte>)
    requires |buffer| == 64
  {
    var full := |m| - |m| % 64;
    regs == HashBlocks(H0, m[..full]) && buffer[..|m| % 64] == m[full..]
  }

  /** The carry test of Update counts in bits modulo 2^64. */
  lemma CountAdds(m: nat, n: nat)
    requires n < TWO32
    ensures var c0, added := 8 * m % TWO32, U32(n * 8);
            && U32(c0 + added) == 8 * (m + n) % TWO32
            && U32(U32(8 * m / TWO32 % TWO32 + (if U32(c0 + added) < added then 1 else 0)) + n / 0x2000_0000)
               == 8 * (m + n) / TWO32 % TWO32
            && (U32(c0 + added) >= added ==>
                  U32(8 * m / TWO32 % TWO32 + n / 0x2000_0000) == 8 * (m + n) / TWO32 % TWO32)
  {
    var qa, ra := 8 * m / TWO32, 8 * m % TWO32;
    var qb, rb := n / 0x2000_0000, 8 * n % TWO32;
    assert 8 * n == TWO32 * qb + rb;
    var carry := if ra + rb >= TWO32 then 1 else 0;
    Carried(qa + qb + carry, ra + rb - TWO32 * carry);
    assert 8 * (m + n) == TWO32 * (qa + qb + carry) + (ra + rb - TWO32 * carry);
    assert U32(ra + rb) == ra + rb - TWO32 * carry;
    WrapsTwice(qa, carry, qb);
    WrapsTwice(qa, 0, qb);
  }

  lemma Carried(q: nat, r: nat)
    requires r < TWO32
    ensures (TWO32 * q + r) / TWO32 == q && (TWO32 * q + r) % TWO32 == r
  {}

  lemma WrapsTwice(a: nat, b: nat, c: nat)
    ensures U32(U32(U32(a) + b) + c) == U32(a + b + c)
    ensures U32(U32(a) + c) == U32(a + c)
  {
    hide U32;
    Wraps(a, b);
    Wraps(a + b, c);
    Wraps(a, c);
  }

  /** The count gives the number of bytes in the buffer. */
  lemma BufferedIs(n: nat)
    ensures 8 * n % TWO32 / 8 % 64 == n % 64
  {
    var q, r := n / 0x2000_0000, n % 0x2000_0000;
    assert 8 * n == TWO32 * q + 8 * r;
    Carried(q, 8 * r);
    assert n == 64 * (0x80_0000 * q) + r;
    Modulo64(0x80_0000 * q, r);
  }

  lemma Modulo64(q: nat, r: nat)
    ensures (64 * q + r) % 64 == r % 64
  {}

  lemma WholeBlocks(n: nat, j: nat)
    requires j == n % 64
    ensures (n - j) % 64 == 0 && (n - j + 64) % 64 == 0
  {}

  lemma FirstBlock(m: seq<byte>, data: seq<byte>, j: nat)
    requires j <= |m| && 64 <= j + |data| && j < 64 && (|m| - j) % 64 == 0 && (|m| - j + 64) % 64 == 0
    ensures HashBlocks(H0, (m + data)[..|m| - j + 64])
         == HashBlock(HashBlocks(H0, m[..|m| - j]), m[|m| - j..] + data[..64 - j])
  {
    hide HashBlock;
    var whole := (m + data)[..|m| - j + 64];
    assert whole[..|whole| - 64] == m[..|m| - j];
    assert whole[|whole| - 64..] == m[|m| - j..] + data[..64 - j];
  }

  lemma NextBlock(m: seq<byte>, data: seq<byte>, i: nat)
    requires (|m| + i) % 64 == 0 && i + 63 < |data|
    ensures (|m| + (i + 64)) % 64 == 0
    ensures HashBlocks(H0, (m + data)[..|m| + (i + 64)]) == HashBlock(HashBlocks(H0, (m + data)[..|m| + i]),
            data[i..i + 64])
  {
    hide HashBlock;
    var whole := (m + data)[..|m| + (i + 64)];
    assert whole[..|whole| - 64] == (m + data)[..|m| + i];
    assert whole[|whole| - 64..] == data[i..i + 64];
  }

  /** m and the first i bytes of data have been taken in, the last j bytes of that only into the buffer. */
  ghost predicate Pending(regs: Registers, buffer: seq<byte>, m: seq<byte>, data: seq<byte>, i: nat, j: nat)
    requires |buffer| == 64
  {
    && i <= |data| && j < 64 && j <= |m| && (|m| + i - j) % 64 == 0
    && regs == HashBlocks(H0, (m + data)[..|m| + i - j]) && buffer[..j] == (m + data)[|m| + i - j..|m| + i]
  }

  lemma Unchanged(regs: Registers, buffer: seq<byte>, m: seq<byte>, data: seq<byte>)
    requires |buffer| == 64 && Absorbed(regs, buffer, m)
    ensures Pending(regs, buffer, m, data, 0, |m| % 64)
  {
    hide HashBlocks;
    var full := |m| - |m| % 64;
    assert (m + data)[..full] == m[..full];
    assert (m + data)[full..|m|] == m[full..];
  }

  /** What is left of data after the whole blocks goes to the buffer. */
  lemma Kept(regs: Registers, before: seq<byte>, after: seq<byte>, m: seq<byte>, data: seq<byte>, i: nat, j: nat)
    requires |before| == |after| == 64 && Pending(regs, before, m, data, i, j) && j + (|data| - i) < 64
    requires after == before[..j] + data[i..] + before[j + (|data| - i)..]
    ensures Absorbed(regs, after, m + data)
  {
    hide HashBlocks;
    var all := m + data;
    assert |all| == (|m| + i - j) + (j + (|data| - i));
    assert all[|m| + i - j..] == all[|m| + i - j..|m| + i] + data[i..];
  }

  const MAX_FILE_BUFFER: nat := 32 * 20 * 820

  /** Byte n of a word, counted from the least significant. */
  function ByteAt(v: word, n: nat): byte
    requires n < 4
  {
    AsByte((if n == 0 then v else if n == 1 then v / 0x100 else if n == 2 then v / 0x1_0000
        else v / 0x100_0000) % 0x100)
  }

  lemma BytesAt(v: word)
    ensures forall k :: 0 <= k < 4 ==> BytesOf(v)[k] == ByteAt(v, 3 - k)
  {
    hide AsByte;
    assert v / 0x1_0000 == v / 0x100 / 0x100 && v / 0x100_0000 == v / 0x1_0000 / 0x100;
  }

  lemma DigestAt(h: Registers)
    ensures forall k :: 0 <= k < 20 ==> Digest(h)[k] == ByteAt([h.a, h.b, h.c, h.d, h.e][k / 4], 3 - k % 4)
  {
    hide BytesOf, ByteAt;
    BytesAt(h.a);
    BytesAt(h.b);
    BytesAt(h.c);
    BytesAt(h.d);
    BytesAt(h.e);
  }

  lemma NoZeros(m: seq<byte>)
    ensures m + [0x80] == m + [0x80] + ZeroBytes(0)
  {}

  lemma OneMoreZero(m: seq<byte>, zeros: nat)
    requires zeros <= PadZeros(|m|)
    ensures (|m| + 1 + zeros) % 64 != 56 ==> zeros < PadZeros(|m|)
    ensures m + [0x80] + ZeroBytes(zeros) + [0] == m + [0x80] + ZeroBytes(zeros + 1)
  {}

  lemma PadUnique(n: nat, zeros: nat)
    requires zeros <= PadZeros(n) && (n + 1 + zeros) % 64 == 56
    ensures zeros == PadZeros(n)
  {
    var rest := PadZeros(n) - zeros;
    hide PadZeros;
    var a := n + 1 + zeros;
    assert (a + rest) % 64 == a % 64 && rest < 64;
    assert a == 64 * (a / 64) + 56 && a + rest == 64 * ((a + rest) / 64) + 56;
  }

  lemma AllZeros(m: seq<byte>, zeros: nat)
    requires zeros <= PadZeros(|m|) && (|m| + 1 + zeros) % 64 == 56
    ensures zeros == PadZeros(|m|)
    ensures m + [0x80] + ZeroBytes(zeros) + LengthBytes(|m|) == Padded(m)
  {
    hide LengthBytes, PadZeros, ZeroBytes;
    PadUnique(|m|, zeros);
    var z, l := ZeroBytes(zeros), LengthBytes(|m|);
    assert m + ([0x80] + z + l) == m + [0x80] + z + l;
  }
}
