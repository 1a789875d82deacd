/** The words of SHA-1 as numbers: constants, rotations, logical functions, byte orders and padding by value. */
module Sha1Numbers {
  import opened Bits
  import opened Sha1
  import opened Streams
  import opened Words

  /** The constants are the integer parts of 2^30 times the square roots of 2, 3, 5 and 10. */
  lemma KIsRoot(t: nat)
    requires t < 80
    ensures var n := if t < 20 then 2 else if t < 40 then 3 else if t < 60 then 5 else 10;
            K(t) * K(t) <= n * 0x1000_0000_0000_0000 < (K(t) + 1) * (K(t) + 1)
  {}

  /** The initial value counts up and down through the half bytes, lowest byte first. */
  lemma InitialIs(k: nat)
    requires k < 4
    ensures var p := if k == 0 then 1 else if k == 1 then 0x100 else if k == 2 then 0x1_0000 else 0x100_0000;
            && H0.a / p % 0x100 == 0x01 + 0x22 * k && H0.b / p % 0x100 == 0x89 + 0x22 * k
            && H0.c / p % 0x100 == 0xFE - 0x22 * k && H0.d / p % 0x100 == 0x76 - 0x22 * k
            && H0.e / p % 0x100 == 0xF0 - 0x0F * k
  {}

  // ----- Bit vectors and numbers -----

  function Join(b0: byte, b1: byte, b2: byte, b3: byte): bv32 {
    ((b0 as bv32) << 24) | ((b1 as bv32) << 16) | ((b2 as bv32) << 8) | (b3 as bv32)
  }

  lemma JoinIs(b0: byte, b1: byte, b2: byte, b3: byte)
    ensures Num(Join(b0, b1, b2, b3))
         == Value(b0) * 0x100_0000 + Value(b1) * 0x1_0000 + Value(b2) * 0x100 + Value(b3)
  {}

  /** The bit vector of a word has its value. */
  lemma VecIs(x: word)
    ensures Vec(x) as int == x && Num(Vec(x)) == x
  {
    SplitWord(x);
    var b0 := ByteOf(x / 0x100_0000);
    var b1 := ByteOf(x / 0x1_0000 % 0x100);
    var b2 := ByteOf(x / 0x100 % 0x100);
    var b3 := ByteOf(x % 0x100);
    JoinedVec(b0, b1, b2, b3, x);
  }

  lemma JoinedVec(b0: byte, b1: byte, b2: byte, b3: byte, x: word)
    requires x == (b0 as int) * 0x100_0000 + (b1 as int) * 0x1_0000 + (b2 as int) * 0x100 + b3 as int
    ensures Vec(x) as int == x && Num(Vec(x)) == x
  {
    hide Join;
    JoinIs(b0, b1, b2, b3);
    VecNum(Join(b0, b1, b2, b3));
  }

  // ----- Rotations -----
  // A rotation exchanges the high and the low part of a word. Bit vectors are shifted by constants, so each of the three
  // rotations has its own parts; what they prove is the same.

  lemma Shift1(w: bv32, v: bv32)
    ensures Num((w << 1) | (v & 1)) == Num(w & 0x7FFF_FFFF) * 2 + Num(v & 1)
  {}

  lemma Shift2(w: bv32, v: bv32)
    ensures Num((w << 2) | (v & 3)) == Num(w & 0x3FFF_FFFF) * 4 + Num(v & 3)
  {}

  lemma Shift5(w: bv32, v: bv32)
    ensures Num((w << 5) | (v & 31)) == Num(w & 0x7FF_FFFF) * 32 + Num(v & 31)
  {}

  lemma Shift27(w: bv32, v: bv32)
    ensures Num((w << 27) | (v & 0x7FF_FFFF)) == Num(w & 31) * 0x800_0000 + Num(v & 0x7FF_FFFF)
  {}

  lemma Shift30(w: bv32, v: bv32)
    ensures Num((w << 30) | (v & 0x3FFF_FFFF)) == Num(w & 3) * 0x4000_0000 + Num(v & 0x3FFF_FFFF)
  {}

  lemma Shift31(w: bv32, v: bv32)
    ensures Num((w << 31) | (v & 0x7FFF_FFFF)) == Num(w & 1) * 0x8000_0000 + Num(v & 0x7FFF_FFFF)
  {}

  // By one.

  function High1(v: bv32): bv32 { v >> 31 }
  function Low31(v: bv32): bv32 { v & 0x7FFF_FFFF }
  function Put31(w: bv32, low: bv32): bv32 { (w << 31) | low }
  function Put1(v: bv32, w: bv32): bv32 { (v << 1) | w }
  predicate Fits1(w: bv32) { w & 1 == w }

  lemma Rotl1Is(x: word)
    ensures Rotl1(x) == x * 2 % 0x1_0000_0000 + x / 0x8000_0000
  {
    hide Rotl1;
    var high, low := Rotl1Parts(x);
    TurnedIs1(x, high, low);
  }

  lemma Rotl1Parts(x: word) returns (high: nat, low: nat)
    ensures x == high * 0x8000_0000 + low && Rotl1(x) == low * 2 + high
  {
    hide *;
    VecIs(x);
    Parts1(Vec(x));
    Rotl1Form(x);
    high, low := Num(High1(Vec(x))), Num(Low31(Vec(x)));
  }

  lemma Parts1(v: bv32)
    ensures Num(v) == Num(High1(v)) * 0x8000_0000 + Num(Low31(v))
    ensures Num(Put1(v, High1(v))) == Num(Low31(v)) * 2 + Num(High1(v))
  {
    hide *;
    Whole1(v);
    Upper1(v, High1(v));
    Lower1(v, High1(v));
  }

  lemma Rotl1Form(x: word)
    ensures Rotl1(x) == Num(Put1(Vec(x), High1(Vec(x))))
  {}

  lemma Whole1(v: bv32)
    ensures Fits1(High1(v)) && Put31(High1(v), Low31(v)) == v
  {}

  lemma Upper1(v: bv32, w: bv32)
    requires Fits1(w) && Put31(w, Low31(v)) == v
    ensures Num(v) == Num(w) * 0x8000_0000 + Num(Low31(v))
  {
    hide Num;
    Shift31(w, v);
  }

  lemma Lower1(v: bv32, w: bv32)
    requires Fits1(w)
    ensures Num(Put1(v, w)) == Num(Low31(v)) * 2 + Num(w)
  {
    hide Num;
    Shift1(v, w);
  }

  lemma TurnedIs1(x: nat, high: nat, low: nat)
    requires x == high * 0x8000_0000 + low && low * 2 + high < 0x1_0000_0000
    ensures low * 2 + high == x * 2 % 0x1_0000_0000 + x / 0x8000_0000
  {
    assert x * 2 == 0x1_0000_0000 * high + low * 2;
    Carried(high, low * 2);
    assert low < 0x8000_0000;
    assert x / 0x8000_0000 == high;
  }

  // By five.

  function High5(v: bv32): bv32 { v >> 27 }
  function Low27(v: bv32): bv32 { v & 0x7FF_FFFF }
  function Put27(w: bv32, low: bv32): bv32 { (w << 27) | low }
  function Put5(v: bv32, w: bv32): bv32 { (v << 5) | w }
  predicate Fits5(w: bv32) { w & 31 == w }

  lemma Rotl5Is(x: word)
    ensures Rotl5(x) == x * 32 % 0x1_0000_0000 + x / 0x800_0000
  {
    hide Rotl5;
    var high, low := Rotl5Parts(x);
    TurnedIs5(x, high, low);
  }

  lemma Rotl5Parts(x: word) returns (high: nat, low: nat)
    ensures x == high * 0x800_0000 + low && Rotl5(x) == low * 32 + high
  {
    hide *;
    VecIs(x);
    Parts5(Vec(x));
    Rotl5Form(x);
    high, low := Num(High5(Vec(x))), Num(Low27(Vec(x)));
  }

  lemma Parts5(v: bv32)
    ensures Num(v) == Num(High5(v)) * 0x800_0000 + Num(Low27(v))
    ensures Num(Put5(v, High5(v))) == Num(Low27(v)) * 32 + Num(High5(v))
  {
    hide *;
    Whole5(v);
    Upper5(v, High5(v));
    Lower5(v, High5(v));
  }

  lemma Rotl5Form(x: word)
    ensures Rotl5(x) == Num(Put5(Vec(x), High5(Vec(x))))
  {}

  lemma Whole5(v: bv32)
    ensures Fits5(High5(v)) && Put27(High5(v), Low27(v)) == v
  {}

  lemma Upper5(v: bv32, w: bv32)
    requires Fits5(w) && Put27(w, Low27(v)) == v
    ensures Num(v) == Num(w) * 0x800_0000 + Num(Low27(v))
  {
    hide Num;
    Shift27(w, v);
  }

  lemma Lower5(v: bv32, w: bv32)
    requires Fits5(w)
    ensures Num(Put5(v, w)) == Num(Low27(v)) * 32 + Num(w)
  {
    hide Num;
    Shift5(v, w);
  }

  lemma TurnedIs5(x: nat, high: nat, low: nat)
    requires x == high * 0x800_0000 + low && low * 32 + high < 0x1_0000_0000
    ensures low * 32 + high == x * 32 % 0x1_0000_0000 + x / 0x800_0000
  {
    assert x * 32 == 0x1_0000_0000 * high + low * 32;
    Carried(high, low * 32);
    assert low < 0x800_0000;
    assert x / 0x800_0000 == high;
  }

  // By thirty.

  function High30(v: bv32): bv32 { v >> 2 }
  function Low2(v: bv32): bv32 { v & 3 }
  function Put2(w: bv32, low: bv32): bv32 { (w << 2) | low }
  function Put30(v: bv32, w: bv32): bv32 { (v << 30) | w }
  predicate Fits30(w: bv32) { w & 0x3FFF_FFFF == w }

  lemma Rotl30Is(x: word)
    ensures Rotl30(x) == x * 0x4000_0000 % 0x1_0000_0000 + x / 4
  {
    hide Rotl30;
    var high, low := Rotl30Parts(x);
    TurnedIs30(x, high, low);
  }

  lemma Rotl30Parts(x: word) returns (high: nat, low: nat)
    ensures x == high * 4 + low && Rotl30(x) == low * 0x4000_0000 + high
  {
    hide *;
    VecIs(x);
    Parts30(Vec(x));
    Rotl30Form(x);
    high, low := Num(High30(Vec(x))), Num(Low2(Vec(x)));
  }

  lemma Parts30(v: bv32)
    ensures Num(v) == Num(High30(v)) * 4 + Num(Low2(v))
    ensures Num(Put30(v, High30(v))) == Num(Low2(v)) * 0x4000_0000 + Num(High30(v))
  {
    hide *;
    Whole30(v);
    Upper30(v, High30(v));
    Lower30(v, High30(v));
  }

  lemma Rotl30Form(x: word)
    ensures Rotl30(x) == Num(Put30(Vec(x), High30(Vec(x))))
  {}

  lemma Whole30(v: bv32)
    ensures Fits30(High30(v)) && Put2(High30(v), Low2(v)) == v
  {}

  lemma Upper30(v: bv32, w: bv32)
    requires Fits30(w) && Put2(w, Low2(v)) == v
    ensures Num(v) == Num(w) * 4 + Num(Low2(v))
  {
    hide Num;
    Shift2(w, v);
  }

  lemma Lower30(v: bv32, w: bv32)
    requires Fits30(w)
    ensures Num(Put30(v, w)) == Num(Low2(v)) * 0x4000_0000 + Num(w)
  {
    hide Num;
    Shift30(v, w);
  }

  lemma TurnedIs30(x: nat, high: nat, low: nat)
    requires x == high * 4 + low && low * 0x4000_0000 + high < 0x1_0000_0000
    ensures low * 0x4000_0000 + high == x * 0x4000_0000 % 0x1_0000_0000 + x / 4
  {
    assert x * 0x4000_0000 == 0x1_0000_0000 * high + low * 0x4000_0000;
    Carried(high, low * 0x4000_0000);
    assert low < 4;
    assert x / 4 == high;
  }

  // ----- The logical functions, the schedule and the rounds -----

  lemma ChoiceBits(a: bv32, b: bv32, c: bv32)
    ensures ((a & b) ^ (!a & c)) & a == b & a && ((a & b) ^ (!a & c)) & !a == c & !a
  {}

  lemma MajorityBits(a: bv32, b: bv32, c: bv32)
    ensures ((a & b) ^ (a & c) ^ (b & c)) & !(a ^ b) == a & !(a ^ b)
    ensures ((a & b) ^ (a & c) ^ (b & c)) & (a ^ b) == c & (a ^ b)
  {}

  lemma FunctionVec(x: word, y: word, z: word)
    ensures Vec(Ch(x, y, z)) == (Vec(x) & Vec(y)) ^ (!Vec(x) & Vec(z))
    ensures Vec(Maj(x, y, z)) == (Vec(x) & Vec(y)) ^ (Vec(x) & Vec(z)) ^ (Vec(y) & Vec(z))
  {
    hide Vec, Num;
    VecNum((Vec(x) & Vec(y)) ^ (!Vec(x) & Vec(z)));
    VecNum((Vec(x) & Vec(y)) ^ (Vec(x) & Vec(z)) ^ (Vec(y) & Vec(z)));
  }

  lemma ParityVec(x: word, y: word, z: word)
    ensures Vec(Parity(x, y, z)) == Vec(x) ^ Vec(y) ^ Vec(z)
  {
    hide Vec, Num;
    VecNum(Vec(x) ^ Vec(y) ^ Vec(z));
  }

  /** Rounds 0 to 19 choose: the bits of y where x has ones, those of z elsewhere. */
  lemma ChoiceIs(t: nat, x: word, y: word, z: word)
    requires t < 20
    ensures Vec(F(t, x, y, z)) & Vec(x) == Vec(y) & Vec(x) && Vec(F(t, x, y, z)) & !Vec(x) == Vec(z) & !Vec(x)
  {
    hide Vec, Num, Ch, Parity, Maj;
    FunctionVec(x, y, z);
    ChoiceBits(Vec(x), Vec(y), Vec(z));
  }

  /** Rounds 20 to 39 and 60 to 79 take the parity of the three. */
  lemma ParityIs(t: nat, x: word, y: word, z: word)
    requires 20 <= t < 40 || 60 <= t
    ensures Vec(F(t, x, y, z)) == Vec(x) ^ Vec(y) ^ Vec(z)
  {
    hide Vec, Num, Ch, Parity, Maj;
    ParityVec(x, y, z);
  }

  /** Rounds 40 to 59 take the majority: the bits of x where it agrees with y, those of z elsewhere. */
  lemma MajorityIs(t: nat, x: word, y: word, z: word)
    requires 40 <= t < 60
    ensures Vec(F(t, x, y, z)) & !(Vec(x) ^ Vec(y)) == Vec(x) & !(Vec(x) ^ Vec(y))
    ensures Vec(F(t, x, y, z)) & (Vec(x) ^ Vec(y)) == Vec(z) & (Vec(x) ^ Vec(y))
  {
    hide Vec, Num, Ch, Parity, Maj;
    FunctionVec(x, y, z);
    MajorityBits(Vec(x), Vec(y), Vec(z));
  }

  lemma BigEndianIs(b0: byte, b1: byte, b2: byte, b3: byte)
    ensures BigEndian(b0, b1, b2, b3)
         == b0 as int * 0x100_0000 + b1 as int * 0x1_0000 + b2 as int * 0x100 + b3 as int
  {}

  /** The first sixteen words of the schedule are those of the block, most significant byte first; each further one is
      the exclusive or of four earlier ones, turned by one. */
  lemma ScheduleIs(block: seq<byte>, t: nat, x: word)
    requires |block| == 64
    ensures t < 16 ==> W(block, t) == block[4 * t] as int * 0x100_0000 + block[4 * t + 1] as int * 0x1_0000
                                      + block[4 * t + 2] as int * 0x100 + block[4 * t + 3] as int
    ensures t >= 16 && Vec(x) == Vec(W(block, t - 3)) ^ Vec(W(block, t - 8)) ^ Vec(W(block, t - 14))
                                 ^ Vec(W(block, t - 16)) ==>
              W(block, t) == x * 2 % 0x1_0000_0000 + x / 0x8000_0000
  {
    hide Rotl1, BigEndian, Xor4, Vec, Num;
    if t < 16 {
      BigEndianIs(block[4 * t], block[4 * t + 1], block[4 * t + 2], block[4 * t + 3]);
    } else {
      Rotl1Is(x);
      XorIs(x, W(block, t - 3), W(block, t - 8), W(block, t - 14), W(block, t - 16));
    }
  }

  lemma XorIs(x: word, p: word, q: word, r: word, s: word)
    ensures Vec(x) == Vec(p) ^ Vec(q) ^ Vec(r) ^ Vec(s) ==> Xor4(p, q, r, s) == x
  {
    hide Vec, Num;
    VecIs(x);
  }

  /** One round in numbers. */
  lemma RoundIs(r: Registers, block: seq<byte>, t: nat)
    requires |block| == 64
    ensures var s := Round(r, block, t);
            && s.a == (r.a * 32 % 0x1_0000_0000 + r.a / 0x800_0000 + F(t, r.b, r.c, r.d) + r.e + K(t) + W(block, t))
                      % 0x1_0000_0000
            && s.b == r.a && s.c == r.b * 0x4000_0000 % 0x1_0000_0000 + r.b / 4 && s.d == r.c && s.e == r.d
  {
    hide Rotl5, Rotl30, F, K, W, Mod;
    Rotl5Is(r.a);
    Rotl30Is(r.b);
    var f, k, w := F(t, r.b, r.c, r.d), K(t), W(block, t);
    ModAdd(Rotl5(r.a) + f, r.e);
    ModAdd(Rotl5(r.a) + f + r.e, k);
    ModAdd(Rotl5(r.a) + f + r.e + k, w);
    ModIs(Rotl5(r.a) + f + r.e + k + w);
  }

  lemma ModIs(n: nat)
    ensures Mod(n) == n % 0x1_0000_0000
  {}

  /** A block adds what its eighty rounds make of the registers. */
  lemma HashBlockSums(h: Registers, block: seq<byte>)
    requires |block| == 64
    ensures var r, s := Rounds(h, block, 80), HashBlock(h, block);
            && s.a == (h.a + r.a) % 0x1_0000_0000 && s.b == (h.b + r.b) % 0x1_0000_0000
            && s.c == (h.c + r.c) % 0x1_0000_0000 && s.d == (h.d + r.d) % 0x1_0000_0000
            && s.e == (h.e + r.e) % 0x1_0000_0000
  {
    hide Rounds;
  }

  // ----- Byte orders -----

  lemma NumberMore(s: seq<byte>, t: seq<byte>)
    requires t != []
    ensures Number(s + t) == 0x100 * Number(s + t[..|t| - 1]) + t[|t| - 1] as nat
  {
    assert (s + t)[..|s + t| - 1] == s + t[..|t| - 1];
  }

  lemma NumberFour(s: seq<byte>, t: seq<byte>)
    requires |t| == 4
    ensures Number(s + t) == Number(s) * 0x1_0000_0000 + t[0] as int * 0x100_0000 + t[1] as int * 0x1_0000
                             + t[2] as int * 0x100 + t[3] as int
  {
    hide Number;
    assert t[..3][..2] == t[..2] && t[..2][..1] == t[..1] && t[..1][..0] == [] && s + [] == s;
    NumberMore(s, t);
    NumberMore(s, t[..3]);
    NumberMore(s, t[..2]);
    NumberMore(s, t[..1]);
  }

  lemma NumberWord(s: seq<byte>, v: nat)
    requires v < TWO32
    ensures Number(s + BytesOf(v)) == Number(s) * 0x1_0000_0000 + v
  {
    hide Number;
    NumberFour(s, BytesOf(v));
    NetworkOrder(v);
    SplitWord(v);
  }

  /** The digest holds the five registers in turn, each most significant byte first. */
  lemma DigestIs(h: Registers)
    ensures var s := Digest(h);
            && Number(s[..4]) == h.a && Number(s[4..8]) == h.b && Number(s[8..12]) == h.c && Number(s[12..16]) == h.d
            && Number(s[16..]) == h.e
  {
    hide BytesOf, Number;
    var s := Digest(h);
    assert s[..4] == [] + BytesOf(h.a) && s[4..8] == [] + BytesOf(h.b) && s[8..12] == [] + BytesOf(h.c);
    assert s[12..16] == [] + BytesOf(h.d) && s[16..] == [] + BytesOf(h.e);
    NumberNothing();
    NumberWord([], h.a);
    NumberWord([], h.b);
    NumberWord([], h.c);
    NumberWord([], h.d);
    NumberWord([], h.e);
  }

  /** The hash of a message is what its padded blocks make of the initial value, written out so. */
  lemma HashIs(m: seq<byte>)
    ensures var h, s := HashBlocks(H0, Padded(m)), Hash(m);
            && Number(s[..4]) == h.a && Number(s[4..8]) == h.b && Number(s[8..12]) == h.c && Number(s[12..16]) == h.d
            && Number(s[16..]) == h.e
  {
    hide HashBlocks, Padded, Digest, Number;
    DigestIs(HashBlocks(H0, Padded(m)));
  }

  lemma NumberNothing()
    ensures Number([]) == 0
  {}

  /** Section 5.1.1 of FIPS 180-4: the message, a one bit, as few zeros as fill whole blocks, the length in bits. */
  lemma PaddedIs(m: seq<byte>)
    ensures var s := Padded(m);
            && |s| % 64 == 0 && |m| + 9 <= |s| < |m| + 73 && s[..|m|] == m && s[|m|] == 0x80
            && (forall i :: |m| < i < |s| - 8 ==> s[i] == 0)
            && Number(s[|s| - 8..]) == 8 * |m| % 0x1_0000_0000_0000_0000
  {
    hide BytesOf, Number;
    var s, high, low := Padded(m), 8 * |m| / TWO32 % TWO32, 8 * |m| % TWO32;
    assert s[|s| - 8..] == LengthBytes(|m|) == [] + BytesOf(high) + BytesOf(low);
    NumberNothing();
    NumberWord([], high);
    NumberWord([] + BytesOf(high), low);
    TwoWords(8 * |m|);
  }

  lemma TwoWords(n: nat)
    ensures n / TWO32 % TWO32 * TWO32 + n % TWO32 == n % 0x1_0000_0000_0000_0000
  {
    var q, r := n / TWO32 / TWO32, n / TWO32 % TWO32 * TWO32 + n % TWO32;
    assert n == 0x1_0000_0000_0000_0000 * q + r;
  }

  // ----- The keyed hash -----

  /** RFC 2104, section 2: the key, filled up with zeros to a block, goes in front of the text and of the first hash,
      each byte changed by 0x36 the first time and by 0x5C the second; a key longer than a block is hashed first. */
  lemma HmacIs(key: seq<byte>, text: seq<byte>, inner: seq<byte>, outer: seq<byte>)
    requires |inner| == |outer| == 64
    requires forall i :: 0 <= i < 64 ==> inner[i] == (if i < |key| then key[i] else 0) ^ 0x36
    requires forall i :: 0 <= i < 64 ==> outer[i] == (if i < |key| then key[i] else 0) ^ 0x5C
    ensures |key| <= 64 ==> Hmac(key, text) == Hash(outer + Hash(inner + text))
    ensures |key| > 64 ==> Hmac(key, text) == Hmac(Hash(key), text)
  {
    hide Hash;
    if |key| <= 64 {
      assert KeyBlock(key, 0x36) == inner && KeyBlock(key, 0x5C) == outer;
    } else {
      assert KeyBlock(key, 0x36) == KeyBlock(Hash(key), 0x36) && KeyBlock(key, 0x5C) == KeyBlock(Hash(key), 0x5C);
    }
  }
}
