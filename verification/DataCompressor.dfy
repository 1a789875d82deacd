/** Common/RakNet/DataCompressor.cpp: the frequency table, a back-patched bit count and the encoded data. */
module DataCompressor {
  import opened Bits
  import opened Huffman
  import opened HuffmanOptimal
  import opened HuffmanSize
  import opened Streams
  import opened Encoding
  import opened Words

  /** The frequencies of the byte values. */
  ghost function Frequencies(data: seq<byte>): (freq: seq<nat>)
    ensures |freq| == SYMBOLS
  {
    Counts(Syms(data), SYMBOLS)
  }

  ghost function TreeFor(data: seq<byte>): (t: Tree)
    ensures t.Fork? && Symbols(t) == Below(SYMBOLS)
  {
    TreeForFacts(data);
    Build(Frequencies(data))
  }

  lemma TreeForFacts(data: seq<byte>)
    ensures var t := Build(Frequencies(data)); t.Fork? && Symbols(t) == Below(SYMBOLS)
  {
    BuildProper(Frequencies(data));
    var t := Build(Frequencies(data));
    assert t.Leaf? ==> |Symbols(t)| == 1;
  }

  /** The first k table entries as they are written. */
  ghost function TableBits(freq: seq<nat>, k: nat): seq<bool>
    requires k <= |freq| && forall c :: 0 <= c < |freq| ==> freq[c] < TWO32
  {
    if k == 0 then [] else TableBits(freq, k - 1) + CompressedUint(freq[k - 1])
  }

  lemma {:induction false} TableBitsLength(freq: seq<nat>, k: nat)
    requires k <= |freq| && forall c :: 0 <= c < |freq| ==> freq[c] < TWO32
    ensures |TableBits(freq, k)| <= 33 * k
  {
    if k > 0 { TableBitsLength(freq, k - 1); }
  }

  lemma CountsBounded(data: seq<byte>)
    ensures forall c :: 0 <= c < SYMBOLS ==> Frequencies(data)[c] <= |data|
  {
    forall c | 0 <= c < SYMBOLS
      ensures Frequencies(data)[c] <= |data|
    {
      MultiplicityBound(Syms(data), c);
    }
  }

  lemma {:induction false} MultiplicityBound(s: seq<nat>, c: nat)
    ensures multiset(s)[c] <= |s|
  {
    if s != [] {
      MultiplicityBound(s[1..], c);
      assert s == [s[0]] + s[1..];
    }
  }

  /** Length and table. */
  ghost function Header(data: seq<byte>): (bits: seq<bool>)
    requires |data| < TWO32
    ensures |bits| <= 33 * 257
  {
    CountsBounded(data);
    TableBitsLength(Frequencies(data), SYMBOLS);
    CompressedUint(|data|) + TableBits(Frequencies(data), SYMBOLS)
  }

  /** How often b occurs. */
  function Occurrences(data: seq<byte>, b: byte): nat {
    if data == [] then 0 else Occurrences(data[..|data| - 1], b) + if data[|data| - 1] == b then 1 else 0
  }

  /** Entry b of the table counts the byte b. */
  lemma FrequencyIs(data: seq<byte>, b: byte)
    ensures Frequencies(data)[Value(b)] == Occurrences(data, b)
  {
    SymsCount(data, b);
  }

  lemma {:induction false} SymsCount(data: seq<byte>, b: byte)
    ensures multiset(Syms(data))[Value(b)] == Occurrences(data, b)
  {
    hide Value, AsByte;
    if data == [] {
      assert Syms(data) == [];
    } else {
      var init, last := data[..|data| - 1], data[|data| - 1];
      SymsCount(init, b);
      assert data == init + [last];
      assert Syms(data) == Syms(init) + [Value(last)];
      CountNat(Syms(init), Value(last), Value(b));
      SameByte(last, b);
    }
  }

  lemma SameByte(a: byte, b: byte)
    ensures Value(a) == Value(b) <==> a == b
  {
    AsByteValue(a);
    AsByteValue(b);
  }

  lemma CountNat(s: seq<nat>, x: nat, y: nat)
    ensures multiset(s + [x])[y] == multiset(s)[y] + if x == y then 1 else 0
  {}

  /** What a 32-bit number costs in the compressed form. */
  function UintCost(v: nat): nat {
    if v % 0x100 != 0 then 33 else if v / 0x100 % 0x100 != 0 then 26 else if v / 0x1_0000 % 0x100 != 0 then 19
    else if v / 0x1000_0000 != 0 then 12 else 8
  }

  /** What the length and the counts of the byte values below k cost. */
  ghost function CostBefore(data: seq<byte>, k: nat): nat
    requires k <= SYMBOLS
  {
    if k == 0 then UintCost(|data|) else CostBefore(data, k - 1) + UintCost(Occurrences(data, AsByte(k - 1)))
  }

  /** The header: the number of bytes, then how often each byte value occurs, from 0 to 255. */
  lemma HeaderFields(data: seq<byte>, k: nat)
    requires |data| < TWO32 && k < SYMBOLS
    ensures Occurrences(data, AsByte(k)) <= |data| && |Header(data)| == CostBefore(data, SYMBOLS)
    ensures CompressedUint(|data|) <= Header(data) && |CompressedUint(|data|)| == CostBefore(data, 0)
    ensures CostBefore(data, k) <= |Header(data)|
            && CompressedUint(Occurrences(data, AsByte(k))) <= Header(data)[CostBefore(data, k)..]
  {
    hide CompressedUint, TableBits, CostBefore, UintCost, AsByte;
    SymbolCount();
    var freq, first := Frequencies(data), CompressedUint(|data|);
    CountsBounded(data);
    HeaderIs(data);
    CostBeforeIs(data, 0);
    CostBeforeIs(data, k);
    CostBeforeIs(data, SYMBOLS);
    CountIs(data, k);
    TableGrows(freq, k);
    TablePrefix(freq, k + 1, SYMBOLS);
    FieldAt(first, TableBits(freq, k), CompressedUint(freq[k]), TableBits(freq, SYMBOLS));
    NoTable(freq);
  }

  lemma CountIs(data: seq<byte>, k: nat)
    requires k < SYMBOLS
    ensures Frequencies(data)[k] == Occurrences(data, AsByte(k))
  {
    hide Frequencies, AsByte;
    ValueAsByte(k);
    FrequencyIs(data, AsByte(k));
  }

  lemma FieldAt(first: seq<bool>, table: seq<bool>, field: seq<bool>, all: seq<bool>)
    requires table + field <= all
    ensures |first| + |table| <= |first + all| && field <= (first + all)[|first| + |table|..] && first <= first + all
  {
    assert (first + all)[|first| + |table|..] == all[|table|..];
    assert all[|table|..][..|field|] == (table + field)[|table|..];
  }

  lemma {:induction false} CostBeforeIs(data: seq<byte>, k: nat)
    requires |data| < TWO32 && k <= SYMBOLS
    ensures forall c :: 0 <= c < |Frequencies(data)| ==> Frequencies(data)[c] < TWO32
    ensures CostBefore(data, k) == |CompressedUint(|data|)| + |TableBits(Frequencies(data), k)|
  {
    hide CompressedUint, Frequencies, AsByte;
    CountsBounded(data);
    if k == 0 {
      CompressedUintLength(|data|);
    } else {
      CostBeforeIs(data, k - 1);
      CountIs(data, k - 1);
      CompressedUintLength(Frequencies(data)[k - 1]);
    }
  }

  /** The code words and the pad that Compress leaves behind the bit count. */
  ghost function Body(data: seq<byte>, pad: seq<bool>): seq<bool> {
    EncodedBits(TreeFor(data), data) + pad
  }

  /** Everything Compress appends to a stream of at bits. */
  ghost function Compressed(at: nat, data: seq<byte>, pad: seq<bool>): seq<bool>
    requires |data| < TWO32 && |Body(data, pad)| < TWO32
  {
    var header := Header(data);
    header + Zeros(8 * BytesFor(at + |header|) - (at + |header|)) + UintBits(|Body(data, pad)|) + Body(data, pad)
  }

  /** Where a stream of at bits ends once the compressed form has been appended. */
  ghost function CompressedEnd(at: nat, data: seq<byte>): nat
    requires |data| < TWO32
  {
    EndOf(at, |Header(data)|, |EncodedBits(TreeFor(data), data)|)
  }

  function EndOf(at: nat, header: nat, body: nat): nat { 8 * BytesFor(8 * BytesFor(at + header) + 32 + body) }

  lemma EndOfBounds(at: nat, header: nat, body: nat)
    ensures var aligned := 8 * BytesFor(at + header);
            && at + header <= aligned && aligned % 8 == 0 && EndOf(at, header, body)
                == 8 * BytesFor(aligned + 32 + body)
            && aligned + 32 + body <= EndOf(at, header, body) <= at + header + body + 46
  {
    hide BytesFor;
    RoundUpBounds(at + header);
    RoundUpBounds(8 * BytesFor(at + header) + 32 + body);
  }

  /** The encoded data never exceeds eight bits a byte by more than seven bits for each absent byte value. */
  lemma BodyBound(data: seq<byte>)
    requires |data| < TWO32
    ensures |EncodedBits(TreeFor(data), data)| <= 8 * |data| + 7 * 256
  {
    var s := Syms(data);
    assert Over(s, 256);
    SumMissing(Counts(s, 256));
    EncodedSize(s);
  }

  /** n bytes take at most 8n + 10319 bits. */
  lemma CompressedEndBound(at: nat, data: seq<byte>)
    requires |data| < TWO32
    ensures CompressedEnd(at, data) <= at + 8 * |data| + 10319
  {
    hide Header, EncodedBits, TreeFor, EndOf, BytesFor;
    BodyBound(data);
    EndOfBounds(at, |Header(data)|, |EncodedBits(TreeFor(data), data)|);
  }

  /** Counts the byte values. */
  method CountBytes(userData: seq<byte>) returns (frequencyTable: array<nat>)
    ensures fresh(frequencyTable) && frequencyTable.Length == SYMBOLS && frequencyTable[..] == Frequencies(userData)
  {
    frequencyTable := new nat[SYMBOLS](_ => 0);
    ghost var s := Syms(userData);
    assert frequencyTable[..] == Counts(s[..0], SYMBOLS);
    for i := 0 to |userData|
      invariant frequencyTable[..] == Counts(s[..i], SYMBOLS)
    {
      var c := Value(userData[i]);
      ghost var before := frequencyTable[..];
      frequencyTable[c] := frequencyTable[c] + 1;
      assert s[..i + 1] == s[..i] + [s[i]];
      assert frequencyTable[..] == before[c := before[c] + 1] == Counts(s[..i + 1], SYMBOLS);
    }
    assert s[..|userData|] == s;
  }

  method WriteHeader(userData: seq<byte>, frequencyTable: seq<nat>, output: BitStream)
    requires |userData| < TWO32
    requires frequencyTable == Frequencies(userData)
    requires output.Valid() && output.Clean()
    requires output.numberOfBitsUsed + |Header(userData)| <= output.MostBits()
    modifies output, output.data
    ensures output.Valid() && output.Clean() && output.readOffset == old(output.readOffset)
    ensures (output.data == old(output.data) || fresh(output.data)) && output.MostBits() >= old(output.MostBits())
    ensures output.Bits() == old(output.Bits()) + Header(userData)
  {
    hide *;
    SymbolCount();
    ghost var start, freq := output.Bits(), Frequencies(userData);
    HeaderIs(userData);
    output.WriteCompressedUint(|userData|);
    ghost var first := CompressedUint(|userData|);
    NoTable(freq);
    assert start + first == start + (first + []);
    for i := 0 to SYMBOLS
      invariant output.Valid() && output.Clean() && output.readOffset == old(output.readOffset)
      invariant (output.data == old(output.data) || fresh(output.data)) && output.MostBits() >= old(output.MostBits())
      invariant output.Bits() == start + (first + TableBits(freq, i))
    {
      TableGrows(freq, i);
      TablePrefix(freq, i + 1, SYMBOLS);
      output.WriteCompressedUint(frequencyTable[i]);
      assert start + (first + TableBits(freq, i)) + CompressedUint(freq[i])
          == start + (first + (TableBits(freq, i) + CompressedUint(freq[i])));
    }
  }

  lemma NoTable(freq: seq<nat>)
    requires forall c :: 0 <= c < |freq| ==> freq[c] < TWO32
    ensures TableBits(freq, 0) == []
  {}

  lemma TableGrows(freq: seq<nat>, k: nat)
    requires k < |freq| && forall c :: 0 <= c < |freq| ==> freq[c] < TWO32
    ensures TableBits(freq, k + 1) == TableBits(freq, k) + CompressedUint(freq[k])
  {}

  lemma HeaderIs(data: seq<byte>)
    requires |data| < TWO32
    ensures forall c :: 0 <= c < SYMBOLS ==> Frequencies(data)[c] < TWO32
    ensures Header(data) == CompressedUint(|data|) + TableBits(Frequencies(data), SYMBOLS)
  {
    CountsBounded(data);
  }

  /** Rewriting an aligned 32-bit field changes nothing outside it. */
  lemma Patched(before: seq<byte>, after: seq<byte>, at: nat, end: nat, v: nat, w: nat)
    requires at % 8 == 0 && at + 32 <= end && v < TWO32 && w < TWO32
    requires BytesFor(end) <= |before| && BytesFor(end) <= |after|
    requires BitsOf(before, end)[..at + 32] == BitsOf(before, at) + UintBits(v)
    requires BitsOf(after, at + 32) == BitsOf(before, at) + UintBits(w)
    requires forall j :: BytesFor(at + 32) <= j < BytesFor(end) ==> after[j] == before[j]
    ensures BitsOf(after, end) == BitsOf(before, at) + UintBits(w) + BitsOf(before, end)[at + 32..]
    ensures CleanAfter(before, end) ==> CleanAfter(after, end)
  {
    hide BitOf, UintBits;
    BitsOfIndex(before, end);
    BitsOfIndex(after, end);
    BitsOfIndex(after, at + 32);
    forall i | at + 32 <= i < 8 * BytesFor(end)
      ensures BitAt(after, i) == BitAt(before, i)
    {
      assert BytesFor(at + 32) == at / 8 + 4 && i / 8 >= at / 8 + 4;
    }
    var want := BitsOf(before, at) + UintBits(w) + BitsOf(before, end)[at + 32..];
    forall i | 0 <= i < end
      ensures BitsOf(after, end)[i] == want[i]
    {
      if i < at + 32 {
        assert BitAt(after, i) == BitsOf(after, at + 32)[i];
      }
    }
  }

  /** Goes back to an aligned 32-bit field, rewrites it and returns to the end of the stream. */
  method PatchUint(output: BitStream, writeOffset1: nat, ghost v: nat, w: nat)
    requires output.Valid() && output.Clean() && output.numberOfBitsUsed <= output.MostBits()
    requires writeOffset1 % 8 == 0 && writeOffset1 + 32 <= output.numberOfBitsUsed && v < TWO32 && w < TWO32
    requires output.Bits()[writeOffset1..writeOffset1 + 32] == UintBits(v)
    modifies output, output.data
    ensures output.Valid() && output.Clean() && output.readOffset == old(output.readOffset)
    ensures (output.data == old(output.data) || fresh(output.data)) && output.MostBits() >= old(output.MostBits())
    ensures output.Bits() == old(output.Bits())[..writeOffset1] + UintBits(w) + old(output.Bits())[writeOffset1 + 32..]
  {
    hide BitsOf, CleanAfter, UintBits;
    ghost var before, bits, end := output.data[..], output.Bits(), output.numberOfBitsUsed;
    var writeOffset2 := output.numberOfBitsUsed;
    PrefixBits(before, writeOffset1, end);
    assert bits[..writeOffset1 + 32] == bits[..writeOffset1] + bits[writeOffset1..writeOffset1 + 32];
    output.SetWriteOffset(writeOffset1);
    output.AlignedIsClean();
    output.WriteUint(w);
    Patched(before, output.data[..], writeOffset1, end, v, w);
    output.SetWriteOffset(writeOffset2);
  }

  lemma PrefixBits(s: seq<byte>, n: nat, m: nat)
    requires n <= m <= 8 * |s|
    ensures BitsOf(s, m)[..n] == BitsOf(s, n)
  {}

  /** Appends the compressed form of userData; the stream only has to be able to hold that. */
  method Compress(userData: seq<byte>, output: BitStream) returns (ghost pad: seq<bool>)
    requires output.Valid() && output.Clean() && |userData| < TWO32
    requires CompressedEnd(output.numberOfBitsUsed, userData) <= output.MostBits()
    modifies output, output.data
    ensures output.Valid() && output.Clean() && output.readOffset == old(output.readOffset)
    ensures (output.data == old(output.data) || fresh(output.data)) && output.MostBits() >= old(output.MostBits())
    ensures |pad| < 8 && Harmless(TreeFor(userData), pad) && |Body(userData, pad)| < TWO32
    ensures output.Bits() == old(output.Bits()) + Compressed(old(output.numberOfBitsUsed), userData, pad)
    ensures output.numberOfBitsUsed == CompressedEnd(old(output.numberOfBitsUsed), userData)
  {
    hide *;
    Limit32();
    SymbolCount();
    ghost var start := output.Bits();
    MostBitsBelow(output);
    CompressedEndIs(output.numberOfBitsUsed, userData, output.MostBits());
    var frequencyTable := CountBytes(userData);
    var tree := new HuffmanEncodingTree();
    tree.GenerateFromFrequencyTable(frequencyTable[..]);
    TreeForIs(userData);
    WriteHeader(userData, frequencyTable[..], output);
    output.AlignWriteToByteBoundary();
    ghost var header := Header(userData);
    ghost var zeros := Zeros(output.numberOfBitsUsed - |start + header|);
    BytesForBounds(|start + header|, |start + header|);
    pad := WriteBody(userData, tree, output);
    BodyIs(userData, pad);
    CompressedIs(|start|, userData, pad);
    Regroup(start, header, zeros, UintBits(|Body(userData, pad)|), Body(userData, pad));
  }

  lemma CompressedEndIs(at: nat, data: seq<byte>, most: nat)
    requires |data| < TWO32 && CompressedEnd(at, data) <= most < TWO32
    ensures var aligned := 8 * BytesFor(at + |Header(data)|);
            && at + |Header(data)| <= aligned && aligned % 8 == 0 && at + |Header(data)| <= TWO32 - 8
            && CompressedEnd(at, data) == 8 * BytesFor(aligned + 32 + |EncodedBits(TreeFor(data), data)|)
            && aligned + 32 + |EncodedBits(TreeFor(data), data)| <= most
  {
    hide *;
    Limit32();
    TreeForIs(data);
    CompressedEndDef(at, data);
    EndOfBounds(at, |Header(data)|, |EncodedBits(TreeFor(data), data)|);
  }

  lemma CompressedEndDef(at: nat, data: seq<byte>)
    requires |data| < TWO32
    ensures CompressedEnd(at, data) == EndOf(at, |Header(data)|, |EncodedBits(TreeFor(data), data)|)
  {}

  lemma RoundUpBounds(n: nat)
    ensures n <= 8 * BytesFor(n) < n + 8 && 8 * BytesFor(n) % 8 == 0
  {
    RoundUp(n);
    Eighths(BytesFor(n), 0);
  }

  /** The encoded data behind a bit count that is written as zero first and patched once it is known. */
  method WriteBody(userData: seq<byte>, tree: HuffmanEncodingTree, output: BitStream) returns (ghost pad: seq<bool>)
    requires tree.Valid() && tree.root != null && tree.root.tree == TreeFor(userData)
    requires output.Valid() && output.Clean() && output.numberOfBitsUsed % 8 == 0
    requires 8 * BytesFor(output.numberOfBitsUsed + 32 + |EncodedBits(TreeFor(userData),
             userData)|) <= output.MostBits()
    modifies output, output.data
    ensures output.Valid() && output.Clean() && output.readOffset == old(output.readOffset)
    ensures (output.data == old(output.data) || fresh(output.data)) && output.MostBits() >= old(output.MostBits())
    ensures |pad| < 8 && Harmless(TreeFor(userData), pad) && |Body(userData, pad)| < TWO32
    ensures output.Bits() == old(output.Bits()) + UintBits(|Body(userData, pad)|) + Body(userData, pad)
    ensures output.numberOfBitsUsed
         == 8 * BytesFor(old(output.numberOfBitsUsed) + 32 + |EncodedBits(TreeFor(userData), userData)|)
  {
    hide *;
    MostBitsBelow(output);
    RoundUp(output.numberOfBitsUsed + 32 + |EncodedBits(TreeFor(userData), userData)|);
    ghost var front := output.Bits();
    var writeOffset1 := output.numberOfBitsUsed;
    output.WriteUint(0);
    var bitsUsed1 := output.numberOfBitsUsed;
    pad := tree.EncodeArray(userData, output);
    var bitsUsed2 := output.numberOfBitsUsed;
    BodyIs(userData, pad);
    Split(output.Bits(), front, UintBits(0), EncodedBits(TreeFor(userData), userData), pad);
    PatchUint(output, writeOffset1, 0, bitsUsed2 - bitsUsed1);
  }

  lemma MostBitsBelow(output: BitStream)
    ensures output.MostBits() < TWO32
  {}

  lemma Limit32()
    ensures TWO32 == 4_294_967_296
  {}

  lemma TreeForIs(data: seq<byte>)
    ensures TreeFor(data) == Build(Frequencies(data)) && Symbols(TreeFor(data)) == Below(SYMBOLS)
  {}

  lemma BodyIs(data: seq<byte>, pad: seq<bool>)
    ensures Body(data, pad) == EncodedBits(TreeFor(data), data) + pad
  {}

  lemma CompressedIs(at: nat, data: seq<byte>, pad: seq<bool>)
    requires |data| < TWO32 && |Body(data, pad)| < TWO32
    ensures at + |Header(data)| <= 8 * BytesFor(at + |Header(data)|)
    ensures Compressed(at, data, pad)
         == Header(data) + Zeros(8 * BytesFor(at + |Header(data)|) - (at + |Header(data)|))
            + UintBits(|Body(data, pad)|) + Body(data, pad)
  {}

  lemma Split(bits: seq<bool>, front: seq<bool>, field: seq<bool>, code: seq<bool>, pad: seq<bool>)
    requires bits == front + field + code + pad
    ensures bits[..|front|] == front && bits[|front|..|front| + |field|] == field
            && bits[|front| + |field|..] == code + pad
  {}

  lemma Regroup(a: seq<bool>, b: seq<bool>, c: seq<bool>, d: seq<bool>, e: seq<bool>)
    ensures a + b + c + d + e == a + (b + c + d + e)
  {}

  // ----- Decompression -----

  /** Reads length and table back. */
  method ReadHeader(input: BitStream, ghost data: seq<byte>) returns (destinationSizeInBytes: nat,
      frequencyTable: array<nat>)
    requires input.Valid() && input.readOffset <= input.numberOfBitsUsed && input.numberOfBitsUsed <= MAX_BITS
    requires |data| < TWO32 && Header(data) <= input.Bits()[input.readOffset..]
    modifies input`readOffset
    ensures destinationSizeInBytes == |data|
    ensures fresh(frequencyTable) && frequencyTable.Length == SYMBOLS && frequencyTable[..] == Frequencies(data)
    ensures input.readOffset == old(input.readOffset) + |Header(data)| <= input.numberOfBitsUsed
  {
    hide *;
    Limit();
    Limit32();
    SymbolCount();
    HeaderIs(data);
    ghost var bits, start, freq := input.Bits(), input.readOffset, Frequencies(data);
    ghost var first := CompressedUint(|data|);
    ghost var header := Header(data);
    assert first == header[..|first|] == bits[start..][..|first|];
    var ok: bool;
    ok, destinationSizeInBytes := input.ReadCompressedUint();
    NoTable(freq);
    frequencyTable := new nat[SYMBOLS];
    for i := 0 to SYMBOLS
      invariant input.Valid() && input.Bits() == bits
      invariant input.readOffset == start + |first| + |TableBits(freq, i)| <= input.numberOfBitsUsed
      invariant forall c :: 0 <= c < i ==> frequencyTable[c] == freq[c]
    {
      TableGrows(freq, i);
      TablePrefix(freq, i + 1, SYMBOLS);
      NextField(bits, start, first, TableBits(freq, i), CompressedUint(freq[i]), header);
      var v: nat;
      ok, v := input.ReadCompressedUint();
      frequencyTable[i] := v;
    }
    assert frequencyTable[..] == freq;
  }

  lemma {:induction false} TablePrefix(freq: seq<nat>, k: nat, n: nat)
    requires k <= n <= |freq| && forall c :: 0 <= c < |freq| ==> freq[c] < TWO32
    ensures TableBits(freq, k) <= TableBits(freq, n)
  {
    hide CompressedUint;
    if k < n { TablePrefix(freq, k, n - 1); }
  }

  lemma NextField(bits: seq<bool>, start: nat, first: seq<bool>, table: seq<bool>, field: seq<bool>, header: seq<bool>)
    requires start <= |bits| && header <= bits[start..] && first + (table + field) <= header
    ensures start + |first| + |table| + |field| <= |bits|
    ensures field <= bits[start + |first| + |table|..]
  {
    var at := |first| + |table|;
    assert (first + (table + field))[at..] == field;
    assert header[at..at + |field|] == field;
    assert bits[start..][at..at + |field|] == bits[start + at..][..|field|];
  }

  /** Decompressing what Compress wrote gives the data back, byte for byte, wherever the stream has a byte boundary. */
  method DecompressAndAllocate(input: BitStream, ghost data: seq<byte>, ghost pad: seq<bool>)
    returns (destinationSizeInBytes: nat, output: array<byte>)
    requires input.Valid() && input.readOffset <= input.numberOfBitsUsed && input.numberOfBitsUsed <= MAX_BITS
    requires |data| < TWO32 && |Body(data, pad)| < TWO32 && Harmless(TreeFor(data), pad)
    requires Compressed(input.readOffset, data, pad) <= input.Bits()[input.readOffset..]
    modifies input`readOffset
    ensures destinationSizeInBytes == |data| && fresh(output) && output[..] == data
    ensures input.readOffset == old(input.readOffset) + |Compressed(old(input.readOffset), data, pad)|
  {
    hide *;
    Limit();
    Limit32();
    ghost var bits, start := input.Bits(), input.readOffset;
    CompressedIs(start, data, pad);
    ghost var header, body := Header(data), Body(data, pad);
    ghost var zeros := Zeros(8 * BytesFor(start + |header|) - (start + |header|));
    Fields(bits, start, header, zeros, UintBits(|body|), body);
    var frequencyTable: array<nat>;
    destinationSizeInBytes, frequencyTable := ReadHeader(input, data);
    input.AlignReadToByteBoundary();
    var ok, bitsUsed := input.ReadUint();
    UintBitsUnique(bitsUsed, |body|);
    output := new byte[destinationSizeInBytes];
    var tree := new HuffmanEncodingTree();
    tree.GenerateFromFrequencyTable(frequencyTable[..]);
    TreeForIs(data);
    InsideBuffer(input, input.readOffset + bitsUsed);
    SubBits(input.data[..], input.readOffset + bitsUsed, input.numberOfBitsUsed, input.readOffset);
    BitsAre(input);
    DecodedBody(data, pad);
    var decompressedBytes := tree.DecodeArray(input, bitsUsed, destinationSizeInBytes, output);
    SameBytes(data, output[..]);
  }

  lemma InsideBuffer(input: BitStream, end: nat)
    requires input.Valid() && end <= input.numberOfBitsUsed
    ensures end <= 8 * input.data.Length && input.numberOfBitsUsed <= 8 * input.data.Length
  {}

  lemma BitsAre(input: BitStream)
    requires input.Valid()
    ensures input.Bits() == BitsOf(input.data[..], input.numberOfBitsUsed)
  {}

  lemma Fields(bits: seq<bool>, start: nat, a: seq<bool>, b: seq<bool>, c: seq<bool>, d: seq<bool>)
    requires start <= |bits| && a + b + c + d <= bits[start..]
    ensures a <= bits[start..]
    ensures var at := start + |a| + |b|;
            at + |c| + |d| <= |bits| && bits[at..at + |c|] == c && bits[at + |c|..at + |c| + |d|] == d
  {
    var whole, at := a + b + c + d, |a| + |b|;
    assert whole[at..at + |c|] == c && whole[at + |c|..] == d && whole[..|a|] == a;
    assert bits[start..][..|whole|] == whole;
    assert bits[start + at..start + at + |c|] == whole[at..at + |c|];
    assert bits[start + at + |c|..start + at + |c| + |d|] == whole[at + |c|..];
    assert bits[start..][..|a|] == a;
  }

  lemma DecodedBody(data: seq<byte>, pad: seq<bool>)
    requires Harmless(TreeFor(data), pad)
    ensures Decoded(TreeFor(data), Body(data, pad)) == Syms(data)
  {
    DecodedEncoded(TreeFor(data), data, pad);
  }

  lemma SameBytes(data: seq<byte>, output: seq<byte>)
    requires |data| == |output| && forall i :: 0 <= i < |output| ==> output[i] == AsByte(Syms(data)[i])
    ensures output == data
  {
    forall i | 0 <= i < |data|
      ensures output[i] == data[i]
    {
      AsByteValue(data[i]);
    }
  }

  /** Compressing and decompressing any byte string whose compressed form a growing stream can hold. */
  method RoundTrip(data: seq<byte>) returns (copy: seq<byte>, bits: nat)
    requires |data| < TWO32 && CompressedEnd(0, data) <= MAX_BITS
    ensures copy == data
    ensures bits == CompressedEnd(0, data)
  {
    hide *;
    Limit();
    var stream := new BitStream();
    var pad := Compress(data, stream);
    bits := stream.numberOfBitsUsed;
    assert stream.Bits()[0..] == stream.Bits() == [] + Compressed(0, data, pad) == Compressed(0, data, pad);
    var _, output := DecompressAndAllocate(stream, data, pad);
    copy := output[..];
  }

  /** In particular every string of up to half a billion bytes. */
  lemma ShortDataFits(data: seq<byte>)
    requires 8 * |data| + 10319 <= MAX_BITS
    ensures |data| < TWO32 && CompressedEnd(0, data) <= MAX_BITS
  {
    CompressedEndBound(0, data);
  }
}
