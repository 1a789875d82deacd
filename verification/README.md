# Verified models of the networking and configuration code

Dafny models of the parts of this code base that transform data or keep a protocol state, with proofs of what they
promise. Objects that the C++ sources update in place are classes here, their loops are loops, and each method is tied to
a function of the old state about which the laws are then proved.

| file | models |
|---|---|
| `Words.dfy`, `Bits.dfy` | unsigned 32-bit arithmetic, decimal numerals; bytes and the bit sequence a byte buffer stands for |
| `Compression.dfy` | the variable-length code of `BitStream::WriteCompressed` |
| `Streams.dfy` | `BitStream`: bit-granular writing and reading, growth, copying, the compressed form |
| `Huffman.dfy`, `HuffmanOptimal.dfy`, `HuffmanSize.dfy`, `HuffmanOverflow.dfy`, `HuffmanOrder.dfy` | the tree as a value: prefix code, decoding, optimality, size bounds, what 32-bit weights cost, and which leaf and side comes first |
| `PositionedList.dfy`, `Encoding.dfy` | the positioned list and `HuffmanEncodingTree` with its node objects |
| `DataCompressor.dfy` | `DataCompressor`: header, back-patched length, full round trip |
| `ByteQueues.dfy` | `ByteQueue` as a first-in first-out sequence over whole runs |
| `SlidingWindow.dfy`, `WindowRuns.dfy` | `CCRakNetSlidingWindow`: congestion window, round-trip estimate and wrapping sequence numbers over whole runs |
| `Median.dfy` | the recursive median of `CCRakNetUDT` |
| `Sha1.dfy`, `Sha1Numbers.dfy` | `CSHA1` against FIPS 180-4, and `HMAC`; the constants, rotations, functions and byte orders in numbers |
| `ServerConfig.dfy` | the JSON reader of `CServerConfig` |
| `Base64.dfy` | `Base64Encoding` against RFC 4648 and RFC 2045 |
| `KeyBinds.dfy` | the capture leases of `CKeyBinds` |

## Findings

* `AddBitsAndReallocate`: the 32-bit size computation suffices exactly up to 4293918712 bits (`Streams.GrowthSuffices`), and
  a stream that owns no bytes is never grown (`Streams.NoGrowthSuffices`). `Streams.MostBitsExactly` puts this together: what
  a stream can come to hold, owned buffer or not.
* Optimality of the built tree holds for every table whose weights sum below 2^33, so for all data the compressor can be
  given (`HuffmanOptimal.Optimal`). The joined 32-bit weight may wrap, but below 2^33 only when at most three trees are left,
  where it no longer matters. The bound cannot be raised: 256 counts that sum to exactly 2^33 (252 ones, 2^31 - 252, and three
  times 2^31) get a tree that costs 2^31 more than another (`HuffmanOverflow.OverflowLosesOptimality`), and so does every table
  of three times 2^31 and others that make 2^31 together (`HuffmanOverflow.HeavyTablesLose`).
* The finer guard, that no join made while four or more trees are left reaches 2^32, is sufficient for any table
  (`HuffmanOptimal.OptimalWithoutEarlyWrap`). It is not necessary: `HuffmanOverflow.EarlyWrapMayBeOptimal` gives 256 counts of
  which an early join wraps and that get an optimal tree all the same.
* `GreaterThan` and `LessThan` on 24-bit numbers are right exactly in the windows of `SlidingWindow.GreaterThanWindow` and
  `SlidingWindow.LessThanWindow`, which are not mirror images.
* In `OnResend` the clamp of the threshold to one datagram never acts: a cut needs a window of more than two datagrams
  (`SlidingWindow.CutEntersSlowStart`).
* `Base64Encoding` reads one byte behind the data when one byte is over. Decoding still gives the data back
  (`Base64.DecodeEncoded`); the output is the encoding of RFC 4648 exactly when the four high bits of that byte are zero
  (`Base64.StandardExactlyWhen`).
* `HMAC` cuts keys of more than 64 bytes, where RFC 2104 hashes them; the contract of `Sha1.CSHA1.HMAC` says which key is used.
* `CServerConfig`: text behind the first JSON value is ignored; a setting whose dotted key begins with `__array.` is dropped
  even if it comes from an object member of that name; an empty key at the top level adds nothing to the path.
* `WriteCompressed` of a 32-bit number looks at the lowest byte first, because the number is put into network order before:
  only multiples of 256 become shorter (`Streams.CompressedUintLength`), so the table in front of compressed data spends 8
  bits on each byte value that does not occur and 33 on nearly every one that does.
* `CServerConfig` knows no `\uXXXX`: the backslash drops out and the rest is read as it stands (`ServerConfig.OtherEscapes`).
* `CaptureExpired` on the wrapping clock is right exactly under the condition of `KeyBinds.ClockAgreesExactlyWhen`.

## Model

| member | source | states |
|---|---|---|
| Compression.CompressedDecodes | Common/RakNet/BitStream.cpp:481-538 | a reader of k bytes facing the code of k bytes asks for exactly that code, and the code decodes to them, for both fill bytes |
| Compression.DecodesUnique | Common/RakNet/BitStream.cpp:609-682 | a bit string decodes to at most one byte string of a given length |
| Compression.CompressedRoundTrip | Common/RakNet/BitStream.cpp:481-682 | whatever follows in the stream, reading back takes the written code and delivers the written bytes and no others |
| Compression.CompressedLength | Common/RakNet/BitStream.cpp:481-538 | k bytes take between k + 4 and 8k + 1 bits |
| Compression.SkipOnes | Common/RakNet/BitStream.cpp:627-650 | leading one bits stand for high bytes equal to the fill byte, for the count asked for and for the decoding |
| Compression.CodeIs | Common/RakNet/BitStream.cpp:481-538 | the code bit by bit for fill bytes 0x00 and 0xFF: with j top bytes filled, j ones, a zero and the other k - j bytes as they are, so j + 1 + 8(k - j) bits; with all above the lowest filled, k + 4 or k + 8 bits by its high nibble |
| Bits.WriteRound | Common/RakNet/BitStream.cpp:434-465 | one round of the shifting write loop appends the next eight (or last few) payload bits at any bit offset |
| Bits.CopiedBytes | Common/RakNet/BitStream.cpp:425-431 | the byte-copy path appends the same bits as the shifting loop and leaves a clean end |
| Bits.UnpackedRounds | Common/RakNet/BitStream.cpp:566-601 | the bytes assembled by the shifting read loop hold exactly the next n bits, right-aligned on request with zero spare bits |
| Bits.ByteDigits | Common/RakNet/BitStream.cpp:324-331 | the bits of a byte are its binary digits, the most significant first |
| Bits.PayloadNumeral | Common/RakNet/BitStream.cpp:416-471 | whole bytes are written so that their bits are the binary digits of the number they stand for |
| Streams.GrowthSuffices | Common/RakNet/BitStream.cpp:689-706 | the grown buffer covers the bits asked for if and only if they are at most 4293918712 |
| Streams.NoGrowthSuffices | Common/RakNet/BitStream.cpp:685-689 | when no growth is asked for, the capacity suffices if and only if it is not zero |
| Streams.MostBitsExactly | Common/RakNet/BitStream.cpp:685-731 | a write fits if and only if the growth step, where taken, is allowed and large enough, and where not taken the buffer is large enough |
| Streams.GrowthIs | Common/RakNet/BitStream.cpp:689-706 | growth is asked for exactly when the bytes in use do not suffice, and then doubles the need or adds 1048576 bits, whichever is less |
| Streams.BitStream.AddBitsAndReallocate | Common/RakNet/BitStream.cpp:685-731 | growth provides the capacity, changes no used bit and never lowers what the stream can hold; a caller's buffer is written as far as it reaches |
| Streams.BitStream.Write0 | Common/RakNet/BitStream.cpp:297-307 | appends a zero bit |
| Streams.BitStream.Write1 | Common/RakNet/BitStream.cpp:309-322 | appends a one bit |
| Streams.BitStream.WriteBool | Include/RakNet/BitStream.h:1123-1129 | appends that bit |
| Streams.BitStream.ReadBit | Common/RakNet/BitStream.cpp:324-331 | delivers the bit at the read offset and advances by one, without looking at the end |
| Streams.BitStream.ReadBool | Include/RakNet/BitStream.h:1468-1483 | delivers the next bit, fails exactly at the end |
| Streams.BitStream.WriteBits | Common/RakNet/BitStream.cpp:416-471 | appends exactly the payload at any offset by either path, stays clean for right-aligned or clean input, keeps the spare bytes |
| Streams.BitStream.ShiftIn | Common/RakNet/BitStream.cpp:432-470 | after the shifting loop the buffer reads as the old bits and the payload, clean at the end, the bytes behind untouched |
| Streams.BitStream.ReadBits | Common/RakNet/BitStream.cpp:543-606 | succeeds exactly when n > 0 bits are left, delivers them in the caller's form, otherwise changes nothing |
| Streams.BitStream.AlignWriteToByteBoundary | Include/RakNet/BitStream.h:580 | appends zeros up to the next byte boundary |
| Streams.BitStream.AlignReadToByteBoundary | Include/RakNet/BitStream.h:587 | rounds the read offset up to a byte boundary |
| Streams.BitStream.SetWriteOffset | Common/RakNet/BitStream.cpp:914-919 | the stream then stands for the first offset bits of its buffer |
| Streams.BitStream.CopyData | Common/RakNet/BitStream.cpp:892-901 | a fresh copy with the same bits |
| Streams.BitStream.WriteCompressed | Common/RakNet/BitStream.cpp:481-538 | appends the variable-length code |
| Streams.BitStream.ReadCompressed | Common/RakNet/BitStream.cpp:609-682 | fails exactly when the stream is too short for what the code asks; otherwise the bits read decode to the output |
| Streams.BitStream.WriteStream | Common/RakNet/BitStream.cpp:185-229 | appends the next n unread bits of another stream, or what is left, and advances it by as many; on the byte-aligned path whole bytes are copied even behind the end |
| Streams.BitStream.WriteUint | Include/RakNet/BitStream.h:1075-1095 | appends 32 bits in network order |
| Streams.BitStream.ReadUint | Include/RakNet/BitStream.h:1436-1463 | inverse of WriteUint |
| Streams.BitStream.WriteCompressedUint | Include/RakNet/BitStream.h:1269-1293 | appends the code of the four bytes in network order |
| Streams.BitStream.ReadCompressedUint | Include/RakNet/BitStream.h:1607-1632 | fails exactly when the stream ends too early, else the bits consumed decode to the number; where a written number comes next, that number is read |
| Streams.UintBitsNumeral | Include/RakNet/BitStream.h:1075-1095 | the 32 bits of a number are its binary digits, the most significant first |
| Streams.CompressedUintLength | Include/RakNet/BitStream.h:1269-1293 | what a number costs: 33 bits unless its lowest byte is zero, then 26, 19, 12 or 8 by the next ones; 0 costs 8 |
| Huffman.PrefixFree | Common/RakNet/DS_HuffmanEncodingTree.cpp:122-165 | no code word is a prefix of another |
| Huffman.Complete | Common/RakNet/DS_HuffmanEncodingTree.cpp:122-165 | every bit string that is long enough begins with a code word |
| Huffman.CodeLength | Common/RakNet/DS_HuffmanEncodingTree.cpp:122-146 | lengths lie between 1 and the number of symbols less one |
| Huffman.ByteCodes | Common/RakNet/DS_HuffmanEncodingTree.cpp:122-194 | for every table of 256 counts all lengths lie in 1..255 and some length is at least 8 |
| Huffman.BuildProper | Common/RakNet/DS_HuffmanEncodingTree.cpp:75-120 | the built tree has one leaf for each byte value |
| Huffman.DecodeEncode | Common/RakNet/DS_HuffmanEncodingTree.cpp:168-229 | walking the code words of a string and a proper prefix of a code word delivers exactly the string |
| HuffmanOptimal.Exchange | Common/RakNet/DS_HuffmanEncodingTree.cpp:92-118 | any tree can be rearranged, at no extra cost, so that the two lightest weights are siblings and can be joined |
| HuffmanOptimal.LowerBound | Common/RakNet/DS_HuffmanEncodingTree.cpp:92-118 | the cost of always merging the two lightest is a lower bound for every tree and placing of the weights |
| HuffmanOptimal.MergeCost | Common/RakNet/DS_HuffmanEncodingTree.cpp:92-118 | the merge loop reaches that cost unless a join made while four or more trees are left reaches 2^32 |
| HuffmanOptimal.LightSums | Common/RakNet/DS_HuffmanEncodingTree.cpp:98-105 | with weights summing below 2^33 no such join does |
| HuffmanOptimal.OptimalWithoutEarlyWrap | Common/RakNet/DS_HuffmanEncodingTree.cpp:65-120 | for every table without such a join, the built tree is a tree over the symbols and no binary tree over them has a smaller total of weight times depth |
| HuffmanOptimal.Optimal | Common/RakNet/DS_HuffmanEncodingTree.cpp:65-120 | so for every table with weights summing below 2^33 |
| HuffmanOverflow.LightFirst | Common/RakNet/DS_HuffmanEncodingTree.cpp:92-118 | light trees in front of trees each as heavy as all of them are merged to one first, keeping the greedy cost |
| HuffmanOverflow.HeavyTablesLose | Common/RakNet/DS_HuffmanEncodingTree.cpp:104-108 | every table of three times 2^31 and others that make 2^31 together gets a tree that costs 2^31 more than another |
| HuffmanOverflow.OverflowLosesOptimality | Common/RakNet/DS_HuffmanEncodingTree.cpp:65-120 | 256 counts that sum to exactly 2^33 get a tree that is not optimal |
| HuffmanOverflow.EarlyWrapMayBeOptimal | Common/RakNet/DS_HuffmanEncodingTree.cpp:65-120 | 256 counts of which an early join wraps get a tree that is optimal |
| HuffmanSize.EncodeLength | Common/RakNet/DS_HuffmanEncodingTree.cpp:168-176 | the code words of a string have as many bits as the tree costs under the string's counts |
| HuffmanSize.EncodedSizeFor | Common/RakNet/DS_HuffmanEncodingTree.cpp:65-176 | over 2^k symbols, z of them absent, n symbols take at most k*n + (k-1)*z bits |
| HuffmanSize.EncodedSize | Common/RakNet/DS_HuffmanEncodingTree.cpp:65-176 | n bytes, z byte values absent, take at most 8n + 7z bits before padding |
| HuffmanSize.SumMissingIs | Common/RakNet/DS_HuffmanEncodingTree.cpp:83-84 | the z of these bounds is the number of symbols that do not occur |
| HuffmanOrder.LeavesInOrder | Common/RakNet/DS_HuffmanEncodingTree.cpp:75-89 | the leaves stand by weight, a count of zero weighing one, and those of equal weight with the greater byte value first |
| HuffmanOrder.BuildZeroSideLighter | Common/RakNet/DS_HuffmanEncodingTree.cpp:97-146 | for every table summing below 2^32 and whatever bits have been read, the symbols whose code goes on with a zero weigh no more together than those that go on with a one |
| PositionedList.LinkedList.Insert | Include/RakNet/DS_LinkedList.h:617-691 | inserts before the current element, which stays current unless the new one becomes the first |
| PositionedList.LinkedList.Pop | Include/RakNet/DS_LinkedList.h:887-893 | removes and delivers the current element |
| Encoding.InsertNodeIntoSortedList | Common/RakNet/DS_HuffmanEncodingTree.cpp:260-295 | inserts before the first node that is not lighter |
| Encoding.JoinTwo | Common/RakNet/DS_HuffmanEncodingTree.cpp:98-108 | takes the first two nodes off and links them under a new node of their joined weight |
| Encoding.MergeTrees | Common/RakNet/DS_HuffmanEncodingTree.cpp:95-120 | the linked nodes end up as the merged tree, each child linked to its parent |
| Encoding.PathToRoot | Common/RakNet/DS_HuffmanEncodingTree.cpp:130-146 | the recorded path, reversed, is the code word and never fills the 256 cells |
| Encoding.MakeTable | Common/RakNet/DS_HuffmanEncodingTree.cpp:130-165 | the table holds the code word of every byte value, left-aligned with its length |
| Encoding.HuffmanEncodingTree.GenerateFromFrequencyTable | Common/RakNet/DS_HuffmanEncodingTree.cpp:65-165 | the nodes and the table are those of the built tree |
| Encoding.HuffmanEncodingTree.EncodeArray | Common/RakNet/DS_HuffmanEncodingTree.cpp:168-197 | appends the code words and up to 7 bits that end on a byte boundary and complete no symbol; the search for them succeeds |
| Encoding.HuffmanEncodingTree.DecodeArray | Common/RakNet/DS_HuffmanEncodingTree.cpp:199-230 | delivers the symbols completed by the bits, as many as fit, and counts all of them |
| Encoding.HuffmanEncodingTree.DecodeArrayToStream | Common/RakNet/DS_HuffmanEncodingTree.cpp:232-257 | appends the completed symbols as eight bits each |
| Encoding.DecodedEncoded | Common/RakNet/DS_HuffmanEncodingTree.cpp:168-229 | for every tree over the byte values and every input, decoding what EncodeArray appends gives exactly the input |
| Encoding.SymbolBitsOfBytes | Common/RakNet/DS_HuffmanEncodingTree.cpp:232-257 | the symbols of a byte string are written to a stream as that byte string |
| DataCompressor.Patched | Common/RakNet/DataCompressor.cpp:33-35 | rewriting an aligned 32-bit field changes no other bit |
| DataCompressor.PatchUint | Common/RakNet/DataCompressor.cpp:33-35 | going back, rewriting the field and returning leaves the bits before and behind it as they were |
| DataCompressor.BodyBound | Common/RakNet/DataCompressor.cpp:31 | the encoded data takes at most 8n + 1792 bits, for every length the compressor can be given |
| DataCompressor.CompressedEndBound | Common/RakNet/DataCompressor.cpp:10-36 | the compressed form of n bytes takes at most 8n + 10319 bits |
| DataCompressor.FrequencyIs | Common/RakNet/DataCompressor.cpp:17-19 | entry b of the table is how often the byte b occurs |
| DataCompressor.HeaderFields | Common/RakNet/DataCompressor.cpp:23-25 | the header is the number of bytes and then, from byte value 0 to 255, how often each occurs, each number at the position the costs of those before it give |
| DataCompressor.Compress | Common/RakNet/DataCompressor.cpp:10-36 | appends length, table, alignment, the exact bit count of the body and the body, if only the stream can hold them |
| DataCompressor.DecompressAndAllocate | Common/RakNet/DataCompressor.cpp:38-63 | on a stream that goes on with the compressed form of some data, delivers that data and consumes exactly that form |
| DataCompressor.RoundTrip | Common/RakNet/DataCompressor.cpp:10-63 | decompressing gives back every byte string whose actual compressed form fits a growing stream |
| DataCompressor.ShortDataFits | Common/RakNet/DataCompressor.cpp:10-63 | all data with 8n + 10319 up to 4293918712 does |
| ByteQueues.RingAppend | Common/RakNet/DS_ByteQueue.cpp:44-56 | storing bytes around the end of the circle appends them |
| ByteQueues.RingAdvance | Common/RakNet/DS_ByteQueue.cpp:110-113 | moving the read position drops a prefix |
| ByteQueues.ByteQueue.GetBytesWritten | Common/RakNet/DS_ByteQueue.cpp:103-109 | the number of waiting bytes |
| ByteQueues.ByteQueue.WriteBytes | Common/RakNet/DS_ByteQueue.cpp:20-58 | appends the input, growing only when needed |
| ByteQueues.ByteQueue.Grow | Common/RakNet/DS_ByteQueue.cpp:25-42 | growth while wrapped keeps the contents; the second wrap branch cannot be reached |
| ByteQueues.ByteQueue.ReadBytes | Common/RakNet/DS_ByteQueue.cpp:59-87 | copies the first waiting bytes out and removes them unless peeking |
| ByteQueues.ByteQueue.PeekContiguousBytes | Common/RakNet/DS_ByteQueue.cpp:88-95 | the first waiting bytes in one piece, all of them unless the piece ends with the buffer |
| ByteQueues.ByteQueue.IncrementReadOffset | Common/RakNet/DS_ByteQueue.cpp:110-113 | removes a prefix |
| ByteQueues.ByteQueue.DecrementReadOffset | Common/RakNet/DS_ByteQueue.cpp:114-120 | puts the bytes before the read position back in front |
| ByteQueues.BehindAdvance | Common/RakNet/DS_ByteQueue.cpp:110-120 | what a read removed stands right behind the read position, so taking it back restores it |
| ByteQueues.Run | Common/RakNet/DS_ByteQueue.cpp:20-120 | over any run of writes, reads, peeks and take-backs the queue delivers what a plain sequence would |
| SlidingWindow.GreaterThanWindow | Common/RakNet/CCRakNetSlidingWindow.cpp:331-336 | the wrapped comparison is right exactly for differences from -(2^23-1) to 2^23 |
| SlidingWindow.LessThanWindow | Common/RakNet/CCRakNetSlidingWindow.cpp:338-343 | likewise for the other comparison, in its own window |
| SlidingWindow.CCRakNetSlidingWindow.Init | Common/RakNet/CCRakNetSlidingWindow.cpp:33-48 | the initial state |
| SlidingWindow.CCRakNetSlidingWindow.OnGotPacket | Common/RakNet/CCRakNetSlidingWindow.cpp:118-151 | the step of an arrival |
| SlidingWindow.CCRakNetSlidingWindow.OnResend | Common/RakNet/CCRakNetSlidingWindow.cpp:153-174 | the step of a resend |
| SlidingWindow.CCRakNetSlidingWindow.OnNAK | Common/RakNet/CCRakNetSlidingWindow.cpp:176-189 | the step of a negative acknowledgement |
| SlidingWindow.CCRakNetSlidingWindow.OnAck | Common/RakNet/CCRakNetSlidingWindow.cpp:191-246 | the step of an acknowledgement |
| SlidingWindow.CCRakNetSlidingWindow.GetTransmissionBandwidth | Common/RakNet/CCRakNetSlidingWindow.cpp:65-76 | the whole bytes of the window not yet taken, never negative |
| SlidingWindow.AckGrowth | Common/RakNet/CCRakNetSlidingWindow.cpp:228-245 | an acknowledgement never lowers the window and raises it by less than one and a half datagrams |
| SlidingWindow.StepSound | Common/RakNet/CCRakNetSlidingWindow.cpp:33-246 | every step keeps the window at one datagram or more and the datagram size fixed |
| SlidingWindow.WindowFloor | Common/RakNet/CCRakNetSlidingWindow.cpp:33-246 | the window stays at least one datagram in every run from Init |
| SlidingWindow.CutsSeparated | Common/RakNet/CCRakNetSlidingWindow.cpp:153-226 | between two cuts lies an acknowledgement above the number recorded at the first |
| SlidingWindow.NoSlowStart | Common/RakNet/CCRakNetSlidingWindow.cpp:176-189 | after an effective negative acknowledgement slow start is not entered before the next cut |
| SlidingWindow.CutEntersSlowStart | Common/RakNet/CCRakNetSlidingWindow.cpp:158-172 | a cut sets the window to one datagram and the threshold to exactly half the old window, and enters slow start |
| WindowRuns.SlowStartStep | Common/RakNet/CCRakNetSlidingWindow.cpp:229-233 | an acknowledgement in slow start opens the window by one datagram, or past a set threshold to just above it, by the square of the datagram size over the sum |
| WindowRuns.SlowStartRun | Common/RakNet/CCRakNetSlidingWindow.cpp:191-246 | over any run without a noticed loss the window grows by one datagram for each continuous acknowledgement, until a set threshold is reached |
| WindowRuns.OpensFromInit | Common/RakNet/CCRakNetSlidingWindow.cpp:33-246 | from Init, k continuous acknowledgements make a window of k + 1 datagrams, with the threshold unset |
| WindowRuns.AvoidanceStep | Common/RakNet/CCRakNetSlidingWindow.cpp:239-245 | outside slow start the window rises on a new period and only then, by the square of the datagram size over the window |
| WindowRuns.NewPeriodReopens | Common/RakNet/CCRakNetSlidingWindow.cpp:219-226 | a new period is measured from the number sent next and lets the next resend cut again |
| WindowRuns.GrowsOncePerPeriod | Common/RakNet/CCRakNetSlidingWindow.cpp:191-246 | over any run outside slow start the window does not change until a number sent after the period began is acknowledged or the window cut |
| WindowRuns.EstimateSettles | Common/RakNet/CCRakNetSlidingWindow.cpp:200-212 | over any run, n measurements of one round trip leave 0.95^n of the gap between the estimate and it |
| WindowRuns.SteadyLine | Common/RakNet/CCRakNetSlidingWindow.cpp:200-212 | from Init with one round trip the estimate is exact after the first measurement, and the deviation after n is 0.95^(n-1) times the round trip |
| WindowRuns.SteadyTimeout | Common/RakNet/CCRakNetSlidingWindow.cpp:278-303 | the timeout there: twice the round trip and four times that deviation, rounded down, plus 30 ms, capped at two seconds; two seconds before any measurement |
| SlidingWindow.RttBounded | Common/RakNet/CCRakNetSlidingWindow.cpp:200-212 | over every run the smoothed round trip stays between the smallest and largest acknowledged, the deviation between zero and the largest |
| SlidingWindow.CCRakNetSlidingWindow.GetRTOForRetransmission | Common/RakNet/CCRakNetSlidingWindow.cpp:278-303 | the timeout function of the state |
| SlidingWindow.TimeoutBounded | Common/RakNet/CCRakNetSlidingWindow.cpp:278-303 | over every run with an acknowledgement the timeout lies between 2 * smallest and 6 * largest round trip plus 30 ms, capped at two seconds |
| SlidingWindow.ArriveUnwrapped | Common/RakNet/CCRakNetSlidingWindow.cpp:127-150 | the wrapped code follows unbounded sequence numbers: max(old, n + 1) on accept |
| SlidingWindow.ReportUnwrapped | Common/RakNet/CCRakNetSlidingWindow.cpp:127-150 | over any run, what an arrival reports is the unwrapped gap, in full up to 1000 |
| SlidingWindow.SkippedDisjoint | Common/RakNet/CCRakNetSlidingWindow.cpp:131-144 | the ranges reported missing by any two accepted arrivals are disjoint |
| SlidingWindow.ReceiveAll | Common/RakNet/CCRakNetSlidingWindow.cpp:118-151 | the object follows the unbounded numbers over any run of arrivals |
| Median.Partition | Common/RakNet/CCRakNetUDT.cpp:311-320 | the partition loses nothing and the pivot separates its parts |
| Median.EqualsHalved | Common/RakNet/CCRakNetUDT.cpp:311-320 | a list of equal elements is halved |
| Median.KeepUpper | Common/RakNet/CCRakNetUDT.cpp:326-330 | going on with the larger part keeps everything discarded below it and counted |
| Median.KeepLower | Common/RakNet/CCRakNetUDT.cpp:331-335 | going on with the smaller part keeps everything discarded above it and counted |
| Median.CalculateListMedianRecursive | Common/RakNet/CCRakNetUDT.cpp:307-336 | for every even total the recursion never meets an empty list, shrinks, and returns an element with the counts below and above it one apart |
| Median.RankInSorted | Common/RakNet/CCRakNetUDT.cpp:302-336 | such an element stands at the position given by the count below it in any sorted arrangement |
| Median.ReceiverCalculateDataArrivalRateMedian | Common/RakNet/CCRakNetUDT.cpp:302-305 | the result is one of the two middle values of the sorted history |
| Sha1.SwapLoads | Common/RakNet/DR_SHA1.cpp:28-33 | the byte swap turns a word loaded on a little-endian host into a big-endian one |
| Sha1.ScheduledIsW | Common/RakNet/DR_SHA1.cpp:29-36 | the rolling 16-word workspace yields the 80-word message schedule |
| Sha1.MacroIsRound | Common/RakNet/DR_SHA1.cpp:38-43 | a round macro computes the round of the standard, with the choice and majority functions in the forms the code uses |
| Sha1.CSHA1.R | Common/RakNet/DR_SHA1.cpp:38-43 | one macro application on any five registers |
| Sha1.CSHA1.Transform | Common/RakNet/DR_SHA1.cpp:76-115 | eighty applications with rotating roles compute the block step of section 6.1.2 of FIPS 180-4 |
| Sha1.CountAdds | Common/RakNet/DR_SHA1.cpp:121-124 | the carry test counts bits modulo 2^64 |
| Sha1.CSHA1.Update | Common/RakNet/DR_SHA1.cpp:117-142 | afterwards the object has absorbed the old message followed by the data |
| Sha1.NextBlock | Common/RakNet/DR_SHA1.cpp:133-134 | a block taken straight from the data extends the absorbed blocks |
| Sha1.CSHA1.Final | Common/RakNet/DR_SHA1.cpp:176-204 | the digest is the hash of the whole message however it was split; the padding loop ends; everything else is wiped |
| Sha1.PadUnique | Common/RakNet/DR_SHA1.cpp:187-188 | the padding loop stops after the number of zero bytes section 5.1.1 asks for |
| Sha1.CSHA1.HashFile | Common/RakNet/DR_SHA1.cpp:145-173 | reading a file in pieces absorbs its content; fails exactly if it cannot be opened or a read error ends it |
| Sha1.CSHA1.HMAC | Common/RakNet/DR_SHA1.cpp:268-312 | the keyed hash of RFC 2104 for the key cut to 64 bytes |
| Sha1Numbers.KIsRoot | Common/RakNet/DR_SHA1.cpp:39-43 | the four constants are the integer parts of 2^30 times the square roots of 2, 3, 5 and 10, each for twenty rounds |
| Sha1Numbers.InitialIs | Common/RakNet/DR_SHA1.cpp:63-70 | the bytes of the five initial words, lowest first |
| Sha1Numbers.Rotl1Is | Common/RakNet/DR_SHA1.cpp:24 | rotation by 1 as a number: x * 2 mod 2^32 + x / 2^31 |
| Sha1Numbers.Rotl5Is | Common/RakNet/DR_SHA1.cpp:24 | rotation by 5 as a number |
| Sha1Numbers.Rotl30Is | Common/RakNet/DR_SHA1.cpp:24 | rotation by 30 as a number |
| Sha1Numbers.ChoiceIs | Common/RakNet/DR_SHA1.cpp:39-40 | rounds 0 to 19 take the bits of the second word where the first has ones, those of the third elsewhere |
| Sha1Numbers.ParityIs | Common/RakNet/DR_SHA1.cpp:41-43 | rounds 20 to 39 and 60 to 79 take the exclusive or |
| Sha1Numbers.MajorityIs | Common/RakNet/DR_SHA1.cpp:42 | rounds 40 to 59 take the bits on which the first two agree, those of the third elsewhere |
| Sha1Numbers.ScheduleIs | Common/RakNet/DR_SHA1.cpp:28-36 | the first sixteen schedule words are the block's bytes, most significant first; each further one is the exclusive or of those 3, 8, 14 and 16 before it, rotated by one |
| Sha1Numbers.RoundIs | Common/RakNet/DR_SHA1.cpp:38-43 | one round in numbers: the sum modulo 2^32 and where each register goes |
| Sha1Numbers.HashBlockSums | Common/RakNet/DR_SHA1.cpp:104-109 | a block adds to each register, modulo 2^32, what its eighty rounds make of them |
| Sha1Numbers.HashIs | Common/RakNet/DR_SHA1.cpp:193-196 | the twenty bytes are the five registers in turn, most significant byte first, after all blocks of the padded message |
| Sha1Numbers.PaddedIs | Common/RakNet/DR_SHA1.cpp:176-190 | the padding: a one bit, the fewest zeros that fill whole blocks, and the length in bits as a 64-bit number, most significant byte first |
| Sha1Numbers.HmacIs | Common/RakNet/DR_SHA1.cpp:268-312 | the keyed hash with its pads 0x36 inside and 0x5C outside; longer keys hashed first, as RFC 2104 asks |
| ServerConfig.JsonReader.ParseValue | Server/CServerConfig.cpp:26-41 | does what the value function says of the text left: same rest, same settings, or failure |
| ServerConfig.JsonReader.ParseObject | Server/CServerConfig.cpp:43-63 | likewise for the members of an object |
| ServerConfig.JsonReader.ParseArray | Server/CServerConfig.cpp:65-82 | likewise for the elements of an array |
| ServerConfig.JsonReader.ParseString | Server/CServerConfig.cpp:84-132 | likewise for a string with its escapes |
| ServerConfig.JsonReader.ParseLiteral | Server/CServerConfig.cpp:134-151 | the longest run up to white space, comma or closing bracket, which must not be empty |
| ServerConfig.CServerConfig.SetSetting | Server/CServerConfig.cpp:256-260 | stores the value unless the key is empty or begins with the array prefix |
| ServerConfig.CServerConfig.GetSettingOr | Server/CServerConfig.cpp:272-276 | the stored value, or the fallback |
| ServerConfig.CServerConfig.ParseJsonConfig | Server/CServerConfig.cpp:241-254 | stores the settings of the document, or leaves none and marks the configuration as not loaded |
| ServerConfig.BodyOfPieces | Server/CServerConfig.cpp:84-132 | reading a printed string gives its meaning and leaves what follows |
| ServerConfig.EscapesRead | Server/CServerConfig.cpp:84-132 | every string written with the escapes of RFC 8259, section 7, reads back as itself and leaves what follows |
| ServerConfig.EscapeTexts | Server/CServerConfig.cpp:99-124 | the texts of those escapes |
| ServerConfig.OtherEscapes | Server/CServerConfig.cpp:121-123 | before any other character, u included, a backslash only drops out |
| ServerConfig.LiteralEnds | Server/CServerConfig.cpp:134-151 | the characters a literal ends at, and that it has none of them inside |
| ServerConfig.ReadsPrinted | Server/CServerConfig.cpp:26-151 | printing any document with any white space and reading it gives its dotted flattening and leaves what follows |
| ServerConfig.ReadIsPrinted | Server/CServerConfig.cpp:26-151 | whatever is read without error is the printing of some document |
| ServerConfig.ReadsExactlyDocuments | Server/CServerConfig.cpp:19-151 | a text is read if and only if it begins with a document, and then the settings are that document's |
| ServerConfig.JoinDotted | Server/CServerConfig.cpp:56-57 | going one object deeper appends a point and the key, except behind an empty path |
| ServerConfig.FlattenIsDotted | Server/CServerConfig.cpp:43-63 | the settings of a document are its texts and literals outside arrays, each under the keys on the way to it with points between them |
| ServerConfig.Example | Server/CServerConfig.cpp:19-151 | what one text with nested objects, an escape, an array and a number gives, whatever follows it |
| ServerConfig.ArraysAreIgnored | Server/CServerConfig.cpp:65-82 | nothing inside an array is recorded, however deep |
| ServerConfig.LastWins | Server/CServerConfig.cpp:256-260 | of several settings with one key the last is kept; hidden and unmentioned keys are untouched |
| Base64.DecodeEncoded | Common/RakNet/Base64Encoder.cpp:8-79 | without line breaks the output decodes to the data |
| Base64.StandardExactlyWhen | Common/RakNet/Base64Encoder.cpp:38-51 | the output is the standard encoding if and only if the byte looked at behind the data has its high bits clear |
| Base64.LinesAreShort | Common/RakNet/Base64Encoder.cpp:18-75 | no line is longer than 76 characters and the last line is closed |
| Base64.BreaksPaired | Common/RakNet/Base64Encoder.cpp:22-23 | every carriage return is followed by a line feed and every line feed follows a carriage return; the output ends with both |
| Base64.Examples | Common/RakNet/Base64Encoder.cpp:3-79 | the test vectors of RFC 4648, section 10, for the encoding the output is compared with |
| Base64.EncodedLength | Common/RakNet/Base64Encoder.cpp:8-85 | the length is 4*ceil(n/3) + 2*floor(n/57) + 2, and with the closing zero at most 2n + 6 |
| Base64.StripLined | Common/RakNet/Base64Encoder.cpp:22-35 | the line breaks inserted are the only change to the letters |
| Base64.Put | Common/RakNet/Base64Encoder.cpp:22-23 | one letter and the line break that may follow it |
| Base64.Base64Encoding | Common/RakNet/Base64Encoder.cpp:8-79 | the buffer holds exactly the encoded lines and a closing zero, and is never overrun |
| Base64.Base64EncodingAllocated | Common/RakNet/Base64Encoder.cpp:81-85 | 2n + 6 characters are enough |
| Words.DecimalUnique | Client/CKeyBinds.cpp:325-330 | different numbers print differently |
| Words.DecimalReadsBack | Client/CKeyBinds.cpp:325-330 | a printed number reads back as itself, without leading zeros |
| KeyBinds.CaptureIdUnique | Client/CKeyBinds.cpp:325-330 | identifiers are equal exactly for equal keys and actions |
| KeyBinds.ClockAgreesExactlyWhen | Client/CKeyBinds.cpp:302-305 | when the wrapping clock test agrees with true time |
| KeyBinds.ClockAgrees | Client/CKeyBinds.cpp:302-305 | it agrees until 2^31 ms after expiry |
| KeyBinds.RefinesStore | Client/CKeyBinds.cpp:92-93 | storing under the identifier stores under key and action |
| KeyBinds.RefinesErase | Client/CKeyBinds.cpp:102-107 | erasing the identifier erases exactly that key and action |
| KeyBinds.CKeyBinds.BeginCapture | Client/CKeyBinds.cpp:68-97 | grants or renews exactly the lease asked for, with its true end, or ignores the call |
| KeyBinds.CKeyBinds.EndCapture | Client/CKeyBinds.cpp:102-107 | ends exactly that lease |
| KeyBinds.CKeyBinds.CleanExpiredCaptures | Client/CKeyBinds.cpp:291-300 | removes exactly the leases that have run out in true time, provided none did so 2^31 ms ago or more |
| KeyBinds.CKeyBinds.TimelyWhenCleaned | Client/CKeyBinds.cpp:291-305 | cleaning every 2^31 ms is enough for that, and not needed without leases |
| KeyBinds.CKeyBinds.FindBestCapture | Client/CKeyBinds.cpp:307-323 | finds the one live lease on the key with the greatest priority and sequence, in whatever order the leases are visited, provided none ran out 2^31 ms ago or more |
| KeyBinds.CaptureLasts | Client/CKeyBinds.cpp:68-97 | a lease on a key without another is found until the time asked for has passed (350 ms for 0, at most 5000 ms), and not a millisecond longer |
| KeyBinds.CKeyBinds.HasActiveCaptureFlag | Client/CKeyBinds.cpp:365-381 | whether a live lease carries the flag |

## Left out

- HuffmanOptimal.OptimalWithoutEarlyWrap: one way only; HuffmanOverflow.EarlyWrapMayBeOptimal shows that its converse fails, and which tables with an early wrap still get an optimal tree is not characterised.
- DataCompressor.DecompressAndAllocate: stated for streams that hold compressed data; the source does not check the header it reads, so nothing is promised on other input.
- Streams.BitStream.WriteStream: on the byte-aligned path the whole bytes asked for must lie inside the source's buffer, which the source does not check.
- KeyBinds.CKeyBinds.FindBestCapture: stated for fewer than 2^32 captures begun, since the sequence number wraps.
- Sha1.CSHA1.Update: for pieces below 2^32 - 64 bytes; above that the 32-bit offsets of the source wrap past its buffers.
- The sliding window uses real numbers for its doubles (the absolute value is that of a real number); the acknowledgement timer and the sending side of CCRakNetUDT are not modelled.
- Huffman nodes: left, right and value are set once when a node is made; only the parent link is changed afterwards, as in the source. FreeMemory and every other release of memory are not modelled, nor are failed allocations.
- Numbers cross the wire in network order, which is what both byte orders of host produce; SHA-1 is modelled for the little-endian build.
- The unrolled eighty macro calls of Transform are written as sixteen rounds of five.
- The positioned list keeps its elements in a sequence, not in linked nodes.
- The element number of an array in the JSON reader is unbounded here; in the source it is an int.
- The legacy line format of the configuration, opening the file, and log output.
- In CKeyBinds the binds, Process, the consumed-key filters and all calls into the window system; the update of the game's action blocks that follows BeginCapture and EndCapture is represented by HasActiveCaptureFlag alone.
- Printing functions, 16-bit floats, normalised vectors, range-coded integers and string types of BitStream.
- Cloud server, tables, sockets, email, rendering and all client code that calls into the game.
