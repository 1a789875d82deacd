/** Common/RakNet/Base64Encoder.cpp against the encoding of RFC 4648, section 4, and the lines of RFC 2045, section
    6.8. */
module Base64 {
  import opened Bits

  const UPPER: string := "ABCDEFGHIJKLMNOPQRSTUVWXYZ"
  const LOWER: string := "abcdefghijklmnopqrstuvwxyz"
  const DIGITS: string := "0123456789"
  const MAP: string := UPPER + LOWER + DIGITS + "+/"
  const LINE: nat := 76
  // Offsets and lengths are signed 32-bit numbers
  const INT_LIMIT: nat := 0x8000_0000

  lemma MapLength()
    ensures |MAP| == 64
  {}

  function Letter(sextet: byte): char
    requires sextet < 64
  {
    MapLength();
    MAP[Value(sextet)]
  }

  // ----- RFC 4648, section 4 -----

  /** The four letters of three bytes; a missing third or second byte counts as zero. */
  function First(a: byte): char { Letter(a >> 2) }
  function Second(a: byte, b: byte): char { Letter(((a << 4) | (b >> 4)) & 63) }
  function Third(b: byte, c: byte): char { Letter(((b << 2) | (c >> 6)) & 63) }
  function Fourth(c: byte): char { Letter(c & 63) }

  function Quad(a: byte, b: byte, c: byte): (s: string)
    ensures |s| == 4
  {
    [First(a), Second(a, b), Third(b, c), Fourth(c)]
  }

  function Rfc4648(data: seq<byte>): string {
    if |data| == 0 then ""
    else if |data| == 1 then [First(data[0]), Second(data[0], 0), '=', '=']
    else if |data| == 2 then [First(data[0]), Second(data[0], data[1]), Third(data[1], 0), '=']
    else Quad(data[0], data[1], data[2]) + Rfc4648(data[3..])
  }

  /** The number a letter stands for, 64 for every other character. */
  function Sextet(c: char): (v: byte) {
    if 'A' <= c <= 'Z' then AsByte(c as int - 'A' as int)
    else if 'a' <= c <= 'z' then AsByte(c as int - 'a' as int + 26)
    else if '0' <= c <= '9' then AsByte(c as int - '0' as int + 52)
    else if c == '+' then 62
    else if c == '/' then 63
    else 64
  }

  datatype Decoded = Invalid | Bytes(bytes: seq<byte>)

  /** Groups of four letters; only the last may be padded. Bits behind the last byte are not looked at. */
  function Decode(s: string): Decoded {
    if s == "" then Bytes([])
    else if |s| < 4 || Sextet(s[0]) == 64 || Sextet(s[1]) == 64 then Invalid
    else
      var x, y, z, w := Sextet(s[0]), Sextet(s[1]), Sextet(s[2]), Sextet(s[3]);
      if s[2..] == "==" then Bytes([(x << 2) | (y >> 4)])
      else if z == 64 then Invalid
      else if s[3..] == "=" then Bytes([(x << 2) | (y >> 4), (y << 4) | (z >> 2)])
      else if w == 64 then Invalid
      else Before([(x << 2) | (y >> 4), (y << 4) | (z >> 2), (z << 6) | w], Decode(s[4..]))
  }

  function Before(head: seq<byte>, d: Decoded): Decoded {
    if d.Invalid? then Invalid else Bytes(head + d.bytes)
  }

  lemma UpperAt(i: nat)
    requires i < 26
    ensures |UPPER| == 26 && UPPER[i] as int == 'A' as int + i
  {}

  lemma LowerAt(i: nat)
    requires i < 26
    ensures |LOWER| == 26 && LOWER[i] as int == 'a' as int + i
  {}

  lemma DigitAt(i: nat)
    requires i < 10
    ensures |DIGITS| == 10 && DIGITS[i] as int == '0' as int + i
  {}

  lemma SextetAt(i: nat)
    requires i < 64
    ensures |MAP| == 64 && Sextet(MAP[i]) == AsByte(i) && MAP[i] != '=' && MAP[i] != '\r' && MAP[i] != '\n'
  {
    hide AsByte;
    MapParts();
    if i < 26 {
      UpperAt(i);
    } else if i < 52 {
      LowerAt(i - 26);
    } else if i < 62 {
      DigitAt(i - 52);
    } else {
      assert AsByte(62) == 62 && AsByte(63) == 63 by {
        LastBytes();
      }
    }
  }

  lemma LastBytes()
    ensures AsByte(62) == 62 && AsByte(63) == 63
  {}

  lemma MapParts()
    ensures |UPPER| == 26 && |LOWER| == 26 && |DIGITS| == 10 && |MAP| == 64 && MAP[62] == '+' && MAP[63] == '/'
    ensures forall i :: 0 <= i < 26 ==> MAP[i] == UPPER[i]
    ensures forall i :: 26 <= i < 52 ==> MAP[i] == LOWER[i - 26]
    ensures forall i :: 52 <= i < 62 ==> MAP[i] == DIGITS[i - 52]
  {}

  lemma SextetLetter(v: byte)
    requires v < 64
    ensures Sextet(Letter(v)) == v
    ensures Letter(v) != '=' && Letter(v) != '\r' && Letter(v) != '\n'
  {
    hide AsByte, Sextet;
    SmallValue(v);
    SextetAt(Value(v));
    AsByteValue(v);
  }

  lemma SmallValue(v: byte)
    requires v < 64
    ensures Value(v) < 64
  {}

  lemma Regroup(a: byte, b: byte, c: byte)
    ensures var x, y, z, w := a >> 2, ((a << 4) | (b >> 4)) & 63, ((b << 2) | (c >> 6)) & 63, c & 63;
            && x < 64 && y < 64 && z < 64 && w < 64
            && (x << 2) | (y >> 4) == a && (y << 4) | (z >> 2) == b && (z << 6) | w == c
  {}

  /** The examples of RFC 4648, section 10. */
  lemma Examples()
    ensures Rfc4648([]) == "" && Rfc4648([0x66]) == "Zg==" && Rfc4648([0x66, 0x6F]) == "Zm8="
    ensures Rfc4648([0x66, 0x6F, 0x6F]) == "Zm9v" && Rfc4648([0x66, 0x6F, 0x6F, 0x62]) == "Zm9vYg=="
    ensures Rfc4648([0x66, 0x6F, 0x6F, 0x62, 0x61]) == "Zm9vYmE="
    ensures Rfc4648([0x66, 0x6F, 0x6F, 0x62, 0x61, 0x72]) == "Zm9vYmFy"
  {
    hide Letter;
    ExampleLetters();
    var four: seq<byte>, five: seq<byte>, six: seq<byte> :=
      [0x66, 0x6F, 0x6F, 0x62], [0x66, 0x6F, 0x6F, 0x62, 0x61], [0x66, 0x6F, 0x6F, 0x62, 0x61, 0x72];
    assert four[3..] == [0x62] && five[3..] == [0x62, 0x61] && six[3..] == [0x62, 0x61, 0x72];
    assert six[3..][3..] == [] && four[..3][3..] == [];
  }

  lemma ExampleLetters()
    ensures Letter(25) == 'Z' && Letter(32) == 'g' && Letter(38) == 'm' && Letter(60) == '8' && Letter(61) == '9'
    ensures Letter(47) == 'v' && Letter(24) == 'Y' && Letter(4) == 'E' && Letter(5) == 'F' && Letter(50) == 'y'
  {}

  // ----- What the encoder writes -----

  /** What the encoder may read: with one byte over it looks one byte behind the data. */
  predicate Readable(memory: seq<byte>, n: nat) { n <= |memory| && (n % 3 == 1 ==> n < |memory|) }

  /** The letters of the first k whole groups. */
  function Groups(memory: seq<byte>, k: nat): (s: string)
    requires 3 * k <= |memory|
    ensures |s| == 4 * k
  {
    if k == 0 then "" else Groups(memory, k - 1) + Quad(memory[3 * k - 3], memory[3 * k - 2], memory[3 * k - 1])
  }

  /** The letters of the bytes that are over. */
  function Over(memory: seq<byte>, n: nat): string
    requires Readable(memory, n)
  {
    if n % 3 == 1 then [First(memory[n - 1]), Second(memory[n - 1], memory[n])]
    else if n % 3 == 2 then [First(memory[n - 2]), Second(memory[n - 2], memory[n - 1]),
        Letter((memory[n - 1] << 2) & 63)]
    else ""
  }

  function Letters(memory: seq<byte>, n: nat): string
    requires Readable(memory, n)
  {
    Groups(memory, n / 3) + Over(memory, n)
  }

  function Pads(n: nat): string { if n % 3 == 1 then "==" else if n % 3 == 2 then "=" else "" }

  /** A line break after every 76 letters. */
  function Lined(s: string): (t: string)
    ensures |t| == |s| + 2 * (|s| / LINE)
  {
    if s == "" then ""
    else Lined(s[..|s| - 1]) + [s[|s| - 1]] + if |s| % LINE == 0 then "\r\n" else ""
  }

  function Encoded(memory: seq<byte>, n: nat): string
    requires Readable(memory, n)
  {
    Lined(Letters(memory, n)) + Pads(n) + "\r\n"
  }

  function Strip(s: string): string {
    if s == "" then ""
    else Strip(s[..|s| - 1]) + if s[|s| - 1] == '\r' || s[|s| - 1] == '\n' then "" else [s[|s| - 1]]
  }

  /** How many characters stand on the line that s ends in. */
  function Column(s: string): nat {
    if s == "" || s[|s| - 1] == '\r' || s[|s| - 1] == '\n' then 0 else Column(s[..|s| - 1]) + 1
  }

  predicate Plain(s: string) { forall i :: 0 <= i < |s| ==> s[i] != '\r' && s[i] != '\n' }

  // ----- Decoding gives the input back -----

  lemma {:induction false} DecodeGroups(memory: seq<byte>, k: nat, rest: string)
    requires 3 * k <= |memory|
    ensures Decode(Groups(memory, k) + rest) == Before(memory[..3 * k], Decode(rest))
    decreases k
  {
    hide Quad, Decode;
    if k == 0 {
      assert Groups(memory, k) + rest == rest;
      assert memory[..0] == [];
    } else {
      var a, b, c := memory[3 * k - 3], memory[3 * k - 2], memory[3 * k - 1];
      assert Groups(memory, k) + rest == Groups(memory, k - 1) + (Quad(a, b, c) + rest);
      DecodeGroups(memory, k - 1, Quad(a, b, c) + rest);
      DecodeQuad(a, b, c, rest);
      assert memory[..3 * k] == memory[..3 * (k - 1)] + [a, b, c];
      if Decode(rest).Bytes? {
        assert memory[..3 * k] + Decode(rest).bytes == memory[..3 * (k - 1)] + ([a, b, c] + Decode(rest).bytes);
      }
    }
  }

  lemma DecodeQuad(a: byte, b: byte, c: byte, rest: string)
    ensures Decode(Quad(a, b, c) + rest) == Before([a, b, c], Decode(rest))
  {
    hide Letter, Sextet;
    var s := Quad(a, b, c) + rest;
    assert s[4..] == rest;
    QuadSextets(a, b, c);
    Regroup(a, b, c);
    assert s[2] != '=' && s[3] != '=';
  }

  lemma QuadSextets(a: byte, b: byte, c: byte)
    ensures Sextet(First(a)) == a >> 2 && First(a) != '='
    ensures Sextet(Second(a, b)) == ((a << 4) | (b >> 4)) & 63 && Second(a, b) != '='
    ensures Sextet(Third(b, c)) == ((b << 2) | (c >> 6)) & 63 && Third(b, c) != '='
    ensures Sextet(Fourth(c)) == c & 63 && Fourth(c) != '='
  {
    hide Letter, Sextet;
    SextetLetter(a >> 2);
    SextetLetter(((a << 4) | (b >> 4)) & 63);
    SextetLetter(((b << 2) | (c >> 6)) & 63);
    SextetLetter(c & 63);
  }

  lemma DecodeOne(a: byte, b: byte)
    ensures Decode([First(a), Second(a, b)] + "==") == Bytes([a])
  {
    hide Letter, Sextet;
    var s := [First(a), Second(a, b)] + "==";
    QuadSextets(a, b, 0);
    Regroup(a, b, 0);
    assert s[2..] == "==";
  }

  lemma DecodeTwo(a: byte, b: byte)
    ensures Decode([First(a), Second(a, b), Third(b, 0)] + "=") == Bytes([a, b])
  {
    hide Letter, Sextet;
    var s := [First(a), Second(a, b), Third(b, 0)] + "=";
    QuadSextets(a, b, 0);
    Regroup(a, b, 0);
    assert s[2..][0] == s[2] == Third(b, 0);
    assert s[3..] == "=";
  }

  lemma DecodeOver(memory: seq<byte>, n: nat)
    requires Readable(memory, n)
    ensures Decode(Over(memory, n) + Pads(n)) == Bytes(memory[n - n % 3..n])
  {
    hide Letter, Sextet, Decode;
    if n % 3 == 1 {
      DecodeOne(memory[n - 1], memory[n]);
      assert memory[n - 1..n] == [memory[n - 1]];
    } else if n % 3 == 2 {
      LastLetter(memory[n - 1]);
      DecodeTwo(memory[n - 2], memory[n - 1]);
      assert memory[n - 2..n] == [memory[n - 2], memory[n - 1]];
    } else {
      DecodeNothing();
      assert memory[n..n] == [] && Over(memory, n) + Pads(n) == "";
    }
  }

  lemma DecodeNothing()
    ensures Decode("") == Bytes([])
  {}

  lemma LastLetter(b: byte)
    ensures (b << 2) & 63 == ((b << 2) | (0 >> 6)) & 63
    ensures Letter((b << 2) & 63) == Third(b, 0)
  {}

  // ----- Line breaks -----

  lemma {:induction false} StripConcat(s: string, t: string)
    ensures Strip(s + t) == Strip(s) + Strip(t)
    decreases |t|
  {
    if t == "" {
      assert s + t == s;
    } else {
      assert (s + t)[..|s + t| - 1] == s + t[..|t| - 1];
      StripConcat(s, t[..|t| - 1]);
    }
  }

  lemma {:induction false} StripPlain(s: string)
    requires Plain(s)
    ensures Strip(s) == s
  {
    if s != "" {
      StripPlain(s[..|s| - 1]);
      assert s == s[..|s| - 1] + [s[|s| - 1]];
    }
  }

  lemma StripBreak()
    ensures Strip("\r\n") == "" && Strip("") == ""
  {
    assert "\r\n"[..1] == "\r" && "\r"[..0] == "";
  }

  lemma {:induction false} StripLined(s: string)
    requires Plain(s)
    ensures Strip(Lined(s)) == s
  {
    hide Strip, Lined;
    if s == "" {
      NoLines();
    } else {
      var init, last := s[..|s| - 1], s[|s| - 1];
      StripLined(init);
      assert s == init + [last];
      LinedMore(init, last);
      StripConcat(Lined(init) + [last], if |s| % LINE == 0 then "\r\n" else "");
      StripConcat(Lined(init), [last]);
      StripPlain([last]);
      StripBreak();
    }
  }

  lemma NoLines()
    ensures Strip(Lined("")) == ""
  {}

  lemma {:induction false} LettersPlain(memory: seq<byte>, k: nat)
    requires 3 * k <= |memory|
    ensures Plain(Groups(memory, k))
  {
    hide Letter;
    if k > 0 {
      LettersPlain(memory, k - 1);
      QuadPlain(memory[3 * k - 3], memory[3 * k - 2], memory[3 * k - 1]);
    }
  }

  lemma QuadPlain(a: byte, b: byte, c: byte)
    ensures Plain(Quad(a, b, c))
  {
    hide Letter;
    SextetLetter(a >> 2);
    SextetLetter(((a << 4) | (b >> 4)) & 63);
    SextetLetter(((b << 2) | (c >> 6)) & 63);
    SextetLetter(c & 63);
  }

  lemma OverPlain(memory: seq<byte>, n: nat)
    requires Readable(memory, n)
    ensures Plain(Over(memory, n))
  {
    hide Letter;
    if n % 3 == 1 {
      QuadPlain(memory[n - 1], memory[n], 0);
      assert Over(memory, n) == Quad(memory[n - 1], memory[n], 0)[..2];
    } else if n % 3 == 2 {
      LastLetter(memory[n - 1]);
      QuadPlain(memory[n - 2], memory[n - 1], 0);
      assert Over(memory, n) == Quad(memory[n - 2], memory[n - 1], 0)[..3];
    }
  }

  lemma StripEncoded(memory: seq<byte>, n: nat)
    requires Readable(memory, n)
    ensures Strip(Encoded(memory, n)) == Letters(memory, n) + Pads(n)
  {
    hide Lined, Strip, Over, Groups;
    LettersPlain(memory, n / 3);
    OverPlain(memory, n);
    var letters := Letters(memory, n);
    StripLined(letters);
    StripConcat(Lined(letters) + Pads(n), "\r\n");
    StripConcat(Lined(letters), Pads(n));
    StripPlain(Pads(n));
    StripBreak();
  }

  /** Without the line breaks the output decodes to the data, whatever byte stands behind the data. */
  lemma DecodeEncoded(memory: seq<byte>, n: nat)
    requires Readable(memory, n)
    ensures Decode(Strip(Encoded(memory, n))) == Bytes(memory[..n])
  {
    hide Lined, Strip, Over, Groups, Encoded, Decode, Pads;
    StripEncoded(memory, n);
    var over := Over(memory, n) + Pads(n);
    assert Letters(memory, n) + Pads(n) == Groups(memory, n / 3) + over;
    DecodeGroups(memory, n / 3, over);
    DecodeOver(memory, n);
    assert 3 * (n / 3) == n - n % 3;
    assert memory[..n - n % 3] + memory[n - n % 3..n] == memory[..n];
  }

  lemma {:induction false} RfcGroups(data: seq<byte>, k: nat)
    requires 3 * k <= |data|
    ensures Rfc4648(data) == Groups(data, k) + Rfc4648(data[3 * k..])
    decreases k
  {
    hide Quad, Rfc4648, First, Second, Third;
    if k == 0 {
      assert data[0..] == data;
    } else {
      RfcGroups(data, k - 1);
      var left := data[3 * (k - 1)..];
      assert left[0] == data[3 * k - 3] && left[1] == data[3 * k - 2] && left[2] == data[3 * k - 1];
      assert left[3..] == data[3 * k..];
      RfcQuad(left);
    }
  }

  lemma RfcQuad(data: seq<byte>)
    requires |data| >= 3
    ensures Rfc4648(data) == Quad(data[0], data[1], data[2]) + Rfc4648(data[3..])
  {
    hide Quad;
  }

  lemma {:induction false} GroupsPrefix(memory: seq<byte>, data: seq<byte>, k: nat)
    requires 3 * k <= |data| && data <= memory
    ensures Groups(memory, k) == Groups(data, k)
  {
    hide Quad;
    if k > 0 {
      GroupsPrefix(memory, data, k - 1);
    }
  }

  /** The output is the standard encoding in lines exactly if the byte looked at behind the data, when there is one,
      has its four high bits clear. */
  lemma StandardExactlyWhen(memory: seq<byte>, n: nat)
    requires Readable(memory, n)
    ensures Strip(Encoded(memory, n)) == Rfc4648(memory[..n]) <==> (n % 3 == 1 ==> memory[n] >> 4 == 0)
  {
    hide Lined, Strip, Groups, Encoded, Rfc4648, Letter;
    var data, q := memory[..n], n / 3;
    StripEncoded(memory, n);
    GroupsPrefix(memory, data, q);
    RfcGroups(data, q);
    var left := data[3 * q..];
    assert Letters(memory, n) + Pads(n) == Groups(memory, q) + (Over(memory, n) + Pads(n));
    RfcOver(left);
    var over := Over(memory, n) + Pads(n);
    if n % 3 == 1 {
      var a, b := memory[n - 1], memory[n];
      assert over == [First(a), Second(a, b), '=', '='];
      SecondDecides(a, b);
      assert Rfc4648(left) == [First(a), Second(a, 0), '=', '='];
      assert over[1] == Second(a, b) && Rfc4648(left)[1] == Second(a, 0);
    } else if n % 3 == 2 {
      LastLetter(memory[n - 1]);
      assert over == Rfc4648(left);
    } else {
      assert over == Rfc4648(left);
    }
    SameTail(Groups(memory, q), over, Rfc4648(left));
  }

  lemma SameTail(p: string, s: string, t: string)
    ensures p + s == p + t <==> s == t
  {
    assert (p + s)[|p|..] == s && (p + t)[|p|..] == t;
  }

  lemma RfcOver(data: seq<byte>)
    requires |data| < 3
    ensures Rfc4648(data) == if |data| == 0 then "" else
              if |data| == 1 then [First(data[0]), Second(data[0], 0), '=', '=']
              else [First(data[0]), Second(data[0], data[1]), Third(data[1], 0), '=']
  {}

  lemma SecondDecides(a: byte, b: byte)
    ensures Second(a, b) == Second(a, 0) <==> b >> 4 == 0
  {
    hide Letter, Sextet;
    SextetLetter(((a << 4) | (b >> 4)) & 63);
    SextetLetter(((a << 4) | (0 >> 4)) & 63);
    assert ((a << 4) | (b >> 4)) & 63 == ((a << 4) | (0 >> 4)) & 63 <==> b >> 4 == 0;
  }

  /** Every prefix ends at most 76 characters into its line. */
  predicate Narrow(s: string) { forall k :: 0 <= k <= |s| ==> Column(s[..k]) <= LINE }

  lemma NarrowMore(s: string, c: char)
    requires Narrow(s) && Column(s + [c]) <= LINE
    ensures Narrow(s + [c])
  {
    hide Column;
    var t := s + [c];
    forall k | 0 <= k <= |t|
      ensures Column(t[..k]) <= LINE
    {
      assert t[..k] == if k <= |s| then s[..k] else t;
    }
  }

  lemma ColumnMore(s: string, c: char)
    ensures Column(s + [c]) == if c == '\r' || c == '\n' then 0 else Column(s) + 1
  {
    assert (s + [c])[..|s|] == s;
  }

  lemma BreakLine(s: string)
    requires Narrow(s)
    ensures Narrow(s + "\r\n") && Column(s + "\r\n") == 0
  {
    hide Column, Narrow;
    ColumnMore(s, '\r');
    NarrowMore(s, '\r');
    ColumnMore(s + "\r", '\n');
    NarrowMore(s + "\r", '\n');
    assert s + "\r\n" == s + "\r" + "\n";
  }

  lemma {:induction false} LinedNarrow(s: string)
    requires Plain(s)
    ensures Narrow(Lined(s)) && Column(Lined(s)) == |s| % LINE
  {
    hide Column;
    if s == "" {
      EmptyLine();
    } else {
      var init, last := s[..|s| - 1], s[|s| - 1];
      LinedNarrow(init);
      ColumnMore(Lined(init), last);
      NarrowMore(Lined(init), last);
      if |s| % LINE == 0 {
        BreakLine(Lined(init) + [last]);
      } else {
        assert Lined(init) + [last] + "" == Lined(init) + [last];
      }
    }
  }

  lemma EmptyLine()
    ensures Narrow("") && Column("") == 0
  {
    assert ""[..0] == "";
  }

  /** No line of the output is longer than 76 characters, and its last line is closed. */
  lemma LinesAreShort(memory: seq<byte>, n: nat)
    requires Readable(memory, n)
    ensures Narrow(Encoded(memory, n)) && Column(Encoded(memory, n)) == 0
    ensures forall k :: 0 <= k <= |Encoded(memory, n)| ==> Column(Encoded(memory, n)[..k]) <= 76
  {
    hide Column, Narrow, Lined, Groups, Over;
    var letters := Letters(memory, n);
    LettersPlain(memory, n / 3);
    OverPlain(memory, n);
    LinedNarrow(letters);
    LettersCount(memory, n);
    var t := Lined(letters);
    if n % 3 != 0 {
      ColumnMore(t, '=');
      NarrowMore(t, '=');
    }
    if n % 3 == 1 {
      ColumnMore(t + "=", '=');
      NarrowMore(t + "=", '=');
      assert t + "==" == t + "=" + "=";
    }
    assert t + "" == t;
    BreakLine(t + Pads(n));
    NarrowIs(Encoded(memory, n));
  }

  lemma NarrowIs(s: string)
    requires Narrow(s)
    ensures forall k :: 0 <= k <= |s| ==> Column(s[..k]) <= 76
  {}

  /** Line breaks are a carriage return and a line feed, in that order, and nothing else is either of the two. */
  predicate Paired(s: string) {
    && (forall i :: 0 <= i < |s| && s[i] == '\r' ==> i + 1 < |s| && s[i + 1] == '\n')
    && (forall i :: 0 <= i < |s| && s[i] == '\n' ==> 0 < i && s[i - 1] == '\r')
  }

  lemma PairedMore(s: string, t: string)
    requires Paired(s) && Plain(t)
    ensures Paired(s + t) && Paired(s + t + "\r\n")
  {
    var u := s + t + "\r\n";
    assert u[|s + t|] == '\r' && u[|s + t| + 1] == '\n';
    assert forall i :: 0 <= i < |s + t| ==> u[i] == (s + t)[i];
  }

  lemma {:induction false} LinedPaired(s: string)
    requires Plain(s)
    ensures Paired(Lined(s))
  {
    hide Paired, Lined;
    if s == "" {
      NothingPaired();
    } else {
      var init, last := s[..|s| - 1], s[|s| - 1];
      LinedPaired(init);
      assert s == init + [last];
      LinedMore(init, last);
      PairedMore(Lined(init), [last]);
      assert Lined(init) + [last] + "" == Lined(init) + [last];
    }
  }

  lemma NothingPaired()
    ensures Paired(Lined(""))
  {}

  /** Every break of the output is a carriage return followed by a line feed, and one ends it. */
  lemma BreaksPaired(memory: seq<byte>, n: nat)
    requires Readable(memory, n)
    ensures Paired(Encoded(memory, n)) && |Encoded(memory, n)| >= 2
    ensures Encoded(memory, n)[|Encoded(memory, n)| - 2..] == "\r\n"
  {
    hide Lined, Groups, Over, Paired;
    LettersPlain(memory, n / 3);
    OverPlain(memory, n);
    LinedPaired(Letters(memory, n));
    PairedMore(Lined(Letters(memory, n)), Pads(n));
  }

  function LetterCount(n: nat): nat { 4 * (n / 3) + if n % 3 == 0 then 0 else n % 3 + 1 }

  /** The length of the output without its closing zero: 4 * ceil(n / 3) + 2 * floor(n / 57) + 2. */
  function OutputLength(n: nat): nat { 4 * ((n + 2) / 3) + 2 * (n / 57) + 2 }

  lemma LetterLines(n: nat)
    ensures LetterCount(n) / LINE == n / 57
    ensures LetterCount(n) % LINE <= if n % 3 == 0 then 72 else 73 + n % 3
  {
    var q := n / 57;
    var r := n - 57 * q;
    assert n / 3 == 19 * q + r / 3 && n % 3 == r % 3;
    assert LetterCount(n) == 76 * q + (4 * (r / 3) + if r % 3 == 0 then 0 else r % 3 + 1);
  }

  lemma LettersCount(memory: seq<byte>, n: nat)
    requires Readable(memory, n)
    ensures |Letters(memory, n)| == LetterCount(n)
    ensures LetterCount(n) / LINE == n / 57
    ensures LetterCount(n) % LINE <= if n % 3 == 0 then 72 else 73 + n % 3
  {
    hide Groups, Letter;
    LetterLines(n);
  }

  lemma EncodedLength(memory: seq<byte>, n: nat)
    requires Readable(memory, n)
    ensures |Encoded(memory, n)| == OutputLength(n) == 4 * ((n + 2) / 3) + 2 * (n / 57) + 2
    ensures |Encoded(memory, n)| + 1 <= 2 * n + 6
  {
    hide Lined, Groups, Over;
    LettersCount(memory, n);
  }

  /** While letters are written there is room for a line break, the padding and the end. */
  lemma Room(letters: nat, n: nat)
    requires letters <= LetterCount(n)
    ensures letters + 2 * (letters / LINE) + |Pads(n)| + 2 <= OutputLength(n)
  {
    LetterLines(n);
    assert letters / LINE <= LetterCount(n) / LINE;
  }

  // ----- The encoder -----

  /** The buffer holds text in lines up to offset, with count characters on the last line. */
  ghost predicate Holds(buffer: seq<char>, offset: nat, count: nat, text: string) {
    count == |text| % LINE && offset == |Lined(text)| <= |buffer| && buffer[..offset] == Lined(text)
  }

  lemma LinedMore(text: string, c: char)
    ensures Lined(text + [c]) == Lined(text) + [c] + if |text + [c]| % LINE == 0 then "\r\n" else ""
  {
    assert (text + [c])[..|text|] == text;
  }

  /** One letter and, when it fills the line, a line break. */
  method Put(outputData: array<char>, offset: nat, count: nat, c: char, ghost text: string, ghost n: nat)
    returns (outputOffset: nat, charCount: nat)
    requires Holds(outputData[..], offset, count, text) && |text| < LetterCount(n)
             && outputData.Length > OutputLength(n)
    modifies outputData
    ensures Holds(outputData[..], outputOffset, charCount, text + [c])
  {
    hide Lined, LetterCount, OutputLength;
    Room(|text|, n);
    LinedMore(text, c);
    outputOffset, charCount := offset, count;
    outputData[outputOffset] := c;
    outputOffset := outputOffset + 1;
    charCount := charCount + 1;
    if charCount % LINE == 0 {
      outputData[outputOffset] := '\r';
      outputOffset := outputOffset + 1;
      outputData[outputOffset] := '\n';
      outputOffset := outputOffset + 1;
      charCount := 0;
    }
  }

  /** Writes the encoding and a closing zero into a buffer that just has to hold them. */
  method Base64Encoding(inputData: seq<byte>, dataLength: nat, outputData: array<char>) returns (outputOffset: nat)
    requires Readable(inputData, dataLength) && OutputLength(dataLength) < outputData.Length
             && OutputLength(dataLength) < INT_LIMIT
    modifies outputData
    ensures outputOffset < outputData.Length && outputData[..outputOffset] == Encoded(inputData, dataLength)
    ensures outputData[outputOffset] == 0 as char
  {
    hide Holds, LetterCount, OutputLength, Lined, Letters, Pads;
    outputOffset := 0;
    var charCount, j := 0, 0;
    NothingHeld(outputData[..]);
    while j < dataLength / 3
      invariant j <= dataLength / 3 && Holds(outputData[..], outputOffset, charCount, Groups(inputData, j))
    {
      SomeLetters(dataLength);
      outputOffset, charCount := PutQuad(outputData, outputOffset, charCount, Groups(inputData, j), dataLength,
                                         inputData[j * 3 + 0], inputData[j * 3 + 1], inputData[j * 3 + 2]);
      j := j + 1;
    }
    outputOffset := PutOver(outputData, outputOffset, charCount, inputData, dataLength, j);
    outputOffset := PutPads(outputData, outputOffset, inputData, dataLength);
    Finish(outputData, outputOffset, inputData, dataLength);
    outputOffset := outputOffset + 2;
  }

  lemma NothingHeld(buffer: seq<char>)
    ensures Holds(buffer, 0, 0, "")
  {
    assert Lined("") == "";
  }

  lemma SomeLetters(n: nat)
    ensures LetterCount(n) == 4 * (n / 3) + if n % 3 == 0 then 0 else n % 3 + 1
  {}

  /** The last line break and the closing zero. */
  method Finish(outputData: array<char>, outputOffset: nat, ghost inputData: seq<byte>, ghost dataLength: nat)
    requires Readable(inputData, dataLength) && outputData.Length > OutputLength(dataLength)
    requires outputOffset == |Lined(Letters(inputData, dataLength)) + Pads(dataLength)| <= outputData.Length
    requires outputData[..outputOffset] == Lined(Letters(inputData, dataLength)) + Pads(dataLength)
    modifies outputData
    ensures outputOffset + 2 < outputData.Length && outputData[..outputOffset + 2] == Encoded(inputData, dataLength)
    ensures outputData[outputOffset + 2] == 0 as char
  {
    hide Lined, Letters, Pads, OutputLength;
    EncodedLength(inputData, dataLength);
    assert |Encoded(inputData, dataLength)| == outputOffset + 2;
    outputData[outputOffset] := '\r';
    outputData[outputOffset + 1] := '\n';
    outputData[outputOffset + 2] := 0 as char;
  }

  /** The form that allocates its own buffer: 2 * dataLength + 6 characters are enough. */
  method Base64EncodingAllocated(inputData: seq<byte>, dataLength: nat) returns (outputData: array<char>,
      outputOffset: nat)
    requires Readable(inputData, dataLength) && dataLength * 2 + 6 < INT_LIMIT
    ensures fresh(outputData) && outputData.Length == dataLength * 2 + 6 && outputOffset < outputData.Length
    ensures outputData[..outputOffset] == Encoded(inputData, dataLength) && outputData[outputOffset] == 0 as char
  {
    hide Encoded;
    EncodedLength(inputData, dataLength);
    outputData := new char[dataLength * 2 + 6];
    outputOffset := Base64Encoding(inputData, dataLength, outputData);
  }

  /** Three bytes as four letters. */
  method PutQuad(outputData: array<char>, offset: nat, count: nat, ghost text: string, ghost n: nat, a: byte,
      b: byte, c: byte)
    returns (outputOffset: nat, charCount: nat)
    requires Holds(outputData[..], offset, count, text) && |text| + 4 <= LetterCount(n)
             && outputData.Length > OutputLength(n)
    modifies outputData
    ensures Holds(outputData[..], outputOffset, charCount, text + Quad(a, b, c))
  {
    hide Holds, First, Second, Third, Fourth, LetterCount, OutputLength;
    ghost var t1 := text + [First(a)];
    ghost var t2 := t1 + [Second(a, b)];
    ghost var t3 := t2 + [Third(b, c)];
    outputOffset, charCount := Put(outputData, offset, count, First(a), text, n);
    outputOffset, charCount := Put(outputData, outputOffset, charCount, Second(a, b), t1, n);
    outputOffset, charCount := Put(outputData, outputOffset, charCount, Third(b, c), t2, n);
    outputOffset, charCount := Put(outputData, outputOffset, charCount, Fourth(c), t3, n);
    assert t3 + [Fourth(c)] == text + Quad(a, b, c);
  }

  /** The letters of the bytes that are over. */
  method PutOver(outputData: array<char>, offset: nat, count: nat, inputData: seq<byte>, dataLength: nat, j: nat)
    returns (outputOffset: nat)
    requires Readable(inputData, dataLength) && j == dataLength / 3 && outputData.Length > OutputLength(dataLength)
    requires Holds(outputData[..], offset, count, Groups(inputData, j))
    modifies outputData
    ensures outputOffset == |Lined(Letters(inputData, dataLength))| <= outputData.Length
    ensures outputData[..outputOffset] == Lined(Letters(inputData, dataLength))
  {
    hide Lined, First, Second, Letter, Groups, OutputLength, LetterCount, Letters;
    outputOffset := offset;
    var charCount := count;
    SomeLetters(dataLength);
    LettersAre(inputData, dataLength);
    ghost var text := Groups(inputData, j);
    if dataLength % 3 == 1 {
      outputOffset, charCount := PutTwo(outputData, outputOffset, charCount, text, dataLength,
                                        inputData[j * 3 + 0], inputData[j * 3 + 1]);
    } else if dataLength % 3 == 2 {
      var a, b := inputData[j * 3 + 0], inputData[j * 3 + 1];
      outputOffset, charCount := PutTwo(outputData, outputOffset, charCount, text, dataLength, a, b);
      outputOffset, charCount := Put(outputData, outputOffset, charCount, Letter((b << 2) & 63),
                                     text + [First(a), Second(a, b)], dataLength);
    }
  }

  lemma LettersAre(memory: seq<byte>, n: nat)
    requires Readable(memory, n)
    ensures var j := n / 3;
            Letters(memory, n) ==
              if n % 3 == 1 then Groups(memory, j) + [First(memory[j * 3 + 0]),
                  Second(memory[j * 3 + 0], memory[j * 3 + 1])]
              else if n % 3 == 2 then Groups(memory, j) + [First(memory[j * 3 + 0]),
                  Second(memory[j * 3 + 0], memory[j * 3 + 1])]
                                      + [Letter((memory[j * 3 + 1] << 2) & 63)]
              else Groups(memory, j)
  {
    hide First, Second, Letter, Groups;
  }

  /** The padding, which never counts towards a line. */
  method PutPads(outputData: array<char>, offset: nat, ghost inputData: seq<byte>,
      dataLength: nat) returns (outputOffset: nat)
    requires Readable(inputData, dataLength) && outputData.Length > OutputLength(dataLength)
    requires offset == |Lined(Letters(inputData, dataLength))| <= outputData.Length
    requires outputData[..offset] == Lined(Letters(inputData, dataLength))
    modifies outputData
    ensures outputOffset == |Lined(Letters(inputData, dataLength)) + Pads(dataLength)| <= outputData.Length
    ensures outputData[..outputOffset] == Lined(Letters(inputData, dataLength)) + Pads(dataLength)
  {
    hide Lined, Letters, OutputLength;
    PadRoom(inputData, dataLength);
    outputOffset := offset;
    if dataLength % 3 == 1 {
      outputData[outputOffset] := '=';
      outputOffset := outputOffset + 1;
      outputData[outputOffset] := '=';
      outputOffset := outputOffset + 1;
    } else if dataLength % 3 == 2 {
      outputData[outputOffset] := '=';
      outputOffset := outputOffset + 1;
    }
  }

  lemma PadRoom(memory: seq<byte>, n: nat)
    requires Readable(memory, n)
    ensures |Lined(Letters(memory, n))| + |Pads(n)| + 2 == OutputLength(n)
  {
    hide Lined, Letters, OutputLength;
    EncodedLength(memory, n);
  }

  /** The two letters that a first byte over starts with. */
  method PutTwo(outputData: array<char>, offset: nat, count: nat, ghost text: string, ghost n: nat, a: byte, b: byte)
    returns (outputOffset: nat, charCount: nat)
    requires Holds(outputData[..], offset, count, text) && |text| + 2 <= LetterCount(n)
             && outputData.Length > OutputLength(n)
    modifies outputData
    ensures Holds(outputData[..], outputOffset, charCount, text + [First(a), Second(a, b)])
  {
    hide Holds, First, Second, LetterCount, OutputLength;
    outputOffset, charCount := Put(outputData, offset, count, First(a), text, n);
    outputOffset, charCount := Put(outputData, outputOffset, charCount, Second(a, b), text + [First(a)], n);
    assert text + [First(a)] + [Second(a, b)] == text + [First(a), Second(a, b)];
  }
}
