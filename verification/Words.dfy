/** The 32-bit unsigned arithmetic that several of the C++ sources rely on. */
module Words {
  const TWO32: nat := 0x1_0000_0000

  /** The value of an unsigned 32-bit expression. */
  function U32(x: int): (r: nat)
    ensures r < TWO32
  {
    x % TWO32
  }

  lemma WholeTurns(d: int, q: int)
    ensures U32(d + TWO32 * q) == U32(d)
  {
    assert d == TWO32 * (d / TWO32) + d % TWO32;
    assert d + TWO32 * q == TWO32 * (d / TWO32 + q) + d % TWO32;
  }

  /** Taking a part modulo 2^32 first changes nothing. */
  lemma Wraps(a: int, b: int)
    ensures U32(U32(a) + b) == U32(a + b)
  {
    hide U32;
    UnsignedIs(a);
    assert a + b == U32(a) + b + TWO32 * (a / TWO32);
    WholeTurns(U32(a) + b, a / TWO32);
  }

  lemma UnsignedIs(a: int)
    ensures a == U32(a) + TWO32 * (a / TWO32)
  {}

  /** The four digits of a number to base 256. */
  lemma SplitWord(v: nat)
    ensures v == v / 0x100_0000 * 0x100_0000 + v / 0x1_0000 % 0x100 * 0x1_0000 + v / 0x100 % 0x100 * 0x100 + v % 0x100
    ensures v < TWO32 ==> v / 0x100_0000 < 0x100
  {
    assert v / 0x1_0000 == v / 0x100 / 0x100 && v / 0x100_0000 == v / 0x1_0000 / 0x100;
  }

  function Digit(d: nat): (c: char)
    requires d < 10
  {
    "0123456789"[d]
  }

  /** The decimal form of a number, without leading zeros. */
  function Decimal(n: nat): (s: string)
    ensures s != "" && forall i :: 0 <= i < |s| ==> '0' <= s[i] <= '9'
  {
    if n < 10 then [Digit(n)] else Decimal(n / 10) + [Digit(n % 10)]
  }

  /** The number a numeral stands for. */
  function NumeralValue(s: string): int {
    if s == "" then 0 else 10 * NumeralValue(s[..|s| - 1]) + (s[|s| - 1] as int - '0' as int)
  }

  lemma {:induction false} DecimalReadsBack(n: nat)
    ensures NumeralValue(Decimal(n)) == n
    ensures n > 0 ==> Decimal(n)[0] != '0'
  {
    hide Digit;
    DigitIs(n % 10);
    if n < 10 {
      assert Decimal(n)[..0] == "";
    } else {
      DecimalReadsBack(n / 10);
      assert Decimal(n)[..|Decimal(n)| - 1] == Decimal(n / 10);
    }
  }

  lemma DigitIs(d: nat)
    requires d < 10
    ensures Digit(d) as int == '0' as int + d
  {}

  lemma {:induction false} DecimalUnique(a: nat, b: nat)
    requires Decimal(a) == Decimal(b)
    ensures a == b
  {
    var s, t := Decimal(a), Decimal(b);
    assert s[|s| - 1] == Digit(a % 10) && t[|t| - 1] == Digit(b % 10);
    assert a % 10 == b % 10;
    if a >= 10 && b >= 10 {
      assert s[..|s| - 1] == Decimal(a / 10) && t[..|t| - 1] == Decimal(b / 10);
      DecimalUnique(a / 10, b / 10);
    }
  }
}
