/** The digit strings of console_write_dec and the nested hex writers. */
module Numerals {
  import opened CTypes

  const ZERO: Char := 48

  /** Decimal digits of a positive number, none for zero. */
  function Digits(v: nat): seq<Char> {
    if v == 0 then [] else Digits(v / 10) + [ZERO + v % 10]
  }

  function Decimal(v: nat): seq<Char> {
    if v == 0 then [ZERO] else Digits(v)
  }

  function ParseDecimal(s: seq<Char>): int {
    if s == [] then 0 else 10 * ParseDecimal(s[..|s| - 1]) + (s[|s| - 1] - ZERO)
  }

  function Pow10(n: nat): nat {
    if n == 0 then 1 else 10 * Pow10(n - 1)
  }

  lemma Pow10Of20()
    ensures Pow10(20) == 100_000_000_000_000_000_000
  {
    assert Pow10(5) == 100_000;
    assert Pow10(10) == 10_000_000_000;
    assert Pow10(15) == 1_000_000_000_000_000;
  }

  lemma {:induction false} DigitsAtMost(v: nat, n: nat)
    requires v < Pow10(n)
    ensures |Digits(v)| <= n
  {
    if v > 0 {
      DigitsAtMost(v / 10, n - 1);
    }
  }

  lemma {:induction false} DigitsParseBack(v: nat)
    ensures ParseDecimal(Digits(v)) == v
    ensures forall k :: 0 <= k < |Digits(v)| ==> ZERO <= Digits(v)[k] <= ZERO + 9
    ensures v > 0 ==> Digits(v) != [] && Digits(v)[0] != ZERO
  {
    if v > 0 {
      DigitsParseBack(v / 10);
      assert Digits(v)[..|Digits(v)| - 1] == Digits(v / 10);
    }
  }

  /** Reading the digits back gives the number; there is no leading zero except in "0". */
  lemma DecimalRoundTrip(v: nat)
    ensures ParseDecimal(Decimal(v)) == v
    ensures forall k :: 0 <= k < |Decimal(v)| ==> ZERO <= Decimal(v)[k] <= ZERO + 9
    ensures Decimal(v) != [] && (Decimal(v)[0] == ZERO <==> v == 0) && (v == 0 ==> |Decimal(v)| == 1)
  {
    DigitsParseBack(v);
    if v == 0 {
      assert ParseDecimal([ZERO]) == 10 * ParseDecimal([ZERO][..0]) + (ZERO - ZERO);
    }
  }

  function HexDigit(v: int): Char
    requires 0 <= v < 16
  {
    if v < 10 then 48 + v else 55 + v
  }

  function HexValue(c: Char): int {
    if c < 58 then c - 48 else c - 55
  }

  /** The digits are the usual ones. */
  lemma DigitText(v: nat)
    ensures ZERO == '0' as int
    ensures v < 16 ==> HexDigit(v) == "0123456789ABCDEF"[v] as int
  {
  }

  /** The last `n` hexadecimal digits, most significant first. */
  function Hex(v: nat, n: nat): (s: seq<Char>)
    ensures |s| == n
  {
    if n == 0 then [] else Hex(v / 16, n - 1) + [HexDigit(v % 16)]
  }

  function ParseHex(s: seq<Char>): int {
    if s == [] then 0 else 16 * ParseHex(s[..|s| - 1]) + HexValue(s[|s| - 1])
  }

  function Pow16(n: nat): nat {
    if n == 0 then 1 else 16 * Pow16(n - 1)
  }

  lemma {:induction false} HexRoundTrip(v: nat, n: nat)
    requires v < Pow16(n)
    ensures ParseHex(Hex(v, n)) == v
  {
    if n > 0 {
      HexRoundTrip(v / 16, n - 1);
      assert Hex(v, n)[..n - 1] == Hex(v / 16, n - 1);
    }
  }

  /** Writing the high half and then the low half writes the whole number. */
  lemma {:induction false} HexSplit(hi: nat, lo: nat, n: nat, m: nat)
    requires lo < Pow16(m)
    ensures Hex(hi * Pow16(m) + lo, n + m) == Hex(hi, n) + Hex(lo, m)
  {
    if m > 0 {
      var q := hi * Pow16(m - 1);
      assert hi * Pow16(m) == 16 * q by { SixteenTimes(hi, Pow16(m - 1)); }
      LowDigit(q, lo);
      HexSplit(hi, lo / 16, n, m - 1);
    }
  }

  lemma SixteenTimes(a: nat, b: nat)
    ensures a * (16 * b) == 16 * (a * b)
  {
  }

  lemma LowDigit(q: nat, lo: nat)
    ensures (16 * q + lo) / 16 == q + lo / 16 && (16 * q + lo) % 16 == lo % 16
  {
  }

  lemma Pow16Values()
    ensures Pow16(1) == 16 && Pow16(2) == 0x100 && Pow16(4) == 0x1_0000 && Pow16(8) == 0x1_0000_0000
  {
    assert Pow16(4) == 0x1_0000;
    assert Pow16(6) == 0x100_0000;
  }

  lemma HexPair(v: nat)
    ensures Hex(v, 2) == [HexDigit(v / 16 % 16), HexDigit(v % 16)]
  {
    assert Hex(v, 2) == Hex(v / 16, 1) + [HexDigit(v % 16)];
    assert Hex(v / 16, 1) == [HexDigit(v / 16 % 16)];
  }

  /** The nested writers: 16, 32 and 64 bits as two halves. */
  lemma HexHalves(v: nat)
    ensures Hex(v, 4) == Hex(v / 0x100, 2) + Hex(v % 0x100, 2)
    ensures Hex(v, 8) == Hex(v / 0x1_0000, 4) + Hex(v % 0x1_0000, 4)
    ensures Hex(v, 16) == Hex(v / 0x1_0000_0000, 8) + Hex(v % 0x1_0000_0000, 8)
  {
    hide Hex, Pow16;
    Pow16Values();
    HexSplit(v / 0x100, v % 0x100, 2, 2);
    HexSplit(v / 0x1_0000, v % 0x1_0000, 4, 4);
    HexSplit(v / 0x1_0000_0000, v % 0x1_0000_0000, 8, 8);
  }
}
