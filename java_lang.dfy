/**
 * The parts of the Java platform that Snowflake.java relies on, by their
 * documented meaning: 32- and 64-bit two's-complement integers,
 * `Integer.toBinaryString`, `Long.toBinaryString`, `Long.parseLong(s, 2)` and
 * `Long.toString()`.
 */
module JavaLang {
  import opened Wrappers
  import opened Bits

  /** Java `int` and `long`. */
  type int32 = x: int | -0x8000_0000 <= x < 0x8000_0000
  type int64 = x: int | -0x8000_0000_0000_0000 <= x < 0x8000_0000_0000_0000

  /** The exceptions the modelled code can throw. */
  datatype Exception = NullPointerException | NumberFormatException

  /** `int` arithmetic: the one `int` congruent to `x` modulo 2^32. */
  function Wrap32(x: int): (r: int32)
    ensures (x - r) % 0x1_0000_0000 == 0
    ensures -0x8000_0000 <= x < 0x8000_0000 ==> r == x
  {
    (x + 0x8000_0000) % 0x1_0000_0000 - 0x8000_0000
  }

  /** `long` arithmetic: the one `long` congruent to `x` modulo 2^64. */
  function Wrap64(x: int): (r: int64)
    ensures (x - r) % 0x1_0000_0000_0000_0000 == 0
    ensures -0x8000_0000_0000_0000 <= x < 0x8000_0000_0000_0000 ==> r == x
  {
    (x + 0x8000_0000_0000_0000) % 0x1_0000_0000_0000_0000 - 0x8000_0000_0000_0000
  }

  /**
   * `Integer.toBinaryString(i)`: the unsigned binary form of `i`, so a
   * negative `i` gives its 32-digit two's complement.
   */
  function IntegerToBinaryString(i: int32): (s: string)
    ensures s == ToBinary(if i >= 0 then i else i + 0x1_0000_0000)
    ensures IsBinary(s) && 1 <= |s| <= 32
    ensures Value(s) == if i >= 0 then i else i + 0x1_0000_0000
    ensures i < 0 ==> |s| == 32
    ensures i != 0 ==> s[0] == '1'
  {
    var n := if i >= 0 then i else i + 0x1_0000_0000;
    Pow2Constants();
    ValueOfToBinary(n);
    ToBinaryLength(n, 32);
    ToBinaryLength(n, 31);
    ToBinary(n)
  }

  /**
   * `Long.toBinaryString(x)`: the unsigned binary form of `x`, so a negative
   * `x` gives its 64-digit two's complement.
   */
  function LongToBinaryString(x: int64): (s: string)
    ensures s == ToBinary(if x >= 0 then x else x + 0x1_0000_0000_0000_0000)
    ensures IsBinary(s) && 1 <= |s| <= 64
    ensures Value(s) == if x >= 0 then x else x + 0x1_0000_0000_0000_0000
    ensures x < 0 ==> |s| == 64
    ensures x != 0 ==> s[0] == '1'
  {
    var n := if x >= 0 then x else x + 0x1_0000_0000_0000_0000;
    Pow2Constants();
    ValueOfToBinary(n);
    ToBinaryLength(n, 64);
    ToBinaryLength(n, 63);
    ToBinary(n)
  }

  /**
   * `Long.parseLong(s, 2)` on a string of digits: the value when it is at
   * most `Long.MAX_VALUE`, a `NumberFormatException` otherwise (and for an
   * empty string or a non-binary digit).
   */
  function ParseLong(s: string): (r: Result<int64, Exception>)
    ensures r.Ok? <==> s != [] && IsBinary(s) && Value(s) < Pow2(63)
    ensures r.Ok? ==> r.value == Value(s)
    ensures r.Err? ==> r.error == NumberFormatException
  {
    Pow2Constants();
    if s != [] && IsBinary(s) && Value(s) < 0x8000_0000_0000_0000 then Ok(Value(s))
    else Err(NumberFormatException)
  }

  /** Leading zeros aside, `Long.parseLong` sees only the value of a binary string. */
  lemma ParseLongByValue(a: string, b: string)
    requires a != [] && b != [] && IsBinary(a) && IsBinary(b) && Value(a) == Value(b)
    ensures ParseLong(a) == ParseLong(b)
  {
  }

  function DecimalDigit(d: nat): char
    requires d < 10
  {
    "0123456789"[d]
  }

  function DigitValue(c: char): nat {
    if '0' <= c <= '9' then (c - '0') as nat else 0
  }

  /** The decimal digits of `n`, without leading zero. */
  function DecimalDigits(n: nat): (s: string)
    ensures |s| >= 1 && forall i | 0 <= i < |s| :: '0' <= s[i] <= '9'
    ensures |s| > 1 ==> s[0] != '0'
    decreases n
  {
    if n < 10 then [DecimalDigit(n)] else DecimalDigits(n / 10) + [DecimalDigit(n % 10)]
  }

  /** `Long.toString()` of the value `x`: an optional minus sign, then the decimal digits. */
  function LongToString(x: int64): (s: string)
    ensures s != [] && (s[0] == '-' <==> x < 0)
  {
    if x < 0 then "-" + DecimalDigits(-(x as int)) else DecimalDigits(x)
  }

  /** The number a decimal digit string denotes. */
  function DecimalValue(s: string): nat
  {
    if s == [] then 0 else 10 * DecimalValue(s[..|s| - 1]) + DigitValue(s[|s| - 1])
  }

  /** `Long.parseLong(s)` (base 10) on a string `Long.toString()` can produce. */
  function ParseDecimal(s: string): int
  {
    if s != [] && s[0] == '-' then -(DecimalValue(s[1..]) as int) else DecimalValue(s)
  }

  lemma {:induction false} DecimalDigitsValue(n: nat)
    ensures DecimalValue(DecimalDigits(n)) == n
    decreases n
  {
    if n >= 10 {
      DecimalDigitsValue(n / 10);
      var s := DecimalDigits(n);
      assert s[..|s| - 1] == DecimalDigits(n / 10);
      DigitRoundTrip(n % 10);
      assert s[|s| - 1] == DecimalDigit(n % 10);
    }
  }

  lemma DigitRoundTrip(d: nat)
    requires d < 10
    ensures DigitValue(DecimalDigit(d)) == d
  {
    assert "0123456789"[d] == '0' + d as char;
  }

  /** The decimal form loses nothing: parsing it back gives the same `long`. */
  lemma LongToStringRoundTrip(x: int64)
    ensures ParseDecimal(LongToString(x)) == x
  {
    var s := LongToString(x);
    if x < 0 {
      var d := DecimalDigits(-(x as int));
      DecimalDigitsValue(-(x as int));
      assert s == "-" + d;
      assert s[1..] == d;
      assert ParseDecimal(s) == -(DecimalValue(d) as int);
    } else {
      var d := DecimalDigits(x as int);
      DecimalDigitsValue(x as int);
      assert s == d && d[0] != '-';
      assert ParseDecimal(s) == DecimalValue(d);
    }
  }
}
