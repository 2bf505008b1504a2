/**
 * Binary digit strings: their numeric value, the shortest binary form of a
 * natural number, left padding with '0', and the truncating remainder that
 * both Java's and JavaScript's `%` compute.
 */
module Bits {

  function Pow2(k: nat): (r: nat)
    ensures r > 0
  {
    if k == 0 then 1 else 2 * Pow2(k - 1)
  }

  lemma {:induction false} Pow2Add(a: nat, b: nat)
    ensures Pow2(a + b) == Pow2(a) * Pow2(b)
  {
    if b > 0 {
      Pow2Add(a, b - 1);
      assert Pow2(a + b) == 2 * (Pow2(a) * Pow2(b - 1));
    }
  }

  lemma {:induction false} Pow2Monotone(a: nat, b: nat)
    requires a <= b
    ensures Pow2(a) <= Pow2(b)
  {
    if a < b {
      Pow2Monotone(a, b - 1);
    }
  }

  /** The powers of two that the field layout uses. */
  lemma Pow2Constants()
    ensures Pow2(5) == 32 && Pow2(12) == 4096 && Pow2(17) == 0x2_0000 && Pow2(22) == 0x40_0000
    ensures Pow2(23) == 0x80_0000 && Pow2(40) == 0x100_0000_0000
    ensures Pow2(32) == 0x1_0000_0000 && Pow2(41) == 0x200_0000_0000 && Pow2(42) == 0x400_0000_0000
    ensures Pow2(63) == 0x8000_0000_0000_0000 && Pow2(64) == 0x1_0000_0000_0000_0000
  {
    assert Pow2(4) == 16 && Pow2(5) == 32 && Pow2(6) == 64 && Pow2(7) == 128;
    assert Pow2(8) == 256 by { Pow2Add(4, 4); }
    assert Pow2(12) == 4096 by { Pow2Add(8, 4); }
    assert Pow2(15) == 0x8000 by { Pow2Add(8, 7); }
    assert Pow2(16) == 0x1_0000 by { Pow2Add(8, 8); }
    assert Pow2(17) == 0x2_0000 by { Pow2Add(16, 1); }
    assert Pow2(22) == 0x40_0000 by { Pow2Add(16, 6); }
    assert Pow2(23) == 0x80_0000 by { Pow2Add(16, 7); }
    assert Pow2(31) == 0x8000_0000 by { Pow2Add(16, 15); }
    assert Pow2(32) == 0x1_0000_0000 by { Pow2Add(16, 16); }
    assert Pow2(40) == 0x100_0000_0000 by { Pow2Add(32, 8); }
    assert Pow2(41) == 0x200_0000_0000 by { Pow2Add(32, 9); }
    assert Pow2(42) == 0x400_0000_0000 by { Pow2Add(32, 10); }
    assert Pow2(63) == 0x8000_0000_0000_0000 by { Pow2Add(32, 31); }
    assert Pow2(64) == 0x1_0000_0000_0000_0000 by { Pow2Add(32, 32); }
  }

  /** Every character is a binary digit. */
  predicate IsBinary(s: string) {
    forall i | 0 <= i < |s| :: s[i] == '0' || s[i] == '1'
  }

  lemma ConcatAssoc(a: string, b: string, c: string)
    ensures a + (b + c) == a + b + c
  {
  }

  lemma BinaryConcat(a: string, b: string)
    requires IsBinary(a) && IsBinary(b)
    ensures IsBinary(a + b)
  {
    forall i | 0 <= i < |a + b|
      ensures (a + b)[i] == '0' || (a + b)[i] == '1'
    {
      if i >= |a| {
        assert (a + b)[i] == b[i - |a|];
      }
    }
  }

  function BitOf(c: char): nat {
    if c == '1' then 1 else 0
  }

  /** The number a digit string denotes in base 2, most significant digit first. */
  function Value(s: string): nat
  {
    if s == [] then 0 else 2 * Value(s[..|s| - 1]) + BitOf(s[|s| - 1])
  }

  /** Appending `b` shifts the value of `a` left by `|b|` digits. */
  lemma {:induction false} ValueConcat(a: string, b: string)
    ensures Value(a + b) == Value(a) * Pow2(|b|) + Value(b)
  {
    if b == [] {
      assert a + b == a;
    } else {
      var b' := b[..|b| - 1];
      assert (a + b)[..|a + b| - 1] == a + b';
      ValueConcat(a, b');
      assert b[..|b| - 1] == b';
      ShiftStep(Value(a), Value(b'), Pow2(|b'|), BitOf(b[|b| - 1]));
    }
  }

  /** `a + b` read as a number, once the values of `a` and `b` and the weight of `|b|` are known. */
  lemma Append(a: string, b: string, va: int, vb: int, weight: int)
    requires Value(a) == va && Value(b) == vb && Pow2(|b|) == weight
    ensures Value(a + b) == va * weight + vb
  {
    ValueConcat(a, b);
  }

  lemma ShiftStep(va: int, vb: int, p: int, bit: int)
    ensures 2 * (va * p + vb) + bit == va * (2 * p) + (2 * vb + bit)
  {
  }

  function Zeros(n: nat): (z: string)
    ensures |z| == n && forall i | 0 <= i < n :: z[i] == '0'
  {
    seq(n, _ => '0')
  }

  lemma {:induction false} ValueZeros(n: nat)
    ensures Value(Zeros(n)) == 0
  {
    if n > 0 {
      assert Zeros(n)[..n - 1] == Zeros(n - 1);
      ValueZeros(n - 1);
    }
  }

  /**
   * Pads `s` on the left with '0' up to `width` characters; a string that is
   * already at least `width` long is returned unchanged, never truncated.
   */
  function LeftPad(s: string, width: nat): (r: string)
    ensures |r| == if |s| < width then width else |s|
    ensures r[|r| - |s|..] == s
    ensures forall i | 0 <= i < |r| - |s| :: r[i] == '0'
  {
    if |s| < width then Zeros(width - |s|) + s else s
  }

  /** Padding changes neither the value nor the binary-ness of a string. */
  lemma LeftPadValue(s: string, width: nat)
    ensures Value(LeftPad(s, width)) == Value(s)
    ensures IsBinary(s) ==> IsBinary(LeftPad(s, width))
  {
    if |s| < width {
      ValueConcat(Zeros(width - |s|), s);
      ValueZeros(width - |s|);
    }
  }

  function Digit(b: nat): char
    requires b < 2
  {
    if b == 1 then '1' else '0'
  }

  /**
   * The shortest binary form of `n`: "0" for zero, otherwise no leading zero.
   * This is what `Long.toBinaryString`, `Integer.toBinaryString` and
   * JavaScript's `toString(2)` produce for a non-negative argument.
   */
  function ToBinary(n: nat): (s: string)
    ensures |s| >= 1 && IsBinary(s)
    ensures n > 0 ==> s[0] == '1'
    ensures n == 0 ==> s == "0"
    decreases n
  {
    if n < 2 then [Digit(n)] else ToBinary(n / 2) + [Digit(n % 2)]
  }

  lemma {:induction false} ValueOfToBinary(n: nat)
    ensures Value(ToBinary(n)) == n
    decreases n
  {
    if n >= 2 {
      ValueOfToBinary(n / 2);
      var s := ToBinary(n);
      assert s[..|s| - 1] == ToBinary(n / 2);
    }
  }

  /** `n` fits in `k` binary digits exactly when its shortest form has at most `k` digits. */
  lemma {:induction false} ToBinaryLength(n: nat, k: nat)
    requires k >= 1
    ensures |ToBinary(n)| <= k <==> n < Pow2(k)
    decreases n
  {
    if n >= 2 {
      if k == 1 {
        assert |ToBinary(n / 2)| >= 1;
      } else {
        ToBinaryLength(n / 2, k - 1);
      }
    } else {
      Pow2Monotone(1, k);
    }
  }

  /**
   * The shortest binary form of `n` padded to `width` digits: at least
   * `width` long, exactly `width` when `n` fits, and still denoting `n`.
   */
  lemma PaddedBinary(n: nat, width: nat)
    requires width >= 1
    ensures var s := LeftPad(ToBinary(n), width);
      && IsBinary(s) && |s| >= width
      && (|s| == width <==> n < Pow2(width))
      && Value(s) == n
  {
    ToBinaryLength(n, width);
    ValueOfToBinary(n);
    LeftPadValue(ToBinary(n), width);
  }

  /**
   * The four fields of a Snowflake ID, shifted by 22, 17 and 12 bits and
   * added, can be separated again by division and remainder.
   */
  lemma SplitFields(elapsed: nat, worker: nat, pid: nat, low: nat)
    requires worker < 32 && pid < 32 && low < 4096
    ensures var id := elapsed * 0x40_0000 + worker * 0x2_0000 + pid * 4096 + low;
      && id / 0x40_0000 == elapsed
      && (id / 0x2_0000) % 32 == worker
      && (id / 4096) % 32 == pid
      && id % 4096 == low
  {
    var id := elapsed * 0x40_0000 + worker * 0x2_0000 + pid * 4096 + low;
    var a := elapsed * 1024 + worker * 32 + pid;
    assert id == a * 4096 + low;
    assert id / 4096 == a && id % 4096 == low;
    var b := elapsed * 32 + worker;
    assert a == b * 32 + pid;
    assert a % 32 == pid;
    assert id == b * 0x2_0000 + (pid * 4096 + low);
    assert id / 0x2_0000 == b;
    assert b % 32 == worker;
    assert id == elapsed * 0x40_0000 + (worker * 0x2_0000 + pid * 4096 + low);
  }

  /** The quotient of `a` by `b` truncated toward zero, as Java's and JavaScript's integer division. */
  function Quot(a: int, b: int): int
    requires b > 0
  {
    if a >= 0 then a / b else -((-a) / b)
  }

  /**
   * The remainder that goes with `Quot`, as Java's and JavaScript's `%`
   * compute it: it has the sign of `a` and is smaller than `b` in magnitude.
   */
  function Rem(a: int, b: int): (r: int)
    requires b > 0
    ensures a == b * Quot(a, b) + r
    ensures a >= 0 ==> 0 <= r < b
    ensures a < 0 ==> -b < r <= 0
  {
    var q := (if a >= 0 then a else -a) / b;
    assert b * -q == -(b * q);
    if a >= 0 then a % b else -((-a) % b)
  }
}
