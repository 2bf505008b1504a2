/**
 * snowflake.ts: `generateSnowflake(time, config)` first stores the default
 * (0) into every option the caller's `config` object lacks, then builds the
 * binary layout (time padded to 42 digits, worker to 5, pid to 5,
 * `increment % 4095` to 12) from values reduced to unsigned 32 bits.
 */
module TsSnowflake {
  import opened Wrappers
  import opened Bits

  /** `SnowflakeOptions`, every option present. */
  datatype SnowflakeOptions = SnowflakeOptions(epoch: int, increment: int, pid: int, worker: int)

  /** `defaultConfig`: every option zero. */
  const DefaultConfig: SnowflakeOptions := SnowflakeOptions(epoch := 0, increment := 0, pid := 0, worker := 0)

  /**
   * `decimalToBinary(decimal)`, i.e. `(decimal >>> 0).toString(2)`: `>>> 0`
   * reduces the number to an unsigned 32-bit integer, whose shortest binary
   * form is returned.
   */
  function DecimalToBinary(decimal: int): (s: string)
    ensures s == ToBinary(decimal % 0x1_0000_0000)
    ensures IsBinary(s) && 1 <= |s| <= 32
    ensures Value(s) == decimal % 0x1_0000_0000
    ensures decimal % 0x1_0000_0000 != 0 ==> s[0] == '1'
  {
    var n := decimal % 0x1_0000_0000;
    Pow2Constants();
    ValueOfToBinary(n);
    ToBinaryLength(n, 32);
    ToBinary(n)
  }

  /** `decimalToBinary(timestamp).padStart(42, "0")`: always 42 digits, holding `timestamp` mod 2^32. */
  function TimeBits(timestamp: int): (s: string)
    ensures IsBinary(s) && |s| == 42
    ensures Value(s) == timestamp % 0x1_0000_0000
    ensures forall k | 0 <= k < 10 :: s[k] == '0'
  {
    var b := DecimalToBinary(timestamp);
    LeftPadValue(b, 42);
    LeftPad(b, 42)
  }

  /** `decimalToBinary(v).padStart(width, "0")`: the worker, pid and increment fields. */
  function FieldBits(v: int, width: nat): (s: string)
    requires 1 <= width <= 32
    ensures IsBinary(s) && |s| >= width
    ensures |s| == width <==> v % 0x1_0000_0000 < Pow2(width)
    ensures Value(s) == v % 0x1_0000_0000
  {
    var b := DecimalToBinary(v);
    PaddedBinary(v % 0x1_0000_0000, width);
    LeftPad(b, width)
  }

  /** `binaryWorker + binaryPid + binaryIncrement`, with the increment reduced by `% 4095`. */
  function LowBits(worker: int, pid: int, increment: int): (s: string)
    ensures IsBinary(s) && |s| >= 22
    ensures |s| == 22 <==> worker % 0x1_0000_0000 < 32 && pid % 0x1_0000_0000 < 32 && Rem(increment, 4095) >= 0
  {
    var w, p := FieldBits(worker, 5), FieldBits(pid, 5);
    var i := FieldBits(Rem(increment, 4095), 12);
    BinaryConcat(w, p);
    BinaryConcat(w + p, i);
    assert Pow2(5) == 32 && Pow2(12) == 4096 by {
      Pow2Constants();
    }
    w + p + i
  }

  /** `binaryTime + binaryWorker + binaryPid + binaryIncrement`, the string handed to `parseInt(…, 2)`. */
  function Layout(timestamp: int, worker: int, pid: int, increment: int): (s: string)
    ensures IsBinary(s) && |s| >= 64
    ensures |s| == 64 <==> worker % 0x1_0000_0000 < 32 && pid % 0x1_0000_0000 < 32 && Rem(increment, 4095) >= 0
  {
    BinaryConcat(TimeBits(timestamp), LowBits(worker, pid, increment));
    TimeBits(timestamp) + LowBits(worker, pid, increment)
  }

  /**
   * With worker and pid in [0, 31] and a non-negative increment, the layout
   * is 64 digits and denotes (timestamp mod 2^32)·2^22 + worker·2^17 +
   * pid·2^12 + (increment mod 4095).
   */
  lemma LayoutValue(timestamp: int, worker: int, pid: int, increment: int)
    requires 0 <= worker < 32 && 0 <= pid < 32 && 0 <= increment
    ensures |Layout(timestamp, worker, pid, increment)| == 64
    ensures Value(Layout(timestamp, worker, pid, increment))
         == (timestamp % 0x1_0000_0000) * 0x40_0000 + worker * 0x2_0000 + pid * 4096 + increment % 4095
  {
    LowValue(worker, pid, increment);
    assert Pow2(22) == 0x40_0000 by {
      Pow2Constants();
    }
    ValueConcat(TimeBits(timestamp), LowBits(worker, pid, increment));
  }

  /**
   * The fields read back from the 64-digit layout: bits 22 and up hold the
   * time mod 2^32, bits 17-21 the worker, 12-16 the pid and 0-11
   * `increment mod 4095`, which is never 4095.
   */
  lemma LayoutFields(timestamp: int, worker: int, pid: int, increment: int)
    requires 0 <= worker < 32 && 0 <= pid < 32 && 0 <= increment
    ensures var v := Value(Layout(timestamp, worker, pid, increment));
      && v / 0x40_0000 == timestamp % 0x1_0000_0000
      && (v / 0x2_0000) % 32 == worker
      && (v / 4096) % 32 == pid
      && v % 4096 == increment % 4095
      && v % 4096 < 4095
  {
    LayoutValue(timestamp, worker, pid, increment);
    SplitFields(timestamp % 0x1_0000_0000, worker, pid, increment % 4095);
  }

  lemma LowValue(worker: int, pid: int, increment: int)
    requires 0 <= worker < 32 && 0 <= pid < 32 && 0 <= increment
    ensures |LowBits(worker, pid, increment)| == 22
    ensures Value(LowBits(worker, pid, increment)) == worker * 0x2_0000 + pid * 4096 + increment % 4095
  {
    var w, p := FieldBits(worker, 5), FieldBits(pid, 5);
    var r := Rem(increment, 4095);
    var i := FieldBits(r, 12);
    SmallField(worker, 5);
    SmallField(pid, 5);
    SmallField(r, 12);
    assert Pow2(5) == 32 && Pow2(12) == 4096 by {
      Pow2Constants();
    }
    Append(w, p, worker, pid, 32);
    Append(w + p, i, worker * 32 + pid, r, 4096);
    assert LowBits(worker, pid, increment) == w + p + i;
  }

  /** A field value already below 2^32 is not changed by `>>> 0`. */
  lemma SmallField(v: int, width: nat)
    requires 1 <= width <= 32 && 0 <= v < 0x1_0000_0000
    ensures Value(FieldBits(v, width)) == v
    ensures |FieldBits(v, width)| == width <==> v < Pow2(width)
  {
    assert v % 0x1_0000_0000 == v;
  }

  /**
   * The time is truncated to 32 bits before padding: timestamps 2^32 ms
   * apart give the same layout, and its ten leading digits are always '0'.
   */
  lemma TimeTruncated(timestamp: int, worker: int, pid: int, increment: int)
    ensures Layout(timestamp + Pow2(32), worker, pid, increment) == Layout(timestamp, worker, pid, increment)
    ensures forall k | 0 <= k < 10 :: Layout(timestamp, worker, pid, increment)[k] == '0'
  {
    Pow2Constants();
    assert (timestamp + 0x1_0000_0000) % 0x1_0000_0000 == timestamp % 0x1_0000_0000;
    assert DecimalToBinary(timestamp + Pow2(32)) == DecimalToBinary(timestamp);
  }

  /** `Partial<SnowflakeOptions>`: the caller's options object; `None` is a null or missing option. */
  class PartialOptions {
    var epoch: Option<int>
    var increment: Option<int>
    var pid: Option<int>
    var worker: Option<int>

    constructor (epoch: Option<int>, increment: Option<int>, pid: Option<int>, worker: Option<int>)
      ensures this.epoch == epoch && this.increment == increment
      ensures this.pid == pid && this.worker == worker
    {
      this.epoch := epoch;
      this.increment := increment;
      this.pid := pid;
      this.worker := worker;
    }
  }

  /**
   * `generateSnowflake(time, config)` up to the string it parses: every
   * missing option of `config` is set to its default in place, options
   * already present are left alone, and the layout is built from
   * `time - config.epoch`.
   */
  method GenerateSnowflake(time: int, config: PartialOptions) returns (bits: string)
    modifies config
    ensures config.epoch == Some(old(config.epoch).GetOr(DefaultConfig.epoch))
    ensures config.increment == Some(old(config.increment).GetOr(DefaultConfig.increment))
    ensures config.pid == Some(old(config.pid).GetOr(DefaultConfig.pid))
    ensures config.worker == Some(old(config.worker).GetOr(DefaultConfig.worker))
    ensures bits == Layout(time - config.epoch.value, config.worker.value, config.pid.value, config.increment.value)
  {
    if config.epoch.None? { config.epoch := Some(DefaultConfig.epoch); }
    if config.increment.None? { config.increment := Some(DefaultConfig.increment); }
    if config.pid.None? { config.pid := Some(DefaultConfig.pid); }
    if config.worker.None? { config.worker := Some(DefaultConfig.worker); }
    bits := Layout(time - config.epoch.value, config.worker.value, config.pid.value, config.increment.value);
  }
}
