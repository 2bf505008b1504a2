/**
 * Snowflake.java: a mutable configuration object (epoch, pid, worker,
 * increment; each a nullable boxed value) and the packing of a timestamp
 * into a 64-bit ID. The packing builds a binary string (elapsed time padded
 * to 42 digits, worker to 5, pid to 5, `increment % 4095` to 12) and parses
 * it with `Long.parseLong(…, 2)`.
 */
module JavaSnowflake {
  import opened Wrappers
  import opened Bits
  import opened JavaLang

  /** `timestamp.getTime() - epoch.getTime()`: a `long` subtraction, which wraps. */
  function Elapsed(timestamp: int64, epoch: int64): (r: int64)
    ensures (timestamp - epoch - r) % 0x1_0000_0000_0000_0000 == 0
    ensures -0x8000_0000_0000_0000 <= timestamp - epoch < 0x8000_0000_0000_0000 ==> r == timestamp - epoch
  {
    Wrap64(timestamp - epoch)
  }

  /** `leftPad(Long.toBinaryString(elapsed), 42, "0")`. */
  function TimeBits(elapsed: int64): (s: string)
    ensures IsBinary(s) && |s| >= 42
    ensures |s| == 42 <==> 0 <= elapsed < Pow2(42)
    ensures Value(s) == if elapsed >= 0 then elapsed else elapsed + Pow2(64)
  {
    var b := LongToBinaryString(elapsed);
    PaddedBinary(if elapsed >= 0 then elapsed else elapsed + 0x1_0000_0000_0000_0000, 42);
    Pow2Constants();
    LeftPad(b, 42)
  }

  /** `leftPad(Integer.toBinaryString(v), width, "0")`: the worker, pid and increment fields. */
  function FieldBits(v: int32, width: nat): (s: string)
    requires 1 <= width <= 31
    ensures IsBinary(s) && |s| >= width
    ensures |s| == width <==> 0 <= v < Pow2(width)
    ensures Value(s) == if v >= 0 then v else v + Pow2(32)
  {
    var b := IntegerToBinaryString(v);
    PaddedBinary(if v >= 0 then v else v + 0x1_0000_0000, width);
    Pow2Constants();
    Pow2Monotone(width, 31);
    LeftPad(b, width)
  }

  /** `increment % 4095` on an `int`: the remainder keeps the sign of `increment`. */
  function ReducedIncrement(increment: int32): (r: int32)
    ensures increment == 4095 * Quot(increment, 4095) + r
    ensures increment >= 0 ==> r == increment % 4095
    ensures increment < 0 ==> -4095 < r <= 0
  {
    Rem(increment, 4095)
  }

  /** `binaryWorker + binaryPid + binaryIncrement`: the 22 or more low digits. */
  function LowBits(worker: int32, pid: int32, increment: int32): (s: string)
    ensures IsBinary(s) && |s| >= 22
    ensures |s| == 22 <==> 0 <= worker < 32 && 0 <= pid < 32 && ReducedIncrement(increment) >= 0
  {
    var w, p := FieldBits(worker, 5), FieldBits(pid, 5);
    var i := FieldBits(ReducedIncrement(increment), 12);
    BinaryConcat(w, p);
    BinaryConcat(w + p, i);
    Pow2Constants();
    w + p + i
  }

  /** `binaryTime + binaryWorker + binaryPid + binaryIncrement`, the string that is parsed. */
  function Layout(elapsed: int64, worker: int32, pid: int32, increment: int32): (s: string)
    ensures IsBinary(s) && |s| >= 64
    ensures |s| == 64 <==> 0 <= elapsed < Pow2(42) && 0 <= worker < 32 && 0 <= pid < 32 && ReducedIncrement(increment) >= 0
  {
    BinaryConcat(TimeBits(elapsed), LowBits(worker, pid, increment));
    TimeBits(elapsed) + LowBits(worker, pid, increment)
  }

  /** The ID `generateAsLong` returns once every field has a value, or the exception it throws. */
  function Pack(timestamp: int64, epoch: int64, increment: int32, pid: int32, worker: int32): (r: Result<int64, Exception>)
    ensures r.Ok? <==> Value(Layout(Elapsed(timestamp, epoch), worker, pid, increment)) < Pow2(63)
    ensures r.Ok? ==> r.value == Value(Layout(Elapsed(timestamp, epoch), worker, pid, increment))
    ensures r.Err? ==> r.error == NumberFormatException
  {
    ParseLong(Layout(Elapsed(timestamp, epoch), worker, pid, increment))
  }

  /** The worker, pid and increment fit their widths, so no field spills into its neighbour. */
  predicate FieldsFit(increment: int32, pid: int32, worker: int32) {
    0 <= worker < 32 && 0 <= pid < 32 && 0 <= increment
  }

  /** The layout, read as a number, is the sum of the fields shifted to their places. */
  lemma LayoutValue(elapsed: int64, worker: int32, pid: int32, increment: int32)
    requires 0 <= elapsed && FieldsFit(increment, pid, worker)
    ensures Value(Layout(elapsed, worker, pid, increment))
         == elapsed * Pow2(22) + worker * Pow2(17) + pid * Pow2(12) + increment % 4095
  {
    var low := worker * 0x2_0000 + pid * 4096 + increment % 4095;
    LowBitsValue(worker, pid, increment);
    Append(TimeBits(elapsed), LowBits(worker, pid, increment), elapsed, low, Pow2(22));
    assert Pow2(12) == 4096 && Pow2(17) == 0x2_0000 by {
      Pow2Constants();
    }
  }

  /** Fields that fit take 22 digits, the sum of worker·2^17, pid·2^12 and the reduced increment. */
  lemma LowBitsValue(worker: int32, pid: int32, increment: int32)
    requires FieldsFit(increment, pid, worker)
    ensures |LowBits(worker, pid, increment)| == 22
    ensures Value(LowBits(worker, pid, increment)) == worker * 0x2_0000 + pid * 4096 + increment % 4095
  {
    var w, p := FieldBits(worker, 5), FieldBits(pid, 5);
    var i := FieldBits(ReducedIncrement(increment), 12);
    assert Pow2(5) == 32 && Pow2(12) == 4096 by {
      Pow2Constants();
    }
    IncrementField(increment);
    Append(w, p, worker, pid, 32);
    Append(w + p, i, worker * 32 + pid, increment % 4095, 4096);
    assert LowBits(worker, pid, increment) == w + p + i;
  }

  /**
   * With an elapsed time in [0, 2^41) and fields that fit, the ID is
   * elapsed·2^22 + worker·2^17 + pid·2^12 + (increment mod 4095).
   */
  lemma PackInRange(timestamp: int64, epoch: int64, increment: int32, pid: int32, worker: int32)
    requires 0 <= Elapsed(timestamp, epoch) < Pow2(41) && FieldsFit(increment, pid, worker)
    ensures Pack(timestamp, epoch, increment, pid, worker)
         == Ok(Elapsed(timestamp, epoch) * Pow2(22) + worker * Pow2(17) + pid * Pow2(12) + increment % 4095)
  {
    var elapsed := Elapsed(timestamp, epoch);
    LayoutValue(elapsed, worker, pid, increment);
    assert Pow2(12) == 4096 && Pow2(17) == 0x2_0000 && Pow2(22) == 0x40_0000
      && Pow2(41) == 0x200_0000_0000 && Pow2(63) == 0x8000_0000_0000_0000 by {
      Pow2Constants();
    }
    assert Value(Layout(elapsed, worker, pid, increment)) < Pow2(63);
  }

  lemma ShiftedAtLeast(x: nat, y: nat, z: nat, a: nat, b: nat)
    requires a <= x && b <= y
    ensures a * b <= x * y + z
  {
    assert a * b <= x * b;
  }

  lemma TimeValueLarge(elapsed: int64)
    requires elapsed < 0 || elapsed >= Pow2(41)
    ensures Value(TimeBits(elapsed)) >= Pow2(41)
  {
    Pow2Constants();
  }

  lemma LayoutTooLarge(elapsed: int64, worker: int32, pid: int32, increment: int32)
    requires elapsed < 0 || elapsed >= Pow2(41)
    ensures Value(Layout(elapsed, worker, pid, increment)) >= Pow2(63)
  {
    var t, low := TimeBits(elapsed), LowBits(worker, pid, increment);
    assert Layout(elapsed, worker, pid, increment) == t + low;
    ValueConcat(t, low);
    Pow2Monotone(22, |low|);
    TimeValueLarge(elapsed);
    ShiftedAtLeast(Value(t), Pow2(|low|), Value(low), Pow2(41), Pow2(22));
    Pow2Add(41, 22);
  }

  /**
   * A negative elapsed time (a 64-digit two's complement) or one of 2^41 or
   * more makes the parsed string at least 2^63, whatever the other fields,
   * so `Long.parseLong` throws.
   */
  lemma PackOutOfRange(timestamp: int64, epoch: int64, increment: int32, pid: int32, worker: int32)
    requires Elapsed(timestamp, epoch) < 0 || Elapsed(timestamp, epoch) >= Pow2(41)
    ensures Pack(timestamp, epoch, increment, pid, worker) == Err(NumberFormatException)
  {
    LayoutTooLarge(Elapsed(timestamp, epoch), worker, pid, increment);
  }

  /**
   * The fields can be read back from an in-range ID: bits 22 and up hold
   * the elapsed time, bits 17–21 the worker, 12–16 the pid and 0–11 the
   * reduced increment, which is never 4095.
   */
  lemma PackFields(timestamp: int64, epoch: int64, increment: int32, pid: int32, worker: int32)
    requires 0 <= Elapsed(timestamp, epoch) < Pow2(41) && FieldsFit(increment, pid, worker)
    ensures Pack(timestamp, epoch, increment, pid, worker).Ok?
    ensures var id := Pack(timestamp, epoch, increment, pid, worker).value;
      && id / Pow2(22) == Elapsed(timestamp, epoch)
      && (id / Pow2(17)) % 32 == worker
      && (id / Pow2(12)) % 32 == pid
      && id % Pow2(12) == increment % 4095
      && id % Pow2(12) < 4095
  {
    PackInRange(timestamp, epoch, increment, pid, worker);
    ReadBack(Pack(timestamp, epoch, increment, pid, worker).value, Elapsed(timestamp, epoch), worker, pid, increment % 4095);
  }

  lemma ReadBack(id: int, elapsed: nat, worker: nat, pid: nat, low: nat)
    requires worker < 32 && pid < 32 && low < 4096
    requires id == elapsed * Pow2(22) + worker * Pow2(17) + pid * Pow2(12) + low
    ensures id / Pow2(22) == elapsed && (id / Pow2(17)) % 32 == worker
    ensures (id / Pow2(12)) % 32 == pid && id % Pow2(12) == low
  {
    assert Pow2(22) == 0x40_0000 && Pow2(17) == 0x2_0000 && Pow2(12) == 4096 by {
      Pow2Constants();
    }
    SplitFields(elapsed, worker, pid, low);
  }

  /**
   * For a fixed configuration and no wrap-around of the subtraction, a later
   * timestamp gives a larger ID.
   */
  lemma PackMonotone(t1: int64, t2: int64, epoch: int64, increment: int32, pid: int32, worker: int32)
    requires epoch <= t1 < t2 && t2 - epoch < Pow2(41) && FieldsFit(increment, pid, worker)
    ensures Pack(t1, epoch, increment, pid, worker).Ok? && Pack(t2, epoch, increment, pid, worker).Ok?
    ensures Pack(t1, epoch, increment, pid, worker).value < Pack(t2, epoch, increment, pid, worker).value
  {
    Pow2Constants();
    PackInRange(t1, epoch, increment, pid, worker);
    PackInRange(t2, epoch, increment, pid, worker);
  }

  /**
   * Whatever the time, worker and pid, and whether or not they fit, a
   * non-negative increment ends up in the low 12 bits of a successfully
   * parsed ID as `increment mod 4095`: oversized fields only push the digits
   * to their left.
   */
  lemma PackLowBits(timestamp: int64, epoch: int64, increment: int32, pid: int32, worker: int32)
    requires 0 <= increment
    ensures Pack(timestamp, epoch, increment, pid, worker).Ok? ==>
      Pack(timestamp, epoch, increment, pid, worker).value % 4096 == increment % 4095
  {
    LayoutLowDigits(Elapsed(timestamp, epoch), worker, pid, increment);
  }

  lemma LayoutLowDigits(elapsed: int64, worker: int32, pid: int32, increment: int32)
    requires 0 <= increment
    ensures Value(Layout(elapsed, worker, pid, increment)) % 4096 == increment % 4095
  {
    var t, w, p := TimeBits(elapsed), FieldBits(worker, 5), FieldBits(pid, 5);
    var r := ReducedIncrement(increment);
    var i := FieldBits(r, 12);
    IncrementField(increment);
    assert Layout(elapsed, worker, pid, increment) == (t + (w + p)) + i by {
      ConcatAssoc(t, w + p, i);
    }
    TwelveLowDigits(t + (w + p), i, increment % 4095);
  }

  /** Twelve trailing digits are the remainder mod 4096 of the whole string. */
  lemma TwelveLowDigits(a: string, i: string, low: nat)
    requires |i| == 12 && Value(i) == low && low < 4096
    ensures Value(a + i) % 4096 == low
  {
    assert Pow2(12) == 4096 by {
      Pow2Constants();
    }
    Append(a, i, Value(a), low, 4096);
    LowDigits(Value(a), low);
  }

  lemma LowDigits(high: nat, low: nat)
    requires low < 4096
    ensures (high * 4096 + low) % 4096 == low
  {
  }

  /**
   * The increment is reduced by 4095, not 4096: `increment` and
   * `increment + 4095` give the same ID, so 4095 encodes like 0.
   */
  lemma IncrementPeriod4095(timestamp: int64, epoch: int64, increment: int32, pid: int32, worker: int32)
    requires 0 <= increment < 0x8000_0000 - 4095
    ensures Pack(timestamp, epoch, increment + 4095, pid, worker) == Pack(timestamp, epoch, increment, pid, worker)
  {
    assert ReducedIncrement(increment + 4095) == ReducedIncrement(increment);
  }

  /**
   * A negative increment keeps its sign through `% 4095`, and
   * `Integer.toBinaryString(-1)` is 32 ones: increment -1 fills the low 32
   * bits, so the low 12 bits read 4095, and it does not encode like
   * `-1 + 4095`.
   */
  lemma NegativeIncrement()
    ensures Pack(0, 0, -1, 0, 0) == Ok(0xFFFF_FFFF)
    ensures Pack(0, 0, -1, 0, 0).value % 4096 == 4095
    ensures Pack(0, 0, -1, 0, 0) != Pack(0, 0, -1 + 4095, 0, 0)
  {
    NegativeIncrementLayout();
    assert 0xFFFF_FFFF % 4096 == 4095;
    PositiveIncrement4094();
  }

  /**
   * A negative increment keeps its sign through `% 4095` unless it is a
   * multiple of 4095; its increment field is then 32 digits, not 12.
   */
  lemma NegativeIncrementField(increment: int32)
    requires increment < 0
    ensures ReducedIncrement(increment) == 0 <==> increment % 4095 == 0
    ensures ReducedIncrement(increment) != 0 ==> |FieldBits(ReducedIncrement(increment), 12)| == 32
  {
    var r := ReducedIncrement(increment);
    var q := Quot(increment, 4095);
    assert increment == 4095 * q + r;
    if r == 0 {
      assert increment == 4095 * q;
    } else {
      assert (increment - (r + 4095)) == 4095 * (q - 1);
      assert 0 < r + 4095 < 4095;
    }
  }

  lemma NegativeIncrementLayout()
    ensures Value(Layout(0, 0, 0, -1)) == 0xFFFF_FFFF
  {
    var t, w := TimeBits(0), FieldBits(0, 5);
    var i := FieldBits(-1, 12);
    ZeroAndMinusOneFields();
    assert Layout(0, 0, 0, -1) == t + (w + w + i);
    ConcatAssoc(t, w + w, i);
    Append(w, w, 0, 0, Pow2(5));
    Append(t, w + w, 0, 0, Pow2(10));
    Append(t + (w + w), i, 0, 0xFFFF_FFFF, Pow2(32));
  }

  lemma ZeroAndMinusOneFields()
    ensures Value(TimeBits(0)) == 0 && Value(FieldBits(0, 5)) == 0 && |FieldBits(0, 5)| == 5
    ensures ReducedIncrement(-1) == -1
    ensures |FieldBits(-1, 12)| == 32 && Value(FieldBits(-1, 12)) == 0xFFFF_FFFF
  {
    assert Pow2(5) == 32 && Pow2(32) == 0x1_0000_0000 by {
      Pow2Constants();
    }
  }

  lemma PositiveIncrement4094()
    ensures Pack(0, 0, 4094, 0, 0) == Ok(4094)
  {
    assert Pow2(41) == 0x200_0000_0000 && Pow2(5) == 32 && Pow2(12) == 4096 by {
      Pow2Constants();
    }
    PackInRange(0, 0, 4094, 0, 0);
  }

  /**
   * `leftPad` does not truncate, so worker 32 ("100000") takes six digits
   * and pushes the time field one place left: (elapsed, worker 32) collides
   * with (2·elapsed + 1, worker 0).
   */
  lemma OversizedWorkerShiftsTime(t1: int64, t2: int64, epoch: int64, increment: int32, pid: int32)
    requires 0 <= Elapsed(t1, epoch) < Pow2(40) && Elapsed(t2, epoch) == 2 * Elapsed(t1, epoch) + 1
    requires 0 <= pid < 32 && 0 <= increment
    ensures |Layout(Elapsed(t1, epoch), 32, pid, increment)| == 65
    ensures Pack(t1, epoch, increment, pid, 32) == Pack(t2, epoch, increment, pid, 0)
    ensures Pack(t2, epoch, increment, pid, 0).Ok?
  {
    var e1, e2 := Elapsed(t1, epoch), Elapsed(t2, epoch);
    ShiftedLayouts(e1, e2, pid, increment);
    ParseLongByValue(Layout(e1, 32, pid, increment), Layout(e2, 0, pid, increment));
    PackInRange(t2, epoch, increment, pid, 0);
  }

  lemma ShiftedLayouts(e1: int64, e2: int64, pid: int32, increment: int32)
    requires 0 <= e1 < Pow2(40) && e2 == 2 * e1 + 1
    requires 0 <= pid < 32 && 0 <= increment
    ensures |Layout(e1, 32, pid, increment)| == 65
    ensures Value(Layout(e1, 32, pid, increment)) == Value(Layout(e2, 0, pid, increment))
  {
    WorkerThirtyTwo(pid, increment);
    ShortTime(e1);
    var t, low := TimeBits(e1), LowBits(32, pid, increment);
    var rest := 0x40_0000 + pid * 4096 + increment % 4095;
    assert Layout(e1, 32, pid, increment) == t + low;
    assert Pow2(23) == 0x80_0000 by {
      Pow2Constants();
    }
    Append(t, low, e1, rest, 0x80_0000);
    WorkerZeroValue(e2, pid, increment);
  }

  lemma WorkerZeroValue(elapsed: int64, pid: int32, increment: int32)
    requires 0 <= elapsed && 0 <= pid < 32 && 0 <= increment
    ensures Value(Layout(elapsed, 0, pid, increment)) == elapsed * 0x40_0000 + pid * 4096 + increment % 4095
  {
    LayoutValue(elapsed, 0, pid, increment);
    assert Pow2(22) == 0x40_0000 && Pow2(12) == 4096 by {
      Pow2Constants();
    }
  }

  /** An elapsed time below 2^40 fills exactly the 42 time digits. */
  lemma ShortTime(elapsed: int64)
    requires 0 <= elapsed < Pow2(40)
    ensures |TimeBits(elapsed)| == 42 && Value(TimeBits(elapsed)) == elapsed
  {
    Pow2Monotone(40, 42);
  }

  /** The low digits with worker 32: one digit longer than the layout allows. */
  lemma WorkerThirtyTwo(pid: int32, increment: int32)
    requires 0 <= pid < 32 && 0 <= increment
    ensures |LowBits(32, pid, increment)| == 23
    ensures Value(LowBits(32, pid, increment)) == 0x40_0000 + pid * 4096 + increment % 4095
  {
    var w, p := FieldBits(32, 5), FieldBits(pid, 5);
    var i := FieldBits(ReducedIncrement(increment), 12);
    ThirtyTwoFields(pid);
    IncrementField(increment);
    Append(w, p, 32, pid, 32);
    Append(w + p, i, 32 * 32 + pid, increment % 4095, 4096);
    assert LowBits(32, pid, increment) == w + p + i;
  }

  lemma ThirtyTwoFields(pid: int32)
    requires 0 <= pid < 32
    ensures |FieldBits(32, 5)| == 6 && Value(FieldBits(32, 5)) == 32
    ensures |FieldBits(pid, 5)| == 5 && Value(FieldBits(pid, 5)) == pid
    ensures Pow2(5) == 32 && Pow2(12) == 4096
  {
    assert Pow2(5) == 32 && Pow2(12) == 4096 by {
      Pow2Constants();
    }
    WorkerDigits32();
  }

  /** `Integer.toBinaryString(32)` is the six digits `100000`, which padding to 5 leaves alone. */
  lemma WorkerDigits32()
    ensures FieldBits(32, 5) == "100000"
  {
    assert ToBinary(1) == "1";
    assert ToBinary(2) == "10";
    assert ToBinary(4) == "100";
    assert ToBinary(8) == "1000";
    assert ToBinary(16) == "10000";
    assert ToBinary(32) == "100000";
  }

  /** A non-negative increment fits its 12 digits once reduced by `% 4095`. */
  lemma IncrementField(increment: int32)
    requires 0 <= increment
    ensures |FieldBits(ReducedIncrement(increment), 12)| == 12
    ensures Value(FieldBits(ReducedIncrement(increment), 12)) == increment % 4095
  {
    assert Pow2(12) == 4096 by {
      Pow2Constants();
    }
    assert 0 <= ReducedIncrement(increment) < 4095;
  }

  class Snowflake {
    /** The epoch, as its millisecond count `getTime()`; `None` is a null `Timestamp`. */
    var epoch: Option<int64>
    var pid: Option<int32>
    var worker: Option<int32>
    var increment: Option<int32>

    /** `Snowflake(epoch, increment, pid, worker)`: stores each argument, null or not. */
    constructor (epoch: Option<int64>, increment: Option<int32>, pid: Option<int32>, worker: Option<int32>)
      ensures this.epoch == epoch && this.increment == increment
      ensures this.pid == pid && this.worker == worker
    {
      this.epoch := epoch;
      this.increment := increment;
      this.pid := pid;
      this.worker := worker;
    }

    /** `Snowflake()`: epoch `new Timestamp(0)` and every counter field zero. */
    constructor Default()
      ensures epoch == Some(0) && increment == Some(0) && pid == Some(0) && worker == Some(0)
    {
      epoch := Some(0);
      increment := Some(0);
      pid := Some(0);
      worker := Some(0);
    }

    /** `getEpoch()` returns the stored reference, which may be null. */
    function GetEpoch(): (r: Option<int64>)
      reads this
      ensures r == epoch
    {
      epoch
    }

    /** `getIncrement()` unboxes the field to an `int`: a null field throws. */
    function GetIncrement(): (r: Result<int32, Exception>)
      reads this
      ensures r.Ok? <==> increment.Some?
      ensures r.Ok? ==> r.value == increment.value
      ensures r.Err? ==> r.error == NullPointerException
    {
      if increment.Some? then Ok(increment.value) else Err(NullPointerException)
    }

    /** `getWorker()`, unboxing like `getIncrement()`. */
    function GetWorker(): (r: Result<int32, Exception>)
      reads this
      ensures r.Ok? <==> worker.Some?
      ensures r.Ok? ==> r.value == worker.value
      ensures r.Err? ==> r.error == NullPointerException
    {
      if worker.Some? then Ok(worker.value) else Err(NullPointerException)
    }

    /** `getPid()`, unboxing like `getIncrement()`. */
    function GetPid(): (r: Result<int32, Exception>)
      reads this
      ensures r.Ok? <==> pid.Some?
      ensures r.Ok? ==> r.value == pid.value
      ensures r.Err? ==> r.error == NullPointerException
    {
      if pid.Some? then Ok(pid.value) else Err(NullPointerException)
    }

    method SetIncrement(increment: Option<int32>) returns (self: Snowflake)
      modifies this
      ensures self == this && this.increment == increment
      ensures epoch == old(epoch) && pid == old(pid) && worker == old(worker)
    {
      this.increment := increment;
      self := this;
    }

    /**
     * `this.increment++`: unboxes (a null field throws before anything
     * changes), adds one in `int` arithmetic and stores the boxed result.
     */
    method IncreaseIncrement() returns (r: Result<Snowflake, Exception>)
      modifies this
      ensures old(increment).None? ==> r == Err(NullPointerException) && increment == None
      ensures old(increment).Some? ==> r == Ok(this) && increment == Some(Wrap32(old(increment).value + 1))
      ensures old(increment).Some? && old(increment).value < 0x7fff_ffff ==> increment == Some(old(increment).value + 1)
      ensures epoch == old(epoch) && pid == old(pid) && worker == old(worker)
    {
      if increment.None? {
        return Err(NullPointerException);
      }
      increment := Some(Wrap32(increment.value + 1));
      r := Ok(this);
    }

    method SetWorker(worker: Option<int32>) returns (self: Snowflake)
      modifies this
      ensures self == this && this.worker == worker
      ensures epoch == old(epoch) && increment == old(increment) && pid == old(pid)
    {
      this.worker := worker;
      self := this;
    }

    method SetPid(pid: Option<int32>) returns (self: Snowflake)
      modifies this
      ensures self == this && this.pid == pid
      ensures epoch == old(epoch) && increment == old(increment) && worker == old(worker)
    {
      this.pid := pid;
      self := this;
    }

    method SetEpoch(epoch: Option<int64>) returns (self: Snowflake)
      modifies this
      ensures self == this && this.epoch == epoch
      ensures increment == old(increment) && pid == old(pid) && worker == old(worker)
    {
      this.epoch := epoch;
      self := this;
    }

    /**
     * `generateAsLong(timestamp)`: stores the default (zero) into every null
     * field, then packs; a null `timestamp` throws on `getTime()`, after the
     * defaults are stored.
     */
    method GenerateAsLong(timestamp: Option<int64>) returns (r: Result<int64, Exception>)
      modifies this
      ensures epoch == Some(old(epoch).GetOr(0)) && increment == Some(old(increment).GetOr(0))
      ensures pid == Some(old(pid).GetOr(0)) && worker == Some(old(worker).GetOr(0))
      ensures r == if timestamp.None? then Err(NullPointerException)
                   else Pack(timestamp.value, epoch.value, increment.value, pid.value, worker.value)
    {
      epoch, increment := Some(epoch.GetOr(0)), Some(increment.GetOr(0));
      pid, worker := Some(pid.GetOr(0)), Some(worker.GetOr(0));
      if timestamp.None? {
        return Err(NullPointerException);
      }
      r := Pack(timestamp.value, epoch.value, increment.value, pid.value, worker.value);
    }

    /**
     * `generate(timestamp)`: `String.valueOf(Object)` on the boxed `Long`
     * that `generateAsLong(timestamp)` returns, i.e. its `toString()`.
     */
    method Generate(timestamp: Option<int64>) returns (r: Result<string, Exception>)
      modifies this
      ensures epoch == Some(old(epoch).GetOr(0)) && increment == Some(old(increment).GetOr(0))
      ensures pid == Some(old(pid).GetOr(0)) && worker == Some(old(worker).GetOr(0))
      ensures var id := if timestamp.None? then Err(NullPointerException)
                        else Pack(timestamp.value, epoch.value, increment.value, pid.value, worker.value);
              r == if id.Ok? then Ok(LongToString(id.value)) else Err(id.error)
    {
      var id := GenerateAsLong(timestamp);
      r := if id.Ok? then Ok(LongToString(id.value)) else Err(id.error);
    }
  }
}
