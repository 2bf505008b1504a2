/**
 * The Java and the TypeScript implementations build the same binary layout
 * exactly when the elapsed time fits in 32 unsigned bits: the TypeScript
 * `>>> 0` truncates the time to 32 bits, where Java keeps all 64.
 */
module Agreement {
  import opened Bits
  import opened JavaLang
  import JavaSnowflake
  import TsSnowflake

  /** A difference that is a multiple of 2^64 is also a multiple of 2^32. */
  lemma ModCoarser(x: int, y: int)
    requires (x - y) % 0x1_0000_0000_0000_0000 == 0
    ensures x % 0x1_0000_0000 == y % 0x1_0000_0000
  {
    var k := (x - y) / 0x1_0000_0000_0000_0000;
    assert x - y == k * 0x1_0000_0000_0000_0000;
    assert x == y + (k * 0x1_0000_0000) * 0x1_0000_0000;
    ModShift(y, k * 0x1_0000_0000);
  }

  lemma ModShift(y: int, m: int)
    ensures (y + m * 0x1_0000_0000) % 0x1_0000_0000 == y % 0x1_0000_0000
  {
  }

  /** Both write a 32-bit field the same way: `Integer.toBinaryString` and `>>> 0` agree on an `int`. */
  lemma FieldsAgree(v: int32, width: nat)
    requires 1 <= width <= 31
    ensures JavaSnowflake.FieldBits(v, width) == TsSnowflake.FieldBits(v, width)
  {
    assert v % 0x1_0000_0000 == if v >= 0 then v else v + 0x1_0000_0000;
  }

  /** The worker, pid and increment digits are the same in both, for every `int` value. */
  lemma LowBitsAgree(worker: int32, pid: int32, increment: int32)
    ensures JavaSnowflake.LowBits(worker, pid, increment) == TsSnowflake.LowBits(worker, pid, increment)
  {
    FieldsAgree(worker, 5);
    FieldsAgree(pid, 5);
    FieldsAgree(JavaSnowflake.ReducedIncrement(increment), 12);
  }

  /** The elapsed time the TypeScript side truncates is Java's wrapped one, modulo 2^32. */
  lemma ElapsedLow(timestamp: int64, epoch: int64)
    ensures (timestamp - epoch) % 0x1_0000_0000 == JavaSnowflake.Elapsed(timestamp, epoch) % 0x1_0000_0000
  {
    ModCoarser(timestamp - epoch, JavaSnowflake.Elapsed(timestamp, epoch));
  }

  /** The time digits agree when the elapsed time is in [0, 2^32) ... */
  lemma TimeBitsAgree(timestamp: int64, epoch: int64)
    requires 0 <= JavaSnowflake.Elapsed(timestamp, epoch) < 0x1_0000_0000
    ensures JavaSnowflake.TimeBits(JavaSnowflake.Elapsed(timestamp, epoch)) == TsSnowflake.TimeBits(timestamp - epoch)
  {
    var elapsed := JavaSnowflake.Elapsed(timestamp, epoch);
    ElapsedLow(timestamp, epoch);
    assert (timestamp - epoch) % 0x1_0000_0000 == elapsed;
    assert TsSnowflake.DecimalToBinary(timestamp - epoch) == LongToBinaryString(elapsed);
  }

  /** ... and only then: otherwise Java's digits denote 2^32 or more, which the 32-bit TypeScript digits cannot. */
  lemma TimeBitsDiffer(elapsed: int64, time: int)
    requires !(0 <= elapsed < 0x1_0000_0000)
    ensures Value(JavaSnowflake.TimeBits(elapsed)) != Value(TsSnowflake.TimeBits(time))
  {
    assert Pow2(64) == 0x1_0000_0000_0000_0000 by {
      Pow2Constants();
    }
  }

  /** Different strings stay different once the same suffix is appended. */
  lemma AppendDiffers(a: string, b: string, c: string)
    requires a != b
    ensures a + c != b + c
  {
    if |a| == |b| {
      assert a == (a + c)[..|a|] && b == (b + c)[..|b|];
    }
  }

  /**
   * For the same timestamp, epoch and fields, Java's layout equals the
   * TypeScript one if and only if the (wrapped) elapsed time is in [0, 2^32).
   */
  lemma LayoutsAgree(timestamp: int64, epoch: int64, increment: int32, pid: int32, worker: int32)
    ensures JavaSnowflake.Layout(JavaSnowflake.Elapsed(timestamp, epoch), worker, pid, increment)
         == TsSnowflake.Layout(timestamp - epoch, worker, pid, increment)
        <==> 0 <= JavaSnowflake.Elapsed(timestamp, epoch) < Pow2(32)
  {
    var el := JavaSnowflake.Elapsed(timestamp, epoch);
    var jt, tt := JavaSnowflake.TimeBits(el), TsSnowflake.TimeBits(timestamp - epoch);
    var low := JavaSnowflake.LowBits(worker, pid, increment);
    LowBitsAgree(worker, pid, increment);
    assert Pow2(32) == 0x1_0000_0000 by {
      Pow2Constants();
    }
    if 0 <= el < Pow2(32) {
      TimeBitsAgree(timestamp, epoch);
    } else {
      TimeBitsDiffer(el, timestamp - epoch);
      AppendDiffers(jt, tt, low);
    }
  }
}
