# Snowflake ID packer, modelled in Dafny

The repository builds Snowflake IDs in two languages. The Java class
`Snowflake` and the TypeScript function `generateSnowflake` both subtract an
epoch from a timestamp in milliseconds. They then left-pad four binary fields
with `'0'` and concatenate them in a fixed order:

- the elapsed time, padded to 42 digits;
- the worker, padded to 5;
- the pid, padded to 5;
- `increment % 4095`, padded to 12.

Java parses the resulting string in base 2 as a `long`. TypeScript hands it to
`parseInt`.

This project models both implementations and proves what the layout means.

- Modules:
  - `Bits` holds binary digit strings: their value, `Pow2`, shortest binary
    form, padding that never truncates, and Java/JavaScript truncating `%`.
  - `JavaLang` models the library calls the Java code relies on:
    - `int`/`long` wrap-around;
    - `Integer.toBinaryString` and `Long.toBinaryString`;
    - `Long.parseLong(s, 2)` with its `NumberFormatException`;
    - `Long.toString()`, which `String.valueOf(Object)` calls on the boxed
      `Long` that `generateAsLong` returns.
  - `JavaSnowflake` holds the packing as pure functions, plus the class
    `Snowflake`.
  - `TsSnowflake` holds `decimalToBinary`, `defaultConfig`, the layout, and
    `generateSnowflake` up to the binary string.
  - `Agreement` compares the two layouts.
- The class `Snowflake` keeps its four nullable fields as `Option` fields. Its
  setters, `increaseIncrement` and `generateAsLong` update them in place.
- A `java.sql.Timestamp` is represented by its `getTime()` millisecond count,
  as an `int64`. A null timestamp argument is `None`: `generateAsLong` throws
  `NullPointerException` on it, after storing the defaults.
- The TypeScript caller's `config` object is a class whose fields
  `generateSnowflake` fills in place. `defaultConfig` is a constant record of
  zeros.

Main results:

- An in-range ID equals `elapsed·2^22 + worker·2^17 + pid·2^12 + (increment mod 4095)`.
- Each field reads back from the ID.
- Every negative elapsed time, and every elapsed time of 2^41 or more, makes
  `parseLong` throw.
- For a non-negative increment, the increment has period 4095, so 4095
  encodes like 0. Its low 12 bits are `increment mod 4095` whenever
  `parseLong` succeeds, whatever the other fields.
- A negative increment that is not a multiple of 4095 keeps its sign
  through `%` and fills 32 bits. With time, worker and pid 0, increment -1
  gives the ID 2^32 - 1, not the ID of 4094.
- `leftPad` does not truncate, so worker 32 collides with a different time.
- TypeScript drops the time's bits above 32.
- The two layouts are equal exactly when the elapsed time is in [0, 2^32).

## Model

| member | source | states |
|---|---|---|
| Bits.LeftPad | Snowflake.java:104-107 | `leftPad`/`padStart` with '0': the result has length max(width, \|s\|), ends with `s`, and all added digits are '0' (never truncates) |
| Bits.LeftPadValue | snowflake.ts:40-43 | padding with leading zeros does not change the value of a binary string |
| Bits.ToBinary | snowflake.ts:29 | `toString(2)` of a non-negative integer: a non-empty binary string, "0" for 0, otherwise starting with '1' |
| Bits.ValueOfToBinary | snowflake.ts:29 | the shortest binary form of `n` denotes `n` |
| Bits.ToBinaryLength | Snowflake.java:104-107 | the binary form of `n` has at most `k` digits exactly when `n < 2^k` |
| Bits.PaddedBinary | Snowflake.java:104-107 | a padded field has at least `width` digits, exactly `width` iff the value is below 2^width, and denotes the value |
| Bits.ValueConcat | Snowflake.java:109 | concatenation shifts the left part by the length of the right part: value(a+b) = value(a)·2^\|b\| + value(b) |
| Bits.Rem | Snowflake.java:107 | `%` on `int`/`number` truncates toward zero: `a = b·Quot(a,b) + r`, with `0 ≤ r < b` for `a ≥ 0` and `-b < r ≤ 0` for `a < 0` |
| JavaLang.Wrap64 | Snowflake.java:102 | `long` arithmetic: the result is congruent to the exact one mod 2^64 and equals it when in range |
| JavaLang.Wrap32 | Snowflake.java:59 | `int` arithmetic: the result is congruent mod 2^32 and equals the exact result when in range |
| JavaLang.IntegerToBinaryString | Snowflake.java:105-107 | `Integer.toBinaryString(i)`: the binary form of `i` as unsigned 32-bit; 1 to 32 digits; exactly 32 digits when `i < 0` |
| JavaLang.LongToBinaryString | Snowflake.java:104 | `Long.toBinaryString(x)`: the binary form of `x` as unsigned 64-bit; 1 to 64 digits; exactly 64 digits when `x < 0` |
| JavaLang.ParseLong | Snowflake.java:109 | `Long.parseLong(s, 2)` succeeds iff `s` is a non-empty binary string whose value is below 2^63; it then returns that value, and otherwise throws `NumberFormatException` |
| JavaLang.ParseLongByValue | Snowflake.java:109 | two binary strings with the same value parse alike, whatever their lengths |
| JavaLang.DecimalDigits | Snowflake.java:89 | decimal digits with no leading zero |
| JavaLang.LongToString | Snowflake.java:89 | `String.valueOf` of the boxed `Long`, i.e. its `toString()`: non-empty, and starts with '-' exactly for negatives |
| JavaLang.DecimalDigitsValue | Snowflake.java:89 | the decimal digits of `n` denote `n` |
| JavaLang.DigitRoundTrip | Snowflake.java:89 | helper of `DecimalDigitsValue`: each decimal digit character reads back as its digit |
| JavaLang.LongToStringRoundTrip | Snowflake.java:89 | parsing the decimal string of `x` back in base 10 gives `x` |
| JavaSnowflake.Elapsed | Snowflake.java:102 | `timestamp.getTime() - epoch.getTime()` in `long`: congruent to the difference mod 2^64, and equal to it when no overflow |
| JavaSnowflake.TimeBits | Snowflake.java:104 | the time field: at least 42 digits; exactly 42 iff `0 ≤ elapsed < 2^42`; denotes elapsed as unsigned 64-bit |
| JavaSnowflake.FieldBits | Snowflake.java:105-107 | a worker/pid/increment field: at least `width` digits; exactly `width` iff `0 ≤ v < 2^width`; denotes `v` as unsigned 32-bit |
| JavaSnowflake.ReducedIncrement | Snowflake.java:107 | `increment % 4095` is the remainder of truncating division: `increment = 4095·Quot(increment, 4095) + r`; it is the mathematical remainder for `increment ≥ 0`, and in (-4095, 0] for a negative increment |
| JavaSnowflake.LowBits | Snowflake.java:105-107 | worker+pid+increment digits: at least 22; exactly 22 iff worker and pid are in [0, 31] and the reduced increment is non-negative |
| JavaSnowflake.Layout | Snowflake.java:104-109 | the parsed string is binary with at least 64 digits; exactly 64 iff every field fits its width |
| JavaSnowflake.Pack | Snowflake.java:102-109 | the ID `generateAsLong` returns once every field has a value: `Long.parseLong` of the layout succeeds iff the layout denotes less than 2^63, returns that value, and otherwise throws `NumberFormatException` |
| JavaSnowflake.LayoutValue | Snowflake.java:102-109 | with fields that fit, the string denotes `elapsed·2^22 + worker·2^17 + pid·2^12 + increment mod 4095` |
| JavaSnowflake.LowBitsValue | Snowflake.java:105-107 | with fields that fit, the worker, pid and increment digits are 22 long and denote `worker·2^17 + pid·2^12 + increment mod 4095` |
| JavaSnowflake.IncrementField | Snowflake.java:107 | a non-negative increment, reduced by `% 4095`, fills exactly its 12 digits and denotes `increment mod 4095` |
| JavaSnowflake.PackInRange | Snowflake.java:102-109 | for `0 ≤ elapsed < 2^41` and fitting fields, `generateAsLong` returns `elapsed·2^22 + worker·2^17 + pid·2^12 + increment mod 4095` |
| JavaSnowflake.LayoutTooLarge | Snowflake.java:104-109 | for a negative elapsed time, or one of 2^41 or more, the string denotes at least 2^63 |
| JavaSnowflake.PackOutOfRange | Snowflake.java:102-109 | for a negative elapsed time, or one of 2^41 or more, `Long.parseLong` throws `NumberFormatException`, whatever the other fields |
| JavaSnowflake.PackFields | Snowflake.java:102-109 | an in-range ID gives back its elapsed time, worker, pid and `increment mod 4095`; its low 12 bits are never 4095 |
| JavaSnowflake.ReadBack | Snowflake.java:109 | helper of `PackFields`: the four fields shifted by 2^22, 2^17 and 2^12 separate again by division and remainder |
| Bits.SplitFields | Snowflake.java:109 | the four shifted fields can be separated again by division and remainder |
| JavaSnowflake.PackMonotone | Snowflake.java:102-109 | with a fixed configuration and no wrap-around, a later timestamp gives a strictly larger ID |
| JavaSnowflake.IncrementPeriod4095 | Snowflake.java:107 | for a non-negative increment, `increment` and `increment + 4095` give the same ID, so 4095 encodes like 0 |
| JavaSnowflake.PackLowBits | Snowflake.java:104-109 | for any non-negative increment and any time, worker and pid, a successfully parsed ID has `increment mod 4095` as its low 12 bits |
| JavaSnowflake.LayoutLowDigits | Snowflake.java:104-109 | for a non-negative increment, the parsed string denotes a number whose remainder mod 4096 is `increment mod 4095`, whatever the other fields |
| JavaSnowflake.LowDigits | Snowflake.java:109 | helper of `LayoutLowDigits`, plain arithmetic: `(high·4096 + low) mod 4096 = low` for `low < 4096` |
| JavaSnowflake.TwelveLowDigits | Snowflake.java:109 | helper of `LayoutLowDigits`: twelve trailing digits are the remainder mod 4096 of the whole string |
| JavaSnowflake.NegativeIncrement | Snowflake.java:107 | increment -1 (with time, worker and pid 0) gives the ID 2^32 - 1, whose low 12 bits are 4095, and not the ID of `-1 + 4095` |
| JavaSnowflake.NegativeIncrementField | Snowflake.java:107 | for a negative increment, `increment % 4095` is 0 exactly for multiples of 4095, and otherwise the increment field is 32 digits instead of 12 |
| JavaSnowflake.NegativeIncrementLayout | Snowflake.java:104-109 | helper of `NegativeIncrement`: the string for increment -1 and zero fields denotes 2^32 - 1 |
| JavaSnowflake.ZeroAndMinusOneFields | Snowflake.java:104-107 | helper of `NegativeIncrementLayout`: zero time and worker fields denote 0; `-1 % 4095` is -1, and its field is 32 ones |
| JavaSnowflake.PositiveIncrement4094 | Snowflake.java:102-109 | helper of `NegativeIncrement`: increment 4094 with zero fields gives the ID 4094 |
| JavaSnowflake.OversizedWorkerShiftsTime | Snowflake.java:104-109 | worker 32 makes a 65-digit string, and (elapsed, worker 32) gives the same ID as (2·elapsed+1, worker 0) |
| JavaSnowflake.ShiftedLayouts | Snowflake.java:104-109 | the 65-digit layout for worker 32 has the same value as the 64-digit layout for (2·elapsed+1, worker 0) |
| JavaSnowflake.ShortTime | Snowflake.java:104 | helper of `ShiftedLayouts`: an elapsed time below 2^40 takes exactly the 42 time digits and denotes itself |
| JavaSnowflake.WorkerZeroValue | Snowflake.java:104-109 | helper of `ShiftedLayouts`: with worker 0 the string denotes `elapsed·2^22 + pid·2^12 + increment mod 4095` |
| JavaSnowflake.WorkerThirtyTwo | Snowflake.java:105-107 | with worker 32 the low digits are 23 long and denote `2^22 + pid·2^12 + increment mod 4095` |
| JavaSnowflake.WorkerDigits32 | Snowflake.java:105 | `Integer.toBinaryString(32)` is the six digits `100000`, which `leftPad(…, 5, "0")` leaves unchanged |
| JavaSnowflake.ThirtyTwoFields | Snowflake.java:105-106 | helper of `WorkerThirtyTwo`: the worker field for 32 has six digits and denotes 32; a pid below 32 fills five digits and denotes itself |
| JavaSnowflake.Snowflake.constructor | Snowflake.java:29-34 | each argument is stored as given, null or not |
| JavaSnowflake.Snowflake.Default | Snowflake.java:36-41 | epoch `Timestamp(0)` and increment, pid and worker all zero |
| JavaSnowflake.Snowflake.GetEpoch | Snowflake.java:46-48 | returns the stored epoch, which may be null |
| JavaSnowflake.Snowflake.GetIncrement | Snowflake.java:50-52 | unboxing: the stored value, or `NullPointerException` exactly when the field is null |
| JavaSnowflake.Snowflake.SetIncrement | Snowflake.java:54-57 | sets only `increment` and returns the same object |
| JavaSnowflake.Snowflake.IncreaseIncrement | Snowflake.java:59 | a null field throws `NullPointerException` and changes nothing; otherwise `increment` becomes `increment + 1` (wrapping at `Integer.MAX_VALUE`), no other field changes, and `this` is returned |
| JavaSnowflake.Snowflake.GetWorker | Snowflake.java:61-63 | unboxing: the stored value, or `NullPointerException` exactly when the field is null |
| JavaSnowflake.Snowflake.SetWorker | Snowflake.java:65-68 | sets only `worker` and returns the same object |
| JavaSnowflake.Snowflake.GetPid | Snowflake.java:70-72 | unboxing: the stored value, or `NullPointerException` exactly when the field is null |
| JavaSnowflake.Snowflake.SetPid | Snowflake.java:74-77 | sets only `pid` and returns the same object |
| JavaSnowflake.Snowflake.SetEpoch | Snowflake.java:79-82 | sets only `epoch` and returns the same object |
| JavaSnowflake.Snowflake.GenerateAsLong | Snowflake.java:96-110 | every null field becomes 0 in the object, non-null fields are kept, and the result is the packed ID (or its exception) of the defaulted fields; a null timestamp throws `NullPointerException` |
| JavaSnowflake.Snowflake.Generate | Snowflake.java:88-90 | the same field defaults, and the result is the decimal string (`String.valueOf` of the boxed `Long`) of the ID `generateAsLong` produces, or its exception |
| TsSnowflake.DefaultConfig | snowflake.ts:26 | `defaultConfig`: every option zero |
| TsSnowflake.DecimalToBinary | snowflake.ts:28-30 | `(decimal >>> 0).toString(2)` is the shortest binary form of `decimal mod 2^32`: 1 to 32 digits, denoting that value |
| TsSnowflake.TimeBits | snowflake.ts:41 | the time field is always exactly 42 digits, denotes the time mod 2^32, and starts with ten '0' |
| TsSnowflake.FieldBits | snowflake.ts:40-43 | a padded field: at least `width` digits; exactly `width` iff the value mod 2^32 is below 2^width |
| TsSnowflake.LowBits | snowflake.ts:40-43 | worker+pid+increment digits: at least 22; exactly 22 iff worker and pid are below 32 (as unsigned 32-bit) and `increment % 4095` is not negative |
| TsSnowflake.Layout | snowflake.ts:38-45 | the string given to `parseInt`: binary, at least 64 digits, and exactly 64 iff the fields fit |
| TsSnowflake.LayoutFields | snowflake.ts:38-45 | with worker and pid in [0, 31] and a non-negative increment, the layout's value gives back the time mod 2^32, the worker, the pid and `increment mod 4095`, which is never 4095 |
| TsSnowflake.LayoutValue | snowflake.ts:38-45 | with fitting fields and a non-negative increment, the string denotes `(time mod 2^32)·2^22 + worker·2^17 + pid·2^12 + increment mod 4095` |
| Bits.Append | Snowflake.java:109 | proof helper: `ValueConcat` with named values, the value of `a + b` from the values of `a` and `b` and the weight 2^\|b\| |
| TsSnowflake.LowValue | snowflake.ts:40-43 | the low 22 digits denote `worker·2^17 + pid·2^12 + increment mod 4095` |
| TsSnowflake.SmallField | snowflake.ts:29 | helper of `LowValue`: `>>> 0` leaves a field value already in [0, 2^32) unchanged |
| TsSnowflake.TimeTruncated | snowflake.ts:29-41 | timestamps 2^32 ms apart give the same string, so the time's high bits are lost; the string's first ten digits are always '0' |
| TsSnowflake.PartialOptions.constructor | snowflake.ts:32 | the caller's `Partial<SnowflakeOptions>` object: stores each option as given, present or missing |
| TsSnowflake.GenerateSnowflake | snowflake.ts:32-45 | each null or missing option of `config` is set to its `defaultConfig` value in place, present ones are kept, and the result is the layout of `time - epoch` and the options |
| Agreement.FieldsAgree | snowflake.ts:29 | for an `int` value, Java's `Integer.toBinaryString` field and TypeScript's `>>> 0` field are the same string |
| Agreement.LowBitsAgree | Snowflake.java:105-107 | Java and TypeScript produce the same worker, pid and increment digits |
| Agreement.ElapsedLow | snowflake.ts:38 | TypeScript's `time - epoch` and Java's wrapped `long` difference agree mod 2^32 |
| Agreement.TimeBitsAgree | snowflake.ts:41 | for an elapsed time in [0, 2^32), both time fields are the same string |
| Agreement.TimeBitsDiffer | Snowflake.java:104 | otherwise the Java time field denotes a different value from the TypeScript one |
| Agreement.LayoutsAgree | snowflake.ts:40-45 | for the same timestamp, epoch and fields, the Java string equals the TypeScript string iff the elapsed time is in [0, 2^32) |

## Left out

- Clock reads are not modelled: `Instant.now()` (Snowflake.java:84-86, 92-94) and `Date.now()` as the default `time` (snowflake.ts:32). The overloads `generate()` and `generateAsLong()` without an argument are therefore left out; the timestamp is always a parameter.
- `parseInt(…, 2).toString()` (snowflake.ts:45) is left out. It goes through a floating-point double and loses precision above 2^53, so the TypeScript model stops at the binary string.
- TsSnowflake: JavaScript numbers are modelled as integers. Fractions, `NaN` and precision loss in `time - config.epoch` above 2^53 are not modelled.
- `java.sql.Timestamp` is reduced to its `getTime()` value. Its other behaviour (nanoseconds, time zones) is not modelled.
- JavaLang.ParseLong: does not model sign characters or other radices, because the packed string only ever holds '0' and '1'.
- `StringUtils.leftPad`, `padStart`, `toBinaryString`, `parseLong` and `Long.toString` are modelled by their documented results, not by their library code.
- `@Nullable`, the TypeScript `Snowflake`/`SnowflakeOptions` type declarations and `Partial<…>` are not modelled beyond optional fields.
- The default `config` argument is not modelled. It is, by reference, the shared `defaultConfig` object, but since every option is present it is never written.
- Concurrency is not modelled: neither implementation synchronises.
- JavaSnowflake.Snowflake.GetEpoch: returns the `Timestamp` reference itself. Aliasing of that mutable object between the caller and the `Snowflake` is not modelled.
