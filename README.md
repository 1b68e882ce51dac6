# QPC clock calibration and fixed-point tick conversion

A Dafny model of the Windows core of the `gofix/time` package. That core has three parts:

- **Calibration.** At startup, `init` reads the QueryPerformanceCounter (QPC) frequency `qpf`. It computes the multiplier `res = floor(1e9 · 2^64 / qpf)` with big integers. It pads the big-endian bytes of `res` to 12 bytes and splits them into three 32-bit limbs `nsPerQPCv = A, B, C`, a 32.64 fixed-point value. It packs `A.B` as the 32.32 value `nsPerQPCfp`. Last, it records the start counter value and the Unix epoch offset.
- **Conversion.** `qpc_to_int_old` turns a raw tick count into nanoseconds. It multiplies the counter `DE.00` (two 32-bit halves) by `A.BC` limb by limb, using uint64 arithmetic that wraps. It drops the lowest cross product `E·C` and adds a half unit before the final shift.
- **Wall clock.** `unixnanoseconds` adds the epoch offset to a nanosecond reading.

Modules:

- `GoInts` (go_ints.dfy): Go's `uint64`/`int64` conversions, wrapping `+ * <<`, and the shifts and masks, written over unbounded integers. It also holds the arithmetic facts the proofs use.
- `BigBytes` (big_bytes.dfy): `big.Int.Bytes()` as the minimal big-endian base-256 digits of a natural, plus the value of a byte string.
- `FixedPoint` (fixed_point.dfy): the multiplier, its limbs, the 4-byte words, and the 32.32 packing.
- `TickConverter` (tick_converter.dfy): `qpc_to_int_old` as written, and a corrected variant (see Findings). Each has a closed form and lemmas relating it to the exact time `qpcv · 1e9 / qpf`.
- `Calibration` (calibration.dfy): the package variables as the class `QpcCalibration`, with `Init`, the two loops of `init`, and `UnixNanoseconds`.

Inputs from the operating system become parameters:

- The frequency query and the counter query are each a `Syscall` value (`Failed` or `Returned(v)`).
- The epoch offset is given to `Init` as a value, because the source computes it in floating point.
- There are no clocks, I/O or randomness anywhere in the model.

Facts about the source that the model records:

- The conversion wraps silently past 2^63. Nothing in the code detects the overflow.
- The epoch offset is computed in floating point (time/time_windows.go:107), not with the fixed-point converter.
- The comment at time/time_windows.go:155 says dropping `c0w0` affects at most half a bit of the result. In fact it can move the rounded result by one nanosecond, and the total error can reach almost 2 ns (see Findings and `TickConverter.OldMissesTwoNanoseconds`).
- The doc comments at time/time_windows.go:124 and time/time.go:35 say `nanoseconds()` returns nanoseconds since startup. The code converts the raw counter value instead. `startQPC` is read only by the floating-point epoch-offset computation at time/time_windows.go:107. No conversion subtracts it, so `nanoseconds()` counts from counter zero, not from startup.

## Model

| member | source | states |
|---|---|---|
| `BigBytes.Bytes` | time/time_windows.go:77 | `res.Bytes()` is empty exactly when res = 0 and never starts with a zero byte |
| `BigBytes.ValueOfBytes` | time/time_windows.go:77 | the big-endian value of `res.Bytes()` is res |
| `BigBytes.BytesLength` | time/time_windows.go:77-80 | `res.Bytes()` has at most k bytes exactly when res < 256^k |
| `BigBytes.ValueAppend` | time/time_windows.go:81-88 | the value of a concatenation is the left value shifted by the right length plus the right value |
| `BigBytes.PrependZero` | time/time_windows.go:82 | prepending a zero byte to `resBytes` does not change its value |
| `FixedPoint.Multiplier` | time/time_windows.go:67-74 | res · qpf <= 1e9 · 2^64 < (res + 1) · qpf, i.e. res = floor(1e9 · 2^64 / qpf) |
| `FixedPoint.MultiplierInRange` | time/time_windows.go:77-80 | for every qpf >= 1, res <= 1e9 · 2^64 < 2^96 and `res.Bytes()` has at most 12 bytes, so the "QPF value out of range" panic is unreachable |
| `FixedPoint.LimbsOf` | time/time_windows.go:85-88 | the limbs of a 96-bit res are each below 2^32 and A · 2^64 + B · 2^32 + C = res |
| `FixedPoint.LimbsUnique` | time/time_windows.go:85-88 | limbs below 2^32 are determined by the value they stand for |
| `FixedPoint.CalibratedLimbs` | time/time_windows.go:67-88 | for qpf > 0, the stored limbs are valid and stand for floor(1e9 · 2^64 / qpf) |
| `FixedPoint.Word32` | time/time_windows.go:86-87 | the shift-or of four bytes is a uint32 equal to their big-endian value |
| `FixedPoint.TwelveBytes` | time/time_windows.go:85-88 | the value of 12 bytes is word0 · 2^64 + word1 · 2^32 + word2 |
| `FixedPoint.Fixed32x32` | time/time_windows.go:91 | `nsPerQPCfp` fits in a uint64 and equals floor(res / 2^32) |
| `FixedPoint.MultiplierWhenQpfDivides` | time/time_windows.go:67-88 | when qpf divides 1e9 (10 MHz, say) the limbs are (1e9 / qpf, 0, 0) |
| `Calibration.PadBytes` | time/time_windows.go:81-83 | the padding loop ends with exactly 12 bytes: zero bytes, then the original bytes, with the same value |
| `Calibration.QpcCalibration.StoreLimbs` | time/time_windows.go:85-88 | the limb loop writes big-endian word k to `nsPerQPCv[k]` and nothing else; the limbs recombine to the bytes' value |
| `Calibration.QpcCalibration.constructor` | time/time_windows.go:33-43 | before `init`, every package variable holds Go's zero value |
| `Calibration.QpcCalibration.Init` | time/time_windows.go:54-108 | panics exactly when a query fails and never with "out of range". On success its state is: limbs = limbs of floor(1e9 · 2^64 / qpf), nsPerQPCfp = A · 2^32 + B = floor(res / 2^32), startQPC = the counter read, and the given epoch offset. A failed frequency query changes nothing |
| `Calibration.QpcCalibration.UnixNanoseconds` | time/time_windows.go:179-181 | the int64 sum of the reading and the epoch offset, congruent to it mod 2^64 and equal to it when it fits |
| `Calibration.QpcCalibration.WallClockMonotone` | time/time_windows.go:150-181 | over `qpc_to_int_old`, the wall clock never goes backwards for increasing counters and advances exactly as much as the converted counter, while nothing wraps |
| `TickConverter.QpcToIntOld` | time/time_windows.go:150-168 | the conversion of any int64 counter is an int64 |
| `TickConverter.OldClosedForm` | time/time_windows.go:152-168 | for 0 <= qpcv < 2^63: qpc_to_int_old(qpcv) = int64(floor((qpcv · res − lo · C + 2^63) / 2^64) mod 2^64), lo = qpcv mod 2^32 |
| `TickConverter.OldProductNearRounded` | time/time_windows.go:155 | dropping E·C costs at most one unit: the pre-wrap value is floor(qpcv · res / 2^64 + 1/2) or one less |
| `TickConverter.OldRounding` | time/time_windows.go:162-163 | without wrap-around, qpc_to_int_old(qpcv) is floor(qpcv · res / 2^64 + 1/2) or one less |
| `TickConverter.OldExactForIntegralMultiplier` | time/time_windows.go:155-163 | with B = C = 0 and no overflow, the result is exactly qpcv · A |
| `TickConverter.OldMonotone` | time/time_windows.go:150-168 | 0 <= q1 <= q2 with no wrap at q2 gives 0 <= qpc_to_int_old(q1) <= qpc_to_int_old(q2) |
| `TickConverter.OldVersusExactTime` | time/time_windows.go:150-168 | over the calibrated limbs, while the exact time fits an int64: qpcv · 1e9 / qpf − 2 < result <= qpcv · 1e9 / qpf + 1/2 |
| `TickConverter.OldOneSecond` | time/time_windows.go:150-168 | converting qpf ticks gives 1e9 ns or 1e9 − 1 ns, for every positive int64 qpf |
| `TickConverter.OldMissesOneSecond` | time/time_windows.go:155 | at qpf = 3.8e9, converting 3.8e9 ticks gives 999,999,999 ns |
| `TickConverter.OldMissesTwoNanoseconds` | time/time_windows.go:150-168 | at qpf = 4,490,128,603, the counter 8,148,685,264,215,080,785 converts to 1,814,799,972,270,433,604 ns, more than 1 ns and less than 2 ns below the exact time |
| `TickConverter.ThreeGigahertzOneSecond` | time/time_windows.go:150-168 | at qpf = 3e9, converting 3e9 ticks gives exactly 1e9 ns |
| `TickConverter.TenMegahertzScenario` | time/time_windows.go:150-168 | at 10 MHz, 123,456,789 ticks are 12,345,678,900 ns |
| `TickConverter.QpcToIntRounded` | time/time_windows.go:155-163 | the corrected conversion of any int64 counter is an int64 |
| `TickConverter.RoundedClosedForm` | time/time_windows.go:155-163 | corrected: result = int64(floor((qpcv · res + 2^63) / 2^64) mod 2^64) |
| `TickConverter.RoundedRounding` | time/time_windows.go:155-163 | corrected, without wrap-around: exactly floor(qpcv · res / 2^64 + 1/2) |
| `TickConverter.RoundedMonotone` | time/time_windows.go:155-163 | the corrected conversion never decreases while it does not wrap |
| `TickConverter.RoundedProductVersusExactTime` | time/time_windows.go:67-74 | floor(qpcv · res / 2^64 + 1/2) lies in (qpcv · 1e9 / qpf − 1, qpcv · 1e9 / qpf + 1/2] |
| `TickConverter.RoundedVersusExactTime` | time/time_windows.go:155-163 | corrected, while the exact time fits an int64: within one nanosecond of qpcv · 1e9 / qpf |
| `TickConverter.RoundedOneSecondExact` | time/time_windows.go:155-163 | corrected: converting qpf ticks gives exactly 1e9 ns, for every positive int64 qpf |

## Left out

- The Win32 bindings (`kernel32`, `procQueryPerformanceCounter`, `procQueryPerformanceFrequency`, `qpc()`, `qpf()`): foreign calls. Each query is a `Syscall` input, and a failed call is the `Panicked` outcome.
- `nmul`, `qpc_to_int`, `nanoseconds_int`, `nanoseconds` and the assembly helpers of cmd/check/check.go: the assembly bodies are not part of this model. Only the construction of their argument `nsPerQPCfp` is modelled (`Fixed32x32`). `UnixNanoseconds` takes the nanosecond reading as a parameter.
- Floating point: `nsPerQPC`, `nanoseconds_float`, the float/int comparison test, and the float computation of `unixEpochOffsetNs`. The offset is an input of `Init`.
- `startTime = stdtime.Now()`: a wall-clock read. It only feeds the epoch offset, which is an input.
- `runtimeNano`/`runtimeNow`: `go:linkname` hooks into the Go runtime.
- The facade in time/time.go, time/time_other.go, time/doc.go, and the benchmarks and real-clock tests: they wrap the standard library or depend on live hardware timing.
- Calibration.QpcCalibration.Init: requires a positive int64 frequency (and int64 counter and offset values). The source assumes a positive frequency (the comment at time/time_windows.go:71) but never checks it. A zero frequency would make `big.Int.Div` panic. `big.Int.Div` is Euclidean, so a negative frequency gives res = -floor(1e9 · 2^64 / |qpf|). `res.Bytes()` drops the sign, so the limbs and `nsPerQPCfp` would be those of |qpf|, while the float `nsPerQPC` would be negative, so time/time_windows.go:107 would add the converted start counter to the wall-clock reading instead of subtracting it.
- Calibration.QpcCalibration.Init: a failed counter query is assumed to leave `startQPC` as it was. The source passes `&startQPC` itself to the syscall (time/time_windows.go:100), so what a failed call leaves there is up to Windows. It does not matter, because `init` panics right after.
- TickConverter.QpcToIntOld: the function is defined for every int64 counter, but its lemmas cover only 0 <= qpcv < 2^63, where `counter >> 32` and the conversions to uint64 do not wrap.

## Findings

| source | as written | input that shows it | evidently intended | confidence | as-written member | corrected member |
|---|---|---|---|---|---|---|
| time/time_windows.go:155 | `c0w0 = E·C` is dropped, with the comment that at most half a bit is affected. But the dropped term can carry the half-unit rounding decision, so the result can be one nanosecond low | qpf = 3,800,000,000 and qpcv = 3,800,000,000 (exactly one second) convert to 999,999,999 ns | round qpcv · res / 2^64 to the nearest integer: add `c0w0 >> 32` into the rounding sum. That makes one second exact for every frequency and keeps the error under one nanosecond | high (proved about the model; not executed) | `TickConverter.OldMissesOneSecond` | `TickConverter.RoundedOneSecondExact` |
