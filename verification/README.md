# CIC filter in Dafny

A model of a cascaded integrator-comb (CIC) filter library in C. A filter
has N stages, a differential delay M of 1 or 2, and a rate change factor R.
Its delay line holds N integrator accumulators followed by N*M comb delay
slots. The library offers three operations:

- `cic_filter_init` clears the record, obtains and zeroes the delay line and
  stores the parameters. When asked to normalise, it also precomputes the
  two gain divisors (R*M)^N and (R*M)^N / R.
- `cic_filter_decimate` integrates a block in place and keeps every R-th
  sample, with the phase carried from one call to the next. It then runs the
  kept samples through the combs and optionally divides them by the
  decimation gain.
- `cic_filter_interpolate` first checks that the buffer can hold R outputs
  per input. It then runs the block through the combs and stuffs R-1 zeros
  after each sample, back to front in the same buffer. Finally it integrates
  the expanded block and optionally divides by the interpolation gain.

Modules:

- `Arith`: sums, powers, C's truncating division (`TruncDiv`), the
  `mpos ^= M-1` toggle (`XorBit`) and small arithmetic facts.
- `State`: the `Filter` record (`struct cic_filter`), its invariant `Valid`,
  and the two gains.
- `Integrator`: the integrator cascade (`cic_integrate`).
- `Comb`: the comb cascade with its per-sample tap toggle (`cic_comb`).
- `RateChange`: strided decimation (`cic_rate_down`) and zero-stuffing
  expansion (`cic_rate_up`).
- `Gain`: the squaring power loop (`cic_pow`) and normalisation
  (`cic_normalize`).
- `CicFilter`: initialisation, decimation and interpolation.

Every in-place C loop has two Dafny counterparts:

- a method that updates a local copy of the buffer and the filter record
  exactly as the C loop does;
- a pure reference function over whole blocks (`Run`, `Picks`, `Stuffed`,
  `Normalized`, `Decimated`, `Interpolated`).

The method's contract states that it computes the reference function. The
reference functions have their own lemmas:

- closed forms;
- invariance under splitting a stream into blocks, which is what the
  library's callers rely on when they feed a long signal block by block;
- equivalence of strided decimation with a per-sample countdown;
- for R = M = 1, the filter passing its input through unchanged.

Samples are mathematical integers and sizes are naturals. In-place updates
of the caller's buffer become a returned sequence: the method returns the
new buffer and the new filter record.

## Model

| member | source | states |
|---|---|---|
| Integrator.IntegrateInPlace | cic_filter.c:17-31 | The N accumulators and the first len samples become what the stage-by-stage running sums give; each output is the input plus the accumulated values. The last accumulator equals the last output. The comb slots, the samples past len and the other fields are unchanged. |
| Integrator.Cascade | cic_filter.c:24-29 | For one sample, stage s ends holding x plus the first s+1 old accumulators, and the output is x plus all of them. |
| Integrator.RunConcat | cic_filter.c:17-31 | Integrating a+b gives the same accumulators and outputs as integrating a, then b from the accumulators a left. |
| Comb.CombInPlace | cic_filter.c:40-62 | The comb slots, tap position and first len samples become the per-sample comb run. The integrator slots, samples past len and other fields are unchanged. The final tap position is 0 or M-1: always 0 for M=1, and for M=2 flipped exactly when len is odd. |
| Comb.SampleInPlace | cic_filter.c:52-58 | The stride-M walk over the comb region from the active slot computes the per-stage sample step. |
| Comb.SampleClosedForm | cic_filter.c:53-57 | One sample writes only the active slot s*M+mpos of each stage, leaving every other slot as it was. Stage s's active slot receives x minus the first s old active taps, and the output is x minus all N of them. |
| Comb.SampleDelayOne | cic_filter.c:53-57 | With M = 1, slot k receives x minus the first k old taps and the output is x minus their sum. |
| Comb.Toggle | cic_filter.c:44-59 | The tap toggle keeps the position below M: identity for M=1, and 0 and 1 swap for M=2. |
| Comb.RunTapParity | cic_filter.c:59-61 | After a block the tap position is 0 when M=1; when M=2 it is the starting position XOR the parity of the block length. |
| Comb.RunConcat | cic_filter.c:40-62 | Combing a+b equals combing a, then b from the slots and tap position a left. |
| RateChange.RateDownInPlace | cic_filter.c:72-86 | The number kept is the count of stride points cnt, cnt+R, ... below len, at most len and at most len/R+1, and it is 0 exactly when cnt >= len. Output k is the input at cnt+k*R. Slots from the count on are untouched. The new phase is cnt + count*R - len, and it stays below R. |
| RateChange.Compact | cic_filter.c:77-83 | The read/write loop moves the stride samples to the front in order, and the read index stops at the first stride point at or past len. |
| RateChange.StrideBound | test/cic_test.c:129 | A block of len samples yields at most len/R + 1 outputs, whatever the phase. |
| RateChange.PicksAt | cic_filter.c:79-81 | The k-th kept sample is the one at cnt + k*R, which lies below len. |
| RateChange.PicksConcat | cic_filter.c:79-83 | Decimating a+b keeps the same samples and ends in the same phase as decimating a, then b from the phase a left. |
| RateChange.StrideIsCountdown | cic_filter.c:72-86 | The strided block algorithm and its carried phase equal a per-sample countdown that keeps a sample at 0 and restarts at R-1, for every block and every starting phase. |
| RateChange.RateUpInPlace | cic_filter.c:99-118 | If the buffer length is below len*R, the result is 0 and the buffer is unchanged. Otherwise the result is len*R, the front holds each input sample followed by R-1 zeros, and slots past len*R are untouched. |
| RateChange.StuffedIndex | cic_filter.c:108-115 | Output i of the expansion is input i/R when R divides i, and 0 otherwise. |
| RateChange.StuffedAt | cic_filter.c:110-113 | Sample k lands at k*R, and the R-1 slots after it are 0. |
| RateChange.StuffedConcat | cic_filter.c:99-118 | Expanding a+b is expanding a followed by expanding b. |
| Gain.PowLoop | cic_filter.c:127-140 | The squaring loop returns base to the power exp by repeated multiplication; exp = 0 gives 1. |
| Gain.NormalizeInPlace | cic_filter.c:149-153 | Each of the first len samples becomes its quotient by the divisor, truncated toward zero; later samples are untouched. |
| Gain.NormalizedConcat | cic_filter.c:149-153 | Normalising a+b is normalising a, then b. |
| Gain.DivideExact | cic_filter.c:152 | Dividing a multiple v*d by d gives back v, of either sign. |
| Gain.DivideOdd | cic_filter.c:152 | Truncating division is odd in the dividend: -a/d is -(a/d). |
| Gain.DivideExample | cic_filter.c:152 | -7/2 and 7/-2 are both -3 under C division. |
| Arith.TruncDiv | cic_filter.c:152 | The quotient of C division, truncated toward zero: its remainder has the dividend's sign and is smaller than the divisor in magnitude. |
| State.GainFacts | cic_filter.h:6-8 | Under a valid configuration both gains are at least 1. The decimation gain (R*M)^N is exactly R times the interpolation gain (R*M)^N / R, which equals M times (R*M)^(N-1). |
| State.GainExample | cic_filter.h:13-18 | R = 5, N = 4, M = 1 gives a decimation gain of 625 and an interpolation gain of 125. |
| State.ValidLayout | cic_filter.h:43-57 | The `Filter` record mirrors `struct cic_filter`, and `Valid` is the invariant every operation keeps. Under it the delay line splits into exactly N accumulators and N*M comb slots, the tap position is below M, and when normalising both divisors are at least 1 with the decimation divisor R times the interpolation divisor. |
| Integrator.CascadeInPlace | cic_filter.c:25-28 | The stage loop over one sample leaves the accumulators and the running sum that Cascade gives, and leaves every slot from N on unchanged. |
| Comb.CombLoop | cic_filter.c:50-60 | The sample loop with the tap position toggled after each sample yields the comb slots, tap position and outputs of Run; samples past len are untouched. |
| Comb.Stages | cic_filter.c:53-57 | The stage loop from stage k on writes only comb slots: every slot past N*M keeps its value, and the region keeps its length. |
| Comb.Sample | cic_filter.c:52-58 | One sample through all N comb stages with a fixed tap position writes only within the N*M comb slots. |
| Comb.Run | cic_filter.c:50-61 | Combing a block keeps the region's length, leaves slots past N*M alone, ends with a tap position below M, and yields one output per input. |
| RateChange.Stride | cic_filter.c:79-85 | The number of stride points cnt, cnt+R, ... below len is 0 exactly when cnt >= len, and otherwise at most len - cnt. |
| RateChange.NextPhase | cic_filter.c:83 | The carried phase is cnt - len when no point is kept, and below R whenever cnt was below len + R. |
| RateChange.Picks | cic_filter.c:79-81 | The kept samples number exactly Stride of the block and the phase. |
| RateChange.Stuffed | cic_filter.c:99-118 | Zero-stuffing a block gives exactly R outputs per input. |
| RateChange.WriteBlock | cic_filter.c:110-113 | Writing one block puts the sample at j and zeros in the R-1 slots after it, and leaves every slot below j and from j+R on unchanged. |
| Gain.Normalized | cic_filter.c:149-153 | Each output y of a sample x leaves a remainder x - y*d smaller than the divisor in magnitude and zero or of the sign of x, which is C division truncating toward zero; the length is kept. |
| CicFilter.NormalizeIf | cic_filter.c:205-206 | When normalising, the first len samples become their truncated quotients by the divisor; otherwise the buffer is unchanged. Samples past len are untouched either way. The same guard is at cic_filter.c:223-224. |
| Integrator.Run | cic_filter.c:23-30 | Integrating a block keeps the number of accumulators, gives one output per input, and for a non-empty block the last output equals the last stage's accumulator. |
| CicFilter.CombExpand | cic_filter.c:219-220 | The combs over the first len samples, then the expansion: the result is len*R, the comb region and tap position become those of the comb run, the front holds the comb outputs each followed by R-1 zeros, the integrator slots and other fields are unchanged, and slots past len*R are untouched. |
| CicFilter.InterpolateStages | cic_filter.c:219-226 | Past the space check, comb, expansion, integration and optional normalisation return len*R, leave slots past len*R untouched, and give the outputs and state of Interpolated. |
| CicFilter.FilterInit | cic_filter.c:155-188 | The status is 0 or -1, and -1 exactly when there is no delay line; then the record stays cleared, apart from the omitted `to_free` flag, which the C sets before it returns -1. On success the parameters are stored, mpos and cnt are 0, and the N+N*M delay slots are zeroed. When normalising the divisors are (R*M)^N and (R*M)^N / R; otherwise they are 0. A valid configuration yields a valid filter. |
| CicFilter.Decimated | cic_filter.c:198-209 | Decimating a block keeps the filter valid and leaves N, M, R and the divisors unchanged. The new phase is the carried stride phase, and the output count is the stride count. |
| CicFilter.Decimate | cic_filter.c:198-209 | The in-place decimator (integrate, compact, comb, optional normalise) returns the stride count, which is at most len and at most len/R+1. Its outputs and new state are those of Decimated, samples past len are untouched, and the filter stays valid. |
| CicFilter.Interpolated | cic_filter.c:211-227 | Interpolating a block keeps the filter valid, leaves the configuration and decimation phase unchanged, and gives exactly R outputs per input. |
| CicFilter.Interpolate | cic_filter.c:211-227 | If len*R exceeds the buffer length, the result is 0 and neither buffer nor filter changes. Otherwise the result is len*R, the outputs and new state are those of Interpolated, slots past len*R are untouched, and the filter stays valid. |
| CicFilter.DecimatedConcat | cic_filter.c:198-209 | Decimating a+b in one call equals two calls with the state carried over, for both the state and the outputs. |
| CicFilter.InterpolatedConcat | cic_filter.c:211-227 | Interpolating a+b in one call equals two calls with the state carried over, for both the state and the outputs. |
| CicFilter.DecimateIdentity | cic_filter.c:198-209 | With R = M = 1 and a mirrored delay line (comb tap k equals integrator accumulator N-1-k), decimation returns its input unchanged, normalised or not, and the line stays mirrored. |
| CicFilter.InterpolateIdentity | cic_filter.c:211-227 | With R = M = 1 and a mirrored delay line, interpolation returns its input unchanged and the line stays mirrored. |
| CicFilter.FreshIdentity | cic_filter.c:174 | A freshly zeroed filter with R = M = 1 passes any block through unchanged, in either direction. |
| CicFilter.DecimateRunIdentity | cic_filter.c:201-203 | With M = 1, integrating a block and then combing it from mirrored state restores the block and keeps the state mirrored. |
| CicFilter.InterpolateRunIdentity | cic_filter.c:219-221 | With M = 1, combing a block and then integrating it from mirrored state restores the block and keeps the state mirrored. |

## Left out

- Fixed-width arithmetic. `cic_t` is `int32_t` in the test configuration. The model uses unbounded integers. The header's note on register growth (cic_filter.h:6-19) bounds only the input, by max/Gmax, so that the outputs stay in range; it does not bound the integrator registers. Those grow without limit whenever the running sum drifts, for instance on the square wave of test/cic_test.c:113-135. The C code then relies on two's-complement wrap-around of `sum += delay[s]` (cic_filter.c:26) and `sum -= dv` (cic_filter.c:56). ISO C leaves signed `int32_t` overflow undefined, so that wrap-around is what typical compilers do, not what the language guarantees.
- Integrator.IntegrateInPlace: its accumulators, and the delay line in the state returned by CicFilter.Decimated, CicFilter.Decimate, CicFilter.Interpolated and CicFilter.Interpolate, agree with the C only modulo 2^32 on such streams. That the outputs still agree rests on a modular argument the model does not make.
- CicFilter.Interpolate: does not model the `size_t` wrap of `len * R` at cic_filter.c:102 and 215. When the product wraps, the capacity guard can pass and `cic_rate_up` writes past the end of `buf`; the all-or-nothing contract holds only for products without wrap-around.
- RateChange.RateUpInPlace: does not model the unsigned wrap of `j -= r` after the final block. The loop exits right after it, so the value is never used.
- Memory management. `cic_malloc`, `cic_filter_free`, the `to_free` flag and `errno` are left out. Allocation is the `DelaySource` parameter: a supplied buffer, or an allocation that succeeds or fails.
- CicFilter.FilterInit: zeroes only the first N + N*M slots of the delay line and drops the tail of a longer supplied buffer. It requires R >= 1 when normalising, because the C code would divide by zero at cic_filter.c:184. It also requires a supplied buffer to hold N + N*M slots, which cic_filter.h:63 and 69-70 demand of callers.
- CicFilter.Decimate: requires `Valid`, meaning N >= 1, M in {1, 2}, R >= 1 and a delay line of N + N*M slots. The header documents only M in {1, 2} (cic_filter.h:45, 67) and the delay length (cic_filter.h:63, 69-70); N >= 1 and R >= 1 are the configuration domain of a CIC filter with at least one stage and a rate change. The C code relies on R >= 1: with R = 0 the loop `for (i = cnt; i < len; i += r)` at cic_filter.c:79 never terminates once cnt < len and writes past the end of `buf` through `buf[j++]` at cic_filter.c:80 (undefined behaviour); initialisation sets cnt to 0, so this happens on every decimation of a non-empty block. The model's `Stride`, `NextPhase` and `Compact` terminate only under R >= 1. Slots between the output count and len hold integrator values, and the contract does not say which.
- CicFilter.Interpolate: requires `Valid` as well. The C code accepts N = 0, and R = 0 when not normalising; the model does not cover those configurations.
- Normalisation with a zero divisor is excluded by the `d != 0` requirement of Gain.NormalizeInPlace. The decimation divisor (R*M)^N is 0 when N >= 1 and R*M = 0. Computing the interpolation divisor with R = 0 divides by zero at cic_filter.c:184, and the interpolation divisor is 0 whenever (R*M)^N < R, for example when N = 0 and R >= 2. `Valid` excludes all of these, and State.ValidLayout states that both divisors are then at least 1.
- The caller-side checks of the test suite (square-wave edges and amplitude bounds) are not modelled. They depend on the filter's frequency response and on the int32 range.
