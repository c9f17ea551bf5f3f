# random-rs in Dafny

A model of the core of `random-rs`, a dependency-free Rust randomness
library:

- the `Random` trait of `random-trait`, with its provided methods
  (`fill_bytes`, `get_u8` … `get_u128`, `get_usize`, `get_bool`);
- the `GenerateRand` rules that build typed values from a source:
  unsigned and signed integers, `bool`, `char`, `f32`, `f64`, arrays and
  tuples;
- `FastRng`, a PCG32 (XSH-RR, 64-bit state, 32-bit output) generator,
  in its three copies: `src/fast.rs`, `random-fast-rng` and `fast-rng`.

Every operation is a pure function from a source to an `Outcome`. An
`Outcome` is either `Done(value, rest)` — the value and the source after
the call — or `Panicked(why)`. The "source" is the `&mut self` a call
mutates. There are two kinds:

- `Stream(data, cursor)`: any user implementation of `try_fill_bytes`
  over a finite byte sequence. It fails once the bytes run out.
- `Fast(rng, arith)`: a `FastRng`, with the arithmetic its build uses.

Debug and release builds are told apart by `Build`. A plain Rust `+`
or `*` on `u64` panics on overflow in a debug build and wraps in a
release build; `wrapping_*` always wraps. `debug_assert!` panics only
in a debug build.

Modules:

- `Bits`: powers of two, shifts and bitwise operations on naturals,
  leading zeros, and little-endian packing.
- `Pcg32`: seeding, the LCG step, the XSH-RR output, and `try_fill_bytes`
  of the three copies.
- `Sources`: sources, outcomes, `try_fill_bytes` and `fill_bytes`.
- `Values`: the getters, the integer rules, `get_bool`, and the signed
  reinterpretation.
- `Chars`: `char::generate`, rejection sampling over `get_u32`.
- `Composite`: arrays and tuples.
- `Ieee754`: the binary32/binary64 bit layout (section 3.4 of IEEE
  754-2008), and the patterns that `exp2` / `exp2f` build.
- `UniformFloat`: Campbell's uniform float sampler as `f64::generate` and
  `f32::generate` implement it.

In four places the code does not do what its own text says. The model
follows the code, and each case is a finding below:

- `get_bool` is documented as returning a `bool` "with 50/50
  probability" (random-trait/src/lib.rs:162). It masks the top bit and
  compares the result with 1 (lines 165-167), so it never returns `true`.
- `seed` steps its state with `wrapping_mul` and `wrapping_add`
  (src/fast.rs:57), but the sum just before it is a plain `+` (line 55).
  The two plain crates use plain `*` and `+` in the step as well
  (random-fast-rng/src/lib.rs:52, fast-rng/src/lib.rs:35 and 41).
- The float tests expect every `f32` and `f64` to lie strictly between
  0 and 1 (src/fast.rs:178-180). The sampler reaches exponents below the
  normal range, where `exp2` either fails its `debug_assert!` or builds
  a pattern that is not 2^e.
- The `f32` panic message says five zero words were drawn
  (random-trait/src/lib.rs:274). The panic actually fires on the fourth
  zero word, because the exponent check comes before the fifth draw.
  `UniformFloat.ZeroRunPanics` states the true count;
  `UniformFloat.ClaimedZeros` holds the one the messages claim. The
  `f64` message's count of 16 is correct.

## Model

| member | source | states |
|---|---|---|
| Pcg32.Add | src/fast.rs:55 | `seed + init_inc` on `u64`: checked arithmetic panics exactly when the sum reaches 2^64 and otherwise gives the exact sum; wrapping gives the sum, less 2^64 when it reaches 2^64 |
| Pcg32.Mul | fast-rng/src/lib.rs:35 | a `u64` product: checked arithmetic panics exactly when the product reaches 2^64 and otherwise gives the exact product; any result is congruent to the product modulo 2^64 |
| Pcg32.Inc | src/fast.rs:54 | `(seq << 1) \| 1` is odd, and its upper 63 bits are the low 63 bits of `seq` |
| Pcg32.Lcg | src/fast.rs:57 | one LCG step is `state * MULTIPLIER + inc` modulo 2^64, and panics under checked arithmetic exactly when that overflows |
| Pcg32.Seed | src/fast.rs:53-59 | a seeded generator keeps `inc = Inc(seq)`, is valid, and has state `((seed + inc) * MULTIPLIER + inc) mod 2^64`. A release build never panics. A debug build of `random-rs` panics exactly when `seed + inc` overflows; a debug build of either plain crate panics exactly when `seed + inc >= 3`, because the step then overflows |
| Pcg32.SeedWith | random-fast-rng/src/lib.rs:48-54 | the seeding algorithm under any arithmetic gives the same state and increment. It panics exactly when a checked `seed + inc` overflows, or a checked step from the wrapped sum overflows, so it never panics when both operations wrap |
| Pcg32.XorShifted | src/fast.rs:65 | `(((old >> 18) ^ old) >> 27) as u32` is `(old >> 45) ^ (old >> 27)` modulo 2^32: the shift distributes over the exclusive OR |
| Pcg32.Rotation | src/fast.rs:66 | `old >> 59` is below 32 and is the top five bits of the state: `rot · 2^59 <= old < (rot + 1) · 2^59` |
| Pcg32.Output | src/fast.rs:65-67 | the XSH-RR output is the xorshifted old state rotated right by its top five bits |
| Pcg32.Step | src/fast.rs:57 | the `wrapping_mul(MULTIPLIER).wrapping_add(inc)` step is the LCG under wrapping arithmetic, agrees with a checked step whenever that one returns, and keeps `inc`, so a valid generator stays valid |
| Pcg32.OutputIsRotation | src/fast.rs:67 | `(x >> rot) \| (x << ((-rot) & 31))` is a right rotation of the 32-bit word by `rot`, and so stays below 2^32 |
| Pcg32.GenU32 | src/fast.rs:61-68 | `gen_u32` panics exactly when a checked step overflows; otherwise it returns the output of the OLD state and one step later, with `inc` unchanged |
| Pcg32.AdvanceKeepsInc | fast-rng/src/lib.rs:39-46 | stepping never changes the increment, so a valid generator stays valid after any number of steps |
| Pcg32.FillBytes | src/fast.rs:104-111 | with wrapping arithmetic a fill always succeeds. A fill of `n` bytes has length `n`, draws one word per started 4-byte chunk, and byte `i` is byte `i` of the little-endian word stream |
| Pcg32.FillBytesCheckedAgrees | random-fast-rng/src/lib.rs:78-85 | a checked fill that does not panic writes the same bytes and reaches the same state as a wrapping fill |
| Pcg32.FillBytesCheckedPanics | fast-rng/src/lib.rs:61-68 | a checked fill panics exactly when one of its `ceil(n/4)` steps overflows |
| Pcg32.OverflowWithinSome | fast-rng/src/lib.rs:41 | "some step among the next `k` overflows" holds exactly when step `j` overflows for some `j < k` |
| Pcg32.SeedMaxPanics | src/fast.rs:55 | `seed(u64::MAX, seq)` panics in a debug build of `random-rs` and succeeds in a release build |
| Pcg32.PlainDebugGeneratorPanics | random-fast-rng/src/lib.rs:56-63 | in a debug build of either plain crate, every generator that was seeded without a panic panics on its first `gen_u32` |
| Pcg32.SeedOneOneVector | src/fast.rs:53-68 | `seed(1, 1)` yields state 7009800821677620407 and increment 3, and its first `gen_u32` is 3380776849 |
| Pcg32.FirstWordOfSeedOneOne | src/fast.rs:65-67 | the output of the state 7009800821677620407 is 3380776849: xorshift 687414424 rotated right by 12 |
| Sources.TryFillBytes | random-trait/src/lib.rs:93 | a stream fills `n` bytes exactly when `n` bytes remain, and hands out the next `n` bytes, or reports an error and leaves the source as it was. A generator fill panics exactly on a checked overflow; otherwise it equals the PCG fill |
| Sources.FastSource | src/fast.rs:57 | a `FastRng` source of `random-rs` steps with wrapping arithmetic in every build; either plain crate (random-fast-rng/src/lib.rs:52, fast-rng/src/lib.rs:35) checks for overflow in a debug build and wraps in a release build |
| Sources.FastSourceFills | src/fast.rs:104-111 | a `random-rs` generator, or any generator in a release build, never fails a fill and ends `ceil(n/4)` steps on |
| Sources.FastFillPanics | src/fast.rs:104-111 | a generator's fill fails exactly when the arithmetic is checked and one of its steps overflows |
| Sources.FillBytes | random-trait/src/lib.rs:97-101 | `fill_bytes` returns exactly when `try_fill_bytes` returns `Ok`, and turns an error into the "Failed getting randmness" panic. On a stream it returns the next `n` bytes exactly when they exist |
| Sources.StreamFillsConsecutive | src/lib.rs:15-19 | two fills in a row read two adjacent segments of a stream, which together make the one longer fill |
| Values.GetLittleEndian | random-trait/src/lib.rs:116-134 | `get_u16`/`get_u32`/`get_u64` return exactly when `fill_bytes` does, with its bytes read little-endian; on a stream, the next `n` bytes |
| Values.GetU8 | random-trait/src/lib.rs:109-113 | `get_u8` returns the single byte `fill_bytes` writes (the next stream byte) and panics when the fill does |
| Values.GetU32 | src/fast.rs:112-114 | `get_u32` is below 2^32. A generator's override panics exactly on a checked overflow and otherwise returns its next output; on a stream it is the provided four-byte read |
| Values.GetU32OverrideAgrees | fast-rng/src/lib.rs:69-71 | a generator's `get_u32` override returns what the provided `get_u32` over `fill_bytes` would: the same word and the same next state |
| Values.FourBytesOfWord | random-fast-rng/src/lib.rs:79-83 | a four-byte generator fill is the little-endian bytes of the next output |
| Values.GenerateUnsigned | random-trait/src/lib.rs:171-212 | `u8` … `u128` and `usize` are below 2^(8·width) and read the next `width` bytes of a stream little-endian |
| Values.TopBit | random-trait/src/lib.rs:165 | `b & 0b1000_0000` is 0x80 when the top bit of `b` is set and 0 otherwise, never 1 |
| Values.ToSigned | random-trait/src/lib.rs:316 | `u as iN` lands in `[-2^(N-1), 2^(N-1))` and is congruent to `u` modulo 2^N |
| Values.FromSigned | random-trait/src/lib.rs:308-316 | `v as uN` lands in `[0, 2^N)`, is congruent to `v` modulo 2^N, and leaves a value already in that range unchanged |
| Values.SignedRoundTrip | random-trait/src/lib.rs:308-328 | the signed reinterpretation and its inverse `v as uN` are mutual inverses on their ranges |
| Values.GenerateSigned | random-trait/src/lib.rs:310-320 | `i8` … `i128` and `isize` return exactly when the unsigned rule of the same width does, with its value reinterpreted as signed and the same bytes consumed |
| Values.GetBool | random-trait/src/lib.rs:162-168 | `get_bool` as written never returns `true`. A debug build panics exactly when the byte's top bit is set; a release build returns `false` |
| Values.GetBoolFixed | random-trait/src/lib.rs:162-168 | the intended `get_bool`: `true` exactly when the top bit of the next byte is set, consuming one byte |
| Values.GetBoolNeverTrue | random-trait/src/lib.rs:165-167 | on the byte `0x80`, release `get_bool` returns `false` and debug panics, while the corrected rule returns `true` (and `false` on `0x7F`) |
| Values.CountingSourceExample | random-trait/src/lib.rs:59-84 | on a counting byte source the first two `u32`s are 50462976 and 117835012 |
| Values.ConsecutiveGetters | src/lib.rs:31-47 | a `u16`, `u32` and `u64` drawn in turn read adjacent little-endian segments of the stream |
| Chars.CharLoop | random-trait/src/lib.rs:217-221 | the retry loop only ever returns a Unicode scalar value |
| Chars.GenerateChar | random-trait/src/lib.rs:214-223 | `char::generate` only returns scalar values (no surrogates, nothing above U+10FFFF) |
| Chars.CharStep | random-trait/src/lib.rs:218 | one draw on a stream: fail when fewer than four bytes remain; accept the next word if it is a scalar value; otherwise retry four bytes on |
| Chars.CharSkipsRejected | random-trait/src/lib.rs:217-221 | after `k` rejected words, a scalar-valued word `k` is returned, and exactly `4(k+1)` bytes are consumed |
| Chars.CharDrawIndex | random-trait/src/lib.rs:217-221 | conversely, any returned `char` is the first scalar-valued word, preceded only by rejected words |
| Chars.CharFuelMonotone | random-trait/src/lib.rs:217-221 | the draw bound never changes a result that was reached |
| Composite.GenerateArray | random-trait/src/lib.rs:331-350 | `[T; n]` with `n <= 128` makes `n` element calls in a row, returns exactly when all of them do, and `[T; 0]` draws nothing |
| Composite.ArrayElementOrder | random-trait/src/lib.rs:336 | element `i` of a generated array is the `(i+1)`-th element call |
| Composite.ByteArrayFromStream | random-trait/src/lib.rs:331-350 | a `[u8; n]` drawn from a stream is the next `n` bytes, in order |
| Composite.PairLikeArray | random-trait/src/lib.rs:357-361 | a pair of one type is drawn exactly like a two-element array |
| Composite.TripleLikeArray | random-trait/src/lib.rs:367-370 | a triple of one type is drawn exactly like a three-element array |
| Composite.UnsignedRuleReads | random-trait/src/lib.rs:171-212 | each integer rule, used as a tuple component, reads the next `Bytes(w)` bytes of a stream little-endian or fails when fewer remain |
| Composite.MixedPairFromStream | random-trait/src/lib.rs:357-361 | a pair of components of possibly different widths takes the first component from the next bytes and the second from the bytes after them, and fails exactly when the stream is too short for both |
| Composite.MixedTripleFromStream | random-trait/src/lib.rs:357-370 | a triple of such components reads three adjacent segments of the stream, left to right, and fails exactly when the stream is too short for all three |
| Composite.ByteWordPairFromStream | random-trait/src/lib.rs:360 | `(u8, u32)` from a stream is the next byte, then the four bytes after it as a little-endian word, and leaves the cursor five bytes on |
| Ieee754.WrapI32 | random-trait/src/lib.rs:304 | an `i32` sum that wraps lands in the `i32` range and is congruent to the true sum modulo 2^32 |
| Ieee754.Exp2Bits | random-trait/src/lib.rs:297-306 | the pattern `((bias + e) as uN) << fraction_bits` fits the format's width |
| Ieee754.Exp2BitsForm | random-trait/src/lib.rs:299 | that pattern is `((bias + e) mod 2^(E+1)) · 2^F`: the `as` cast wraps and the shift drops the bits above the sign |
| Ieee754.Exp2ExactIff | random-trait/src/lib.rs:302-306 | the pattern encodes 2^e exactly when `-bias < e <= bias` |
| Ieee754.Exp2AtMinusBias | random-trait/src/lib.rs:304 | at `e = -bias` the pattern is 0, the encoding of +0.0 |
| Ieee754.Exp2BelowRangeNegative | random-trait/src/lib.rs:304 | for `e` just below `-bias` the pattern has its sign bit set |
| Ieee754.Exp2 | random-trait/src/lib.rs:297-306 | `exp2`/`exp2f` as written: debug panics exactly when `e <= -bias` (or `bias + e` overflows `i32`); release always returns the pattern; the result is 2^e exactly when `-bias < e <= bias` |
| Ieee754.Exp2Fixed | random-trait/src/lib.rs:302-306 | the corrected `exp2` encodes 2^e exactly for every `e` from the least subnormal exponent to `bias` |
| Ieee754.SubnormalPowerOfTwo | random-trait/src/lib.rs:302-306 | below the normal range, 2^e is the subnormal with a single fraction bit |
| UniformFloat.DrawWord | random-trait/src/lib.rs:237 | a drawn word has `W` bits: below 2^64 for `f64` (`get_u64`), below 2^32 for `f32` (`get_u32`) |
| UniformFloat.ZeroBudget | random-trait/src/lib.rs:240 | the exponent after `k` zero words stays at or above the least subnormal exponent exactly when `k <= 15` (f64) or `k <= 3` (f32) |
| UniformFloat.SkipZeros | random-trait/src/lib.rs:238-246 | the zero loop returns a non-zero word with an exponent between the least subnormal exponent and its start, lower than the start by a multiple of `W` |
| UniformFloat.LoopExponentFloor | random-trait/src/lib.rs:238-246 | an exponent the loop can return, a multiple of `W` below `-W` and not below the least subnormal exponent, is at least `-W(MaxZeros + 1)`: −1024 for `f64`, −128 for `f32` |
| UniformFloat.ZeroRunPanics | random-trait/src/lib.rs:267-278 | after 16 zero `u64`s, or only 4 zero `u32`s, the loop panics with the broken-randomness message; the claimed count is right for `f64` only |
| UniformFloat.ZeroRunExit | random-trait/src/lib.rs:238-246 | after `k` zero words within the budget and then a non-zero word, the loop returns that word at exponent `-W(k+1)` and stops right after it |
| UniformFloat.ZeroLoopCases | random-trait/src/lib.rs:238-246 | the loop panics exactly when the first `MaxZeros + 1` words are all zero; otherwise it returns the first non-zero word |
| Bits.LeadingZeros | random-trait/src/lib.rs:249 | `leading_zeros` of an `n`-bit word is at most `n`, is `n` exactly for 0, and otherwise shifts the highest set bit to bit `n - 1` |
| UniformFloat.ShiftIn | random-trait/src/lib.rs:252-253 | `(sig << shift) \| (next >> (W - shift))` is the `W`-bit window of the two-word concatenation starting at the leading one, so its top bit is set |
| UniformFloat.ShiftInFacts | random-trait/src/lib.rs:250-253 | shifting out the leading zeros and filling them from the next word is the top `W` bits of the two-word concatenation, with the top bit set |
| UniformFloat.Normalised | random-trait/src/lib.rs:248-256 | normalising gives an odd significand with its top bit set, at most one above the concatenation window, with the exponent lowered by the shift |
| UniformFloat.Finish | random-trait/src/lib.rs:280-288 | the step after the loop draws one more word exactly when there are leading zeros, and sets the sticky bit |
| UniformFloat.Sampler | random-trait/src/lib.rs:234-256 | a sample has an odd `W`-bit significand with its top bit set and an exponent in `[LeastExponent, -W]` (−1087 to −64 for `f64`, −159 to −32 for `f32`), so its value lies strictly between 0 and 1 |
| UniformFloat.SampleWords | random-trait/src/lib.rs:236-256 | which words a sample consumes and what it yields after `k` zero words and a non-zero one, with and without a refill |
| UniformFloat.GenerateSample | random-trait/src/lib.rs:265-288 | `f64`/`f32` up to the scaling draws through `get_u64`/`get_u32`, and a sample it returns has an odd significand with its top bit set and an exponent from `LeastExponent` to `-W` |
| UniformFloat.TopBitWordSample | random-trait/src/lib.rs:236-256 | on a stream whose next word has its top bit set, the sample reads just that word: the significand is the word with bit 0 set, the exponent is `-W`, and the cursor moves one word on |
| UniformFloat.DeepestSample | random-trait/src/lib.rs:236-256 | `MaxZeros` zero words and then the word 1 give a sample at exactly `LeastExponent`, so the sampler's lower bound is reached |
| UniformFloat.Scale | random-trait/src/lib.rs:259 | scaling by `exp2` as written: debug panics exactly when the exponent is `<= -bias`, and the scale is exactly 2^exponent exactly when the exponent is above `-bias` |
| UniformFloat.ScaleFixed | random-trait/src/lib.rs:291 | the corrected scaling returns whenever the sampler does, with an exact 2^exponent down to the least subnormal exponent |
| UniformFloat.GenerateFloat | random-trait/src/lib.rs:234-261 | `f64::generate` as written keeps the sample's significand; a debug result is exactly scaled; a release build returns exactly when the sampler does |
| UniformFloat.GenerateFloatFixed | random-trait/src/lib.rs:265-293 | the corrected `f32`/`f64::generate` returns exactly when the sampler does and scales by exactly 2^exponent down to the least subnormal exponent |
| UniformFloat.DeepZeroRunMisscales | random-trait/src/lib.rs:236-259 | after `MaxZeros` zero words and any non-zero word, debug panics in `exp2`, and release scales by 0.0 or by a negative value |
| UniformFloat.EdgeRunMisscales | random-trait/src/lib.rs:267-291 | after `MaxZeros - 1` zero words and then the word 1, the exponent is exactly `-bias`: debug panics and release scales by 0.0 |

## Left out

- Thread-local generators (`src/fast.rs:71-90` and `117-156`, `random-fast-rng/src/thread.rs`): raw-pointer aliasing around thread-local storage, not generator logic.
- `FastRng::new` and `time_seed`: they read the wall clock. Only `seed(seed, seq)` is modelled.
- `build.rs`: it probes the compiler version.
- The float conversion and product (`significand as f64 * exp2(e)`): floating-point rounding is not modelled. A float draw yields the exact integer significand and the scale's bit pattern. So the `0 < f < 1` tests are not stated; rounding a significand near 2^64 can give exactly 1.0.
- UniformFloat.Sampler: the "strictly between 0 and 1" property is stated through the significand and exponent bounds, not as a real number.
- UniformFloat.ScaleFixed: below the least subnormal exponent (−1087 to −1075 for `f64`, −159 to −150 for `f32`, reachable only through the refill shift after the last tolerated zero word) the corrected scale is 0. The true value there would need a two-step scaling.
- UniformFloat.GenerateFloatFixed: for the same exponents (−1087 to −1075 for `f64`, −159 to −150 for `f32`) it scales by +0.0 through UniformFloat.ScaleFixed, so an exact 2^exponent is promised only from the least subnormal exponent up.
- The statistical tests asserting non-zero outputs cannot be stated about a deterministic model.
- `get_usize` and `isize` use 64-bit pointers only. `u128`/`i128` are always included, ignoring the `u128` feature flag.
- `gen::<T>()` only dispatches to `T::generate`. The model calls the generate rules directly.
- Tuples of arity 1 and 4 to 16 follow the same left-to-right rule as the pair and triple that are modelled.
- Chars.GenerateChar: the source's loop is unbounded. A `fuel` bound on the number of draws stands in for it; running out is the model's own `OutOfFuel` and never happens in the source.
- Byte order is little-endian. `mem::transmute` of a byte array is native-endian, so big-endian targets are not modelled.
- The `i32` exponent arithmetic of the float loop never leaves `i32` range, so it is modelled with unbounded integers. Its least value is −1088 for `f64` (−160 for `f32`), reached at the check just before the panic; the least exponent a sample returns is −1087 (−159).
- Values.GetBool, UniformFloat.Scale and UniformFloat.GenerateFloat: the build that decides their `debug_assert!` is a parameter of its own, independent of the arithmetic the source carries. Callers are expected to pass the build the source was made for, as Sources.FastSource does. A compiled program never mixes them: one build decides both the checks and the arithmetic.
- Determinism (same seed, same values) holds by construction, because every operation is a function of the source.
- The `Error` enum of `src/lib.rs` and the trait's `Error` type appear only as the failure of `TryFillBytes`.
- Sources other than a finite byte stream or a `FastRng` are not modelled.
- The `debug_assert_eq!` on sizes in the signed rules always holds for the listed type pairs.
- Composite.GeneratePair and Composite.GenerateTriple carry no contract of their own. For components of one type their meaning is stated by Composite.PairLikeArray and Composite.TripleLikeArray. For components of different types it is stated by Composite.MixedPairFromStream and Composite.MixedTripleFromStream when each component reads a fixed number of stream bytes (the integer rules). For other mixed components, such as `bool` next to `char`, only the functions' bodies state the left-to-right order.

## Findings

| source | as written | input that shows it | evidently intended | confidence | as-written member | corrected member |
|---|---|---|---|---|---|---|
| random-trait/src/lib.rs:165-167 | `get_u8() & 0b1000_0000` is 0 or 128, so `== 1` is never true, and `debug_assert!(bit < 2)` fails whenever the bit is set | the byte `0x80`: release returns `false`, debug panics | `true` exactly when the top bit is set | high (not executed) | Values.GetBoolNeverTrue | Values.GetBoolFixed |
| random-fast-rng/src/lib.rs:52 | the LCG uses plain `*` and `+` (also `fast-rng/src/lib.rs:35`, `41`) | any seed: in a debug build, `seed + inc >= 3` already panics in `seed`, and any generator that survives panics on its first `gen_u32` | `wrapping_mul` / `wrapping_add` as in `src/fast.rs:57` | high (not executed) | Pcg32.PlainDebugGeneratorPanics | Pcg32.SeedWith |
| src/fast.rs:55 | `seed + init_inc` is a plain `+` | `seed(u64::MAX, 0)` in a debug build | `wrapping_add` like the step on line 57 | high (not executed) | Pcg32.SeedMaxPanics | Pcg32.SeedWith |
| random-trait/src/lib.rs:302-306 | `exp2` handles only normal exponents, but the sampler reaches exponents down to the least subnormal and below | 15 zero `u64`s then any non-zero word; or 14 zero `u64`s then the word 1 (exponent −1023): debug panics, release scales by 0.0 or by a negative value | scaling by 2^e down to the subnormals | medium (not executed) | UniformFloat.DeepZeroRunMisscales | UniformFloat.GenerateFloatFixed |
