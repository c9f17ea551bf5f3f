/**
 * O'Neill's PCG XSH-RR 64/32 generator (`FastRng`), as it appears in three
 * crates of the repository.  The crates differ only in the arithmetic of
 * seeding and stepping: the `random-rs` copy steps with `wrapping_mul` /
 * `wrapping_add`, the `random-fast-rng` and `fast-rng` copies use plain `*`
 * and `+`, which Rust checks (and panics on overflow) in debug builds.
 */
module Pcg32 {
  import opened Bits

  /** PCG's default 64-bit LCG multiplier. */
  const MULTIPLIER: nat := 6364136223846793005

  /** The three copies of `FastRng`. */
  datatype Crate =
    | RandomRs       // src/fast.rs
    | RandomFastRng  // random-fast-rng/src/lib.rs
    | FastRngCrate   // fast-rng/src/lib.rs

  /** How one `u64` `+` or `*` behaves: wrapping, or panicking on overflow. */
  datatype Arith = Wrapping | Checked

  /** Plain `+` / `*` check for overflow in debug builds only. */
  function PlainArith(build: Build): Arith
  {
    if build == Debug then Checked else Wrapping
  }

  /** Arithmetic of `seed + init_inc` in `seed`: a plain `+` in every crate. */
  function SeedAddArith(crate: Crate, build: Build): Arith
  {
    PlainArith(build)
  }

  /** Arithmetic of the LCG step, in `seed` and in `gen_u32`. */
  function StepArith(crate: Crate, build: Build): Arith
  {
    if crate == RandomRs then Wrapping else PlainArith(build)
  }

  /** The generator state: `state` moves, `inc` is fixed at seeding. */
  datatype Rng = Rng(state: u64, inc: u64)

  /** A generator state as `seed` creates it and as stepping keeps it. */
  predicate Valid(rng: Rng)
  {
    rng.inc % 2 == 1
  }

  /** A `u64` sum: wrapping keeps the low 64 bits, a checked sum panics
      instead of wrapping.  A sum that returns is the exact sum when it
      fits and the sum less 2^64 when it wraps. */
  function Add(arith: Arith, a: u64, b: u64): (r: Option<u64>)
    ensures r.None? <==> arith == Checked && a + b >= TWO64
    ensures r.Some? && a + b < TWO64 ==> r.value == a + b
    ensures r.Some? && a + b >= TWO64 ==> r.value == a + b - TWO64
    ensures arith == Checked && r.Some? ==> r.value == a + b
  {
    if arith == Checked && a + b >= TWO64 then None else Some((a + b) % TWO64)
  }

  /** A `u64` product: wrapping keeps the low 64 bits, a checked product
      panics instead.  A product that returns differs from the exact one
      by a multiple of 2^64, and is exact under checked arithmetic. */
  function Mul(arith: Arith, a: u64, b: u64): (r: Option<u64>)
    ensures r.None? <==> arith == Checked && a * b >= TWO64
    ensures r.Some? ==> (a * b - r.value) % TWO64 == 0
    ensures arith == Checked && r.Some? ==> r.value == a * b
  {
    if arith == Checked && a * b >= TWO64 then None else Some((a * b) % TWO64)
  }

  /** `(seq << 1) | 1`: the increment, odd, keeping the low 63 bits of the
      sequence selector `seq` (its top bit is shifted out). */
  function Inc(sel: u64): (inc: u64)
    ensures inc % 2 == 1
    ensures inc / 2 == sel % TWO63
  {
    var shifted := (sel * 2) % TWO64;
    DivMod(sel * 2, TWO64, sel / TWO63, 2 * (sel % TWO63));
    OrOne(shifted);
    BitOr(shifted, 1)
  }

  /** One LCG step, `state * MULTIPLIER + inc`, under the given arithmetic. */
  function Lcg(arith: Arith, state: u64, inc: u64): (r: Option<u64>)
    ensures r.None? <==> arith == Checked && state * MULTIPLIER + inc >= TWO64
    ensures r.Some? ==> r.value == (state * MULTIPLIER + inc) % TWO64
  {
    match Mul(arith, state, MULTIPLIER)
    case None => None
    case Some(p) =>
      ModShift(state * MULTIPLIER + inc, -((state * MULTIPLIER) / TWO64), TWO64);
      Add(arith, p, inc)
  }

  /** The wrapping LCG step of `gen_u32`, the reference for every copy:
      it is what `Lcg` computes under wrapping arithmetic, what a checked
      step computes whenever it does not panic, and it keeps `inc`. */
  function Step(rng: Rng): (r: Rng)
    ensures Lcg(Wrapping, rng.state, rng.inc) == Some(r.state)
    ensures Lcg(Checked, rng.state, rng.inc).Some? ==> Lcg(Checked, rng.state, rng.inc) == Some(r.state)
    ensures r.inc == rng.inc && (Valid(rng) ==> Valid(r))
  {
    Rng((rng.state * MULTIPLIER + rng.inc) % TWO64, rng.inc)
  }

  /** `FastRng::seed(seed, seq)` of the given crate; `None` is an overflow panic. */
  function Seed(crate: Crate, build: Build, seed: u64, sel: u64): (r: Option<Rng>)
    ensures r.Some? ==> r.value.inc == Inc(sel) && Valid(r.value)
    ensures r.Some? ==> r.value.state == ((seed + Inc(sel)) * MULTIPLIER + Inc(sel)) % TWO64
    ensures build == Release ==> r.Some?
    ensures crate == RandomRs ==> (r.None? <==> build == Debug && seed + Inc(sel) >= TWO64)
    ensures crate != RandomRs ==> (r.None? <==> build == Debug && seed + Inc(sel) >= 3)
  {
    SeedWith(SeedAddArith(crate, build), StepArith(crate, build), seed, sel)
  }

  /** The seeding algorithm with the arithmetic of its `+` and of its LCG
      step as parameters. */
  function SeedWith(addArith: Arith, stepArith: Arith, seed: u64, sel: u64): (r: Option<Rng>)
    ensures r.Some? ==> r.value.inc == Inc(sel) && Valid(r.value)
    ensures r.Some? ==> r.value.state == ((seed + Inc(sel)) * MULTIPLIER + Inc(sel)) % TWO64
    ensures addArith == Wrapping && stepArith == Wrapping ==> r.Some?
    ensures r.None? <==>
      if addArith == Checked && seed + Inc(sel) >= TWO64 then true
      else stepArith == Checked && ((seed + Inc(sel)) % TWO64) * MULTIPLIER + Inc(sel) >= TWO64
  {
    var inc := Inc(sel);
    match Add(addArith, seed, inc)
    case None => None
    case Some(s0) =>
      assert s0 == (seed + inc) % TWO64;
      assert seed + inc == s0 + ((seed + inc) / TWO64) * TWO64;
      ModShift(s0 * MULTIPLIER + inc, ((seed + inc) / TWO64) * MULTIPLIER, TWO64);
      match Lcg(stepArith, s0, inc)
      case None => None
      case Some(s1) => Some(Rng(s1, inc))
  }

  /** The xorshift half of the output permutation:
      `(((prev >> 18) ^ prev) >> 27) as u32`. */
  function XorShifted(prev: u64): (xs: u32)
    ensures xs == BitXor(Shr(prev, 45), Shr(prev, 27)) % TWO32
  {
    ShrXor(Shr(prev, 18), prev, 27);
    ShrShr(prev, 18, 27);
    Shr(BitXor(Shr(prev, 18), prev), 27) % TWO32
  }

  /** The rotation amount `prev >> 59`: the top five bits of the state
      before the step. */
  function Rotation(prev: u64): (rot: nat)
    ensures rot < 32
    ensures rot * Pow2(59) <= prev < (rot + 1) * Pow2(59)
  {
    Pow2SixtyFour();
    ShrFits(prev, 59, 5);
    assert Pow2(5) == 32;
    DivModParts(prev, Pow2(59));
    Shr(prev, 59)
  }

  /** Rotating a 32-bit word right by `r`: the reference the output is checked against. */
  function RotateRight32(x: u32, r: nat): int
    requires r < 32
  {
    (x % Pow2(r)) * Pow2(32 - r) + x / Pow2(r)
  }

  /** The XSH-RR output of a state, `(xs >> rot) | (xs << ((-rot) & 31))`:
      the xorshifted old state rotated right by its top five bits. */
  function Output(prev: u64): (o: u32)
    ensures o == RotateRight32(XorShifted(prev), Rotation(prev))
  {
    var xs := XorShifted(prev);
    var rot := Rotation(prev);
    OutputIsRotation(xs, rot);
    BitOr(Shr(xs, rot), Shl(xs, (-(rot as int)) % 32, 32))
  }

  lemma {:induction false} OrComm(a: nat, b: nat)
    ensures BitOr(a, b) == BitOr(b, a)
    decreases a + b
  {
    if a != 0 && b != 0 {
      OrComm(a / 2, b / 2);
    }
  }

  lemma OutputIsRotation(xs: u32, rot: nat)
    requires rot < 32
    ensures BitOr(Shr(xs, rot), Shl(xs, (-(rot as int)) % 32, 32)) == RotateRight32(xs, rot)
    ensures RotateRight32(xs, rot) < TWO32
  {
    var s := (-(rot as int)) % 32;
    if rot == 0 {
      assert s == 0;
      RotateByZero(xs);
    } else {
      assert s == 32 - rot;
      RotateByNonZero(xs, rot, s);
    }
  }

  lemma RotateByNonZero(xs: u32, rot: nat, s: nat)
    requires 0 < rot < 32 && rot + s == 32
    ensures BitOr(Shr(xs, rot), Shl(xs, s, 32)) == RotateRight32(xs, rot)
    ensures RotateRight32(xs, rot) < TWO32
  {
    Pow2ThirtyTwo();
    var a, b := Pow2(rot), Pow2(s);
    var hi, lo := xs / a, xs % a;
    Pow2Add(rot, s);
    assert Shr(xs, rot) == hi;
    ShlTruncates(xs, rot, s);
    assert Shl(xs, s, 32) == lo * b;
    ShrFits(xs, rot, s);
    assert hi < b;
    OrComm(hi, lo * b);
    OrDisjoint(lo, hi, s);
    assert RotateRight32(xs, rot) == lo * b + hi;
    PackBound(lo, hi, a, b);
  }

  lemma RotateByZero(xs: u32)
    ensures BitOr(Shr(xs, 0), Shl(xs, 0, 32)) == RotateRight32(xs, 0) == xs
  {
    Pow2ThirtyTwo();
    assert Shl(xs, 0, 32) == xs;
    assert Shr(xs, 0) == xs;
    OrSelf(xs);
  }

  /** `gen_u32`: one LCG step; the word is the permuted OLD state and the
      increment is untouched.  `None` is a debug-build overflow panic. */
  function GenU32(arith: Arith, rng: Rng): (r: Option<(u32, Rng)>)
    ensures r.None? <==> arith == Checked && rng.state * MULTIPLIER + rng.inc >= TWO64
    ensures r.Some? ==> r.value == (Output(rng.state), Step(rng)) && r.value.1.inc == rng.inc
  {
    match Lcg(arith, rng.state, rng.inc)
    case None => None
    case Some(s) =>
      assert Rng(s, rng.inc) == Step(rng);
      Some((Output(rng.state), Step(rng)))
  }

  /** The state after `k` wrapping steps. */
  function Advance(rng: Rng, k: nat): Rng
    decreases k
  {
    if k == 0 then rng else Advance(Step(rng), k - 1)
  }

  /** The `j`-th word (from 0) a generator in state `rng` emits. */
  function Word(rng: Rng, j: nat): u32
  {
    Output(Advance(rng, j).state)
  }

  /** Stepping never touches the increment, so a generator stays valid forever. */
  lemma {:induction false} AdvanceKeepsInc(rng: Rng, k: nat)
    ensures Advance(rng, k).inc == rng.inc
    ensures Valid(rng) ==> Valid(Advance(rng, k))
    decreases k
  {
    if k > 0 {
      AdvanceKeepsInc(Step(rng), k - 1);
    }
  }

  function Min(a: nat, b: nat): nat
  {
    if a <= b then a else b
  }

  /** Number of words a fill of `n` bytes draws: one per started 4-byte chunk. */
  function Chunks(n: nat): nat
  {
    (n + 3) / 4
  }

  /** `try_fill_bytes`: one word per 4-byte chunk of the buffer, written
      little-endian, the last chunk truncated.  `None` is an overflow panic
      of a checked step; otherwise the fill succeeds. */
  function FillBytes(arith: Arith, rng: Rng, n: nat): (r: Option<(seq<byte>, Rng)>)
    ensures arith == Wrapping ==> r.Some?
    ensures r.Some? ==> |r.value.0| == n && r.value.1 == Advance(rng, Chunks(n))
    ensures r.Some? ==> forall i :: 0 <= i < n ==> r.value.0[i] == StreamByte(rng, i)
    decreases n
  {
    if n == 0 then Some(([], rng))
    else
      match GenU32(arith, rng)
      case None => None
      case Some((w, next)) =>
        var len := Min(n, 4);
        var chunk := LeBytes(w, 4)[..len];
        match FillBytes(arith, next, n - len)
        case None => None
        case Some((tail, last)) =>
          FillBytesStep(rng, n, chunk, tail);
          AdvanceChunks(rng, n);
          Some((chunk + tail, last))
  }

  /** One chunk of `FillBytes`: the first word's bytes, then the rest of the
      buffer filled from the stepped generator. */
  lemma FillBytesStep(rng: Rng, n: nat, chunk: seq<byte>, tail: seq<byte>)
    requires n > 0
    requires chunk == LeBytes(Word(rng, 0), 4)[..Min(n, 4)]
    requires |tail| == n - Min(n, 4)
    requires forall i :: 0 <= i < |tail| ==> tail[i] == StreamByte(Step(rng), i)
    ensures forall i :: 0 <= i < n ==> (chunk + tail)[i] == StreamByte(rng, i)
  {
    forall i | 0 <= i < n
      ensures (chunk + tail)[i] == StreamByte(rng, i)
    {
      ChunkTailByte(rng, n, chunk, tail, i);
    }
  }

  /** The rest of a fill of `n > 0` bytes ends where the whole fill does. */
  lemma AdvanceChunks(rng: Rng, n: nat)
    requires n > 0
    ensures Advance(Step(rng), Chunks(n - Min(n, 4))) == Advance(rng, Chunks(n))
  {
    ChunksStep(n);
    AdvanceFirst(rng, Chunks(n));
  }

  lemma AdvanceFirst(rng: Rng, k: nat)
    requires k > 0
    ensures Advance(rng, k) == Advance(Step(rng), k - 1)
  {
  }

  lemma ChunkTailByte(rng: Rng, n: nat, chunk: seq<byte>, tail: seq<byte>, i: nat)
    requires i < n
    requires chunk == LeBytes(Word(rng, 0), 4)[..Min(n, 4)]
    requires |tail| == n - Min(n, 4)
    requires forall i :: 0 <= i < |tail| ==> tail[i] == StreamByte(Step(rng), i)
    ensures (chunk + tail)[i] == StreamByte(rng, i)
  {
    if i < 4 {
      FirstChunkByte(rng, n, chunk, i);
      assert (chunk + tail)[i] == chunk[i];
    } else {
      assert (chunk + tail)[i] == tail[i - 4];
      StreamByteStep(rng, i);
    }
  }

  lemma FirstChunkByte(rng: Rng, n: nat, chunk: seq<byte>, i: nat)
    requires i < 4 && i < n
    requires chunk == LeBytes(Word(rng, 0), 4)[..Min(n, 4)]
    ensures chunk[i] == StreamByte(rng, i)
  {
    assert i / 4 == 0 && i % 4 == i;
  }

  /** Byte `i` of the little-endian word stream a generator emits. */
  function StreamByte(rng: Rng, i: nat): byte
  {
    LeBytes(Word(rng, i / 4), 4)[i % 4]
  }

  /** The byte stream after one step is the stream from byte 4 on. */
  lemma StreamByteStep(rng: Rng, i: nat)
    requires i >= 4
    ensures StreamByte(Step(rng), i - 4) == StreamByte(rng, i)
  {
    var j := (i - 4) / 4;
    assert j + 1 == i / 4 && (i - 4) % 4 == i % 4;
    assert Advance(rng, j + 1) == Advance(Step(rng), j);
  }

  /** A checked fill that does not panic writes exactly what the wrapping
      fill writes and leaves the generator in the same state. */
  lemma FillBytesCheckedAgrees(rng: Rng, n: nat)
    requires FillBytes(Checked, rng, n).Some?
    ensures FillBytes(Checked, rng, n) == FillBytes(Wrapping, rng, n)
  {
    var c, w := FillBytes(Checked, rng, n).value, FillBytes(Wrapping, rng, n).value;
    assert c.0 == w.0;
  }

  /** A step overflows `u64` when done with plain, debug-checked arithmetic. */
  predicate Overflows(rng: Rng)
  {
    rng.state * MULTIPLIER + rng.inc >= TWO64
  }

  /** Some step among the next `k` overflows. */
  predicate OverflowWithin(rng: Rng, k: nat)
    decreases k
  {
    k > 0 && (Overflows(rng) || OverflowWithin(Step(rng), k - 1))
  }

  /** A checked fill panics exactly when one of the `Chunks(n)` steps it takes overflows. */
  lemma FillBytesCheckedPanics(rng: Rng, n: nat)
    ensures FillBytes(Checked, rng, n).None? <==> OverflowWithin(rng, Chunks(n))
  {
    FillPanicsIsNone(rng, n);
    FillPanicsIsOverflow(rng, n);
  }

  /** The chunk-by-chunk panic condition of a checked fill: some chunk's
      step overflows. */
  predicate FillPanics(rng: Rng, n: nat)
    decreases n
  {
    n > 0 && (Overflows(rng) || FillPanics(Step(rng), n - Min(n, 4)))
  }

  lemma {:induction false} FillPanicsIsNone(rng: Rng, n: nat)
    ensures FillBytes(Checked, rng, n).None? <==> FillPanics(rng, n)
    decreases n
  {
    if n > 0 {
      FillBytesUnfold(rng, n);
      FillPanicsIsNone(Step(rng), n - Min(n, 4));
      assert FillPanics(rng, n) <==> Overflows(rng) || FillPanics(Step(rng), n - Min(n, 4));
    }
  }

  lemma {:induction false} FillPanicsIsOverflow(rng: Rng, n: nat)
    ensures FillPanics(rng, n) <==> OverflowWithin(rng, Chunks(n))
    decreases n
  {
    if n > 0 {
      OverflowWithinStep(rng, n);
      FillPanicsIsOverflow(Step(rng), n - Min(n, 4));
    } else {
      assert Chunks(n) == 0;
    }
  }

  /** The steps of a fill of `n > 0` bytes are its first step and the
      steps of the fill of the rest. */
  lemma OverflowWithinStep(rng: Rng, n: nat)
    requires n > 0
    ensures OverflowWithin(rng, Chunks(n)) <==> Overflows(rng) || OverflowWithin(Step(rng), Chunks(n - Min(n, 4)))
  {
    ChunksStep(n);
  }

  /** `OverflowWithin` holds exactly when some step `j < k` overflows. */
  lemma OverflowWithinSome(rng: Rng, k: nat)
    ensures OverflowWithin(rng, k) ==> exists j: nat :: j < k && Overflows(Advance(rng, j))
    ensures (exists j: nat :: j < k && Overflows(Advance(rng, j))) ==> OverflowWithin(rng, k)
  {
    if OverflowWithin(rng, k) {
      var j := OverflowWitness(rng, k);
      assert j < k && Overflows(Advance(rng, j));
    } else {
      forall j: nat | j < k
        ensures !Overflows(Advance(rng, j))
      {
        if Overflows(Advance(rng, j)) {
          OverflowAt(rng, k, j);
        }
      }
    }
  }

  lemma {:induction false} OverflowAt(rng: Rng, k: nat, j: nat)
    requires j < k && Overflows(Advance(rng, j))
    ensures OverflowWithin(rng, k)
    decreases j
  {
    if j > 0 {
      OverflowAt(Step(rng), k - 1, j - 1);
    }
  }

  lemma {:induction false} OverflowWitness(rng: Rng, k: nat) returns (j: nat)
    requires OverflowWithin(rng, k)
    ensures j < k && Overflows(Advance(rng, j))
    decreases k
  {
    if Overflows(rng) {
      j := 0;
    } else {
      var i := OverflowWitness(Step(rng), k - 1);
      j := i + 1;
    }
  }

  lemma ChunksStep(n: nat)
    requires n > 0
    ensures Chunks(n) == 1 + Chunks(n - Min(n, 4))
  {
  }

  /** The first chunk of a checked fill: panic now, or fill the rest. */
  lemma FillBytesUnfold(rng: Rng, n: nat)
    requires n > 0
    ensures FillBytes(Checked, rng, n).None? <==>
      Overflows(rng) || FillBytes(Checked, Step(rng), n - Min(n, 4)).None?
  {
  }

  /** `random-rs` in a debug build panics in `seed(u64::MAX, seq)`: its
      first `+` is unchecked although the step after it wraps. */
  lemma SeedMaxPanics(sel: u64)
    ensures Seed(RandomRs, Debug, TWO64 - 1, sel).None?
    ensures Seed(RandomRs, Release, TWO64 - 1, sel).Some?
  {
  }

  /** In a debug build of the two plain crates, every generator that
      `seed` manages to build panics on its first `gen_u32`. */
  lemma PlainDebugGeneratorPanics(crate: Crate, seed: u64, sel: u64)
    requires crate != RandomRs
    requires Seed(crate, Debug, seed, sel).Some?
    ensures GenU32(PlainArith(Debug), Seed(crate, Debug, seed, sel).value).None?
  {
    var rng := Seed(crate, Debug, seed, sel).value;
    assert Inc(sel) == 1 && seed <= 1;
    assert rng.state == (seed + 1) * MULTIPLIER + 1;
    MulGrows(rng.state);
  }

  lemma MulGrows(x: nat)
    requires x >= MULTIPLIER
    ensures x * MULTIPLIER + 1 >= TWO64
  {
    MulLe(MULTIPLIER, x, MULTIPLIER);
  }

  /** The generator `seed(1, 1)`, traced by hand through the algorithm,
      and the first word it emits. */
  lemma SeedOneOneVector()
    ensures Seed(RandomRs, Release, 1, 1) == Some(Rng(7009800821677620407, 3))
    ensures GenU32(Wrapping, Seed(RandomRs, Release, 1, 1).value).value.0 == 3380776849
  {
    SeedOneOneState();
    FirstWordOfSeedOneOne();
    assert GenU32(Wrapping, Rng(7009800821677620407, 3)).value.0 == Output(7009800821677620407);
  }

  lemma SeedOneOneState()
    ensures Seed(RandomRs, Release, 1, 1) == Some(Rng(7009800821677620407, 3))
  {
  }

  /** `199230 ^ 52227085990`, the xorshift of the `seed(1, 1)` state,
      computed one bit at a time from the top. */
  lemma XorOfSeedOneOne()
    ensures BitXor(199230, 52227085990) == 52227021976
  {
    XorStep(1, 398461, 199230);
    XorStep(3, 796922, 398460);
    XorStep(6, 1593844, 796921);
    XorStep(12, 3187688, 1593842);
    XorStep(24, 6375376, 3187684);
    XorStep(48, 12750753, 6375368);
    XorStep(97, 25501506, 12750737);
    XorStep(194, 51003013, 25501475);
    XorStep(389, 102006027, 51002951);
    XorStep(778, 204012054, 102005902);
    XorStep(1556, 408024109, 204011804);
    XorStep(3112, 816048218, 408023609);
    XorStep(6225, 1632096437, 816047218);
    XorStep(12451, 3264192874, 1632094436);
    XorStep(24903, 6528385748, 3264188873);
    XorStep(49807, 13056771497, 6528377747);
    XorStep(99615, 26113542995, 13056755494);
    XorStep(199230, 52227085990, 26113510988);
  }

  /** The output of the state `seed(1, 1)` leaves: the rotation is 12 and
      the xorshifted word is 687414424. */
  lemma FirstWordOfSeedOneOne()
    ensures Output(7009800821677620407) == 3380776849
  {
    RotationOfSeedOneOne();
    XorShiftedOfSeedOneOne();
    assert Pow2(12) == 4096 && Pow2(20) == 1048576;
  }

  lemma RotationOfSeedOneOne()
    ensures Rotation(7009800821677620407) == 12
  {
    Pow2Add(59, 5);
    Pow2SixtyFour();
    assert Pow2(5) == 32;
    assert Pow2(59) == 576460752303423488;
  }

  lemma XorShiftedOfSeedOneOne()
    ensures XorShifted(7009800821677620407) == 687414424
  {
    var prev: u64 := 7009800821677620407;
    Pow2SixtyFour();
    Pow2Add(45, 19);
    Pow2Add(27, 37);
    assert Pow2(19) == 524288 && Pow2(37) == 137438953472;
    assert Shr(prev, 45) == 199230;
    assert Shr(prev, 27) == 52227085990;
    XorOfSeedOneOne();
  }
}
