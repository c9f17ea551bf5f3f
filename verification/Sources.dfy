/** Sources of randomness as seen by the `Random` trait: `try_fill_bytes`
    and the panicking `fill_bytes` built on it.  A source is either a finite
    byte stream read through a cursor (any user implementation of the
    trait), or one of the PCG32 generators. */
module Sources {
  import opened Bits
  import Pcg32

  /** Where random bytes come from.  `Stream` hands out `data` from
      `cursor` on and reports an error once a request runs past its end;
      `Fast` is a `FastRng` with the arithmetic of its build. */
  datatype Source =
    | Stream(data: seq<byte>, cursor: nat)
    | Fast(rng: Pcg32.Rng, arith: Pcg32.Arith)

  /** The source a `FastRng` of `crate` is in a `build`: `random-rs`
      steps with wrapping arithmetic in every build, the two plain crates
      check for overflow in a debug build. */
  function FastSource(crate: Pcg32.Crate, build: Build, rng: Pcg32.Rng): (s: Source)
    ensures s.Fast? && s.rng == rng
    ensures crate == Pcg32.RandomRs || build == Release ==> s.arith == Pcg32.Wrapping
    ensures crate != Pcg32.RandomRs && build == Debug ==> s.arith == Pcg32.Checked
  {
    Fast(rng, Pcg32.StepArith(crate, build))
  }

  /** Why a call panicked. */
  datatype Panic =
    | FillFailed                       // `fill_bytes` saw `try_fill_bytes` fail
    | Overflow                         // a checked `*`/`+` overflowed in a debug build
    | DebugAssertion                   // a `debug_assert!` failed
    | BrokenRandomness(claimedZeros: nat) // `unreachable!` of the float generators; the count its message states
    | OutOfFuel                        // the model's bound on the `char` retry loop ran out

  /** What a call on a source produces: a value and the source after it,
      or a panic. */
  datatype Outcome<T> = Done(value: T, rest: Source) | Panicked(why: Panic)

  /** `try_fill_bytes` for a buffer of `n` bytes: `Some(bytes)` is `Ok`
      with the buffer's contents, `None` is `Err`. */
  function TryFillBytes(src: Source, n: nat): (r: Outcome<Option<seq<byte>>>)
    ensures r.Done? && r.value.Some? ==> |r.value.value| == n
    ensures src.Stream? ==> r.Done?
    ensures src.Stream? ==> (r.value.Some? <==> src.cursor + n <= |src.data|)
    ensures src.Stream? && r.value.Some? ==>
      r.value.value == src.data[src.cursor..src.cursor + n] && r.rest == src.(cursor := src.cursor + n)
    ensures src.Stream? && r.value.None? ==> r.rest == src
    ensures src.Fast? ==> (r.Panicked? <==> src.arith == Pcg32.Checked && Pcg32.OverflowWithin(src.rng, Pcg32.Chunks(n)))
    ensures src.Fast? && r.Done? ==>
      r.value.Some? && r.rest == src.(rng := Pcg32.Advance(src.rng, Pcg32.Chunks(n))) &&
      forall i :: 0 <= i < n ==> r.value.value[i] == Pcg32.StreamByte(src.rng, i)
  {
    match src
    case Stream(data, cursor) =>
      if cursor + n <= |data| then Done(Some(data[cursor..cursor + n]), Stream(data, cursor + n))
      else Done(None, src)
    case Fast(rng, arith) =>
      FastFillPanics(rng, arith, n);
      match Pcg32.FillBytes(arith, rng, n)
      case None => Panicked(Overflow)
      case Some((bytes, next)) => Done(Some(bytes), Fast(next, arith))
  }

  lemma FastFillPanics(rng: Pcg32.Rng, arith: Pcg32.Arith, n: nat)
    ensures Pcg32.FillBytes(arith, rng, n).None? <==> arith == Pcg32.Checked && Pcg32.OverflowWithin(rng, Pcg32.Chunks(n))
  {
    if arith == Pcg32.Checked {
      Pcg32.FillBytesCheckedPanics(rng, n);
    }
  }

  /** `fill_bytes`: `try_fill_bytes`, with an error turned into a panic.
      On a stream it succeeds exactly when enough bytes remain, returns the
      next `n` of them and moves the cursor past them; a generator built
      with wrapping arithmetic never fails and writes its word stream. */
  function FillBytes(src: Source, n: nat): (r: Outcome<seq<byte>>)
    ensures r.Done? <==> TryFillBytes(src, n).Done? && TryFillBytes(src, n).value.Some?
    ensures r.Panicked? && TryFillBytes(src, n).Done? ==> r.why == FillFailed
    ensures r.Done? ==> |r.value| == n
    ensures src.Stream? ==> (r.Done? <==> src.cursor + n <= |src.data|)
    ensures src.Stream? && r.Done? ==>
      r.value == src.data[src.cursor..src.cursor + n] && r.rest == Stream(src.data, src.cursor + n)
    ensures src.Stream? && r.Panicked? ==> r.why == FillFailed
    ensures src.Fast? && src.arith == Pcg32.Wrapping ==>
      r.Done? && r.rest == Fast(Pcg32.Advance(src.rng, Pcg32.Chunks(n)), Pcg32.Wrapping) &&
      forall i :: 0 <= i < n ==> r.value[i] == Pcg32.StreamByte(src.rng, i)
  {
    match TryFillBytes(src, n)
    case Panicked(why) => Panicked(why)
    case Done(None, _) => Panicked(FillFailed)
    case Done(Some(bytes), rest) => Done(bytes, rest)
  }

  /** A `random-rs` generator, or any generator in a release build, never
      fails a fill, and writes its word stream. */
  lemma FastSourceFills(crate: Pcg32.Crate, build: Build, rng: Pcg32.Rng, n: nat)
    requires crate == Pcg32.RandomRs || build == Release
    ensures FillBytes(FastSource(crate, build, rng), n).Done?
    ensures FillBytes(FastSource(crate, build, rng), n).rest == FastSource(crate, build, Pcg32.Advance(rng, Pcg32.Chunks(n)))
  {
  }

  /** Two fills in a row read two consecutive segments of a stream. */
  lemma {:induction false} StreamFillsConsecutive(data: seq<byte>, cursor: nat, a: nat, b: nat)
    requires cursor + a + b <= |data|
    ensures FillBytes(Stream(data, cursor), a).Done?
    ensures FillBytes(FillBytes(Stream(data, cursor), a).rest, b) ==
      Done(data[cursor + a..cursor + a + b], Stream(data, cursor + a + b))
    ensures FillBytes(Stream(data, cursor), a).value + FillBytes(FillBytes(Stream(data, cursor), a).rest, b).value ==
      data[cursor..cursor + a + b]
  {
    var first := FillBytes(Stream(data, cursor), a);
    assert first == Done(data[cursor..cursor + a], Stream(data, cursor + a));
    assert data[cursor..cursor + a] + data[cursor + a..cursor + a + b] == data[cursor..cursor + a + b];
  }
}
