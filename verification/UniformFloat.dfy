/** `f64::generate` and `f32::generate`: Campbell's uniform floating-point
    sampler.  Words are drawn until one is non-zero, every zero word moving
    the exponent down by a word; the leading zeros of the first non-zero
    word are shifted out and refilled from one more word, the lowest bit is
    set as a sticky bit, and the significand is scaled by `exp2(exponent)`.

    The model stops at the integers: a draw is the odd `W`-bit significand
    with its top bit set and the exponent, and the scale factor is the bit
    pattern `exp2`/`exp2f` builds.  The conversion `significand as f64` and
    the floating-point product are not modelled. */
module UniformFloat {
  import opened Bits
  import opened Sources
  import opened Values
  import opened Composite
  import opened Ieee754

  /** The two float types the sampler exists for. */
  datatype Float = F32 | F64

  function FormatOf(t: Float): Format
  {
    if t == F64 then Binary64 else Binary32
  }

  /** `W`: the width of the words the sampler draws (`u64` or `u32`). */
  function WordBits(t: Float): nat
  {
    TotalBits(FormatOf(t))
  }

  /** The most zero words in a row the sampler tolerates: 15 for `f64`,
      3 for `f32`; one more makes the exponent pass the least subnormal. */
  function MaxZeros(t: Float): nat
  {
    if t == F64 then 15 else 3
  }

  /** The number of zero words the `unreachable!` message claims to have
      seen: 16 for `f64`, 5 for `f32`. */
  function ClaimedZeros(t: Float): nat
  {
    if t == F64 then 16 else 5
  }

  /** The least exponent a sample can have: `MaxZeros` zero words, then a
      word whose `W - 1` leading zeros are all shifted out: -1087 for `f64`
      and -159 for `f32`. */
  function LeastExponent(t: Float): int
  {
    -(WordBits(t) * (MaxZeros(t) + 1)) - (WordBits(t) - 1)
  }

  /** The unsigned width of the words drawn: `u64` or `u32`. */
  function WordWidth(t: Float): Width
  {
    if t == F64 then U64 else U32
  }

  /** `rand.get_u64()` or `rand.get_u32()`. */
  function DrawWord(t: Float, src: Source): (r: Outcome<nat>)
    ensures r.Done? ==> r.value < Pow2(WordBits(t))
  {
    assert WordBits(t) == 8 * Bytes(WordWidth(t));
    GenerateUnsigned(WordWidth(t), src)
  }

  /** A word draw as an element rule, so that the `(j+1)`-th draw of a run
      is `NthCall(WordRule(t), j, src)`. */
  function WordRule(t: Float): Source -> Outcome<nat>
  {
    src => DrawWord(t, src)
  }

  /** A draw rule whose words are `W`-bit numbers.  The sampler below is
      stated for any such rule; `f64::generate` and `f32::generate` use
      `WordRule(t)`. */
  ghost predicate WordsFit(t: Float, draw: Source -> Outcome<nat>)
  {
    forall s :: draw(s).Done? ==> draw(s).value < Pow2(WordBits(t))
  }

  lemma WordRuleFits(t: Float)
    ensures WordsFit(t, WordRule(t))
  {
    forall s | WordRule(t)(s).Done?
      ensures WordRule(t)(s).value < Pow2(WordBits(t))
    {
      assert WordRule(t)(s) == DrawWord(t, s);
    }
  }

  /** The exponent bound of the zero loop admits exactly `MaxZeros` zero
      words: after `k` of them the exponent `-W * (k + 1)` is still at or
      above the least subnormal exponent if and only if `k <= MaxZeros`. */
  lemma ZeroBudget(t: Float, k: nat)
    ensures -(WordBits(t) * (k + 1)) >= MinExponent(FormatOf(t)) <==> k <= MaxZeros(t)
  {
  }

  /** The facts about the two formats the sampler relies on: both are
      binary interchange formats, a word is no wider than the bias, and the
      least exponent a sample can have fits an `i32`. */
  lemma FormatFacts(t: Float)
    ensures Shaped(FormatOf(t)) && WordBits(t) >= 1
    ensures WordBits(t) <= FormatOf(t).bias
    ensures I32_MIN <= MinExponent(FormatOf(t)) - (WordBits(t) - 1)
    ensures WordBits(t) * (MaxZeros(t) + 1) > FormatOf(t).bias
    ensures MinExponent(FormatOf(t)) - (WordBits(t) - 1) <= LeastExponent(t)
  {
    StandardFormatsShaped();
  }

  /** `k + 1` words below zero: `-W - W * k == -W * (k + 1)`. */
  lemma NextMultiple(w: int, k: nat)
    ensures -w - w * k == -(w * (k + 1))
  {
  }

  /** The zero loop, from a draw made at `exponent`: returns the first
      non-zero word and the exponent it was drawn at, or panics with the
      `unreachable!` once the exponent passes the least subnormal one. */
  function SkipZeros(t: Float, draw: Source -> Outcome<nat>, src: Source, exponent: int): (r: Outcome<(nat, int)>)
    requires WordsFit(t, draw) && exponent >= MinExponent(FormatOf(t))
    ensures r.Done? ==> 0 < r.value.0 < Pow2(WordBits(t))
    ensures r.Done? ==> MinExponent(FormatOf(t)) <= r.value.1 <= exponent
    ensures r.Done? ==> (exponent - r.value.1) % WordBits(t) == 0
    decreases exponent - MinExponent(FormatOf(t))
  {
    match draw(src)
    case Panicked(why) => Panicked(why)
    case Done(w, rest) =>
      if w != 0 then Done((w, exponent), rest)
      else if exponent - WordBits(t) < MinExponent(FormatOf(t)) then
        Panicked(BrokenRandomness(ClaimedZeros(t)))
      else
        var next := SkipZeros(t, draw, rest, exponent - WordBits(t));
        if next.Done? then
          ModShift(exponent - WordBits(t) - next.value.1, 1, WordBits(t));
          next
        else next
  }

  /** An exponent the zero loop returns, started at `-W`, is a multiple of
      `W` at or above the least subnormal exponent, so at most `MaxZeros`
      words below the start. */
  lemma LoopExponentFloor(t: Float, e: int)
    requires (-(WordBits(t) as int) - e) % WordBits(t) == 0 && e >= MinExponent(FormatOf(t))
    ensures e >= -(WordBits(t) * (MaxZeros(t) + 1))
  {
  }

  /** A non-zero first draw ends the zero loop at once. */
  lemma SkipZerosNonzero(t: Float, draw: Source -> Outcome<nat>, src: Source, exponent: int)
    requires WordsFit(t, draw) && exponent >= MinExponent(FormatOf(t))
    requires draw(src).Done? && draw(src).value != 0
    ensures SkipZeros(t, draw, src, exponent) == Done((draw(src).value, exponent), draw(src).rest)
  {
  }

  /** A zero first draw with room left moves the loop one word down. */
  lemma SkipZerosZero(t: Float, draw: Source -> Outcome<nat>, src: Source, exponent: int)
    requires WordsFit(t, draw) && exponent - WordBits(t) >= MinExponent(FormatOf(t))
    requires draw(src).Done? && draw(src).value == 0
    ensures SkipZeros(t, draw, src, exponent) == SkipZeros(t, draw, draw(src).rest, exponent - WordBits(t))
  {
  }

  /** The first `k` draws from `src` return zero. */
  predicate ZeroDraws(draw: Source -> Outcome<nat>, src: Source, k: nat)
  {
    forall j :: 0 <= j < k ==> NthCall(draw, j, src).Done? && NthCall(draw, j, src).value == 0
  }

  /** `k` zero draws are a zero first draw and `k - 1` after it. */
  lemma ZeroDrawsFirst(draw: Source -> Outcome<nat>, src: Source, k: nat)
    requires k > 0
    ensures ZeroDraws(draw, src, k) <==>
      draw(src).Done? && draw(src).value == 0 && ZeroDraws(draw, draw(src).rest, k - 1)
  {
    assert NthCall(draw, 0, src) == draw(src);
    if draw(src).Done? {
      var rest := draw(src).rest;
      forall j | 0 <= j < k - 1
        ensures NthCall(draw, j + 1, src) == NthCall(draw, j, rest)
      {
        NthCallShift(draw, j, src);
      }
      if ZeroDraws(draw, rest, k - 1) && draw(src).value == 0 {
        forall j | 0 <= j < k
          ensures NthCall(draw, j, src).Done? && NthCall(draw, j, src).value == 0
        {
          if j > 0 {
            assert NthCall(draw, j, src) == NthCall(draw, j - 1, rest);
          }
        }
      }
    }
  }

  /** The same run stated draw by draw: a zero first draw and `k - 1` zero
      draws after it. */
  predicate ZeroRun(draw: Source -> Outcome<nat>, src: Source, k: nat)
    decreases k
  {
    k == 0 || (draw(src).Done? && draw(src).value == 0 && ZeroRun(draw, draw(src).rest, k - 1))
  }

  lemma {:induction false} ZeroRunIsZeroDraws(draw: Source -> Outcome<nat>, src: Source, k: nat)
    ensures ZeroRun(draw, src, k) <==> ZeroDraws(draw, src, k)
    decreases k
  {
    if k > 0 {
      ZeroDrawsFirst(draw, src, k);
      if draw(src).Done? {
        ZeroRunIsZeroDraws(draw, draw(src).rest, k - 1);
      }
    }
  }

  /** `k` zero draws from `src`, then a draw of `w` that leaves `last`. */
  predicate ZeroRunThen(draw: Source -> Outcome<nat>, src: Source, k: nat, w: nat, last: Source)
    decreases k
  {
    match draw(src)
    case Panicked(_) => false
    case Done(x, rest) =>
      if k == 0 then x == w && rest == last else x == 0 && ZeroRunThen(draw, rest, k - 1, w, last)
  }

  lemma {:induction false} ZeroRunThenHolds(draw: Source -> Outcome<nat>, src: Source, k: nat)
    requires ZeroRun(draw, src, k) && NthCall(draw, k, src).Done?
    ensures ZeroRunThen(draw, src, k, NthCall(draw, k, src).value, NthCall(draw, k, src).rest)
    decreases k
  {
    if k == 0 {
      assert NthCall(draw, 0, src) == draw(src);
    } else {
      NthCallShift(draw, k - 1, src);
      ZeroRunThenHolds(draw, draw(src).rest, k - 1);
    }
  }

  /** Zero loop, forward: after `k` zero draws and a draw of a non-zero
      `w`, the loop returns `w` at the exponent `k` words further down, and
      the source after it. */
  lemma {:induction false} ZeroRunExits(t: Float, draw: Source -> Outcome<nat>, src: Source, exponent: int, k: nat,
                                        w: nat, last: Source)
    requires WordsFit(t, draw)
    requires Down(exponent, WordBits(t), k) >= MinExponent(FormatOf(t))
    requires ZeroRunThen(draw, src, k, w, last) && w != 0
    ensures exponent >= MinExponent(FormatOf(t))
    ensures SkipZeros(t, draw, src, exponent) == Done((w, Down(exponent, WordBits(t), k)), last)
    decreases k
  {
    if k == 0 {
      SkipZerosNonzero(t, draw, src, exponent);
    } else {
      ZeroRunExits(t, draw, draw(src).rest, exponent - WordBits(t), k - 1, w, last);
      SkipZerosZero(t, draw, src, exponent);
    }
  }

  /** The exponent `k` words of width `width` below `exponent`. */
  function Down(exponent: int, width: nat, k: nat): (r: int)
    decreases k
  {
    if k == 0 then exponent else Down(exponent - width, width, k - 1)
  }

  lemma {:induction false} DownIsProduct(exponent: int, width: nat, k: nat)
    ensures Down(exponent, width, k) == exponent - width * k
    decreases k
  {
    if k > 0 {
      DownIsProduct(exponent - width, width, k - 1);
    }
  }

  /** Zero loop, panic: when the exponent has room for `k - 1` more zero
      words but not `k`, `k` zero draws reach the `unreachable!`. */
  lemma {:induction false} ZeroRunPanicsFrom(t: Float, draw: Source -> Outcome<nat>, src: Source, exponent: int, k: nat)
    requires WordsFit(t, draw) && k >= 1
    requires Down(exponent, WordBits(t), k - 1) >= MinExponent(FormatOf(t)) > Down(exponent, WordBits(t), k)
    requires ZeroRun(draw, src, k)
    ensures exponent >= MinExponent(FormatOf(t))
    ensures SkipZeros(t, draw, src, exponent) == Panicked(BrokenRandomness(ClaimedZeros(t)))
    decreases k
  {
    if k > 1 {
      ZeroRunPanicsFrom(t, draw, draw(src).rest, exponent - WordBits(t), k - 1);
      SkipZerosZero(t, draw, src, exponent);
    }
  }

  /** `MaxZeros(t) + 1` zero words in a row make the sampler panic: 16 for
      `f64` and 4 for `f32`, although the `f32` message claims 5. */
  lemma ZeroRunPanics(t: Float, draw: Source -> Outcome<nat>, src: Source)
    requires WordsFit(t, draw)
    requires ZeroDraws(draw, src, MaxZeros(t) + 1)
    ensures SkipZeros(t, draw, src, -(WordBits(t) as int)) == Panicked(BrokenRandomness(ClaimedZeros(t)))
    ensures ClaimedZeros(t) == MaxZeros(t) + 1 <==> t == F64
  {
    var k := MaxZeros(t) + 1;
    NextMultiple(WordBits(t), k);
    NextMultiple(WordBits(t), k - 1);
    DownIsProduct(-(WordBits(t) as int), WordBits(t), k);
    DownIsProduct(-(WordBits(t) as int), WordBits(t), k - 1);
    ZeroBudget(t, k - 1);
    ZeroBudget(t, k);
    ZeroRunIsZeroDraws(draw, src, k);
    ZeroRunPanicsFrom(t, draw, src, -(WordBits(t) as int), k);
  }

  /** With `k <= MaxZeros(t)` zero words before a non-zero one, the loop
      exits with that word at exponent `-W * (k + 1)`. */
  lemma ZeroRunExit(t: Float, draw: Source -> Outcome<nat>, src: Source, k: nat)
    requires WordsFit(t, draw) && k <= MaxZeros(t)
    requires ZeroDraws(draw, src, k)
    requires NthCall(draw, k, src).Done? && NthCall(draw, k, src).value != 0
    ensures SkipZeros(t, draw, src, -(WordBits(t) as int)) ==
      Done((NthCall(draw, k, src).value, -(WordBits(t) * (k + 1))), NthCall(draw, k, src).rest)
  {
    ZeroBudget(t, k);
    NextMultiple(WordBits(t), k);
    ZeroRunIsZeroDraws(draw, src, k);
    ZeroRunThenHolds(draw, src, k);
    DownIsProduct(-(WordBits(t) as int), WordBits(t), k);
    ZeroRunExits(t, draw, src, -(WordBits(t) as int), k, NthCall(draw, k, src).value, NthCall(draw, k, src).rest);
  }

  /** The first non-zero draw among `n` draws that all return. */
  lemma FirstNonzero(draw: Source -> Outcome<nat>, src: Source, n: nat) returns (k: nat)
    requires forall j :: 0 <= j < n ==> NthCall(draw, j, src).Done?
    requires !ZeroDraws(draw, src, n)
    ensures k < n && ZeroDraws(draw, src, k) && NthCall(draw, k, src).value != 0
  {
    var w :| 0 <= w < n && NthCall(draw, w, src).value != 0;
    k := 0;
    while k < w && NthCall(draw, k, src).value == 0
      invariant k <= w && ZeroDraws(draw, src, k)
    {
      k := k + 1;
    }
  }

  /** Whenever the first `MaxZeros(t) + 1` draws return, the zero loop
      panics if and only if they are all zero, and otherwise returns the
      first non-zero one. */
  lemma ZeroLoopCases(t: Float, draw: Source -> Outcome<nat>, src: Source) returns (k: nat)
    requires WordsFit(t, draw)
    requires forall j :: 0 <= j <= MaxZeros(t) ==> NthCall(draw, j, src).Done?
    ensures SkipZeros(t, draw, src, -(WordBits(t) as int)).Panicked? <==> ZeroDraws(draw, src, MaxZeros(t) + 1)
    ensures SkipZeros(t, draw, src, -(WordBits(t) as int)).Done? ==>
      k <= MaxZeros(t) && ZeroDraws(draw, src, k) &&
      SkipZeros(t, draw, src, -(WordBits(t) as int)).value.0 == NthCall(draw, k, src).value
  {
    if ZeroDraws(draw, src, MaxZeros(t) + 1) {
      ZeroRunPanics(t, draw, src);
      k := 0;
    } else {
      k := FirstNonzero(draw, src, MaxZeros(t) + 1);
      ZeroRunExit(t, draw, src, k);
    }
  }

  /** The `n` bits of the `2n`-bit concatenation of `sig` and `next` that
      start at its leading one: the bits Campbell's sampler keeps. */
  function Window(n: nat, sig: nat, next: nat): int
    requires 0 < sig < Pow2(n)
  {
    (sig * Pow2(n) + next) / Pow2(n - LeadingZeros(n, sig))
  }

  /** `(sig << s) | (next >> (n - s))` for `s` the leading zeros of the
      `n`-bit `sig`: exactly the window at its leading one, an `n`-bit
      number with its top bit set. */
  function ShiftIn(n: nat, sig: nat, next: nat): (r: nat)
    requires 0 < sig < Pow2(n) && next < Pow2(n)
    ensures r == Window(n, sig, next)
    ensures Pow2(n - 1) <= r < Pow2(n)
  {
    var s := LeadingZeros(n, sig);
    ShiftInFacts(n, sig, next, s);
    BitOr(Shl(sig, s, n), Shr(next, n - s))
  }

  lemma ShiftInFacts(n: nat, sig: nat, next: nat, s: nat)
    requires 0 < sig < Pow2(n) && next < Pow2(n) && s == LeadingZeros(n, sig)
    ensures BitOr(Shl(sig, s, n), Shr(next, n - s)) == (sig * Pow2(n) + next) / Pow2(n - s)
    ensures Pow2(n - 1) <= BitOr(Shl(sig, s, n), Shr(next, n - s)) < Pow2(n)
  {
    var d := n - s;
    var a, b := sig * Pow2(s), next / Pow2(d);
    DivMod(a, Pow2(n), 0, a);
    assert d + s == n;
    ShrFits(next, d, s);
    OrDisjoint(sig, b, s);
    Pow2Add(d, s);
    if sig >= Pow2(d) {
      MulLe(Pow2(d), sig, Pow2(s));
    }
    PackBound(sig, b, Pow2(d), Pow2(s));
    Concatenated(sig, next, Pow2(s), Pow2(d));
  }

  /** Dropping the low `d`-factor of `sig * (p * d) + next`. */
  lemma Concatenated(sig: nat, next: nat, p: int, d: int)
    requires p > 0 && d > 0
    ensures (sig * (d * p) + next) / d == sig * p + next / d
  {
    DivModParts(next, d);
    assert sig * (d * p) == (sig * p) * d;
    DivMod(sig * (d * p) + next, d, sig * p + next / d, next % d);
  }

  /** A non-zero `n`-bit number without leading zeros has its top bit set. */
  lemma LeadingZerosNone(n: nat, x: nat)
    requires 0 < x < Pow2(n) && LeadingZeros(n, x) == 0
    ensures n >= 1 && Pow2(n - 1) <= x
  {
    assert x * Pow2(0) == x;
  }

  /** The word 1 has all but its lowest bit as leading zeros. */
  lemma LeadingZerosOne(n: nat)
    requires n >= 1 && 1 < Pow2(n)
    ensures LeadingZeros(n, 1) == n - 1
  {
    var lz := LeadingZeros(n, 1);
    assert Pow2(n - 1) <= 1 * Pow2(lz);
    Pow2Order(lz, n - 1);
  }

  /** Setting the sticky bit of an `n`-bit number with its top bit set
      keeps it there and makes it odd. */
  lemma StickyFacts(x: nat, n: nat)
    requires n >= 1 && Pow2(n - 1) <= x < Pow2(n)
    ensures Pow2(n - 1) <= BitOr(x, 1) < Pow2(n) && BitOr(x, 1) % 2 == 1
    ensures BitOr(x, 1) == x || BitOr(x, 1) == x + 1
  {
    OrOne(x);
    var p := Pow2(n - 1);
    assert Pow2(n) == 2 * p;
    OddAbove(x, BitOr(x, 1), p);
  }

  /** `x` rounded up to odd stays in `[p, 2p)`. */
  lemma OddAbove(x: int, y: int, p: int)
    requires p <= x < 2 * p && y == (if x % 2 == 1 then x else x + 1)
    ensures p <= y < 2 * p && y % 2 == 1 && (y == x || y == x + 1)
  {
    DivModParts(x, 2);
  }

  /** A drawn significand and its binary exponent: the sample stands for
      the number `significand * 2^exponent`. */
  datatype Sample = Sample(significand: nat, exponent: int)

  /** The shifting branch of `Finish` once the next word `next` is drawn:
      the window at the leading one of `sig` with its sticky bit set, at
      the exponent lowered by the bits shifted out. */
  function Normalised(n: nat, sig: nat, next: nat, exponent: int): (r: Sample)
    requires 0 < sig < Pow2(n) && next < Pow2(n)
    ensures Pow2(n - 1) <= r.significand < Pow2(n) && r.significand % 2 == 1
    ensures r.exponent == exponent - LeadingZeros(n, sig)
    ensures Window(n, sig, next) <= r.significand <= Window(n, sig, next) + 1
  {
    var shifted := ShiftIn(n, sig, next);
    StickyFacts(shifted, n);
    Sample(BitOr(shifted, 1), exponent - LeadingZeros(n, sig))
  }

  /** The part after the zero loop: shift out the leading zeros of the
      non-zero word `sig`, refilling them from one more draw, then set the
      sticky bit.  No draw is made when `sig` has no leading zeros. */
  function Finish(t: Float, draw: Source -> Outcome<nat>, sig: nat, exponent: int, src: Source): (r: Outcome<Sample>)
    requires WordsFit(t, draw) && 0 < sig < Pow2(WordBits(t))
    ensures r.Done? ==>
      Pow2(WordBits(t) - 1) <= r.value.significand < Pow2(WordBits(t)) && r.value.significand % 2 == 1 &&
      r.value.exponent == exponent - LeadingZeros(WordBits(t), sig)
    ensures LeadingZeros(WordBits(t), sig) == 0 ==> r.Done? && r.rest == src
    ensures LeadingZeros(WordBits(t), sig) > 0 ==>
      (r.Done? <==> draw(src).Done?) &&
      (r.Panicked? ==> r.why == draw(src).why) &&
      (r.Done? ==> r.rest == draw(src).rest)
    ensures r.Done? && LeadingZeros(WordBits(t), sig) > 0 ==>
      Window(WordBits(t), sig, draw(src).value) <= r.value.significand <= Window(WordBits(t), sig, draw(src).value) + 1
    ensures r.Done? && LeadingZeros(WordBits(t), sig) == 0 ==> sig <= r.value.significand <= sig + 1
  {
    var n := WordBits(t);
    var s := LeadingZeros(n, sig);
    if s > 0 then
      match draw(src)
      case Panicked(why) => Panicked(why)
      case Done(next, rest) => Done(Normalised(n, sig, next, exponent), rest)
    else
      LeadingZerosNone(n, sig);
      StickyFacts(sig, n);
      Done(Sample(BitOr(sig, 1), exponent), src)
  }

  /** The sampler up to the scaling, for any rule drawing `W`-bit words:
      the zero loop, then `Finish`.  A sample has an odd `W`-bit
      significand with its top bit set, and an exponent from
      `LeastExponent(t)` to `-W`,
      so `significand * 2^exponent` lies in `[2^(exponent + W - 1), 1)`:
      strictly between 0 and 1. */
  function Sampler(t: Float, draw: Source -> Outcome<nat>, src: Source): (r: Outcome<Sample>)
    requires WordsFit(t, draw)
    ensures r.Done? ==>
      Pow2(WordBits(t) - 1) <= r.value.significand < Pow2(WordBits(t)) && r.value.significand % 2 == 1
    ensures r.Done? ==> LeastExponent(t) <= r.value.exponent <= -(WordBits(t) as int)
  {
    var n := WordBits(t);
    match SkipZeros(t, draw, src, -(n as int))
    case Panicked(why) => Panicked(why)
    case Done((sig, exponent), rest) =>
      LoopExponentFloor(t, exponent);
      Finish(t, draw, sig, exponent, rest)
  }

  /** The words a sample consumes: after `k <= MaxZeros(t)` zero words
      comes the non-zero word `w`.  With no leading zeros the sample is
      `w | 1` at `-W * (k + 1)` and stops after `w`; otherwise the next
      word `v` fills in, the exponent drops by the shift `s` and the sample
      stops after `v`. */
  lemma SampleWords(t: Float, draw: Source -> Outcome<nat>, src: Source, k: nat)
    requires WordsFit(t, draw) && k <= MaxZeros(t)
    requires ZeroDraws(draw, src, k)
    requires NthCall(draw, k, src).Done? && NthCall(draw, k, src).value != 0
    ensures var w := NthCall(draw, k, src).value;
      LeadingZeros(WordBits(t), w) == 0 ==>
        Sampler(t, draw, src) == Done(Sample(BitOr(w, 1), -(WordBits(t) * (k + 1))), NthCall(draw, k, src).rest)
    ensures var w, v := NthCall(draw, k, src).value, NthCall(draw, k + 1, src);
      var s := LeadingZeros(WordBits(t), w);
      s > 0 && v.Done? ==>
        Sampler(t, draw, src).Done? && Sampler(t, draw, src).rest == v.rest &&
        Sampler(t, draw, src).value.exponent == -(WordBits(t) * (k + 1)) - s &&
        Window(WordBits(t), w, v.value) <= Sampler(t, draw, src).value.significand <= Window(WordBits(t), w, v.value) + 1
    ensures var w, v := NthCall(draw, k, src).value, NthCall(draw, k + 1, src);
      LeadingZeros(WordBits(t), w) > 0 && v.Panicked? ==> Sampler(t, draw, src) == Panicked(v.why)
  {
    ZeroRunExit(t, draw, src, k);
    NthCallNext(draw, k, src);
  }

  /** `f64::generate` / `f32::generate` up to the scaling. */
  function GenerateSample(t: Float, src: Source): (r: Outcome<Sample>)
    ensures WordsFit(t, WordRule(t)) && r == Sampler(t, WordRule(t), src)
    ensures r.Done? ==>
      Pow2(WordBits(t) - 1) <= r.value.significand < Pow2(WordBits(t)) && r.value.significand % 2 == 1 &&
      LeastExponent(t) <= r.value.exponent <= -(WordBits(t) as int)
  {
    WordRuleFits(t);
    Sampler(t, WordRule(t), src)
  }

  /** On a stream whose next word has its top bit set, a sample reads
      that one word: the significand is the word with its lowest bit set,
      the exponent is `-W`, and the cursor moves past the word. */
  lemma TopBitWordSample(t: Float, data: seq<byte>, c: nat)
    requires c + Bytes(WordWidth(t)) <= |data|
    requires LittleEndian(data[c..c + Bytes(WordWidth(t))]) >= Pow2(WordBits(t) - 1)
    ensures var w := LittleEndian(data[c..c + Bytes(WordWidth(t))]);
      GenerateSample(t, Stream(data, c)) ==
        Done(Sample(BitOr(w, 1), -(WordBits(t) as int)), Stream(data, c + Bytes(WordWidth(t))))
  {
    var src, draw := Stream(data, c), WordRule(t);
    var w := LittleEndian(data[c..c + Bytes(WordWidth(t))]);
    WordRuleFits(t);
    FormatFacts(t);
    assert draw(src) == GenerateUnsigned(WordWidth(t), src);
    assert NthCall(draw, 0, src) == draw(src);
    assert draw(src) == Done(w, Stream(data, c + Bytes(WordWidth(t))));
    LeadingZerosTop(WordBits(t), w);
    SampleWords(t, draw, src, 0);
  }

  /** The least exponent is reached: `MaxZeros` zero words and then the
      word 1 give a sample at exactly `LeastExponent(t)`. */
  lemma DeepestSample(t: Float, draw: Source -> Outcome<nat>, src: Source)
    requires WordsFit(t, draw)
    requires ZeroDraws(draw, src, MaxZeros(t))
    requires NthCall(draw, MaxZeros(t), src).Done? && NthCall(draw, MaxZeros(t), src).value == 1
    requires NthCall(draw, MaxZeros(t) + 1, src).Done?
    ensures Sampler(t, draw, src).Done? && Sampler(t, draw, src).value.exponent == LeastExponent(t)
  {
    FormatFacts(t);
    Pow2Monotone(0, WordBits(t));
    LeadingZerosOne(WordBits(t));
    SampleWords(t, draw, src, MaxZeros(t));
  }

  /** What a float draw yields: `significand as f64 * f64::from_bits(scale)`
      (or its `f32` counterpart), with the product left unevaluated. */
  datatype Scaled = Scaled(significand: nat, scale: nat)

  /** The scaling step as written: `exp2(exponent)`.  A debug build panics
      in its `debug_assert!` when the exponent is at or below `-bias`; a
      release build uses the pattern `exp2` builds, which is `2^exponent`
      exactly when the exponent is above `-bias`. */
  function Scale(build: Build, t: Float, o: Outcome<Sample>): (r: Outcome<Scaled>)
    requires o.Done? ==> I32_MIN <= o.value.exponent <= -(WordBits(t) as int)
    ensures o.Panicked? ==> r == Panicked(o.why)
    ensures o.Done? ==>
      (r.Panicked? <==> build == Debug && o.value.exponent <= -(FormatOf(t).bias as int)) &&
      (r.Panicked? ==> r.why == DebugAssertion)
    ensures o.Done? && r.Done? ==>
      r.value.significand == o.value.significand && r.rest == o.rest &&
      (EncodesPowerOfTwo(FormatOf(t), r.value.scale, o.value.exponent) <==>
         o.value.exponent > -(FormatOf(t).bias as int))
  {
    var fmt := FormatOf(t);
    FormatFacts(t);
    match o
    case Panicked(why) => Panicked(why)
    case Done(sample, rest) =>
      match Exp2(build, fmt, sample.exponent)
      case None => Panicked(DebugAssertion)
      case Some(scale) => Done(Scaled(sample.significand, scale), rest)
  }

  /** The corrected scaling: the intended `2^exponent`, subnormal below
      `-bias` and exact down to the least subnormal. */
  function ScaleFixed(t: Float, o: Outcome<Sample>): (r: Outcome<Scaled>)
    requires o.Done? ==> o.value.exponent <= -(WordBits(t) as int)
    ensures r.Done? <==> o.Done?
    ensures o.Panicked? ==> r == Panicked(o.why)
    ensures o.Done? ==>
      r.value.significand == o.value.significand && r.rest == o.rest &&
      (o.value.exponent >= MinExponent(FormatOf(t)) ==> EncodesPowerOfTwo(FormatOf(t), r.value.scale, o.value.exponent))
  {
    var fmt := FormatOf(t);
    FormatFacts(t);
    match o
    case Panicked(why) => Panicked(why)
    case Done(sample, rest) => Done(Scaled(sample.significand, Exp2Fixed(fmt, sample.exponent)), rest)
  }

  /** `f64::generate` / `f32::generate` as written.  The significand is
      the sample's; a debug build that returns has scaled by exactly
      `2^exponent`, and a release build returns whenever the sampler does. */
  function GenerateFloat(build: Build, t: Float, src: Source): (r: Outcome<Scaled>)
    ensures r.Done? ==>
      GenerateSample(t, src).Done? && r.value.significand == GenerateSample(t, src).value.significand &&
      Pow2(WordBits(t) - 1) <= r.value.significand < Pow2(WordBits(t)) && r.value.significand % 2 == 1
    ensures r.Done? && build == Debug ==>
      EncodesPowerOfTwo(FormatOf(t), r.value.scale, GenerateSample(t, src).value.exponent)
    ensures build == Release ==> (r.Done? <==> GenerateSample(t, src).Done?)
  {
    FormatFacts(t);
    Scale(build, t, GenerateSample(t, src))
  }

  /** `f64::generate` / `f32::generate` with the corrected scaling: it
      returns whenever the sampler does, exactly scaled down to the least
      subnormal exponent. */
  function GenerateFloatFixed(t: Float, src: Source): (r: Outcome<Scaled>)
    ensures r.Done? <==> GenerateSample(t, src).Done?
    ensures r.Done? ==>
      r.value.significand == GenerateSample(t, src).value.significand &&
      Pow2(WordBits(t) - 1) <= r.value.significand < Pow2(WordBits(t)) && r.value.significand % 2 == 1
    ensures r.Done? && GenerateSample(t, src).value.exponent >= MinExponent(FormatOf(t)) ==>
      EncodesPowerOfTwo(FormatOf(t), r.value.scale, GenerateSample(t, src).value.exponent)
  {
    FormatFacts(t);
    ScaleFixed(t, GenerateSample(t, src))
  }

  /** A run of `MaxZeros(t)` zero words, which the loop accepts, leaves an
      exponent at or below `-bias`. */
  lemma DeepRunExponent(t: Float, draw: Source -> Outcome<nat>, src: Source)
    requires WordsFit(t, draw)
    requires ZeroDraws(draw, src, MaxZeros(t))
    requires NthCall(draw, MaxZeros(t), src).Done? && NthCall(draw, MaxZeros(t), src).value != 0
    requires NthCall(draw, MaxZeros(t) + 1, src).Done?
    ensures Sampler(t, draw, src).Done?
    ensures Sampler(t, draw, src).value.exponent <= -(FormatOf(t).bias as int)
  {
    SampleWords(t, draw, src, MaxZeros(t));
    FormatFacts(t);
  }

  /** `MaxZeros(t)` zero words before a non-zero one push the exponent to
      `-bias` or below: a debug build panics in `exp2`, and a release build
      scales by a pattern that is not `2^exponent` but `+0.0` or a number
      with the sign bit set, so the float is `0.0` or negative; the
      corrected scaling is exact whenever `2^exponent` is representable. */
  lemma DeepZeroRunMisscales(t: Float, draw: Source -> Outcome<nat>, src: Source)
    requires WordsFit(t, draw)
    requires ZeroDraws(draw, src, MaxZeros(t))
    requires NthCall(draw, MaxZeros(t), src).Done? && NthCall(draw, MaxZeros(t), src).value != 0
    requires NthCall(draw, MaxZeros(t) + 1, src).Done?
    ensures Sampler(t, draw, src).Done?
    ensures Scale(Debug, t, Sampler(t, draw, src)) == Panicked(DebugAssertion)
    ensures Scale(Release, t, Sampler(t, draw, src)).Done?
    ensures var scale := Scale(Release, t, Sampler(t, draw, src)).value.scale;
      !EncodesPowerOfTwo(FormatOf(t), scale, Sampler(t, draw, src).value.exponent) &&
      (scale == 0 || SignBit(FormatOf(t), scale) == 1)
    ensures Sampler(t, draw, src).value.exponent >= MinExponent(FormatOf(t)) ==>
      EncodesPowerOfTwo(FormatOf(t), ScaleFixed(t, Sampler(t, draw, src)).value.scale, Sampler(t, draw, src).value.exponent)
  {
    DeepRunExponent(t, draw, src);
    ScaleBelowBias(t, Sampler(t, draw, src));
  }

  /** Scaling a sample whose exponent is at or below `-bias`. */
  lemma ScaleBelowBias(t: Float, o: Outcome<Sample>)
    requires o.Done?
    requires MinExponent(FormatOf(t)) - (WordBits(t) - 1) <= o.value.exponent <= -(FormatOf(t).bias as int)
    ensures Scale(Debug, t, o) == Panicked(DebugAssertion)
    ensures Scale(Release, t, o).Done?
    ensures var scale := Scale(Release, t, o).value.scale;
      !EncodesPowerOfTwo(FormatOf(t), scale, o.value.exponent) &&
      (scale == 0 || SignBit(FormatOf(t), scale) == 1)
    ensures o.value.exponent >= MinExponent(FormatOf(t)) ==>
      EncodesPowerOfTwo(FormatOf(t), ScaleFixed(t, o).value.scale, o.value.exponent)
  {
    FormatFacts(t);
    var fmt := FormatOf(t);
    var e := o.value.exponent;
    assert Scale(Release, t, o).value.scale == Exp2Bits(fmt, e);
    if e == -(fmt.bias as int) {
      Exp2AtMinusBias(fmt);
    } else {
      Exp2BelowRangeNegative(fmt, e);
    }
  }

  /** The shallowest run that reaches the boundary: `MaxZeros(t) - 1` zero
      words and then the word 1, whose `W - 1` leading zeros bring the
      exponent to exactly `-bias`. */
  lemma EdgeRunExponent(t: Float, draw: Source -> Outcome<nat>, src: Source)
    requires WordsFit(t, draw)
    requires ZeroDraws(draw, src, MaxZeros(t) - 1)
    requires NthCall(draw, MaxZeros(t) - 1, src).Done? && NthCall(draw, MaxZeros(t) - 1, src).value == 1
    requires NthCall(draw, MaxZeros(t), src).Done?
    ensures Sampler(t, draw, src).Done?
    ensures Sampler(t, draw, src).value.exponent == -(FormatOf(t).bias as int)
  {
    var k := MaxZeros(t) - 1;
    var w := WordBits(t);
    FormatFacts(t);
    Pow2Monotone(0, w);
    LeadingZerosOne(w);
    SampleWords(t, draw, src, k);
    assert -(w * (k + 1)) - (w - 1) == -(FormatOf(t).bias as int) by {
      if t == F64 {
        assert w == 64 && k == 14;
      } else {
        assert w == 32 && k == 2;
      }
    }
  }

  /** On the boundary run a debug build panics in `exp2`; a release build
      scales by the all-zero pattern, `+0.0`. */
  lemma EdgeRunMisscales(t: Float, draw: Source -> Outcome<nat>, src: Source)
    requires WordsFit(t, draw)
    requires ZeroDraws(draw, src, MaxZeros(t) - 1)
    requires NthCall(draw, MaxZeros(t) - 1, src).Done? && NthCall(draw, MaxZeros(t) - 1, src).value == 1
    requires NthCall(draw, MaxZeros(t), src).Done?
    ensures Scale(Debug, t, Sampler(t, draw, src)) == Panicked(DebugAssertion)
    ensures Scale(Release, t, Sampler(t, draw, src)).Done? && Scale(Release, t, Sampler(t, draw, src)).value.scale == 0
  {
    EdgeRunExponent(t, draw, src);
    ScaleAtMinusBias(t, Sampler(t, draw, src));
  }

  lemma ScaleAtMinusBias(t: Float, o: Outcome<Sample>)
    requires o.Done? && o.value.exponent == -(FormatOf(t).bias as int)
    ensures Scale(Debug, t, o) == Panicked(DebugAssertion)
    ensures Scale(Release, t, o).Done? && Scale(Release, t, o).value.scale == 0
  {
    FormatFacts(t);
    assert Scale(Release, t, o).value.scale == Exp2Bits(FormatOf(t), o.value.exponent);
    Exp2AtMinusBias(FormatOf(t));
  }
}
