/** `char::generate`: rejection sampling of `u32` draws against the Unicode
    scalar values (definition D76, section 3.9 of the Unicode Standard). */
module Chars {
  import opened Bits
  import opened Sources
  import opened Values

  /** A Unicode scalar value: a code point that is not a surrogate.
      `char::from_u32` accepts exactly these. */
  predicate IsScalarValue(x: nat)
  {
    x <= 0x10FFFF && !(0xD800 <= x <= 0xDFFF)
  }

  /** The retry loop of `char::generate` over a rule `draw` for the `u32`
      draws: draw until a word is a scalar value and return it.  The loop
      in the source is unbounded; `fuel` bounds the number of draws and its
      exhaustion is the model's own `OutOfFuel`. */
  function CharLoop(draw: Source -> Outcome<nat>, src: Source, fuel: nat): (r: Outcome<nat>)
    ensures r.Done? ==> IsScalarValue(r.value)
    ensures fuel == 0 ==> r == Panicked(OutOfFuel)
    decreases fuel
  {
    if fuel == 0 then Panicked(OutOfFuel)
    else
      match draw(src)
      case Panicked(why) => Panicked(why)
      case Done(w, rest) =>
        if IsScalarValue(w) then Done(w, rest) else CharLoop(draw, rest, fuel - 1)
  }

  /** `get_u32` as a draw rule. */
  function U32Rule(): Source -> Outcome<nat>
  {
    src => GetU32(src)
  }

  /** `char::generate`: the retry loop over `get_u32`. */
  function GenerateChar(src: Source, fuel: nat): (r: Outcome<nat>)
    ensures r.Done? ==> IsScalarValue(r.value)
    ensures fuel == 0 ==> r == Panicked(OutOfFuel)
  {
    CharLoop(U32Rule(), src, fuel)
  }

  /** The `u32` a stream yields at byte offset `c`. */
  function StreamWord(data: seq<byte>, c: nat): nat
    requires c + 4 <= |data|
  {
    LittleEndian(data[c..c + 4])
  }

  /** One draw of `char::generate` on a stream: accept the next word or
      retry from the four bytes after it. */
  lemma CharStep(data: seq<byte>, c: nat, fuel: nat)
    requires fuel > 0
    ensures c + 4 > |data| ==> GenerateChar(Stream(data, c), fuel) == Panicked(FillFailed)
    ensures c + 4 <= |data| ==>
      GenerateChar(Stream(data, c), fuel) ==
        (if IsScalarValue(StreamWord(data, c)) then Done(StreamWord(data, c), Stream(data, c + 4))
         else GenerateChar(Stream(data, c + 4), fuel - 1))
  {
    var first := GetU32(Stream(data, c));
    assert U32Rule()(Stream(data, c)) == first;
    assert StreamRead(Stream(data, c), 4, first);
  }

  /** The `k` words from offset `c` on are all rejected. */
  predicate Rejected(data: seq<byte>, c: nat, k: nat)
    requires c + 4 * k <= |data|
  {
    forall j :: 0 <= j < k ==> !IsScalarValue(StreamWord(data, c + 4 * j))
  }

  /** `k` rejected words are a rejected first word and `k - 1` after it. */
  lemma RejectedFirst(data: seq<byte>, c: nat, k: nat)
    requires k > 0 && c + 4 * k <= |data|
    ensures Rejected(data, c, k) <==> !IsScalarValue(StreamWord(data, c)) && Rejected(data, c + 4, k - 1)
  {
    if !IsScalarValue(StreamWord(data, c)) && Rejected(data, c + 4, k - 1) {
      forall j | 0 <= j < k
        ensures !IsScalarValue(StreamWord(data, c + 4 * j))
      {
        if j > 0 {
          assert c + 4 * j == c + 4 + 4 * (j - 1);
        }
      }
    }
    if Rejected(data, c, k) {
      assert StreamWord(data, c) == StreamWord(data, c + 4 * 0);
      forall j | 0 <= j < k - 1
        ensures !IsScalarValue(StreamWord(data, c + 4 + 4 * j))
      {
        assert c + 4 + 4 * j == c + 4 * (j + 1);
      }
    }
  }

  /** On a stream whose words `0..k-1` (from the cursor) are rejected and
      whose word `k` is a scalar value, `char::generate` returns word `k`
      and leaves the cursor after it, having consumed four bytes per draw. */
  lemma {:induction false} CharSkipsRejected(data: seq<byte>, c: nat, k: nat, fuel: nat)
    requires c + 4 * (k + 1) <= |data| && k < fuel
    requires Rejected(data, c, k) && IsScalarValue(StreamWord(data, c + 4 * k))
    ensures GenerateChar(Stream(data, c), fuel) == Done(StreamWord(data, c + 4 * k), Stream(data, c + 4 * (k + 1)))
    decreases k
  {
    CharStep(data, c, fuel);
    if k == 0 {
      assert c + 4 * k == c;
    } else {
      RejectedFirst(data, c, k);
      var m, d := k - 1, c + 4;
      assert d + 4 * m == c + 4 * k && d + 4 * (m + 1) == c + 4 * (k + 1);
      CharSkipsRejected(data, d, m, fuel - 1);
    }
  }

  /** Conversely, whenever `char::generate` returns on a stream, it returned
      the first scalar-valued word, after `k` rejected ones, with fewer
      than `fuel` rejections. */
  lemma {:induction false} CharDrawIndex(data: seq<byte>, c: nat, fuel: nat) returns (k: nat)
    requires GenerateChar(Stream(data, c), fuel).Done?
    ensures k < fuel && c + 4 * (k + 1) <= |data|
    ensures Rejected(data, c, k)
    ensures GenerateChar(Stream(data, c), fuel) == Done(StreamWord(data, c + 4 * k), Stream(data, c + 4 * (k + 1)))
    decreases fuel
  {
    CharStep(data, c, fuel);
    if IsScalarValue(StreamWord(data, c)) {
      k := 0;
    } else {
      var i := CharDrawIndex(data, c + 4, fuel - 1);
      k := i + 1;
      RejectedFirst(data, c, k);
      assert c + 4 + 4 * i == c + 4 * k;
    }
  }

  /** More fuel never changes a result that was reached: the bound only
      cuts the loop short. */
  lemma {:induction false} CharFuelMonotone(draw: Source -> Outcome<nat>, src: Source, fuel: nat, more: nat)
    requires fuel <= more
    requires CharLoop(draw, src, fuel).Done?
    ensures CharLoop(draw, src, more) == CharLoop(draw, src, fuel)
    decreases fuel
  {
    match draw(src)
    case Panicked(_) =>
    case Done(w, rest) =>
      if !IsScalarValue(w) {
        CharFuelMonotone(draw, rest, fuel - 1, more - 1);
      }
  }
}
