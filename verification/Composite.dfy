/** Arrays `[T; N]` (for `N` up to 128) and tuples: their elements are
    generated one call at a time, in order, from the same source. */
module Composite {
  import opened Bits
  import opened Sources
  import opened Values

  /** The largest array length the trait implements `GenerateRand` for. */
  const MAX_ARRAY: nat := 128

  /** The source after `k` calls of an element rule `gen`, or the panic of
      the first call that panics. */
  function After<T>(gen: Source -> Outcome<T>, k: nat, src: Source): Outcome<()>
    decreases k
  {
    if k == 0 then Done((), src)
    else
      match gen(src)
      case Panicked(why) => Panicked(why)
      case Done(_, rest) => After(gen, k - 1, rest)
  }

  /** The `(i+1)`-th call of `gen` on a source: the call made after `i`
      earlier ones. */
  function NthCall<T>(gen: Source -> Outcome<T>, i: nat, src: Source): Outcome<T>
  {
    match After(gen, i, src)
    case Panicked(why) => Panicked(why)
    case Done(_, s) => gen(s)
  }

  /** After a `(i+1)`-th call that returns, `i + 1` calls have returned and
      the next call starts where it left off. */
  lemma {:induction false} NthCallNext<T>(gen: Source -> Outcome<T>, i: nat, src: Source)
    requires NthCall(gen, i, src).Done?
    ensures After(gen, i + 1, src) == Done((), NthCall(gen, i, src).rest)
    ensures NthCall(gen, i + 1, src) == gen(NthCall(gen, i, src).rest)
    decreases i
  {
    if i > 0 {
      var first := gen(src);
      NthCallNext(gen, i - 1, first.rest);
    }
  }

  /** Counting calls from the source after a first call that returned. */
  lemma NthCallShift<T>(gen: Source -> Outcome<T>, i: nat, src: Source)
    requires gen(src).Done?
    ensures NthCall(gen, i + 1, src) == NthCall(gen, i, gen(src).rest)
    ensures NthCall(gen, 0, src) == gen(src)
  {
  }

  /** `[T; n]::generate`: one call of the element rule per element, first
      element first.  `[T; 0]` draws nothing. */
  function GenerateArray<T>(gen: Source -> Outcome<T>, n: nat, src: Source): (r: Outcome<seq<T>>)
    requires n <= MAX_ARRAY
    ensures n == 0 ==> r == Done([], src)
    ensures r.Done? <==> After(gen, n, src).Done?
    ensures r.Done? ==> |r.value| == n && r.rest == After(gen, n, src).rest
    ensures r.Panicked? ==> r.why == After(gen, n, src).why
    decreases n
  {
    if n == 0 then Done([], src)
    else
      match gen(src)
      case Panicked(why) => Panicked(why)
      case Done(x, rest) =>
        match GenerateArray(gen, n - 1, rest)
        case Panicked(why) => Panicked(why)
        case Done(xs, last) => Done([x] + xs, last)
  }

  /** Element `i` of a generated array is the result of the `(i+1)`-th
      element call. */
  lemma {:induction false} ArrayElementOrder<T>(gen: Source -> Outcome<T>, n: nat, src: Source, i: nat)
    requires n <= MAX_ARRAY && i < n
    requires GenerateArray(gen, n, src).Done?
    ensures NthCall(gen, i, src).Done? && After(gen, i + 1, src).Done?
    ensures GenerateArray(gen, n, src).value[i] == NthCall(gen, i, src).value
    ensures NthCall(gen, i, src).rest == After(gen, i + 1, src).rest
    decreases n
  {
    var first := gen(src);
    if i > 0 {
      ArrayElementOrder(gen, n - 1, first.rest, i - 1);
    }
  }

  /** A byte array drawn from a stream is the next `n` bytes, in order. */
  lemma {:induction false} ByteArrayFromStream(data: seq<byte>, c: nat, n: nat)
    requires n <= MAX_ARRAY && c + n <= |data|
    ensures GenerateArray(ByteRule, n, Stream(data, c)) == Done(data[c..c + n], Stream(data, c + n))
    decreases n
  {
    if n > 0 {
      var first := ByteRule(Stream(data, c));
      assert first == Done(data[c], Stream(data, c + 1)) by {
        assert data[c..c + 1] == [data[c]];
        Pow2Eight();
        assert LittleEndian([data[c]]) == data[c];
      }
      ByteArrayFromStream(data, c + 1, n - 1);
      assert data[c..c + n] == [data[c]] + data[c + 1..c + n];
    } else {
      assert data[c..c + n] == [];
    }
  }

  /** `u8::generate` as an element rule. */
  function ByteRule(src: Source): Outcome<byte>
  {
    match GenerateUnsigned(U8, src)
    case Panicked(why) => Panicked(why)
    case Done(b, rest) => Pow2Eight(); Done(b, rest)
  }

  /** `(A, B)::generate`: `A` first, then `B` from where `A` left off. */
  function GeneratePair<A, B>(genA: Source -> Outcome<A>, genB: Source -> Outcome<B>, src: Source): Outcome<(A, B)>
  {
    match genA(src)
    case Panicked(why) => Panicked(why)
    case Done(a, rest) =>
      match genB(rest)
      case Panicked(why) => Panicked(why)
      case Done(b, last) => Done((a, b), last)
  }

  /** `(A, B, C)::generate`: left to right. */
  function GenerateTriple<A, B, C>(genA: Source -> Outcome<A>, genB: Source -> Outcome<B>, genC: Source -> Outcome<C>,
                                   src: Source): Outcome<(A, B, C)>
  {
    match genA(src)
    case Panicked(why) => Panicked(why)
    case Done(a, rest) =>
      match GeneratePair(genB, genC, rest)
      case Panicked(why) => Panicked(why)
      case Done(bc, last) => Done((a, bc.0, bc.1), last)
  }

  /** A pair of one type is drawn exactly like a two-element array: the
      same draws in the same order, first component first. */
  lemma PairLikeArray<T>(gen: Source -> Outcome<T>, src: Source)
    ensures GeneratePair(gen, gen, src).Done? <==> GenerateArray(gen, 2, src).Done?
    ensures GeneratePair(gen, gen, src).Done? ==>
      GeneratePair(gen, gen, src).value.0 == GenerateArray(gen, 2, src).value[0] &&
      GeneratePair(gen, gen, src).value.1 == GenerateArray(gen, 2, src).value[1] &&
      GeneratePair(gen, gen, src).rest == GenerateArray(gen, 2, src).rest
  {
    var first := gen(src);
    if first.Done? {
      var one := GenerateArray(gen, 1, first.rest);
      assert one.Done? ==> one.value == [gen(first.rest).value];
    }
  }

  /** A triple of one type is drawn like a three-element array. */
  lemma TripleLikeArray<T>(gen: Source -> Outcome<T>, src: Source)
    ensures GenerateTriple(gen, gen, gen, src).Done? <==> GenerateArray(gen, 3, src).Done?
    ensures GenerateTriple(gen, gen, gen, src).Done? ==>
      var t, a := GenerateTriple(gen, gen, gen, src), GenerateArray(gen, 3, src);
      t.value.0 == a.value[0] && t.value.1 == a.value[1] && t.value.2 == a.value[2] && t.rest == a.rest
  {
    var first := gen(src);
    if first.Done? {
      PairLikeArray(gen, first.rest);
      var two := GenerateArray(gen, 2, first.rest);
      if two.Done? {
        assert GenerateArray(gen, 3, src).value == [first.value] + two.value;
      }
    }
  }

  /** `uN::generate` for a width `w`, as a tuple component rule. */
  function UnsignedRule(w: Width): Source -> Outcome<nat>
  {
    src => GenerateUnsigned(w, src)
  }

  /** A rule that, on every stream, reads the next `n` bytes little-endian
      or fails when fewer remain: what each integer rule does. */
  ghost predicate ReadsBytes(gen: Source -> Outcome<nat>, n: nat)
  {
    forall src: Source {:trigger gen(src)} :: src.Stream? ==> StreamRead(src, n, gen(src))
  }

  lemma UnsignedRuleReads(w: Width)
    ensures ReadsBytes(UnsignedRule(w), Bytes(w))
  {
    forall data: seq<byte>, c: nat
      ensures StreamRead(Stream(data, c), Bytes(w), UnsignedRule(w)(Stream(data, c)))
    {
      assert UnsignedRule(w)(Stream(data, c)) == GenerateUnsigned(w, Stream(data, c));
    }
  }

  /** A pair of two byte-reading rules on a stream, say `(u8, u32)`: the
      first component is the next `na` bytes, the second the `nb` bytes
      after them, and the pair fails exactly when the stream is too short
      for both. */
  lemma MixedPairFromStream(genA: Source -> Outcome<nat>, na: nat, genB: Source -> Outcome<nat>, nb: nat,
                            data: seq<byte>, c: nat)
    requires ReadsBytes(genA, na) && ReadsBytes(genB, nb)
    ensures var r := GeneratePair(genA, genB, Stream(data, c));
      (r.Done? <==> c + na + nb <= |data|) &&
      (r.Done? ==>
        r.value == (LittleEndian(data[c..c + na]), LittleEndian(data[c + na..c + na + nb])) &&
        r.rest == Stream(data, c + na + nb)) &&
      (r.Panicked? ==> r.why == FillFailed)
  {
    var first := genA(Stream(data, c));
    assert StreamRead(Stream(data, c), na, first);
    if first.Done? {
      assert first.rest == Stream(data, c + na);
      var second := genB(first.rest);
      assert StreamRead(Stream(data, c + na), nb, second);
      if second.Done? {
        var r := GeneratePair(genA, genB, Stream(data, c));
        assert r.Done? && r.value.0 == first.value && r.value.1 == second.value && r.rest == second.rest;
      }
    }
  }

  /** A triple of byte-reading rules on a stream: three adjacent segments,
      left to right. */
  lemma MixedTripleFromStream(genA: Source -> Outcome<nat>, na: nat, genB: Source -> Outcome<nat>, nb: nat,
                              genC: Source -> Outcome<nat>, nc: nat, data: seq<byte>, c: nat)
    requires ReadsBytes(genA, na) && ReadsBytes(genB, nb) && ReadsBytes(genC, nc)
    ensures var r := GenerateTriple(genA, genB, genC, Stream(data, c));
      (r.Done? <==> c + na + nb + nc <= |data|) &&
      (r.Done? ==>
        r.value == (LittleEndian(data[c..c + na]), LittleEndian(data[c + na..c + na + nb]),
                    LittleEndian(data[c + na + nb..c + na + nb + nc])) &&
        r.rest == Stream(data, c + na + nb + nc)) &&
      (r.Panicked? ==> r.why == FillFailed)
  {
    var first := genA(Stream(data, c));
    assert StreamRead(Stream(data, c), na, first);
    if first.Done? {
      assert first.rest == Stream(data, c + na);
      var pair := GeneratePair(genB, genC, first.rest);
      MixedPairFromStream(genB, nb, genC, nc, data, c + na);
      if pair.Done? {
        var r := GenerateTriple(genA, genB, genC, Stream(data, c));
        assert r.Done? && r.value.0 == first.value && r.value.1 == pair.value.0 && r.value.2 == pair.value.1;
        assert r.rest == pair.rest;
      }
    }
  }

  /** `(u8, u32)` from a stream: the byte first, then the next four bytes
      as a little-endian word. */
  lemma ByteWordPairFromStream(data: seq<byte>, c: nat)
    requires c + 5 <= |data|
    ensures GeneratePair(UnsignedRule(U8), UnsignedRule(U32), Stream(data, c)) ==
      Done((data[c] as nat, LittleEndian(data[c + 1..c + 5])), Stream(data, c + 5))
  {
    UnsignedRuleReads(U8);
    UnsignedRuleReads(U32);
    MixedPairFromStream(UnsignedRule(U8), 1, UnsignedRule(U32), 4, data, c);
    assert data[c..c + 1] == [data[c]];
    assert LittleEndian([data[c]]) == data[c];
  }
}
