/** The provided getters of the `Random` trait (`get_u8` … `get_u128`,
    `get_usize`, `get_bool`), the `get_u32` override of the generators, and
    the rule that generates a signed integer from the unsigned one of the
    same width. */
module Values {
  import opened Bits
  import Pcg32
  import opened Sources

  /** The unsigned widths the trait can produce; `Usize` is fixed to a
      64-bit target. */
  datatype Width = U8 | U16 | U32 | U64 | Usize | U128

  /** The number of bytes one value of the width takes. */
  function Bytes(w: Width): nat
  {
    match w
    case U8 => 1
    case U16 => 2
    case U32 => 4
    case U64 => 8
    case Usize => 8
    case U128 => 16
  }

  /** The provided body shared by `get_u16`, `get_u32`, `get_u64` and
      `get_u128`: one `fill_bytes` of `n` bytes, read as a little-endian
      integer (the byte order of the targets considered here). */
  function GetLittleEndian(src: Source, n: nat): (r: Outcome<nat>)
    ensures r.Done? <==> FillBytes(src, n).Done?
    ensures r.Panicked? ==> r.why == FillBytes(src, n).why
    ensures r.Done? ==>
      r.value < Pow2(8 * n) && LeBytes(r.value, n) == FillBytes(src, n).value && r.rest == FillBytes(src, n).rest
    ensures src.Stream? ==> StreamRead(src, n, r)
  {
    match FillBytes(src, n)
    case Panicked(why) => Panicked(why)
    case Done(bytes, rest) =>
      LittleEndianBound(bytes);
      LeBytesOfLittleEndian(bytes);
      Done(LittleEndian(bytes), rest)
  }

  /** `get_u8`: one `fill_bytes` of one byte, returning that byte. */
  function GetU8(src: Source): (r: Outcome<byte>)
    ensures r.Done? <==> FillBytes(src, 1).Done?
    ensures r.Panicked? ==> r.why == FillBytes(src, 1).why
    ensures r.Done? ==> [r.value] == FillBytes(src, 1).value && r.rest == FillBytes(src, 1).rest
    ensures src.Stream? && r.Done? ==> r.value == src.data[src.cursor]
  {
    match FillBytes(src, 1)
    case Panicked(why) => Panicked(why)
    case Done(bytes, rest) => Done(bytes[0], rest)
  }

  /** `get_u32`.  A generator overrides it with a single `gen_u32`; every
      other source uses the provided four-byte fill. */
  function GetU32(src: Source): (r: Outcome<nat>)
    ensures r.Done? ==> r.value < TWO32
    ensures src.Fast? ==> (r.Panicked? <==> src.arith == Pcg32.Checked && Pcg32.Overflows(src.rng))
    ensures src.Fast? && r.Done? ==>
      r.value == Pcg32.Output(src.rng.state) && r.rest == src.(rng := Pcg32.Step(src.rng))
    ensures src.Stream? ==> r == GetLittleEndian(src, 4) && StreamRead(src, 4, r)
  {
    match src
    case Fast(rng, arith) =>
      (match Pcg32.GenU32(arith, rng)
       case None => Panicked(Overflow)
       case Some((w, next)) => Done(w as nat, Fast(next, arith)))
    case Stream(_, _) =>
      Pow2ThirtyTwo();
      GetLittleEndian(src, 4)
  }

  /** The overriding `get_u32` of a generator returns what the provided
      four-byte fill would have returned, leaves the generator in the same
      state, and panics in exactly the same cases. */
  lemma GetU32OverrideAgrees(rng: Pcg32.Rng, arith: Pcg32.Arith)
    ensures GetU32(Fast(rng, arith)) == GetLittleEndian(Fast(rng, arith), 4)
  {
    Pcg32.FillBytesCheckedPanics(rng, 4);
    assert Pcg32.Chunks(4) == 1;
    assert Pcg32.OverflowWithin(rng, 1) <==> Pcg32.Overflows(rng);
    if FillBytes(Fast(rng, arith), 4).Done? {
      FourBytesOfWord(rng, arith);
    }
  }

  /** A successful four-byte fill of a generator holds its next word. */
  lemma FourBytesOfWord(rng: Pcg32.Rng, arith: Pcg32.Arith)
    requires FillBytes(Fast(rng, arith), 4).Done?
    ensures GetLittleEndian(Fast(rng, arith), 4) == Done(Pcg32.Output(rng.state), Fast(Pcg32.Step(rng), arith))
  {
    var fill := FillBytes(Fast(rng, arith), 4);
    var w := Pcg32.Output(rng.state);
    FirstWordBytes(rng, fill.value);
    Pow2ThirtyTwo();
    LittleEndianOfLeBytes(w, 4);
    assert Pcg32.Chunks(4) == 1;
    assert Pcg32.Advance(rng, 1) == Pcg32.Step(rng);
  }

  lemma FirstWordBytes(rng: Pcg32.Rng, bytes: seq<byte>)
    requires |bytes| == 4 && forall i :: 0 <= i < 4 ==> bytes[i] == Pcg32.StreamByte(rng, i)
    ensures bytes == LeBytes(Pcg32.Output(rng.state), 4)
  {
    var w := Pcg32.Output(rng.state);
    assert Pcg32.Word(rng, 0) == w;
    forall i | 0 <= i < 4
      ensures bytes[i] == LeBytes(w, 4)[i]
    {
      assert i / 4 == 0 && i % 4 == i;
    }
  }

  /** What reading `n` bytes little-endian from a stream yields: the next
      `n` bytes when that many remain, with the cursor moved past them;
      otherwise the `fill_bytes` panic. */
  predicate StreamRead(src: Source, n: nat, r: Outcome<nat>)
    requires src.Stream?
  {
    (r.Done? <==> src.cursor + n <= |src.data|) &&
    (r.Done? ==>
      r.value == LittleEndian(src.data[src.cursor..src.cursor + n]) &&
      r.rest == Stream(src.data, src.cursor + n)) &&
    (r.Panicked? ==> r.why == FillFailed)
  }

  /** `u8::generate` … `u128::generate` and `usize::generate`. */
  function GenerateUnsigned(w: Width, src: Source): (r: Outcome<nat>)
    ensures r.Done? ==> r.value < Pow2(8 * Bytes(w))
    ensures src.Stream? ==> StreamRead(src, Bytes(w), r)
  {
    if w == U8 then GenerateByte(src)
    else if w == U32 then Pow2ThirtyTwo(); GetU32(src)
    else GetLittleEndian(src, Bytes(w))
  }

  function GenerateByte(src: Source): (r: Outcome<nat>)
    ensures r.Done? ==> r.value < Pow2(8)
    ensures src.Stream? ==> StreamRead(src, 1, r)
  {
    Pow2Eight();
    match GetU8(src)
    case Panicked(why) => Panicked(why)
    case Done(b, rest) =>
      assert LittleEndian([b]) == b;
      Done(b as nat, rest)
  }

  /** Two's-complement reading of an `n`-bit pattern, as `u as iN` does. */
  function ToSigned(u: nat, n: nat): (v: int)
    requires n > 0 && u < Pow2(n)
    ensures -(Pow2(n - 1) as int) <= v < Pow2(n - 1)
    ensures v % Pow2(n) == u
  {
    Pow2Add(1, n - 1);
    SignedFacts(u, Pow2(n - 1), Pow2(n));
    if u < Pow2(n - 1) then u else u - Pow2(n)
  }

  lemma SignedFacts(u: nat, h: nat, m: nat)
    requires m == 2 * h && u < m
    ensures u < h ==> u % m == u
    ensures u >= h ==> (u - m) % m == u && -(h as int) <= u - m < h
  {
    if u < h {
      DivMod(u, m, 0, u);
    } else {
      DivMod(u - m, m, -1, u);
    }
  }

  /** The bit pattern of a signed value: `v as uN`. */
  function FromSigned(v: int, n: nat): (u: nat)
    ensures u < Pow2(n)
    ensures (u - v) % Pow2(n) == 0
    ensures 0 <= v < Pow2(n) ==> u == v
  {
    var p := Pow2(n);
    var q, u := v / p, v % p;
    DivModParts(v, p);
    ModShift(0, -q, p);
    assert u - v == 0 + (-q) * p;
    assert 0 <= v < p ==> u == v by {
      if 0 <= v < p {
        DivMod(v, p, 0, v);
      }
    }
    u
  }

  /** Reading a pattern as signed and back is the identity, both ways. */
  lemma SignedRoundTrip(u: nat, v: int, n: nat)
    requires n > 0 && u < Pow2(n)
    ensures FromSigned(ToSigned(u, n), n) == u
    ensures -(Pow2(n - 1) as int) <= v < Pow2(n - 1) ==> ToSigned(FromSigned(v, n), n) == v
  {
    var h, m := Pow2(n - 1), Pow2(n);
    Pow2Add(1, n - 1);
    if -(h as int) <= v < h {
      if v < 0 {
        DivMod(v, m, -1, v + m);
        assert FromSigned(v, n) == v + m;
      } else {
        DivMod(v, m, 0, v);
        assert FromSigned(v, n) == v;
      }
    }
  }

  /** `i8::generate` … `i128::generate` and `isize::generate`: the unsigned
      value of the same width, reinterpreted.  It draws exactly what the
      unsigned rule draws. */
  function GenerateSigned(w: Width, src: Source): (r: Outcome<int>)
    ensures r.Done? <==> GenerateUnsigned(w, src).Done?
    ensures r.Done? ==>
      -(Pow2(8 * Bytes(w) - 1) as int) <= r.value < Pow2(8 * Bytes(w) - 1) &&
      FromSigned(r.value, 8 * Bytes(w)) == GenerateUnsigned(w, src).value &&
      r.rest == GenerateUnsigned(w, src).rest
  {
    match GenerateUnsigned(w, src)
    case Panicked(why) => Panicked(why)
    case Done(u, rest) => Done(ToSigned(u, 8 * Bytes(w)), rest)
  }

  /** `get_bool` as written: `(get_u8() & 0x80) == 1`, with the
      `debug_assert!(bit < 2)` checked in debug builds. */
  function GetBool(build: Build, src: Source): (r: Outcome<bool>)
    ensures r.Done? ==> !r.value
    ensures GetU8(src).Panicked? ==> r == Panicked(GetU8(src).why)
    ensures GetU8(src).Done? ==>
      (r.Panicked? <==> build == Debug && GetU8(src).value >= 0x80) &&
      (r.Panicked? ==> r.why == DebugAssertion) &&
      (r.Done? ==> r.rest == GetU8(src).rest)
  {
    match GetU8(src)
    case Panicked(why) => Panicked(why)
    case Done(b, rest) =>
      var bit := TopBit(b);
      if build == Debug && !(bit < 2) then Panicked(DebugAssertion)
      else Done(bit == 1, rest)
  }

  /** `b & 0b1000_0000` for a byte: 0x80 when the top bit is set, else 0. */
  function TopBit(b: byte): (bit: nat)
    ensures bit == (if b >= 0x80 then 0x80 else 0)
  {
    TopBitMask(b);
    BitAnd(b, 0x80)
  }

  lemma TopBitMask(b: byte)
    ensures BitAnd(b, 0x80) == (if b >= 0x80 then 0x80 else 0)
  {
    BitAndPow2(b, 7);
    Pow2Seven();
    if b >= 0x80 {
      DivMod(b, 0x80, 1, b - 0x80);
    } else {
      DivMod(b, 0x80, 0, b);
    }
  }

  /** `get_bool` as evidently intended: true exactly when the top bit of
      the drawn byte is set, so both results occur. */
  function GetBoolFixed(src: Source): (r: Outcome<bool>)
    ensures r.Done? <==> GetU8(src).Done?
    ensures r.Done? ==> (r.value <==> GetU8(src).value >= 0x80) && r.rest == GetU8(src).rest
  {
    match GetU8(src)
    case Panicked(why) => Panicked(why)
    case Done(b, rest) => Done(TopBit(b) != 0, rest)
  }

  /** The as-written `get_bool` never yields `true`, even on a byte with
      its top bit set, where the intended version does. */
  lemma GetBoolNeverTrue()
    ensures GetBool(Release, Stream([0x80], 0)) == Done(false, Stream([0x80], 1))
    ensures GetBool(Debug, Stream([0x80], 0)) == Panicked(DebugAssertion)
    ensures GetBoolFixed(Stream([0x80], 0)) == Done(true, Stream([0x80], 1))
    ensures GetBoolFixed(Stream([0x7F], 0)) == Done(false, Stream([0x7F], 1))
  {
    var one, other := Stream([0x80], 0), Stream([0x7F], 0);
    assert FillBytes(one, 1).value == [0x80];
    assert FillBytes(other, 1).value == [0x7F];
  }

  /** The counting source of the trait's documentation example: byte `i`
      is `i`.  Two `u32` draws read 0x03020100 and then 0x07060504. */
  lemma CountingSourceExample()
    ensures GenerateUnsigned(U32, Stream([0, 1, 2, 3, 4, 5, 6, 7], 0)).value == 50462976
    ensures GenerateUnsigned(U32, GenerateUnsigned(U32, Stream([0, 1, 2, 3, 4, 5, 6, 7], 0)).rest).value == 117835012
  {
    var data: seq<byte> := [0, 1, 2, 3, 4, 5, 6, 7];
    var first := GenerateUnsigned(U32, Stream(data, 0));
    assert first.Done? && first.rest == Stream(data, 4);
    assert data[0..4] == [0, 1, 2, 3] && data[4..8] == [4, 5, 6, 7];
    LittleEndianFour(0, 1, 2, 3);
    LittleEndianFour(4, 5, 6, 7);
  }

  lemma LittleEndianFour(a: byte, b: byte, c: byte, d: byte)
    ensures LittleEndian([a, b, c, d]) == a + 0x100 * b + 0x1_0000 * c + 0x100_0000 * d
  {
    assert [d][1..] == [];
    assert LittleEndian([d]) == d;
    assert [c, d][1..] == [d];
    assert LittleEndian([c, d]) == c + 0x100 * d;
    assert [b, c, d][1..] == [c, d];
    assert LittleEndian([b, c, d]) == b + 0x100 * c + 0x1_0000 * d;
    assert [a, b, c, d][1..] == [b, c, d];
  }

  /** Successive getters consume disjoint, consecutive segments of a
      stream: a `u16`, a `u32` and a `u64` read bytes `c..c+2`, `c+2..c+6`
      and `c+6..c+14`. */
  lemma ConsecutiveGetters(data: seq<byte>, c: nat)
    requires c + 14 <= |data|
    ensures GenerateUnsigned(U16, Stream(data, c)) == Done(LittleEndian(data[c..c + 2]), Stream(data, c + 2))
    ensures GenerateUnsigned(U32, Stream(data, c + 2)) == Done(LittleEndian(data[c + 2..c + 6]), Stream(data, c + 6))
    ensures GenerateUnsigned(U64, Stream(data, c + 6)) == Done(LittleEndian(data[c + 6..c + 14]), Stream(data, c + 14))
  {
  }
}
