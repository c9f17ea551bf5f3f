/**
 * Fixed-width unsigned integers, bytes and the bitwise operators the
 * generator and the typed-value layer use, all stated over `nat`.
 *
 * Rust's `<<` on an N-bit integer is a multiplication by a power of two
 * truncated to N bits, `>>` is a division by a power of two, and `|` / `^`
 * are defined here bit by bit, so that every wrap-around is explicit.
 */
module Bits {

  /** The two build profiles: plain `+`/`*` and `debug_assert!` are checked
      in `Debug` and wrap (resp. vanish) in `Release`. */
  datatype Build = Debug | Release

  datatype Option<+T> = None | Some(value: T)

  const TWO8: nat := 0x100
  const TWO32: nat := 0x1_0000_0000
  const TWO63: nat := 0x8000_0000_0000_0000
  const TWO64: nat := 0x1_0000_0000_0000_0000

  type byte = x: int | 0 <= x < TWO8
  type u32 = x: int | 0 <= x < TWO32
  type u64 = x: int | 0 <= x < TWO64

  function Pow2(n: nat): (r: nat)
    ensures r >= 1
  {
    if n == 0 then 1 else 2 * Pow2(n - 1)
  }

  lemma {:induction false} Pow2Add(a: nat, b: nat)
    ensures Pow2(a + b) == Pow2(a) * Pow2(b)
  {
    if a > 0 {
      Pow2Add(a - 1, b);
      assert Pow2(a + b) == 2 * Pow2(a - 1 + b);
    }
  }

  lemma {:induction false} Pow2Monotone(a: nat, b: nat)
    requires a < b
    ensures Pow2(a) < Pow2(b)
  {
    if a + 1 < b {
      Pow2Monotone(a, b - 1);
    }
  }

  lemma Pow2Le(a: nat, b: nat)
    requires a <= b
    ensures Pow2(a) <= Pow2(b)
  {
    if a < b {
      Pow2Monotone(a, b);
    }
  }

  /** `Pow2` is strictly increasing, so it preserves and reflects order. */
  lemma Pow2Order(a: nat, b: nat)
    ensures a < b <==> Pow2(a) < Pow2(b)
  {
    if a < b {
      Pow2Monotone(a, b);
    } else {
      Pow2Le(b, a);
    }
  }

  lemma Pow2Seven()
    ensures Pow2(7) == 0x80
  {
    assert Pow2(7) == 0x80;
  }

  lemma Pow2Eight()
    ensures Pow2(8) == TWO8
  {
    Pow2Seven();
  }

  lemma Pow2Sixteen()
    ensures Pow2(8) == TWO8 && Pow2(16) == 0x1_0000
  {
    Pow2Eight();
    Pow2Add(8, 8);
  }

  lemma Pow2ThirtyTwo()
    ensures Pow2(8) == TWO8 && Pow2(16) == 0x1_0000 && Pow2(32) == TWO32
  {
    Pow2Sixteen();
    Pow2Add(16, 16);
  }

  /** The named powers of two used throughout agree with `Pow2`: each
      lemma of this chain adds the next one to those before it. */
  lemma Pow2SixtyFour()
    ensures Pow2(8) == TWO8 && Pow2(16) == 0x1_0000 && Pow2(32) == TWO32
    ensures Pow2(63) == TWO63 && Pow2(64) == TWO64
  {
    Pow2ThirtyTwo();
    Pow2Add(32, 32);
    assert Pow2(64) == 2 * Pow2(63);
  }

  /** Euclidean division is unique: the fact every shift lemma rests on. */
  lemma DivMod(x: int, m: int, q: int, r: int)
    requires m > 0 && 0 <= r < m && x == q * m + r
    ensures x / m == q && x % m == r
  {
    var q0, r0 := x / m, x % m;
    assert (q - q0) * m == r0 - r;
    if q0 < q {
      MulAtLeast(q - q0, m);
    } else if q < q0 {
      MulAtLeast(q0 - q, m);
    }
  }

  lemma MulAtLeast(a: int, m: int)
    requires a >= 1 && m > 0
    ensures a * m >= m
  {
  }

  /** `x >> s` on an unsigned integer. */
  function Shr(x: nat, s: nat): nat
  {
    DivNat(x, Pow2(s));
    x / Pow2(s)
  }

  lemma DivNat(x: nat, a: int)
    requires a > 0
    ensures 0 <= x / a <= x
  {
    var q := x / a;
    assert q * a + x % a == x;
    if q > x {
      MulGe(q, a);
    }
  }

  lemma {:induction false} MulGe(q: nat, a: int)
    requires a >= 1
    ensures q * a >= q
    decreases q
  {
    if q > 0 {
      MulGe(q - 1, a);
      assert q * a == (q - 1) * a + a;
    }
  }

  /** `x << s` on an `n`-bit unsigned integer: the bits shifted past `n` are lost. */
  function Shl(x: nat, s: nat, n: nat): nat
  {
    (x * Pow2(s)) % Pow2(n)
  }

  lemma DivBound(x: nat, a: nat, b: nat)
    requires a > 0 && x < a * b
    ensures x / a < b
  {
    if x / a >= b {
      MulLe(b, x / a, a);
    }
  }

  /** Shifting left by `s` within `r + s` bits keeps exactly the low `r` bits. */
  lemma ShlTruncates(x: nat, r: nat, s: nat)
    ensures Shl(x, s, r + s) == (x % Pow2(r)) * Pow2(s)
  {
    var a, b := Pow2(r), Pow2(s);
    var hi, lo := x / a, x % a;
    DivModParts(x, a);
    Pow2Add(r, s);
    MulSplit(x, hi, lo, a, b);
    MulLt(lo, a, b);
    DivMod(x * b, a * b, hi, lo * b);
  }

  /** Adding a multiple of the modulus does not change the remainder. */
  lemma ModShift(x: int, k: int, m: int)
    requires m > 0
    ensures (x + k * m) % m == x % m
  {
    DivMod(x + k * m, m, x / m + k, x % m);
  }

  /** Reducing modulo `2^q` and then modulo `2^p`, for `p <= q`, is reducing modulo `2^p`. */
  lemma ModMod(x: int, p: nat, q: nat)
    requires p <= q
    ensures (x % Pow2(q)) % Pow2(p) == x % Pow2(p)
  {
    Pow2Add(p, q - p);
    ModModInt(x, Pow2(p), Pow2(q - p));
  }

  lemma ModModInt(x: int, a: int, c: int)
    requires a > 0 && c > 0
    ensures (x % (a * c)) % a == x % a
  {
    var b := a * c;
    var k := x / b;
    DivModParts(x, b);
    MulAssoc(k, c, a);
    ModShift(x % b, k * c, a);
  }

  lemma MulAssoc(k: int, c: int, a: int)
    ensures k * (a * c) == (k * c) * a
  {
  }

  lemma DivModParts(x: int, a: int)
    requires a > 0
    ensures x == (x / a) * a + x % a && 0 <= x % a < a
  {
  }

  /** A high part below `a` and a low part below `b` pack into less than `a * b`. */
  lemma PackBound(hi: int, lo: int, a: int, b: int)
    requires 0 <= hi < a && 0 <= lo < b
    ensures hi * b + lo < a * b
  {
    MulLe(hi + 1, a, b);
    assert (hi + 1) * b == hi * b + b;
  }

  lemma MulLt(lo: int, a: int, b: int)
    requires 0 <= lo < a && b > 0
    ensures 0 <= lo * b < a * b
  {
    MulLe(lo + 1, a, b);
  }

  lemma MulSplit(x: int, hi: int, lo: int, a: int, b: int)
    requires x == hi * a + lo
    ensures x * b == hi * (a * b) + lo * b
  {
  }

  /** `x >> r` of an `(r + s)`-bit number fits in `s` bits. */
  lemma ShrFits(x: nat, r: nat, s: nat)
    requires x < Pow2(r + s)
    ensures Shr(x, r) < Pow2(s)
  {
    Pow2Add(r, s);
    DivBound(x, Pow2(r), Pow2(s));
  }

  /** Bitwise OR of two unsigned integers, least-significant bit first. */
  function BitOr(a: nat, b: nat): nat
    decreases a + b
  {
    if a == 0 then b
    else if b == 0 then a
    else 2 * BitOr(a / 2, b / 2) + (if a % 2 == 1 || b % 2 == 1 then 1 else 0)
  }

  /** Bitwise exclusive OR, least-significant bit first. */
  function BitXor(a: nat, b: nat): nat
    decreases a + b
  {
    if a == 0 then b
    else if b == 0 then a
    else 2 * BitXor(a / 2, b / 2) + (if a % 2 != b % 2 then 1 else 0)
  }

  /** One step of `BitXor`, given the exclusive OR of the halves. */
  lemma XorStep(a: nat, b: nat, x: nat)
    requires a > 0 && b > 0 && BitXor(a / 2, b / 2) == x
    ensures BitXor(a, b) == 2 * x + (if a % 2 != b % 2 then 1 else 0)
  {
  }

  /** Halving distributes over exclusive OR. */
  lemma XorHalf(a: nat, b: nat)
    ensures BitXor(a, b) / 2 == BitXor(a / 2, b / 2)
  {
  }

  /** A right shift distributes over exclusive OR. */
  lemma {:induction false} ShrXor(a: nat, b: nat, k: nat)
    ensures Shr(BitXor(a, b), k) == BitXor(Shr(a, k), Shr(b, k))
    decreases k
  {
    if k > 0 {
      calc {
        Shr(BitXor(a, b), k);
      == { ShrHalf(BitXor(a, b), k); }
        Shr(BitXor(a, b) / 2, k - 1);
      == { XorHalf(a, b); }
        Shr(BitXor(a / 2, b / 2), k - 1);
      == { ShrXor(a / 2, b / 2, k - 1); }
        BitXor(Shr(a / 2, k - 1), Shr(b / 2, k - 1));
      == { ShrHalf(a, k); ShrHalf(b, k); }
        BitXor(Shr(a, k), Shr(b, k));
      }
    } else {
      ShrZero(BitXor(a, b));
      ShrZero(a);
      ShrZero(b);
    }
  }

  /** Shifting by nothing leaves the value. */
  lemma ShrZero(x: nat)
    ensures Shr(x, 0) == x
  {
    assert Pow2(0) == 1;
  }

  /** Shifting by `k > 0` is halving and then shifting by `k - 1`. */
  lemma ShrHalf(x: nat, k: nat)
    requires k > 0
    ensures Shr(x, k) == Shr(x / 2, k - 1)
  {
    assert Pow2(k) == 2 * Pow2(k - 1);
    DivDiv(x, 2, Pow2(k - 1));
  }

  /** Two right shifts are one by their sum. */
  lemma ShrShr(x: nat, a: nat, b: nat)
    ensures Shr(Shr(x, a), b) == Shr(x, a + b)
  {
    Pow2Add(a, b);
    DivDiv(x, Pow2(a), Pow2(b));
  }

  /** Bitwise AND, least-significant bit first. */
  function BitAnd(a: nat, b: nat): nat
    decreases a + b
  {
    if a == 0 || b == 0 then 0
    else 2 * BitAnd(a / 2, b / 2) + (if a % 2 == 1 && b % 2 == 1 then 1 else 0)
  }

  /** ANDing with `2^k` keeps bit `k` and clears the rest. */
  lemma {:induction false} BitAndPow2(x: nat, k: nat)
    ensures BitAnd(x, Pow2(k)) == Pow2(k) * ((x / Pow2(k)) % 2)
    decreases k
  {
    if k == 0 {
      assert Pow2(0) == 1;
    } else if x == 0 {
      assert x / Pow2(k) == 0;
    } else {
      var p := Pow2(k - 1);
      assert Pow2(k) == 2 * p;
      assert Pow2(k) / 2 == p && Pow2(k) % 2 == 0;
      BitAndPow2(x / 2, k - 1);
      DivDiv(x, 2, p);
      MulTwice((x / 2 / p) % 2, p);
    }
  }

  /** Dividing twice is dividing by the product. */
  lemma DivDiv(x: nat, a: int, b: int)
    requires a > 0 && b > 0
    ensures x / a / b == x / (a * b)
  {
    var q1, r1 := x / a, x % a;
    DivModParts(x, a);
    var q2, r2 := q1 / b, q1 % b;
    DivModParts(q1, b);
    PackBound(r2, r1, b, a);
    assert x == q2 * (a * b) + (r2 * a + r1) by {
      assert x == q1 * a + r1;
      assert q1 * a == q2 * b * a + r2 * a;
    }
    DivMod(x, a * b, q2, r2 * a + r1);
  }

  /** ORing bits into a range that is zero is addition. */
  lemma {:induction false} OrDisjoint(a: nat, b: nat, s: nat)
    requires b < Pow2(s)
    ensures BitOr(a * Pow2(s), b) == a * Pow2(s) + b
  {
    var x := a * Pow2(s);
    if s == 0 || x == 0 || b == 0 {
    } else {
      assert x == 2 * (a * Pow2(s - 1));
      assert x / 2 == a * Pow2(s - 1) && x % 2 == 0;
      OrDisjoint(a, b / 2, s - 1);
    }
  }

  /** Setting bit 0 makes a number odd and moves it by at most one. */
  lemma OrOne(x: nat)
    ensures BitOr(x, 1) == if x % 2 == 1 then x else x + 1
  {
    if x > 0 {
      assert BitOr(x, 1) == 2 * BitOr(x / 2, 0) + 1;
    }
  }

  lemma {:induction false} OrSelf(x: nat)
    ensures BitOr(x, x) == x
  {
    if x > 0 {
      OrSelf(x / 2);
    }
  }

  lemma MulTwice(a: int, p: int)
    ensures a * (2 * p) == 2 * (a * p)
  {
  }

  /** Number of significant bits: zero for zero. */
  function BitLength(x: nat): nat
  {
    if x == 0 then 0 else 1 + BitLength(x / 2)
  }

  lemma {:induction false} BitLengthBounds(x: nat)
    requires x > 0
    ensures Pow2(BitLength(x) - 1) <= x < Pow2(BitLength(x))
  {
    if x > 1 {
      BitLengthBounds(x / 2);
    }
  }

  lemma {:induction false} BitLengthAtMost(x: nat, n: nat)
    requires x < Pow2(n)
    ensures BitLength(x) <= n
  {
    if x > 0 {
      assert n > 0;
      BitLengthAtMost(x / 2, n - 1);
    }
  }

  /** `leading_zeros` of an `n`-bit unsigned integer: the shift that brings
      its highest set bit to position `n - 1` (all `n` bits for zero). */
  function LeadingZeros(n: nat, x: nat): (lz: nat)
    requires x < Pow2(n)
    ensures lz <= n
    ensures x == 0 <==> lz == n
    ensures x > 0 ==> Pow2(n - 1) <= x * Pow2(lz) < Pow2(n)
  {
    LeadingZerosFacts(n, x);
    n - BitLength(x)
  }

  /** A number with its top bit set has no leading zeros. */
  lemma LeadingZerosTop(n: nat, x: nat)
    requires n >= 1 && Pow2(n - 1) <= x < Pow2(n)
    ensures LeadingZeros(n, x) == 0
  {
    var lz := LeadingZeros(n, x);
    MulLe(Pow2(n - 1), x, Pow2(lz));
    Pow2Add(n - 1, lz);
    Pow2Order(n - 1 + lz, n);
  }

  lemma LeadingZerosFacts(n: nat, x: nat)
    requires x < Pow2(n)
    ensures BitLength(x) <= n
    ensures x == 0 <==> BitLength(x) == 0
    ensures x > 0 ==> Pow2(n - 1) <= x * Pow2(n - BitLength(x)) < Pow2(n)
  {
    BitLengthAtMost(x, n);
    var len := BitLength(x);
    if x > 0 {
      BitLengthBounds(x);
      var lo, hi, k := Pow2(len - 1), Pow2(len), Pow2(n - len);
      Pow2Add(len - 1, n - len);
      Pow2Add(len, n - len);
      assert n - 1 == len - 1 + (n - len);
      MulLe(lo, x, k);
      MulLt(x, hi, k);
    }
  }

  lemma MulLe(a: int, b: int, k: int)
    requires a <= b && k >= 0
    ensures a * k <= b * k
  {
  }

  /** Little-endian value of a byte string: byte 0 is the least significant. */
  function LittleEndian(bs: seq<byte>): nat
  {
    if |bs| == 0 then 0 else bs[0] + TWO8 * LittleEndian(bs[1..])
  }

  /** The `n` little-endian bytes of `x` (its low `8n` bits). */
  function LeBytes(x: nat, n: nat): (bs: seq<byte>)
    ensures |bs| == n
  {
    if n == 0 then [] else [x % TWO8] + LeBytes(x / TWO8, n - 1)
  }

  lemma {:induction false} LittleEndianBound(bs: seq<byte>)
    ensures LittleEndian(bs) < Pow2(8 * |bs|)
  {
    if |bs| > 0 {
      LittleEndianBound(bs[1..]);
      Pow2Eight();
      Pow2Add(8, 8 * (|bs| - 1));
      assert 8 * |bs| == 8 + 8 * (|bs| - 1);
    }
  }

  /** Writing `x` as `n` bytes and reading them back gives `x` again. */
  lemma {:induction false} LittleEndianOfLeBytes(x: nat, n: nat)
    requires x < Pow2(8 * n)
    ensures LittleEndian(LeBytes(x, n)) == x
  {
    if n > 0 {
      Pow2Eight();
      Pow2Add(8, 8 * (n - 1));
      assert 8 * n == 8 + 8 * (n - 1);
      assert x / TWO8 < Pow2(8 * (n - 1));
      LittleEndianOfLeBytes(x / TWO8, n - 1);
      assert LeBytes(x, n)[1..] == LeBytes(x / TWO8, n - 1);
    } else {
      assert Pow2(0) == 1;
    }
  }

  /** Reading bytes and writing the value back gives the same bytes. */
  lemma {:induction false} LeBytesOfLittleEndian(bs: seq<byte>)
    ensures LeBytes(LittleEndian(bs), |bs|) == bs
  {
    if |bs| > 0 {
      var x := LittleEndian(bs);
      DivMod(x, TWO8, LittleEndian(bs[1..]), bs[0]);
      LeBytesOfLittleEndian(bs[1..]);
      assert bs == [bs[0]] + bs[1..];
    }
  }

  /** Bytes that are all zero read as zero. */
  lemma {:induction false} LittleEndianZeros(bs: seq<byte>)
    requires forall i :: 0 <= i < |bs| ==> bs[i] == 0
    ensures LittleEndian(bs) == 0
  {
    if |bs| > 0 {
      LittleEndianZeros(bs[1..]);
    }
  }
}
