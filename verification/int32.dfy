/** JavaScript's `(hi << 8) | lo` on values that may be `undefined`. Both
    operands go through ToInt32: undefined becomes NaN and then 0, and numbers
    wrap modulo 2^32. The shift and the OR act on 32-bit patterns, and the
    result is read back as a signed 32-bit integer. A 32-bit pattern is a
    natural number below 2^32 here. */
module JsInt32 {
  import opened Wrappers

  const TWO_32: nat := 0x1_0000_0000
  const TWO_31: nat := 0x8000_0000

  function Pow2(k: nat): (p: nat)
    ensures p >= 1
  {
    if k == 0 then 1 else 2 * Pow2(k - 1)
  }

  /** ToInt32 as a bit pattern; `None` is `undefined`. */
  function Pattern(v: Option<nat>): (u: nat)
    ensures u < TWO_32
    ensures v.None? ==> u == 0
    ensures v.Some? ==> (u - v.value) % TWO_32 == 0
    ensures v.Some? && v.value < TWO_32 ==> u == v.value
  {
    match v
    case None => 0
    case Some(n) => n % TWO_32
  }

  /** `x << 8` on a 32-bit pattern: the bits shifted past bit 31 are lost. */
  function Shl8(u: nat): (r: nat)
    ensures r < TWO_32
    ensures r % 256 == 0
    ensures r == 256 * (u % 0x100_0000)
  {
    ShiftedLow24(u);
    (u * 256) % TWO_32
  }

  /** Bitwise OR of the low `k` bits of `a` and `b`. */
  function OrBits(a: nat, b: nat, k: nat): (r: nat)
    ensures r < Pow2(k)
  {
    if k == 0 then 0
    else 2 * OrBits(a / 2, b / 2, k - 1) + (if a % 2 == 1 || b % 2 == 1 then 1 else 0)
  }

  /** A 32-bit pattern read as a two's-complement signed integer. */
  function Signed(u: nat): (r: int)
    requires u < TWO_32
    ensures -(TWO_31 as int) <= r < TWO_31
    ensures (r - u) % TWO_32 == 0
    ensures u < TWO_31 ==> r == u
  {
    if u < TWO_31 then u else u - TWO_32
  }

  /** `(hi << 8) | lo` as the decoder evaluates it for a 16-bit field. */
  function ShlOr(hi: Option<nat>, lo: Option<nat>): (r: int)
    ensures -(TWO_31 as int) <= r < TWO_31
  {
    Pow2Is32();
    Signed(OrBits(Shl8(Pattern(hi)), Pattern(lo), 32))
  }

  lemma {:induction false} Pow2Add(x: nat, y: nat)
    ensures Pow2(x + y) == Pow2(x) * Pow2(y)
  {
    if x > 0 {
      Pow2Add(x - 1, y);
      assert Pow2(x + y) == 2 * Pow2(x - 1 + y);
    }
  }

  lemma Pow2Is32()
    ensures Pow2(32) == TWO_32
    ensures Pow2(8) == 256
  {
    assert Pow2(2) == 4;
    assert Pow2(4) == 16 by { Pow2Add(2, 2); }
    assert Pow2(8) == 256 by { Pow2Add(4, 4); }
    assert Pow2(16) == 65536 by { Pow2Add(8, 8); }
    Pow2Add(16, 16);
  }

  /** Shifting left by 8 keeps the low 24 bits, moved up one byte. */
  lemma ShiftedLow24(u: nat)
    ensures (u * 256) % TWO_32 == 256 * (u % 0x100_0000)
  {
    var q := u / 0x100_0000;
    var s := u % 0x100_0000;
    assert u == 0x100_0000 * q + s;
    assert u * 256 == TWO_32 * q + 256 * s;
    ModUnique(u * 256, TWO_32, q, 256 * s);
  }

  lemma ModUnique(a: nat, n: nat, q: nat, r: nat)
    requires n > 0 && a == n * q + r && r < n
    ensures a % n == r && a / n == q
  {
    var q', r' := a / n, a % n;
    assert a == n * q' + r';
    if q > q' {
      assert n * q == n * q' + n * (q - q');
      MulAtLeast(n, q - q');
    } else if q < q' {
      assert n * q' == n * q + n * (q' - q);
      MulAtLeast(n, q' - q);
    }
  }

  lemma MulAtLeast(n: nat, d: nat)
    requires d >= 1
    ensures n * d >= n
  {
  }

  /** Splitting off the lowest bit: `a % 2P == 2 * ((a / 2) % P) + a % 2`. */
  lemma ModDouble(a: nat, p: nat)
    requires p > 0
    ensures a % (2 * p) == 2 * ((a / 2) % p) + a % 2
  {
    var q := a / 2;
    assert a == 2 * q + a % 2;
    assert q == p * (q / p) + q % p;
    assert a == (2 * p) * (q / p) + (2 * (q % p) + a % 2);
    ModUnique(a, 2 * p, q / p, 2 * (q % p) + a % 2);
  }

  /** OR with 0 keeps the low `k` bits. */
  lemma {:induction false} OrZero(a: nat, k: nat)
    ensures OrBits(a, 0, k) == a % Pow2(k)
  {
    if k > 0 {
      OrZero(a / 2, k - 1);
      ModDouble(a, Pow2(k - 1));
    }
  }

  /** OR of bit-disjoint operands is addition: `b` fits in the low `j` bits
      and those bits of `a` are clear. */
  lemma {:induction false} OrDisjoint(a: nat, b: nat, j: nat, k: nat)
    requires j <= k
    requires a % Pow2(j) == 0 && b < Pow2(j)
    ensures OrBits(a, b, k) == a % Pow2(k) + b
  {
    if j == 0 {
      OrZero(a, k);
    } else {
      assert a % 2 == 0 by {
        ModDouble(a, Pow2(j - 1));
      }
      assert (a / 2) % Pow2(j - 1) == 0 by {
        ModDouble(a, Pow2(j - 1));
      }
      OrDisjoint(a / 2, b / 2, j - 1, k - 1);
      ModDouble(a, Pow2(k - 1));
    }
  }

  /** Bit `i` of `a`. */
  function Bit(a: nat, i: nat): (r: nat)
    ensures r < 2
  {
    (a / Pow2(i)) % 2
  }

  /** Halving then dividing by `p` is dividing by `2p`. */
  lemma DivDouble(x: nat, p: nat)
    requires p > 0
    ensures x / (2 * p) == (x / 2) / p
  {
    var h := x / 2;
    assert x == 2 * h + x % 2;
    assert h == p * (h / p) + h % p;
    assert x == (2 * p) * (h / p) + (2 * (h % p) + x % 2);
    ModUnique(x, 2 * p, h / p, 2 * (h % p) + x % 2);
  }

  /** Bit 0 is the parity. */
  lemma BitZero(x: nat)
    ensures Bit(x, 0) == x % 2
  {
    assert Pow2(0) == 1;
  }

  /** Bit `i` of `x` is bit `i - 1` of `x / 2`. */
  lemma BitStep(x: nat, i: nat)
    requires i > 0
    ensures Bit(x, i) == Bit(x / 2, i - 1)
  {
    assert Pow2(i) == 2 * Pow2(i - 1);
    DivDouble(x, Pow2(i - 1));
  }

  lemma Halve(o: nat, c: nat)
    requires c < 2
    ensures (2 * o + c) / 2 == o && (2 * o + c) % 2 == c
  {
    ModUnique(2 * o + c, 2, o, c);
  }

  /** Each of the low `k` bits of the OR is set exactly when that bit is set
      in either operand; this fixes `OrBits` as `|`, overlapping bits
      included. */
  lemma {:induction false} OrBitsBit(a: nat, b: nat, k: nat, i: nat)
    requires i < k
    ensures Bit(OrBits(a, b, k), i) == if Bit(a, i) == 1 || Bit(b, i) == 1 then 1 else 0
  {
    var o := OrBits(a / 2, b / 2, k - 1);
    var c := if a % 2 == 1 || b % 2 == 1 then 1 else 0;
    assert OrBits(a, b, k) == 2 * o + c;
    Halve(o, c);
    if i == 0 {
      BitZero(2 * o + c);
      BitZero(a);
      BitZero(b);
    } else {
      OrBitsBit(a / 2, b / 2, k - 1, i - 1);
      BitStep(2 * o + c, i);
      BitStep(a, i);
      BitStep(b, i);
    }
  }

  /** OR of a value with itself keeps its low `k` bits. */
  lemma {:induction false} OrSelf(a: nat, k: nat)
    ensures OrBits(a, a, k) == a % Pow2(k)
  {
    if k > 0 {
      OrSelf(a / 2, k - 1);
      ModDouble(a, Pow2(k - 1));
    }
  }

  /** A low token of 256 overlaps the shifted high byte: `(1 << 8) | 256` is
      256, not the sum 512. */
  lemma ShlOrOverlap()
    ensures ShlOr(Some(1), Some(256)) == 256
  {
    Pow2Is32();
    assert Shl8(Pattern(Some(1))) == 256;
    OrSelf(256, 32);
  }

  /** Two byte-sized tokens combine big-endian into 0..65535. */
  lemma ShlOrOfBytes(hi: nat, lo: nat)
    requires hi < 256 && lo < 256
    ensures ShlOr(Some(hi), Some(lo)) == hi * 256 + lo
    ensures 0 <= ShlOr(Some(hi), Some(lo)) < 65536
  {
    Pow2Is32();
    var a := Shl8(hi);
    assert hi * 256 < TWO_32;
    ModUnique(hi * 256, TWO_32, 0, hi * 256);
    assert a == hi * 256;
    OrDisjoint(a, lo, 8, 32);
    ModUnique(a, TWO_32, 0, a);
    assert OrBits(a, lo, 32) == hi * 256 + lo;
  }

  /** Any value in 0..65535, split into its high and low byte, comes back. */
  lemma ShlOrSplit16(v: nat)
    requires v < 65536
    ensures ShlOr(Some(v / 256), Some(v % 256)) == v
  {
    ShlOrOfBytes(v / 256, v % 256);
  }

  /** `undefined` in either operand behaves exactly as 0. */
  lemma ShlOrUndefinedIsZero(x: Option<nat>)
    ensures ShlOr(None, x) == ShlOr(Some(0), x)
    ensures ShlOr(x, None) == ShlOr(x, Some(0))
  {
  }

  /** A high token of 0x800000 or more overflows the 32-bit shift: 0x800000
      shifted by 8 lands on the sign bit and reads back negative. */
  lemma ShlOrOverflow()
    ensures ShlOr(Some(0x80_0000), Some(0)) == -(TWO_31 as int)
  {
    Pow2Is32();
    var a := Shl8(Pattern(Some(0x80_0000)));
    assert a == TWO_31;
    OrDisjoint(a, 0, 8, 32);
  }
}
