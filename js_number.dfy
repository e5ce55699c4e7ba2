/**
 * The numeric conversions of the JavaScript runtime that the rasterizer,
 * the host glue and the cache key rely on, over unbounded integers and
 * reals (ECMA-262: ToInt32 section 7.1.6, ToUint32 section 7.1.7,
 * ToUint8 section 7.1.11; Math.floor, Math.ceil, Math.round, Math.min,
 * Math.max and Math.abs, section 21.3.2).
 *
 * Doubles are modelled as reals: every value here is exact.
 */
module JsNumber {

  const TwoTo31: int := 0x8000_0000
  const TwoTo32: int := 0x1_0000_0000

  /** One element of a Uint8Array, or one byte of linear memory. */
  type Byte = b: int | 0 <= b < 256

  predicate IsInt32(n: int) {
    -TwoTo31 <= n < TwoTo31
  }

  predicate IsUint32(n: int) {
    0 <= n < TwoTo32
  }

  /** ToUint32: the integer modulo 2^32, as a non-negative value. */
  function ToUint32(n: int): (u: int)
    ensures IsUint32(u)
    ensures (n - u) % TwoTo32 == 0
  {
    n % TwoTo32
  }

  /** ToInt32: the integer modulo 2^32, as a two's-complement value. */
  function ToInt32(n: int): (s: int)
    ensures IsInt32(s)
    ensures (n - s) % TwoTo32 == 0
  {
    var u := ToUint32(n);
    if u >= TwoTo31 then u - TwoTo32 else u
  }

  /** ToInt32 only looks at its argument modulo 2^32. */
  lemma ToInt32Congruent(a: int, b: int)
    requires (a - b) % TwoTo32 == 0
    ensures ToInt32(a) == ToInt32(b)
  {
    var k := (a - b) / TwoTo32;
    assert a == b + TwoTo32 * k;
    assert ToUint32(a) == ToUint32(b);
  }

  /** ToInt32 leaves a value already in the 32-bit range unchanged. */
  lemma ToInt32OfInt32(n: int)
    requires IsInt32(n)
    ensures ToInt32(n) == n
  {
  }

  /** The 32-bit pattern that both ToInt32 and ToUint32 of `n` stand for. */
  function Bits(n: int): bv32 {
    ToUint32(n) as bv32
  }

  /** The two's-complement value of a 32-bit pattern: the sign bit counts -2^31. */
  function Signed(b: bv32): (s: int)
    ensures IsInt32(s)
    ensures s >= 0 <==> b & 0x8000_0000 == 0
    ensures s % TwoTo31 == Low31(b)
  {
    var low := Low31(b);
    if b & 0x8000_0000 == 0 then
      DivModUnique(low, TwoTo31, 0, low);
      low
    else
      DivModUnique(low - TwoTo31, TwoTo31, -1, low);
      low - TwoTo31
  }

  /** The pattern `b & 0x7FFFFFFF`, as the non-negative integer it denotes. */
  function Low31(b: bv32): (n: int)
    ensures 0 <= n <= 0x7FFF_FFFF
  {
    ((b & 0x7FFF_FFFF) as bv31) as int
  }

  function Pow2(e: nat): (p: nat)
    ensures p >= 1
  {
    if e == 0 then 1 else 2 * Pow2(e - 1)
  }

  /** `a << n` for a shift count n in [0, 31]: the low 32 bits of ToInt32(a) * 2^n, as an int32. */
  function ShiftLeft(a: int, n: nat): (s: int)
    requires n < 32
    ensures IsInt32(s)
  {
    ToInt32(ToInt32(a) * Pow2(n))
  }

  lemma Pow2Values()
    ensures Pow2(5) == 32 && Pow2(8) == 0x100 && Pow2(13) == 0x2000 && Pow2(16) == 0x1_0000
  {
    assert Pow2(4) == 16;
    assert Pow2(8) == 0x100;
    assert Pow2(12) == 0x1000;
  }

  /** `a >> n` for a shift count n in [0, 31]: ToInt32(a) divided by 2^n, rounded down. */
  function ShiftRight(a: int, n: nat): int
    requires n < 32
  {
    ToInt32(a) / Pow2(n)
  }

  /** `a & 255`: the low eight bits of ToInt32(a). */
  function LowByte(a: int): (b: Byte)
    ensures (ToUint32(a) - b) % 256 == 0
  {
    ToInt32(a) % 256
  }

  /** Math.floor. */
  function Floor(r: real): (n: int)
    ensures n as real <= r < n as real + 1.0
  {
    r.Floor
  }

  /** Math.ceil. */
  function Ceil(r: real): (n: int)
    ensures n as real - 1.0 < r <= n as real
  {
    -((-r).Floor)
  }

  /** Math.ceil(a / b) for integers is the rounded-up integer quotient. */
  lemma CeilOfQuotient(a: int, b: int)
    requires a >= 0 && b > 0
    ensures Ceil(a as real / b as real) == (a + b - 1) / b
  {
    var q := (a + b - 1) / b;
    var c := Ceil(a as real / b as real);
    assert (q - 1) * b < a <= q * b;
    RealQuotientBounds(a, b, q);
    assert c == q;
  }

  lemma RealQuotientBounds(a: int, b: int, q: int)
    requires b > 0 && (q - 1) * b < a <= q * b
    ensures (q - 1) as real < a as real / b as real <= q as real
  {
    assert ((q - 1) * b) as real == (q - 1) as real * b as real;
    assert (q * b) as real == q as real * b as real;
    DivBounds(a as real, b as real, (q - 1) as real, q as real);
  }

  /** Dividing by a positive number keeps strict lower and weak upper bounds. */
  lemma DivBounds(a: real, b: real, lo: real, hi: real)
    requires b > 0.0 && lo * b < a <= hi * b
    ensures lo < a / b <= hi
  {
  }

  /**
   * Math.round: the nearest integer, halves rounded towards +infinity.
   * The contract determines the result uniquely.
   */
  function Round(r: real): (n: int)
    ensures r - 0.5 < n as real <= r + 0.5
  {
    (r + 0.5).Floor
  }

  /** Rounding an integral value gives it back. */
  lemma RoundOfInteger(n: int)
    ensures Round(n as real) == n
  {
  }

  /** Math.trunc (and the wasm float-to-int truncation): rounding towards zero. */
  function Trunc(r: real): (n: int)
    ensures r >= 0.0 ==> n as real <= r < n as real + 1.0
    ensures r < 0.0 ==> n as real - 1.0 < r <= n as real
  {
    if r >= 0.0 then r.Floor else -((-r).Floor)
  }

  /** `Math.max(lo, Math.min(hi, v))`: v clamped into [lo, hi]. */
  function Clamp(lo: real, hi: real, v: real): (c: real)
    ensures lo <= hi ==> lo <= c <= hi
    ensures lo <= v <= hi ==> c == v
    ensures lo <= hi && v < lo ==> c == lo
    ensures lo <= hi && hi < v ==> c == hi
  {
    var m := if hi < v then hi else v;
    if lo > m then lo else m
  }

  /** ToUint8: the value stored by an assignment into a Uint8Array. */
  function ToUint8(r: real): (b: Byte)
    ensures 0.0 <= r < 256.0 ==> b == r.Floor
  {
    Trunc(r) % 256
  }

  /** Math.abs on an integer. */
  function Abs(n: int): (a: nat)
    ensures a == n || a == -n
  {
    if n < 0 then -n else n
  }

  /** Row-major layout: (x, y) of a width-w, height-h raster is index y*w + x, and each index has one (x, y). */
  lemma RowMajorIndex(x: int, y: int, w: int, h: int)
    requires 0 <= x < w && 0 <= y < h
    ensures 0 <= y * w + x < w * h
    ensures (y * w + x) % w == x && (y * w + x) / w == y
  {
    assert (y + 1) * w == y * w + w;
    MulMonotonic(y + 1, h, w);
    assert h * w == w * h;
    DivModUnique(y * w + x, w, y, x);
  }

  lemma DivModUnique(u: int, d: int, q: int, r: int)
    requires d > 0 && u == q * d + r && 0 <= r < d
    ensures u / d == q && u % d == r
  {
    var q', r' := u / d, u % d;
    assert u == q' * d + r';
    assert (q - q') * d == r' - r;
    if q > q' {
      MulAtLeast(q - q', d);
    } else if q < q' {
      MulAtLeast(q' - q, d);
    }
  }

  lemma MulAtLeast(k: int, d: int)
    requires k >= 1 && d > 0
    ensures k * d >= d
  {
  }

  lemma MulNonNegative(a: int, b: int)
    requires a >= 0 && b >= 0
    ensures a * b >= 0
  {
  }

  lemma MulMonotonic(a: int, b: int, d: int)
    requires a <= b && d >= 0
    ensures a * d <= b * d
  {
  }

  /** A raster index splits back into its column and row. */
  lemma IndexSplit(p: int, w: int, h: int)
    requires w > 0 && 0 <= p < w * h
    ensures 0 <= p % w < w && 0 <= p / w < h
    ensures (p / w) * w + p % w == p
  {
    assert (p / w) * w + p % w == p;
    assert (p / w) * w <= p;
    if p / w >= h {
      MulMonotonic(h, p / w, w);
    }
  }
}
