/** Go's fixed-width integers.

    Go's `int64`, `uint64` and `uint32` are mathematical integers restricted
    to their ranges, with wrap-around written out where the code can reach
    it; bytes are `bv8`.  Go's shifts and masks on words become division and
    remainder by powers of two: `x >> k` on a signed word is arithmetic, a
    floor division, and `x & (2^w - 1)` keeps `x % 2^w`, for negative `x`
    too.  Where the code ors fields that occupy disjoint bits, the model
    adds them. */
module Words {

  const TWO_63: int := 0x8000_0000_0000_0000
  const TWO_64: int := 0x1_0000_0000_0000_0000
  const TWO_32: int := 0x1_0000_0000
  const INT64_MIN: int := -TWO_63
  const INT64_MAX: int := TWO_63 - 1

  /** The values of Go's `int64`. */
  type Int64 = x: int | INT64_MIN <= x <= INT64_MAX

  /** The values of Go's `uint64`. */
  type Uint64 = x: int | 0 <= x < TWO_64

  /** Go's `x + 1` on a `uint64`, wrapping from the largest value to zero. */
  function IncU64(x: Uint64): (y: Uint64)
    ensures y == (x + 1) % TWO_64
  {
    if x == TWO_64 - 1 then
      DivMod(x + 1, TWO_64, 1, 0);
      0
    else
      DivMod(x + 1, TWO_64, 0, x + 1);
      x + 1
  }

  /** The values of Go's `uint32`. */
  type Uint32 = x: int | 0 <= x < TWO_32

  /** Go's `x + 1` on a `uint32`, wrapping from the largest value to zero. */
  function IncU32(x: Uint32): (y: Uint32)
    ensures y == (x + 1) % TWO_32
  {
    if x == TWO_32 - 1 then
      DivMod(x + 1, TWO_32, 1, 0);
      0
    else
      DivMod(x + 1, TWO_32, 0, x + 1);
      x + 1
  }

  /** Go's `x + 1` on an `int64`, wrapping from the largest value to the
      smallest. */
  function Inc64(x: Int64): (y: Int64)
    ensures (y - (x + 1)) % TWO_64 == 0
  {
    if x == INT64_MAX then
      DivMod(INT64_MIN - (x + 1), TWO_64, -1, 0);
      INT64_MIN
    else
      DivMod(0, TWO_64, 0, 0);
      x + 1
  }

  /** Go's `x % m` on signed integers: division truncates toward zero, so
      the remainder takes the sign of `x`.  The four properties below pin it
      down uniquely. */
  function TruncRem(x: int, m: int): (r: int)
    requires m > 0
    ensures -m < r < m
    ensures x >= 0 ==> r >= 0
    ensures x <= 0 ==> r <= 0
    ensures (x - r) % m == 0
  {
    if x >= 0 then
      DivMod(x - x % m, m, x / m, 0);
      x % m
    else
      NegatedRemainder(-x, m);
      -((-x) % m)
  }

  lemma NegatedRemainder(y: int, m: int)
    requires y > 0 && m > 0
    ensures (y % m - y) % m == 0
  {
    var q := y / m;
    assert y % m - y == -q * m;
    DivMod(y % m - y, m, -q, 0);
  }

  /** The int64 whose two's-complement pattern is the 64-bit number `u`. */
  function FromUnsigned(u: int): (x: Int64)
    requires 0 <= u < TWO_64
  {
    if u < TWO_63 then u else u - TWO_64
  }

  /** The byte holding the number `n`. */
  function ByteOf(n: int): (b: bv8)
    requires 0 <= n < 256
    ensures b as int == n
  {
    n as bv8
  }

  /** Go's `byte(x >> k)` for an integer `x`, with `unit` = 2^k: the shift
      is a floor division (arithmetic for a negative `x`) and `byte` keeps
      the remainder modulo 256. */
  function ShiftByte(x: int, unit: int): (b: bv8)
    requires unit > 0
    ensures b as int == (x / unit) % 256
    ensures b as int * unit + x % unit == x % (unit * 256)
  {
    Digit(x, unit, 256);
    ByteOf((x / unit) % 256)
  }

  /** Go's `b & 0x0f`, `b & 0x1f`, `b & 0x3f` on a byte keep the remainder
      modulo 16, 32 and 64, and `b >> 5`, `b >> 6`, `b >> 7` its quotient by
      32, 64 and 128. */
  lemma ByteMasks(b: bv8)
    ensures (b & 0x0f) as int == b as int % 16
    ensures (b & 0x1f) as int == b as int % 32
    ensures (b & 0x3f) as int == b as int % 64
    ensures (b >> 5) as int == b as int / 32
    ensures (b >> 6) as int == b as int / 64
    ensures (b >> 7) as int == b as int / 128
  {
  }

  /** Number of binary digits of `n` (`len(strconv.FormatInt(n, 2))` for n >= 0). */
  function BinaryDigits(n: nat): (r: nat)
    ensures r >= 1
    ensures n < Pow2(r)
    ensures r > 1 ==> Pow2(r - 1) <= n
  {
    if n < 2 then 1 else 1 + BinaryDigits(n / 2)
  }

  function Pow2(k: nat): (p: nat)
    ensures p >= 1
  {
    if k == 0 then 1 else 2 * Pow2(k - 1)
  }

  lemma MulAtLeast(k: int, d: int)
    requires k >= 1 && d > 0
    ensures k * d >= d
  {
  }

  /** Euclidean division is determined by quotient and remainder: the basis
      of every field-extraction proof on integers. */
  lemma DivMod(a: int, d: int, q: int, r: int)
    requires d > 0 && a == q * d + r && 0 <= r < d
    ensures a / d == q && a % d == r
  {
    var q0, r0 := a / d, a % d;
    assert (q - q0) * d == r0 - r;
    if q > q0 {
      MulAtLeast(q - q0, d);
    } else if q < q0 {
      MulAtLeast(q0 - q, d);
    }
  }

  /** Splitting off one digit: the digit of `x` of weight `d` in base
      `base`, times `d`, plus the remainder below `d`, is the remainder of
      `x` below `d * base`.  Chained, it reassembles a word from its bytes. */
  lemma Digit(x: int, d: int, base: int)
    requires d > 0 && base > 0
    ensures ((x / d) % base) * d + x % d == x % (d * base)
  {
    var n := d * base;
    var q, r := x / n, x % n;
    var hi, lo := r / d, r % d;
    assert r == hi * d + lo;
    if hi >= base {
      MulAtLeast(hi - base + 1, d);
      assert false;
    }
    assert x == (q * base + hi) * d + lo;
    DivMod(x, d, q * base + hi, lo);
    DivMod(x / d, base, q, hi);
  }

  /** A remainder modulo `m * k` keeps the remainder modulo `m`. */
  lemma ModMod(x: int, m: int, k: int)
    requires m > 0 && k > 0
    ensures (x % (m * k)) % m == x % m
  {
    var r := x % (m * k);
    DivMod(r, m, r / m, r % m);
    DivMod(x, m, (x / (m * k)) * k + r / m, r % m);
  }

  /** A value that fits its field passes the field's modulus unchanged. */
  lemma FieldKeepsSmall(x: int, m: int)
    requires m > 0
    ensures 0 <= x < m ==> x % m == x
  {
    if 0 <= x < m {
      DivMod(x, m, 0, x);
    }
  }
}
