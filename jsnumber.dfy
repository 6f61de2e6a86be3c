/** The slice of JavaScript number semantics that the codec relies on, restricted
    to integers: the 32-bit conversions applied by the bitwise operators, the
    truncating `%` and `/ ... | 0`, and the element types of `Uint8Array` and of
    strings (16-bit code units). */
module JsNumber {

  const TWO_PWR_31: int := 0x8000_0000
  const TWO_PWR_32: int := 0x1_0000_0000
  const TWO_PWR_63: int := 0x8000_0000_0000_0000
  const TWO_PWR_64: int := 0x1_0000_0000_0000_0000

  /** `Number.MAX_SAFE_INTEGER`, 2^53 - 1. */
  const MAX_SAFE_INTEGER: int := 0x1F_FFFF_FFFF_FFFF

  /** An element of a `Uint8Array`. */
  type byte = x: int | 0 <= x < 0x100

  /** One element of a JavaScript string: a UTF-16 code unit, surrogates included. */
  type CodeUnit = x: int | 0 <= x < 0x1_0000

  /** An integer that a JavaScript number represents exactly, with all its neighbours. */
  predicate IsSafeInteger(v: int) {
    -MAX_SAFE_INTEGER <= v <= MAX_SAFE_INTEGER
  }

  /** ECMAScript ToUint32 on an integer: what `>>>` works on. */
  function ToUint32(x: int): (r: int)
    ensures 0 <= r < TWO_PWR_32
    ensures (x - r) % TWO_PWR_32 == 0
    ensures 0 <= x < TWO_PWR_32 ==> r == x
  {
    DivModOf(x - x % TWO_PWR_32, TWO_PWR_32, x / TWO_PWR_32, 0);
    x % TWO_PWR_32
  }

  /** ECMAScript ToInt32 on an integer: what `|`, `&`, `~` and `<<` work on and
      return. It is the unique value of [-2^31, 2^31) congruent to `x`. */
  function ToInt32(x: int): (r: int)
    ensures -TWO_PWR_31 <= r < TWO_PWR_31
    ensures ToUint32(r) == ToUint32(x)
    ensures -TWO_PWR_31 <= x < TWO_PWR_31 ==> r == x
  {
    var m := x % TWO_PWR_32;
    if m < TWO_PWR_31 then m else m - TWO_PWR_32
  }

  /** `~x`: bitwise complement of the 32-bit pattern of `x`. */
  function BitNot32(x: int): (r: int)
    ensures -TWO_PWR_31 <= r < TWO_PWR_31
    ensures ToUint32(r) == TWO_PWR_32 - 1 - ToUint32(x)
  {
    -ToInt32(x) - 1
  }

  /** `Math.trunc(a / b)`, which `(a / b) | 0` computes when the quotient fits
      in 32 bits: division rounding toward zero (Dafny's `/` is Euclidean). */
  function TruncDiv(a: int, b: int): (q: int)
    requires b > 0
    ensures a >= 0 ==> q * b <= a < q * b + b
    ensures a < 0 ==> q * b - b < a <= q * b
  {
    if a >= 0 then a / b else -((-a) / b)
  }

  /** The divisors of the codec's bit fields: 2^4, 2^5, 2^6, 2^12 for the
      UTF-8 sequences and 256^k, 1 <= k <= 8, for the byte layouts. */
  predicate IsFieldDivisor(d: int) {
    || d == 0x10 || d == 0x20 || d == 0x40 || d == 0x1000
    || d == 0x100 || d == 0x1_0000 || d == 0x100_0000 || d == 0x1_0000_0000
    || d == 0x100_0000_0000 || d == 0x1_0000_0000_0000 || d == 0x100_0000_0000_0000
    || d == 0x1_0000_0000_0000_0000
  }

  /** Quotient and remainder are unique: `x == q * d + r` with `0 <= r < d`
      determines both. */
  lemma DivModOf(x: int, d: int, q: int, r: int)
    requires IsFieldDivisor(d)
    requires x == q * d + r && 0 <= r < d
    ensures x / d == q && x % d == r
  {
    if d == 0x10 {
    } else if d == 0x20 {
    } else if d == 0x40 {
    } else if d == 0x1000 {
    } else if d == 0x100 {
    } else if d == 0x1_0000 {
    } else if d == 0x100_0000 {
    } else if d == 0x1_0000_0000 {
    } else if d == 0x100_0000_0000 {
    } else if d == 0x1_0000_0000_0000 {
    } else if d == 0x100_0000_0000_0000 {
    } else {
    }
  }

  /** The unsigned pattern of a signed 32-bit value. */
  lemma Uint32OfInt32(w: int)
    requires -TWO_PWR_31 <= w < TWO_PWR_31
    ensures ToUint32(w) == if w >= 0 then w else w + TWO_PWR_32
  {
    if w < 0 {
      DivModOf(w, TWO_PWR_32, -1, w + TWO_PWR_32);
    }
  }

  /** `a % b` in JavaScript: the remainder takes the sign of the dividend. */
  function TruncRem(a: int, b: int): (r: int)
    requires b > 0
    ensures a == TruncDiv(a, b) * b + r
    ensures a >= 0 ==> 0 <= r < b && r == a % b
    ensures a < 0 ==> -b < r <= 0
  {
    a - TruncDiv(a, b) * b
  }
}
