/** Shared value types of the visualiser: bytes, bits and failure wrappers. */
module Common {

  /** An element of a Uint8Array. */
  type byte = x: int | 0 <= x < 256

  /** One entry of the bit arrays produced by bytesToBits (always 0 or 1). */
  type bit = x: int | 0 <= x <= 1

  datatype Option<+T> = None | Some(value: T)

  datatype Result<+T, +E> = Ok(value: T) | Err(error: E)

  function Min(a: int, b: int): int { if a <= b then a else b }

  function Max(a: int, b: int): int { if a >= b then a else b }

  /**
   * `selectedBits[canvasId] || new Set()`: the bit indices selected on a
   * canvas, where a canvas without an entry has nothing selected.
   */
  function SelectionOf(selectedBits: map<string, set<nat>>, canvasId: string): set<nat>
  {
    if canvasId in selectedBits then selectedBits[canvasId] else {}
  }

  /** Math.ceil(a / b) for a non-negative numerator and positive denominator. */
  function CeilDiv(a: nat, b: nat): (q: nat)
    requires b > 0
    ensures q * b >= a
    ensures q == 0 || (q - 1) * b < a
  {
    (a + b - 1) / b
  }

  /** Number of occurrences of x in s. */
  function Occurrences<T(==)>(s: seq<T>, x: T): (k: nat)
    ensures k <= |s|
    ensures k > 0 <==> x in s
  {
    if s == [] then 0 else (if s[|s| - 1] == x then 1 else 0) + Occurrences(s[..|s| - 1], x)
  }

  /** Decimal rendering of a natural number, as a template literal `${n}` shows it. */
  function DecimalString(n: nat): (s: string)
    ensures |s| >= 1
    ensures forall i :: 0 <= i < |s| ==> '0' <= s[i] <= '9'
  {
    if n < 10 then [DigitChar(n)] else DecimalString(n / 10) + [DigitChar(n % 10)]
  }

  function DigitChar(d: nat): (c: char)
    requires d < 10
    ensures '0' <= c <= '9'
  {
    ['0', '1', '2', '3', '4', '5', '6', '7', '8', '9'][d]
  }

  // ---------------------------------------------------------------------------
  // Multiplication and Euclidean division with a variable divisor
  // ---------------------------------------------------------------------------

  lemma MulNonneg(a: int, b: int)
    requires a >= 0 && b >= 0
    ensures a * b >= 0
  {
  }

  /** Multiplying by a positive d moves any non-zero k at least d away from 0. */
  lemma MulSign(k: int, d: int)
    requires d > 0
    ensures k >= 1 ==> d * k >= d
    ensures k <= -1 ==> d * k <= -d
  {
    if k >= 1 {
      assert d * k == d + d * (k - 1);
      MulNonneg(d, k - 1);
    } else if k <= -1 {
      assert d * k == -d - d * (-k - 1);
      MulNonneg(d, -k - 1);
    }
  }

  /** Multiplication by a non-negative factor is monotone. */
  lemma MulMono(a: int, b: int, c: int)
    ensures a <= b && c >= 0 ==> a * c <= b * c
  {
    if a <= b && c >= 0 {
      assert b * c - a * c == (b - a) * c;
      MulNonneg(b - a, c);
    }
  }

  /** Quotient and remainder of Euclidean division are unique. */
  lemma DivModUnique(x: int, d: int, q: int, r: int)
    requires d > 0 && 0 <= r < d && x == d * q + r
    ensures x / d == q && x % d == r
  {
    var q0, r0 := x / d, x % d;
    assert x == d * q0 + r0;
    assert d * (q - q0) == r0 - r;
    MulSign(q - q0, d);
  }

  lemma DivMulAdd(q: int, d: int, r: int)
    requires d > 0 && 0 <= r < d
    ensures (q * d + r) / d == q && (q * d + r) % d == r
  {
    DivModUnique(q * d + r, d, q, r);
  }

  /** A non-negative x below d * k has quotient below k. */
  lemma DivBelow(x: int, d: int, k: int)
    requires d > 0 && 0 <= x < d * k
    ensures 0 <= x / d < k
  {
    MulMono(k, x / d, d);
    MulSign(x / d, d);
  }
}
