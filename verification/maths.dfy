/**
 * The rounding and random helpers the layout code calls (`round`, `random`,
 * `roundRandom`). Their own module is not part of this model, so they are
 * defined here explicitly: a random draw is injected as a fraction `t` of the
 * requested range, and rounding goes to the nearest integer, halves upward.
 */
module Maths {

  /** One draw of the random source, as a fraction of the requested range. */
  type Unit = t: real | 0.0 <= t <= 1.0

  function Min(a: int, b: int): int { if a <= b then a else b }

  function Max(a: int, b: int): int { if a <= b then b else a }

  function MaxReal(a: real, b: real): real { if a <= b then b else a }

  /** `v` lies between `a` and `b`, whichever of the two is larger. */
  predicate Between(v: real, a: real, b: real) {
    (a <= v <= b) || (b <= v <= a)
  }

  /** `round(x)`: the nearest integer, a half rounding upward. */
  function Round(x: real): (r: int)
    ensures x - 0.5 < r as real <= x + 0.5
  {
    (x + 0.5).Floor
  }

  lemma RoundMonotone(x: real, y: real)
    requires x <= y
    ensures Round(x) <= Round(y)
  {
  }

  /** Rounding an integer gives it back. */
  lemma RoundOfInt(n: int)
    ensures Round(n as real) == n
  {
  }

  /**
   * A running maximum that rounds after every step ends where the rounded
   * maximum ends: rounding the accumulator early loses nothing.
   */
  lemma RoundMaxAbsorb(m: real, w: real)
    ensures Round(MaxReal(Round(m) as real, w)) == Round(MaxReal(m, w))
  {
    var rm := Round(m);
    RoundOfInt(rm);
    if w <= rm as real && m < w {
      // m < w <= Round(m): all three round to Round(m)
      RoundMonotone(m, w);
      RoundMonotone(w, rm as real);
    } else if rm as real < w && w <= m {
      // Round(m) < w <= m: all three round to Round(m)
      RoundMonotone(rm as real, w);
      RoundMonotone(w, m);
    }
  }

  lemma MulNonNegative(x: real, y: real)
    requires x >= 0.0 && y >= 0.0
    ensures x * y >= 0.0
  {
  }

  lemma MulMonotone(x: real, y: real, c: real)
    requires x <= y && c >= 0.0
    ensures x * c <= y * c
  {
    MulNonNegative(y - x, c);
  }

  /** Dividing both sides of `a * c <= b` by a positive `c`. */
  lemma MulDivide(a: real, b: real, c: real)
    requires c > 0.0 && a * c <= b
    ensures a <= b / c
  {
    var q := b / c;
    assert q * c == b;
    if a > q {
      MulPositive(a - q, c);
    }
  }

  lemma MulPositive(x: real, y: real)
    requires x > 0.0 && y > 0.0
    ensures x * y > 0.0
  {
  }

  /** `random(a, b)`: a uniform draw between `a` and `b`, in either order. */
  function Random(a: real, b: real, t: Unit): real
  {
    a + t * (b - a)
  }

  /** Whatever the draw, `random(a, b)` lies between `a` and `b`. */
  lemma RandomBetween(a: real, b: real, t: Unit)
    ensures Between(Random(a, b, t), a, b)
  {
    if a <= b {
      MulNonNegative(t, b - a);
      MulNonNegative(1.0 - t, b - a);
    } else {
      MulNonNegative(t, a - b);
      MulNonNegative(1.0 - t, a - b);
    }
  }

  /** `roundRandom(lo, hi)`: a uniform draw between `lo` and `hi`, rounded. */
  function RoundRandom(lo: int, hi: int, t: Unit): (r: int)
    ensures lo <= hi ==> lo <= r <= hi
  {
    RandomBetween(lo as real, hi as real, t);
    Round(Random(lo as real, hi as real, t))
  }
}
