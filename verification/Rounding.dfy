/** Rounding a ratio to an integer, ties upwards: what both fixed-notation printers
    promise about their digits.
  */
module Rounding {
  import opened Powers

  /** The integer nearest to x / d; the upper one if x / d is halfway between two. */
  function RoundHalfUp(x: nat, d: nat): nat
    requires d > 0
  {
    (2 * x + d) / (2 * d)
  }

  /** It is characterised by its distance. */
  lemma RoundHalfUpNearest(x: nat, d: nat, q: int)
    requires d > 0
    ensures q == RoundHalfUp(x, d) <==> (2 * q - 1) * d <= 2 * x < (2 * q + 1) * d
  {
    var y := 2 * x + d;
    assert q * (2 * d) == (2 * q - 1) * d + d == (2 * q + 1) * d - d;
    if q * (2 * d) <= y < q * (2 * d) + 2 * d {
      DivModUnique(y, 2 * d, q, y - q * (2 * d));
    } else {
      QuotientAndRemainder(y, 2 * d);
    }
  }

  /** From quotient and remainder. */
  lemma RoundFromRemainder(x: nat, d: nat, q: nat, r: nat)
    requires d > 0 && x == q * d + r && r < d
    ensures RoundHalfUp(x, d) == if 2 * r >= d then q + 1 else q
  {
    var q' := if 2 * r >= d then q + 1 else q;
    assert (2 * q' - 1) * d == 2 * (q * d) + (2 * (q' - q) - 1) * d;
    assert (2 * q' + 1) * d == 2 * (q * d) + (2 * (q' - q) + 1) * d;
    RoundHalfUpNearest(x, d, q');
  }

  /** Only the ratio matters. */
  lemma RoundSameRatio(x: nat, d: nat, x': nat, d': nat)
    requires d > 0 && d' > 0 && x * d' == x' * d
    ensures RoundHalfUp(x, d) == RoundHalfUp(x', d')
  {
    var q := RoundHalfUp(x, d);
    RoundHalfUpNearest(x, d, q);
    RoundHalfUpNearest(x', d', q);
    hide RoundHalfUp;
    MulRight(2 * q - 1, d, d');
    MulRight(2 * q + 1, d, d');
    MulAssoc(2, x, d');
    MulAssoc(2, x', d);
    CrossMultiply((2 * q - 1) * d, 2 * x, d', d, (2 * q - 1) * d', 2 * x');
    CrossMultiply((2 * q + 1) * d, 2 * x, d', d, (2 * q + 1) * d', 2 * x');
  }

  /** Multiplied by d' on one side and by d on the other, two pairs are equal. */
  lemma CrossMultiply(a: int, b: int, d': int, d: int, a': int, b': int)
    requires d > 0 && d' > 0 && a * d' == a' * d && b * d' == b' * d
    ensures a <= b <==> a' <= b'
  {
    if a <= b {
      MulMono(a, b, d');
      if b' < a' {
        MulLess(b', a', d);
      }
    } else {
      MulLess(b, a, d');
      if a' <= b' {
        MulMono(a', b', d);
      }
    }
  }

  /** num/den scaled by 10^k, for a k of either sign, and rounded. */
  function ScaledRound(num: nat, den: nat, k: int): nat
    requires den > 0
  {
    if k >= 0 then RoundHalfUp(num * Pow(10, k), den) else RoundHalfUp(num, den * Pow(10, -k))
  }

  lemma RoundsToZero(x: nat, d: nat)
    requires 2 * x < d
    ensures RoundHalfUp(x, d) == 0
  {
    RoundHalfUpNearest(x, d, 0);
  }
}
