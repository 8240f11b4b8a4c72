/** How a binary number significand * 2^exponent compares with a decimal n * 10^q. Both
    the exact printer and the fast ones are specified with these notions.
  */
module BinaryDecimal {
  import opened Powers
  import opened Rounding

  /** Above / Below is 2^exponent / 10^power. */
  function Above(exponent: int, power: int): (a: nat)
    ensures a > 0
  {
    (if exponent >= 0 then Pow(2, exponent) else 1) * (if power < 0 then Pow(10, -power) else 1)
  }

  function Below(exponent: int, power: int): (b: nat)
    ensures b > 0
  {
    (if exponent < 0 then Pow(2, -exponent) else 1) * (if power >= 0 then Pow(10, power) else 1)
  }

  /** The decimal n * 10^q lies between the boundaries of significand * 2^exponent, the
      points halfway to its neighbours (a quarter below if the lower one is closer). The
      boundaries themselves count exactly for even significands. */
  ghost predicate ReadsBack(significand: nat, exponent: int, closer: bool, n: int, q: int) {
    var a, b := Above(exponent, q), Below(exponent, q);
    var lower, upper := 4 * significand - (if closer then 1 else 2), 4 * significand + 2;
    if significand % 2 == 0 then lower * a <= 4 * n * b <= upper * a
    else lower * a < 4 * n * b < upper * a
  }

  /** The distance between significand * 2^exponent and n * 10^q, scaled. */
  ghost function Gap(significand: nat, exponent: int, n: int, q: int): int {
    var d := n * Below(exponent, q) - significand * Above(exponent, q);
    if d < 0 then -d else d
  }

  /** What shortest conversion promises of a decimal n * 10^q with k digits: it reads back
      as the number, no decimal with fewer digits does, and none with its last place is
      closer. */
  ghost predicate ShortestDecimal(significand: nat, exponent: int, closer: bool, n: int, k: nat, q: int) {
    && ReadsBack(significand, exponent, closer, n, q)
    && (forall m: nat, p: int, j: nat | 1 <= j < k && m < Pow(10, j) && ReadsBack(significand, exponent, closer, m, p) :: false)
    && (forall m | ReadsBack(significand, exponent, closer, m, q) ::
          Gap(significand, exponent, n, q) <= Gap(significand, exponent, m, q))
  }

  /** significand * 2^exponent in units of 10^q, rounded to the nearest, ties upwards. */
  function RoundedAt(significand: nat, exponent: int, q: int): nat {
    RoundHalfUp(significand * Above(exponent, q), Below(exponent, q))
  }

  /** The ratio for 10^q is 10^s times that for 10^(q+s). */
  lemma ShiftPower(exponent: int, q: int, s: nat)
    ensures Above(exponent, q) * Below(exponent, q + s)
         == Above(exponent, q + s) * Pow(10, s) * Below(exponent, q)
  {
    var a1 := if q < 0 then Pow(10, -q) else 1;
    var b1 := if q >= 0 then Pow(10, q) else 1;
    var a2 := if q + s < 0 then Pow(10, -(q + s)) else 1;
    var b2 := if q + s >= 0 then Pow(10, q + s) else 1;
    var x := if exponent >= 0 then Pow(2, exponent) else 1;
    var y := if exponent < 0 then Pow(2, -exponent) else 1;
    TenShift(q, s);
    hide Pow;
    FourFactors(x, a1, y, b2, a2, Pow(10, s), b1);
  }

  lemma TenShift(q: int, s: nat)
    ensures (if q < 0 then Pow(10, -q) else 1) * (if q + s >= 0 then Pow(10, q + s) else 1)
         == (if q + s < 0 then Pow(10, -(q + s)) else 1) * Pow(10, s) * (if q >= 0 then Pow(10, q) else 1)
  {
    if q >= 0 {
      PowAdd(10, s, q);
    } else if q + s >= 0 {
      PowAdd(10, -q, q + s);
    } else {
      PowAdd(10, -(q + s), s);
    }
  }

  lemma FourFactors(x: int, a1: int, y: int, b2: int, a2: int, t: int, b1: int)
    requires a1 * b2 == a2 * t * b1
    ensures (x * a1) * (y * b2) == (x * a2) * t * (y * b1)
  {
    MulSwap(x, a1, y, b2);
    assert (x * a2) * t * (y * b1) == (x * y) * (a2 * t * b1);
  }

  /** Equal ratios order multiples alike. */
  lemma RatioOrder(x: int, y: int, a: nat, b: nat, a': nat, b': nat)
    requires a > 0 && b > 0 && a' > 0 && b' > 0 && a * b' == a' * b
    ensures x * a <= y * b <==> x * a' <= y * b'
    ensures x * a < y * b <==> x * a' < y * b'
  {
    MulAssoc(x, a, b');
    MulAssoc(x, a', b);
    MulRight(y, b, b');
    CrossMultiply(x * a, y * b, b', b, x * a', y * b');
    CrossMultiply(y * b, x * a, b', b, y * b', x * a');
  }
}
