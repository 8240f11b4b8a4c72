/** `BignumDtoa`: the exact conversion of a binary number to decimal digits. */
module BignumDtoa {
  import opened Powers
  import opened Limbs
  import opened Bignums
  import opened Decimals
  import opened Rounding
  import opened BinaryDecimal
  import opened ShortestSpec
  import opened ShortestDigits
  import opened CountedDigits
  import opened ScaledStart

  /** a / b is 2^exponent / 10^q. */
  ghost predicate SameRatio(a: nat, b: nat, exponent: int, q: int) {
    a > 0 && b > 0 && a * Below(exponent, q) == Above(exponent, q) * b
  }

  /** Moving to a smaller power of ten. */
  lemma SmallerPower(a: nat, b: nat, exponent: int, q: int, s: nat)
    requires SameRatio(a, b, exponent, q)
    ensures SameRatio(a * Pow(10, s), b, exponent, q - s)
  {
    ShiftPower(exponent, q - s, s);
    var aq, bq, ar, br, t :=
      Above(exponent, q), Below(exponent, q), Above(exponent, q - s), Below(exponent, q - s), Pow(10, s);
    hide Above;
    hide Below;
    hide Pow;
    MulMono(1, t, a);
    Cancel(a, b, aq, bq, ar, br, t);
  }

  lemma Cancel(a: int, b: int, aq: int, bq: int, ar: int, br: int, t: int)
    requires bq > 0 && a * bq == aq * b && ar * bq == aq * t * br
    ensures (a * t) * br == ar * b
  {
    var x, y := (a * t) * br, ar * b;
    assert x * bq == (a * bq) * (t * br);
    assert y * bq == (ar * bq) * b;
    assert (aq * b) * (t * br) == (aq * t * br) * b;
    if x < y {
      MulLess(x, y, bq);
    } else if y < x {
      MulLess(y, x, bq);
    }
  }

  /** The target of digit generation for significand * 2^exponent, as a multiple of 10^q. */
  function TargetOf(significand: nat, closer: bool, a: nat, b: nat): Target {
    var unit := if closer then 4 else 2;
    Target(significand * a * unit, b * unit, a, a * (if closer then 2 else 1), significand % 2 == 0)
  }

  /** Lying inside the rounding interval is reading back as the number. */
  lemma InsideIsReadsBack(significand: nat, exponent: int, closer: bool, a: nat, b: nat, q: int, n: int, k: nat)
    requires SameRatio(a, b, exponent, q) && k > 0
    ensures TargetOf(significand, closer, a, b).Inside(n, k)
       <==> ReadsBack(significand, exponent, closer, n, q - (k - 1))
  {
    var t, f: int := Pow(10, k - 1), significand;
    SmallerPower(a, b, exponent, q, k - 1);
    var lower, upper := 4 * f - (if closer then 1 else 2), 4 * f + 2;
    var ar, br := Above(exponent, q - (k - 1)), Below(exponent, q - (k - 1));
    RatioOrder(lower, 4 * n, a * t, b, ar, br);
    RatioOrder(4 * n, upper, b, a * t, br, ar);
    hide Above;
    hide Below;
    hide Pow;
    IntervalEnds(f, closer, a, b, n, t);
  }

  lemma IntervalEnds(f: int, closer: bool, a: int, b: int, n: int, t: int)
    ensures var unit := if closer then 4 else 2;
      var lower, upper := 4 * f - (if closer then 1 else 2), 4 * f + 2;
      && 4 * ((f * a * unit - a) * t) == unit * (lower * (a * t))
      && 4 * ((f * a * unit + a * (if closer then 2 else 1)) * t) == unit * (upper * (a * t))
      && 4 * (n * (b * unit)) == unit * ((4 * n) * b)
  {
  }

  /** Distances from the target are proportional to gaps. */
  lemma DistanceIsGap(significand: nat, exponent: int, closer: bool, a: nat, b: nat, q: int, n: int, k: nat)
    requires SameRatio(a, b, exponent, q) && k > 0
    ensures TargetOf(significand, closer, a, b).Distance(n, k) * Below(exponent, q - (k - 1))
         == (if closer then 4 else 2) * b * Gap(significand, exponent, n, q - (k - 1))
  {
    var t, unit: int := Pow(10, k - 1), if closer then 4 else 2;
    SmallerPower(a, b, exponent, q, k - 1);
    var ar, br := Above(exponent, q - (k - 1)), Below(exponent, q - (k - 1));
    var x, y := n * (b * unit) - significand * a * unit * t, n * br - significand * ar;
    assert TargetOf(significand, closer, a, b).Distance(n, k) == if x < 0 then -x else x;
    assert Gap(significand, exponent, n, q - (k - 1)) == if y < 0 then -y else y;
    hide Gap;
    hide TargetOf;
    hide Target.Distance;
    hide Above;
    hide Below;
    hide Pow;
    Proportion(significand, a, b, unit, n, t, ar, br);
    SignOfProduct(x, br);
    SignOfProduct(y, unit * b);
  }

  lemma Proportion(f: int, a: int, b: int, unit: int, n: int, t: int, ar: int, br: int)
    requires (a * t) * br == ar * b
    ensures (n * (b * unit) - f * a * unit * t) * br == (n * br - f * ar) * (unit * b)
  {
    assert (f * a * unit * t) * br == (f * unit) * ((a * t) * br);
    assert (f * ar) * (unit * b) == (f * unit) * (ar * b);
    assert (n * (b * unit)) * br == (n * br) * (unit * b);
  }

  lemma SignOfProduct(x: int, p: int)
    requires p > 0
    ensures x * p < 0 <==> x < 0
    ensures (if x < 0 then -x else x) * p == if x * p < 0 then -(x * p) else x * p
  {
    assert (-x) * p == -(x * p);
    if x >= 0 {
      MulMono(0, x, p);
    } else {
      MulMono(x, -1, p);
    }
  }

  lemma GapOrder(significand: nat, exponent: int, closer: bool, a: nat, b: nat, q: int, n: int, m: int, k: nat)
    requires SameRatio(a, b, exponent, q) && k > 0
    requires TargetOf(significand, closer, a, b).Distance(n, k) <= TargetOf(significand, closer, a, b).Distance(m, k)
    ensures Gap(significand, exponent, n, q - (k - 1)) <= Gap(significand, exponent, m, q - (k - 1))
  {
    hide Target.Distance;
    hide TargetOf;
    hide Gap;
    hide Below;
    hide Above;
    hide Pow;
    var t := TargetOf(significand, closer, a, b);
    DistanceIsGap(significand, exponent, closer, a, b, q, n, k);
    DistanceIsGap(significand, exponent, closer, a, b, q, m, k);
    OrderFromProducts(t.Distance(n, k), t.Distance(m, k), Below(exponent, q - (k - 1)),
                      (if closer then 4 else 2) * b,
                      Gap(significand, exponent, n, q - (k - 1)), Gap(significand, exponent, m, q - (k - 1)));
  }

  lemma OrderFromProducts(d: int, d': int, p: int, u: int, x: int, x': int)
    requires d <= d' && p > 0 && u > 0 && d * p == u * x && d' * p == u * x'
    ensures x <= x'
  {
    MulMono(d, d', p);
    if x' < x {
      MulLess(x', x, u);
    }
  }

  /** A decimal with fewer digits does not read back, whatever its power of ten. */
  lemma NoShorter(significand: nat, exponent: int, closer: bool, a: nat, b: nat, q: int,
                  n: int, k: nat, m: nat, p: int, j: nat)
    requires SameRatio(a, b, exponent, q)
    requires var t := TargetOf(significand, closer, a, b); t.Valid() && t.Leading() && t.Shortest(n, k)
    requires 1 <= j < k && m < Pow(10, j)
    ensures !ReadsBack(significand, exponent, closer, m, p)
  {
    hide Target.Inside;
    hide Target.Shortest;
    hide Target.ReadsBack;
    hide Target.Leading;
    hide Target.Valid;
    hide ReadsBack;
    hide TargetOf;
    hide SameRatio;
    hide Pow;
    var t := TargetOf(significand, closer, a, b);
    if p <= q {
      InsideIsReadsBack(significand, exponent, closer, a, b, q, m, q - p + 1);
      t.ReadsBackIsInside(m, q - p);
      t.NoShorterDecimal(n, k, m, q - p, j);
    } else if ReadsBack(significand, exponent, closer, m, p) {
      Integral(significand, exponent, closer, a, b, q, m, p);
      NothingShorter(t, n, k, m * Pow(10, p - q), 1);
    }
  }

  lemma NothingShorter(t: Target, n: int, k: nat, m: int, j: nat)
    requires t.Shortest(n, k) && 1 <= j < k
    ensures !t.Inside(m, j)
  {
  }

  /** A multiple of a larger power of ten is a candidate with one digit. */
  lemma Integral(significand: nat, exponent: int, closer: bool, a: nat, b: nat, q: int, m: nat, p: int)
    requires SameRatio(a, b, exponent, q) && p > q
    requires ReadsBack(significand, exponent, closer, m, p)
    ensures TargetOf(significand, closer, a, b).Inside(m * Pow(10, p - q), 1)
  {
    var s, f: int := p - q, significand;
    ShiftPower(exponent, q, s);
    var lower, upper := 4 * f - (if closer then 1 else 2), 4 * f + 2;
    var aq, bq, ap, bp, t := Above(exponent, q), Below(exponent, q), Above(exponent, p), Below(exponent, p), Pow(10, s);
    LargerUnit(lower, 4 * m, aq, bq, ap, bp, t);
    LargerUnit(upper, 4 * m, aq, bq, ap, bp, t);
    MulAssoc(4, m, t);
    InsideIsReadsBack(significand, exponent, closer, a, b, q, m * t, 1);
  }

  lemma LargerUnit(x: int, y: int, aq: int, bq: int, ap: int, bp: int, t: int)
    requires aq > 0 && bq > 0 && ap > 0 && bp > 0 && t > 0 && aq * bp == ap * t * bq
    ensures x * ap <= y * bp <==> x * aq <= (y * t) * bq
    ensures x * ap < y * bp <==> x * aq < (y * t) * bq
    ensures x * ap >= y * bp <==> x * aq >= (y * t) * bq
    ensures x * ap > y * bp <==> x * aq > (y * t) * bq
  {
    // multiply the left sides by t * bq, the right sides by bp
    var u := t * bq;
    MulMono(1, bq, t);
    assert (x * ap) * u == x * (ap * t * bq) == x * (aq * bp) == (x * aq) * bp;
    assert (y * bp) * u == ((y * t) * bq) * bp;
    CrossMultiply(x * ap, y * bp, u, bp, x * aq, (y * t) * bq);
    CrossMultiply(y * bp, x * ap, u, bp, (y * t) * bq, x * aq);
  }

  /** The digits that digit generation finds are what shortest conversion promises. */
  lemma ShortestIsShortest(significand: nat, exponent: int, closer: bool, a: nat, b: nat, q: int, n: int, k: nat)
    requires SameRatio(a, b, exponent, q)
    requires var t := TargetOf(significand, closer, a, b); t.Valid() && t.Leading() && t.Shortest(n, k)
    ensures ShortestDecimal(significand, exponent, closer, n, k, q - (k - 1))
  {
    var t := TargetOf(significand, closer, a, b);
    InsideIsReadsBack(significand, exponent, closer, a, b, q, n, k);
    forall m: nat, p: int, j: nat
      | 1 <= j < k && m < Pow(10, j) && ReadsBack(significand, exponent, closer, m, p)
      ensures false
    {
      NoShorter(significand, exponent, closer, a, b, q, n, k, m, p, j);
    }
    var last := q - (k - 1);
    forall m | ReadsBack(significand, exponent, closer, m, last)
      ensures Gap(significand, exponent, n, last) <= Gap(significand, exponent, m, last)
    {
      InsideIsReadsBack(significand, exponent, closer, a, b, q, m, k);
      GapOrder(significand, exponent, closer, a, b, q, n, m, k);
    }
  }

  datatype Mode = Shortest | Fixed | Precision

  /** What is assumed of the estimated power: it is that of the number, or one too low;
      and this also holds for the upper boundary. The floating-point computation of the
      estimate is not part of this model. */
  ghost predicate GoodEstimate(significand: nat, exponent: int, power: int) {
    && Below(exponent, power) <= 10 * (significand * Above(exponent, power))
    && (2 * significand + 1) * Above(exponent, power) < 20 * Below(exponent, power)
  }

  /** So many characters are enough for the shortest digits: 17 for every double. */
  ghost predicate EnoughDigits(significand: nat, closer: bool, size: nat) {
    && size > 0
    && if closer then 4 * significand + 2 < 3 * Pow(10, size - 1) else 2 * significand + 1 < 2 * Pow(10, size - 1)
  }

  /** The numbers have the values they need, all over the same denominator; without
      distances, these are zero. */
  ghost predicate Prepared(significand: nat, closer: bool, deltas: bool, a: nat, b: nat,
                           numerator: Bignum, denominator: Bignum, deltaMinus: Bignum, deltaPlus: Bignum)
    requires AllNorm(numerator, denominator, deltaMinus, deltaPlus)
    reads numerator, numerator.bigits, denominator, denominator.bigits
    reads deltaMinus, deltaMinus.bigits, deltaPlus, deltaPlus.bigits
  {
    && numerator.Value() == significand * a * Unit(deltas, closer)
    && denominator.Value() == b * Unit(deltas, closer)
    && deltaMinus.Value() == (if deltas then a else 0)
    && deltaPlus.Value() == (if deltas then a * (if closer then 2 else 1) else 0)
    && Roomy(denominator.Value())
  }

  /** Creates the numbers and gives them their start values. */
  method Allocate(significand: uint64, exponent: int, closer: bool, power: int, deltas: bool)
    returns (numerator: Bignum, denominator: Bignum, deltaMinus: Bignum, deltaPlus: Bignum)
    requires InRange(significand, exponent, power)
    ensures AllNorm(numerator, denominator, deltaMinus, deltaPlus)
    ensures Separate(numerator, denominator, deltaMinus, deltaPlus)
    ensures fresh(numerator) && fresh(denominator) && fresh(deltaMinus) && fresh(deltaPlus)
    ensures fresh(numerator.bigits) && fresh(denominator.bigits) && fresh(deltaMinus.bigits) && fresh(deltaPlus.bigits)
    ensures Prepared(significand, closer, deltas, Above(exponent, power), Below(exponent, power),
                     numerator, denominator, deltaMinus, deltaPlus)
    ensures Roomy(numerator.Value()) && Roomy(deltaMinus.Value()) && Roomy(deltaPlus.Value())
  {
    hide Val, P, Pow, Small, Above, Below, Roomy, InRange, Ratio, Deltas, BothSmall, Prepared;
    numerator, denominator, deltaMinus, deltaPlus := NewNumbers();
    InitialScaledStartValues(significand, exponent, closer, power, deltas,
                             numerator, denominator, deltaMinus, deltaPlus);
    StartsRoomy(exponent, power, closer, deltas, numerator, denominator, deltaMinus, deltaPlus);
    StartsPrepared(significand, exponent, power, closer, deltas, numerator, denominator, deltaMinus, deltaPlus);
  }

  method NewNumbers() returns (numerator: Bignum, denominator: Bignum, deltaMinus: Bignum, deltaPlus: Bignum)
    ensures AllNorm(numerator, denominator, deltaMinus, deltaPlus)
    ensures Separate(numerator, denominator, deltaMinus, deltaPlus)
    ensures fresh(numerator) && fresh(denominator) && fresh(deltaMinus) && fresh(deltaPlus)
    ensures fresh(numerator.bigits) && fresh(denominator.bigits) && fresh(deltaMinus.bigits) && fresh(deltaPlus.bigits)
    ensures deltaMinus.Value() == deltaPlus.Value() == 0
  {
    hide Val, P;
    numerator := new Bignum();
    denominator := new Bignum();
    deltaMinus := new Bignum();
    deltaPlus := new Bignum();
  }

  lemma StartsPrepared(significand: uint64, exponent: int, power: int, closer: bool, deltas: bool,
                       numerator: Bignum, denominator: Bignum, deltaMinus: Bignum, deltaPlus: Bignum)
    requires AllNorm(numerator, denominator, deltaMinus, deltaPlus) && Roomy(denominator.Value())
    requires Ratio(significand, exponent, power, Unit(deltas, closer), numerator, denominator)
    requires deltas ==> Deltas(exponent, power, if closer then 2 else 1, deltaMinus, deltaPlus)
    requires !deltas ==> deltaMinus.Value() == deltaPlus.Value() == 0
    ensures Prepared(significand, closer, deltas, Above(exponent, power), Below(exponent, power),
                     numerator, denominator, deltaMinus, deltaPlus)
  {
    hide Val, P, Pow, Above, Below, Roomy, Small;
  }

  lemma StartsRoomy(exponent: int, power: int, closer: bool, deltas: bool,
                    numerator: Bignum, denominator: Bignum, deltaMinus: Bignum, deltaPlus: Bignum)
    requires AllNorm(numerator, denominator, deltaMinus, deltaPlus)
    requires BothSmall(numerator, denominator, 2601)
    requires deltas ==> Deltas(exponent, power, if closer then 2 else 1, deltaMinus, deltaPlus)
    requires !deltas ==> deltaMinus.Value() == deltaPlus.Value() == 0
    ensures Roomy(numerator.Value()) && Roomy(denominator.Value())
    ensures Roomy(deltaMinus.Value()) && Roomy(deltaPlus.Value())
  {
    hide Val;
    hide P;
    hide Pow;
    hide Above;
    SmallFits(numerator, 2601);
    SmallFits(denominator, 2601);
    if deltas {
      SmallFits(deltaPlus, if closer then 2601 else 2600);
      SmallFits(deltaMinus, if closer then 2601 else 2600);
    }
  }

  /** Everything before the generation of digits. */
  method Prepare(significand: uint64, exponent: int, closer: bool, power: int, deltas: bool)
    returns (numerator: Bignum, denominator: Bignum, deltaMinus: Bignum, deltaPlus: Bignum,
             decimalPoint: int, ghost factor: nat)
    requires InRange(significand, exponent, power)
    ensures AllNorm(numerator, denominator, deltaMinus, deltaPlus)
    ensures Separate(numerator, denominator, deltaMinus, deltaPlus)
    ensures fresh(numerator) && fresh(denominator) && fresh(deltaMinus) && fresh(deltaPlus)
    ensures fresh(numerator.bigits) && fresh(denominator.bigits) && fresh(deltaMinus.bigits) && fresh(deltaPlus.bigits)
    ensures Prepared(significand, closer, deltas, Above(exponent, power) * factor, Below(exponent, power),
                     numerator, denominator, deltaMinus, deltaPlus)
    ensures FixedUp(significand, exponent, closer, power, deltas, decimalPoint, factor)
  {
    hide Val;
    hide P;
    hide Pow;
    hide Above;
    hide Below;
    hide Roomy;
    numerator, denominator, deltaMinus, deltaPlus := Allocate(significand, exponent, closer, power, deltas);
    var isEven := significand % 2 == 0;
    decimalPoint := FixupMultiply10(power, isEven, numerator, denominator, deltaMinus, deltaPlus);
    factor := if decimalPoint == power then 10 else 1;
    Rescale(factor, significand, Above(exponent, power), Unit(deltas, closer), if closer then 2 else 1);
  }

  lemma Rescale(factor: int, f: int, a: int, unit: int, c: int)
    ensures factor * (f * a * unit) == f * (a * factor) * unit
    ensures factor * a == a * factor
    ensures factor * (a * c) == (a * factor) * c
  {
    assert factor * (f * a * unit) == (f * (a * factor)) * unit;
  }

  /** The decimal point tells whether the number, or the end of its interval, reached 1. */
  ghost predicate FixedUp(significand: nat, exponent: int, closer: bool, power: int, deltas: bool,
                          decimalPoint: int, factor: nat)
  {
    var unit := Unit(deltas, closer);
    var sum := significand * Above(exponent, power) * unit
      + if deltas then Above(exponent, power) * (if closer then 2 else 1) else 0;
    var den := Below(exponent, power) * unit;
    var inRange := if significand % 2 == 0 then sum >= den else sum > den;
    if inRange then decimalPoint == power + 1 && factor == 1 else decimalPoint == power && factor == 10
  }

  lemma FixedUpRatio(significand: nat, exponent: int, closer: bool, power: int, deltas: bool,
                     decimalPoint: int, factor: nat)
    requires FixedUp(significand, exponent, closer, power, deltas, decimalPoint, factor)
    ensures SameRatio(Above(exponent, power) * factor, Below(exponent, power), exponent, decimalPoint - 1)
  {
    if factor == 10 {
      assert SameRatio(Above(exponent, power), Below(exponent, power), exponent, power);
      SmallerPower(Above(exponent, power), Below(exponent, power), exponent, power, 1);
      assert Pow(10, 1) == 10 * Pow(10, 0);
    }
  }

  /** The target, written with products by constants only. */
  lemma TargetCases(significand: nat, closer: bool, a0: nat, b0: nat, factor: nat)
    requires factor == 1 || factor == 10
    ensures var t, fa := TargetOf(significand, closer, a0 * factor, b0), significand * a0;
      && t.num == (if closer then (if factor == 10 then 40 * fa else 4 * fa)
                   else if factor == 10 then 20 * fa else 2 * fa)
      && t.dm == (if factor == 10 then 10 * a0 else a0)
      && t.dp == (if closer then 2 * t.dm else t.dm)
      && t.den == (if closer then 4 * b0 else 2 * b0)
      && t.even == (significand % 2 == 0)
  {
    Rescale(factor, significand, a0, if closer then 4 else 2, if closer then 2 else 1);
  }

  /** After fixing up the number meets what the generation of shortest digits requires. */
  lemma ReadyForShortest(significand: nat, exponent: int, closer: bool, power: int,
                         decimalPoint: int, factor: nat, size: nat)
    requires significand > 0 && GoodEstimate(significand, exponent, power)
    requires FixedUp(significand, exponent, closer, power, true, decimalPoint, factor)
    requires EnoughDigits(significand, closer, size)
    ensures var t := TargetOf(significand, closer, Above(exponent, power) * factor, Below(exponent, power));
      t.Valid() && t.Leading() && EnoughRoom(t, size)
  {
    hide Above;
    hide Below;
    hide Pow;
    hide TargetOf;
    var a0, b0 := Above(exponent, power), Below(exponent, power);
    TargetCases(significand, closer, a0, b0, factor);
    InRangeCases(significand, closer, a0, b0);
    EstimateCases(significand, a0);
    var t := TargetOf(significand, closer, a0 * factor, b0);
    SpanOfTarget(significand, closer, a0 * factor, b0, size);
  }

  lemma SpanOfTarget(significand: nat, closer: bool, a: nat, b: nat, size: nat)
    requires a > 0 && EnoughDigits(significand, closer, size)
    ensures var t := TargetOf(significand, closer, a, b);
      t.num + t.dp < (t.dm + t.dp) * Pow(10, size - 1)
  {
    SpanOfDigits(significand, closer, a, Pow(10, size - 1));
  }

  lemma InRangeCases(f: int, closer: bool, a0: int, b0: int)
    ensures f * a0 * Unit(true, closer) + a0 * (if closer then 2 else 1)
         == if closer then 4 * (f * a0) + 2 * a0 else 2 * (f * a0) + a0
    ensures b0 * Unit(true, closer) == if closer then 4 * b0 else 2 * b0
  {
  }

  lemma EstimateCases(f: int, a0: int)
    ensures (2 * f + 1) * a0 == 2 * (f * a0) + a0
    ensures f > 0 && a0 > 0 ==> f * a0 > 0
  {
    if f > 0 && a0 > 0 {
      MulMono(1, f, a0);
    }
  }

  lemma SpanOfDigits(f: int, closer: bool, a: int, p: int)
    requires a > 0
    requires if closer then 4 * f + 2 < 3 * p else 2 * f + 1 < 2 * p
    ensures var unit, c := if closer then 4 else 2, if closer then 2 else 1;
      f * a * unit + a * c < (a + a * c) * p
  {
    if closer {
      MulLess(4 * f + 2, 3 * p, a);
    } else {
      MulLess(2 * f + 1, 2 * p, a);
    }
  }

  /** A normalized double significand, or any that goes with a negative exponent. */
  ghost predicate LikeDouble(significand: nat, exponent: int) {
    exponent < 0 || 0x10_0000_0000_0000 <= significand < 0x20_0000_0000_0000
  }

  /** An odd significand never makes a power of ten, so the rounding test of
      `FixupMultiply10`, which depends on parity, does no harm when there are no distances. */
  lemma OddIsNoPowerOfTen(significand: nat, exponent: int, power: int)
    requires LikeDouble(significand, exponent) && significand % 2 == 1
    requires exponent >= 0 ==> power >= 0
    ensures significand * Above(exponent, power) != Below(exponent, power)
  {
    if exponent >= 0 {
      OddInteger(significand, exponent, power);
    } else if power >= 0 {
      assert Pow(2, -exponent) == 2 * Pow(2, -exponent - 1);
      EvenProduct(Pow(2, -exponent - 1), Pow(10, power));
    } else {
      FiveDivides(significand, -power, -exponent);
    }
  }

  lemma OddInteger(f: nat, m: nat, n: nat)
    requires LikeDouble(f, m) && f % 2 == 1
    ensures f * Pow(2, m) != Pow(10, n)
  {
    PowProduct(2, 5, n);
    OddFives(n);
    NoPowerOfFive(f, n);
    hide Pow;
    if f * Pow(2, m) == Pow(10, n) {
      OddFactor(f, m, Pow(5, n), n);
    }
  }

  lemma EvenProduct(x: int, y: int)
    ensures ((2 * x) * y) % 2 == 0
  {
    MulAssoc(2, x, y);
    EvenNumber(x * y);
  }

  lemma EvenNumber(z: int)
    ensures (2 * z) % 2 == 0
  {
  }

  lemma {:induction false} OddFives(n: nat)
    ensures Pow(5, n) % 2 == 1
  {
    if n > 0 {
      OddFives(n - 1);
      FiveTimesOdd(Pow(5, n - 1));
    }
  }

  lemma FiveTimesOdd(x: int)
    requires x % 2 == 1
    ensures (5 * x) % 2 == 1
  {
    DivModUnique(5 * x, 2, 5 * (x / 2) + 2, 1);
  }

  /** Odd parts of equal numbers are equal. */
  lemma {:induction false} OddFactor(x: nat, m: nat, y: nat, n: nat)
    requires x % 2 == 1 && y % 2 == 1 && x * Pow(2, m) == Pow(2, n) * y
    ensures x == y
    decreases m
  {
    hide Pow;
    PowTwo(m);
    PowTwo(n);
    if m == 0 && n == 0 {
    } else if m == 0 {
      NotOdd(x, Pow(2, n - 1), y);
    } else if n == 0 {
      NotOdd(y, Pow(2, m - 1), x);
    } else {
      HalveBoth(x, Pow(2, m - 1), Pow(2, n - 1), y);
      OddFactor(x, m - 1, y, n - 1);
    }
  }

  lemma PowTwo(n: nat)
    ensures Pow(2, n) == if n == 0 then 1 else 2 * Pow(2, n - 1)
  {
  }

  lemma NotOdd(x: int, p: int, y: int)
    requires x == (2 * p) * y
    ensures x % 2 == 0
  {
    EvenProduct(p, y);
  }

  lemma HalveBoth(x: int, p: int, q: int, y: int)
    requires x * (2 * p) == (2 * q) * y
    ensures x * p == q * y
  {
    assert x * (2 * p) == 2 * (x * p);
    assert (2 * q) * y == 2 * (q * y);
  }

  /** No power of five has exactly 53 bits. */
  lemma NoPowerOfFive(x: nat, n: nat)
    requires 0x10_0000_0000_0000 <= x < 0x20_0000_0000_0000
    ensures x != Pow(5, n)
  {
    FiveTable(12);
    assert FIVE1_TO_12[10 - 1] == Pow(5, 10) by { FiveTable(10); }
    PowAdd(5, 12, 10);
    PowAdd(5, 22, 1);
    assert Pow(5, 1) == 5 by { FiveTable(1); }
    if n <= 22 {
      PowMono(5, n, 22);
    } else {
      PowMono(5, 23, n);
    }
  }

  /** A power of two has no factor five. */
  lemma FiveDivides(f: nat, m: nat, n: nat)
    requires m > 0
    ensures f * Pow(10, m) != Pow(2, n)
  {
    var x := Pow(10, m - 1);
    assert Pow(10, m) == 10 * x;
    NotMultipleOfFive(n);
    hide Pow;
    MultipleOfFive(f, x);
  }

  lemma MultipleOfFive(f: int, x: int)
    ensures f * (10 * x) % 5 == 0
  {
    MulSwap5(f, x);
    DivModUnique(f * (10 * x), 5, f * (2 * x), 0);
  }

  lemma MulSwap5(f: int, x: int)
    ensures f * (10 * x) == f * (2 * x) * 5
  {
  }

  lemma {:induction false} NotMultipleOfFive(n: nat)
    ensures Pow(2, n) % 5 != 0
  {
    if n > 0 {
      NotMultipleOfFive(n - 1);
    }
  }

  /** After fixing up the number lies between 1 and 10. */
  lemma ReadyForDigits(significand: nat, exponent: int, closer: bool, power: int, decimalPoint: int, factor: nat)
    requires GoodEstimate(significand, exponent, power) && LikeDouble(significand, exponent)
    requires exponent >= 0 ==> power >= 0
    requires FixedUp(significand, exponent, closer, power, false, decimalPoint, factor)
    ensures var num, den := significand * (Above(exponent, power) * factor), Below(exponent, power);
      den <= num < 10 * den
  {
    var a0, b0 := Above(exponent, power), Below(exponent, power);
    if significand % 2 == 1 {
      OddIsNoPowerOfTen(significand, exponent, power);
    }
    EstimateCases(significand, a0);
    hide Above;
    hide Below;
    MulAssoc(significand, a0, factor);
    if factor == 10 {
      assert (significand * a0) * factor == 10 * (significand * a0);
    } else {
      assert (significand * a0) * factor == significand * a0;
    }
  }

  /** The printers' rounding of num/den is rounding of the number in units of 10^(q-k). */
  lemma ScaledRoundIs(significand: nat, exponent: int, a: nat, b: nat, q: int, k: int)
    requires SameRatio(a, b, exponent, q)
    ensures ScaledRound(significand * a, b, k) == RoundedAt(significand, exponent, q - k)
  {
    if k >= 0 {
      SmallerPower(a, b, exponent, q, k);
      MulAssoc(significand, a, Pow(10, k));
      EqualRatio(significand, a * Pow(10, k), b, Above(exponent, q - k), Below(exponent, q - k));
    } else {
      ShiftPower(exponent, q, -k);
      hide Above;
      hide Below;
      hide Pow;
      LargerPower(a, b, Above(exponent, q), Below(exponent, q), Above(exponent, q - k), Below(exponent, q - k), Pow(10, -k));
      MulMono(1, Pow(10, -k), b);
      EqualRatio(significand, a, b * Pow(10, -k), Above(exponent, q - k), Below(exponent, q - k));
    }
  }

  lemma LargerPower(a: int, b: int, aq: int, bq: int, ap: int, bp: int, t: int)
    requires bq > 0 && a * bq == aq * b && aq * bp == ap * t * bq
    ensures a * bp == ap * (b * t)
  {
    var x, y := a * bp, ap * (b * t);
    assert x * bq == (a * bq) * bp == (aq * b) * bp == (aq * bp) * b;
    assert y * bq == (ap * t * bq) * b;
    if x < y {
      MulLess(x, y, bq);
    } else if y < x {
      MulLess(y, x, bq);
    }
  }

  lemma EqualRatio(f: nat, a: nat, b: nat, a': nat, b': nat)
    requires b > 0 && b' > 0 && a * b' == a' * b
    ensures RoundHalfUp(f * a, b) == RoundHalfUp(f * a', b')
  {
    MulAssoc(f, a, b');
    MulAssoc(f, a', b);
    RoundSameRatio(f * a, b, f * a', b');
  }

  /** A number that rounds to a multiple of ten rounds to the same at the next place. */
  lemma TenfoldRounds(significand: nat, exponent: int, q: int, n: nat)
    requires RoundedAt(significand, exponent, q) == 10 * n
    ensures RoundedAt(significand, exponent, q + 1) == n
  {
    var x, d := significand * Above(exponent, q), Below(exponent, q);
    RoundHalfUpNearest(x, d, 10 * n);
    ShiftPower(exponent, q, 1);
    assert Pow(10, 1) == 10 * Pow(10, 0);
    hide Above;
    hide Below;
    hide Pow;
    hide RoundHalfUp;
    TenfoldNearest(d, n);
    RoundHalfUpNearest(x, 10 * d, n);
    EqualRatio(significand, Above(exponent, q), 10 * d, Above(exponent, q + 1), Below(exponent, q + 1));
  }

  lemma TenfoldNearest(d: int, n: int)
    requires d > 0
    ensures (2 * n - 1) * (10 * d) <= (2 * (10 * n) - 1) * d
    ensures (2 * (10 * n) + 1) * d <= (2 * n + 1) * (10 * d)
  {
    MulAssoc(2 * n - 1, 10, d);
    MulAssoc(2 * n + 1, 10, d);
    MulMono((2 * n - 1) * 10, 2 * (10 * n) - 1, d);
    MulMono(2 * (10 * n) + 1, (2 * n + 1) * 10, d);
  }

  lemma LargeRounds(num: nat, den: nat, k: nat)
    requires 0 < den <= num
    ensures ScaledRound(num, den, k) >= Pow(10, k)
  {
    var x, q, p := num * Pow(10, k), ScaledRound(num, den, k), Pow(10, k);
    RoundHalfUpNearest(x, den, q);
    MulMono(den, num, p);
    if q < p {
      MulMono(2 * q + 1, 2 * p - 1, den);
    }
  }

  /** The shortest decimal that reads back as the number. */
  method DtoaShortest(significand: uint64, exponent: int, closer: bool, power: int, buffer: array<char>)
    returns (length: nat, decimalPoint: int)
    requires InRange(significand, exponent, power) && GoodEstimate(significand, exponent, power)
    requires buffer.Length > 0 && EnoughDigits(significand, closer, buffer.Length - 1)
    modifies buffer
    ensures 0 < length < buffer.Length && AllDigits(buffer[..], length)
    ensures ShortestDecimal(significand, exponent, closer, Number(buffer[..], length), length, decimalPoint - length)
  {
    hide Val;
    hide P;
    hide Pow;
    hide Above;
    hide Below;
    hide Roomy;
    hide InRange;
    hide FixedUp;
    hide GoodEstimate;
    hide EnoughRoom;
    hide EnoughDigits;
    hide ShortestDecimal;
    hide SameRatio;
    hide Target.Valid;
    hide Target.Leading;
    hide Target.Shortest;
    var numerator, denominator, deltaMinus, deltaPlus;
    ghost var factor;
    numerator, denominator, deltaMinus, deltaPlus, decimalPoint, factor :=
      Prepare(significand, exponent, closer, power, true);
    ghost var a, b := Above(exponent, power) * factor, Below(exponent, power);
    assert significand > 0 by { PositiveSignificand(significand, exponent, power); }
    ReadyForShortest(significand, exponent, closer, power, decimalPoint, factor, buffer.Length - 1);
    FixedUpRatio(significand, exponent, closer, power, true, decimalPoint, factor);
    length := GenerateShortestDigits(numerator, denominator, deltaMinus, deltaPlus, significand % 2 == 0,
                                     buffer, buffer.Length - 1);
    ShortestIsShortest(significand, exponent, closer, a, b, decimalPoint - 1, Number(buffer[..], length), length);
  }

  lemma PositiveSignificand(significand: nat, exponent: int, power: int)
    requires InRange(significand, exponent, power)
    ensures significand > 0
  {
  }

  /** A fixed number of digits behind the decimal point. Numbers much too small for any
      digit are recognised by the estimate alone. */
  method DtoaFixed(significand: uint64, exponent: int, closer: bool, power: int, requestedDigits: nat,
                   buffer: array<char>)
    returns (length: nat, decimalPoint: int)
    requires InRange(significand, exponent, power) && GoodEstimate(significand, exponent, power)
    requires LikeDouble(significand, exponent)
    requires 1 < buffer.Length && power + 1 + requestedDigits < buffer.Length
    modifies buffer
    ensures length < buffer.Length && AllDigits(buffer[..], length)
    ensures decimalPoint - length + requestedDigits >= 0
    ensures Number(buffer[..], length) * Pow(10, decimalPoint - length + requestedDigits)
         == RoundedAt(significand, exponent, 0 - requestedDigits)
  {
    hide Val;
    hide P;
    hide Pow;
    hide Above;
    hide Below;
    hide Roomy;
    hide InRange;
    hide GoodEstimate;
    hide LikeDouble;
    hide FixedUp;
    hide SameRatio;
    hide RoundedAt;
    hide ScaledRound;
    if -power - 1 > requestedDigits {
      length := 0;
      decimalPoint := 0 - requestedDigits;
      EmptyNumber(buffer[..]);
      MuchTooSmall(significand, exponent, power, requestedDigits);
      return;
    }
    var numerator, denominator, deltaMinus, deltaPlus;
    ghost var factor;
    numerator, denominator, deltaMinus, deltaPlus, decimalPoint, factor :=
      Prepare(significand, exponent, closer, power, false);
    ghost var a, b := Above(exponent, power) * factor, Below(exponent, power);
    InRangePower(significand, exponent, power);
    ReadyForDigits(significand, exponent, closer, power, decimalPoint, factor);
    FixedUpRatio(significand, exponent, closer, power, false, decimalPoint, factor);
    FixedUpPoint(significand, exponent, closer, power, false, decimalPoint, factor);
    ScaledRoundIs(significand, exponent, a, b, decimalPoint - 1, decimalPoint + requestedDigits - 1);
    decimalPoint, length := BignumToFixed(requestedDigits, decimalPoint, numerator, denominator, buffer);
  }

  lemma InRangePower(significand: nat, exponent: int, power: int)
    requires InRange(significand, exponent, power)
    ensures exponent >= 0 ==> power >= 0
  {
  }

  lemma FixedUpPoint(significand: nat, exponent: int, closer: bool, power: int, deltas: bool,
                     decimalPoint: int, factor: nat)
    requires FixedUp(significand, exponent, closer, power, deltas, decimalPoint, factor)
    ensures power <= decimalPoint <= power + 1
  {
  }

  /** A number below 10^(power+1) has nothing to show so far to the right. */
  lemma MuchTooSmall(significand: nat, exponent: int, power: int, requestedDigits: nat)
    requires GoodEstimate(significand, exponent, power) && -power - 1 > requestedDigits
    ensures RoundedAt(significand, exponent, 0 - requestedDigits) == 0
  {
    var a, b := Above(exponent, power), Below(exponent, power);
    EstimateCases(significand, a);
    assert significand * a < 10 * b;
    assert SameRatio(a, b, exponent, power);
    ScaledRoundIs(significand, exponent, a, b, power, power + requestedDigits);
    TooSmall(significand * a, b, power + requestedDigits);
  }

  /** A given number of significant digits. */
  method DtoaPrecision(significand: uint64, exponent: int, closer: bool, power: int, requestedDigits: nat,
                       buffer: array<char>)
    returns (length: nat, decimalPoint: int)
    requires InRange(significand, exponent, power) && GoodEstimate(significand, exponent, power)
    requires LikeDouble(significand, exponent)
    requires 0 < requestedDigits < buffer.Length
    modifies buffer
    ensures length == requestedDigits && AllDigits(buffer[..], length)
    ensures Number(buffer[..], length) == RoundedAt(significand, exponent, decimalPoint - length)
    ensures Pow(10, length - 1) <= Number(buffer[..], length) < Pow(10, length)
  {
    hide Val;
    hide P;
    hide Pow;
    hide Above;
    hide Below;
    hide Roomy;
    hide InRange;
    hide GoodEstimate;
    hide LikeDouble;
    hide FixedUp;
    hide SameRatio;
    hide RoundedAt;
    hide ScaledRound;
    var numerator, denominator, deltaMinus, deltaPlus;
    ghost var factor;
    numerator, denominator, deltaMinus, deltaPlus, decimalPoint, factor :=
      Prepare(significand, exponent, closer, power, false);
    ghost var a, b, point := Above(exponent, power) * factor, Below(exponent, power), decimalPoint;
    InRangePower(significand, exponent, power);
    ReadyForDigits(significand, exponent, closer, power, decimalPoint, factor);
    FixedUpRatio(significand, exponent, closer, power, false, decimalPoint, factor);
    ScaledRoundIs(significand, exponent, a, b, point - 1, requestedDigits - 1);
    LargeRounds(significand * a, b, requestedDigits - 1);
    decimalPoint, length := GenerateCountedDigits(requestedDigits, decimalPoint, numerator, denominator, buffer);
    NumberBound(buffer[..], length);
    PowOfTen();
    if decimalPoint > point {
      TenfoldRounds(significand, exponent, point - length, Number(buffer[..], length));
    }
  }

  /** What the buffer must hold in each mode, besides the closing NUL character. */
  ghost predicate BufferFor(mode: Mode, significand: nat, exponent: int, closer: bool, power: int,
                            requestedDigits: nat, size: nat)
  {
    match mode
    case Shortest => size > 0 && EnoughDigits(significand, closer, size - 1)
    case Fixed => LikeDouble(significand, exponent) && 1 < size && power + 1 + requestedDigits < size
    case Precision => LikeDouble(significand, exponent) && 0 < requestedDigits < size
  }

  /** What the digits, read with the decimal point, are in each mode. */
  ghost predicate Converted(mode: Mode, significand: nat, exponent: int, closer: bool, requestedDigits: nat,
                            n: int, length: nat, decimalPoint: int)
  {
    match mode
    case Shortest =>
      length > 0 && ShortestDecimal(significand, exponent, closer, n, length, decimalPoint - length)
    case Fixed =>
      && decimalPoint - length + requestedDigits >= 0
      && n * Pow(10, decimalPoint - length + requestedDigits) == RoundedAt(significand, exponent, 0 - requestedDigits)
    case Precision =>
      && length == requestedDigits > 0
      && n == RoundedAt(significand, exponent, decimalPoint - length)
      && Pow(10, length - 1) <= n < Pow(10, length)
  }

  method BignumDtoa(significand: uint64, exponent: int, closer: bool, estimatedPower: int, mode: Mode,
                    requestedDigits: nat, buffer: array<char>)
    returns (length: nat, decimalPoint: int)
    requires InRange(significand, exponent, estimatedPower) && GoodEstimate(significand, exponent, estimatedPower)
    requires BufferFor(mode, significand, exponent, closer, estimatedPower, requestedDigits, buffer.Length)
    modifies buffer
    ensures length < buffer.Length && AllDigits(buffer[..], length) && buffer[length] == '\0'
    ensures Converted(mode, significand, exponent, closer, requestedDigits,
                      Number(buffer[..], length), length, decimalPoint)
  {
    hide InRange;
    hide GoodEstimate;
    hide ShortestDecimal;
    hide RoundedAt;
    hide EnoughDigits;
    hide LikeDouble;
    hide Pow;
    match mode {
      case Shortest =>
        length, decimalPoint := DtoaShortest(significand, exponent, closer, estimatedPower, buffer);
      case Fixed =>
        length, decimalPoint := DtoaFixed(significand, exponent, closer, estimatedPower, requestedDigits, buffer);
      case Precision =>
        length, decimalPoint := DtoaPrecision(significand, exponent, closer, estimatedPower, requestedDigits, buffer);
    }
    ghost var s := buffer[..];
    buffer[length] := '\0';
    NumberFrame(s, buffer[..], length);
  }
}
