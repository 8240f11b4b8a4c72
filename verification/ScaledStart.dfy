/** The exact start values of digit generation: `InitialScaledStartValues` and
    `FixupMultiply10` of bignum-dtoa.cc.

    The number is v = significand * 2^exponent. `Above` and `Below` are a numerator and a
    denominator of 2^exponent / 10^power, so v / 10^power is significand * Above / Below.
  */
module ScaledStart {
  import opened Powers
  import opened Limbs
  import opened Bignums
  import opened PowerPhase
  import opened ShortestDigits
  import opened BinaryDecimal

  /** The range of exponents for which the numbers fit: that of all doubles, and more. */
  ghost predicate InRange(significand: nat, exponent: int, power: int) {
    && 0 < significand < TWO64
    && -1100 <= exponent <= 1100 && -350 <= power <= 350
    && (exponent >= 0 ==> power >= 0)
  }

  /** v is one of the multiples of 1/den that lie below `bits` bits. */
  lemma {:induction false} TenBelowSixteen(n: nat)
    ensures Pow(10, n) <= Pow(2, 4 * n)
  {
    if n > 0 {
      TenBelowSixteen(n - 1);
      PowAdd(2, 4, 4 * (n - 1));
      assert Pow(2, 4) == 16;
      MulMono(10, 16, Pow(10, n - 1));
      MulMono(Pow(10, n - 1), Pow(2, 4 * (n - 1)), 16);
    }
  }

  /** Small: below 2^bits. */
  ghost predicate Small(v: int, bits: nat) {
    0 <= v < Pow(2, bits)
  }

  lemma SmallTimes(a: nat, m: nat, b: nat, n: nat)
    requires Small(a, m) && b <= Pow(2, n)
    ensures Small(a * b, m + n)
  {
    PowAdd(2, m, n);
    MulMono(b, Pow(2, n), a);
    MulLess(a, Pow(2, m), Pow(2, n));
    MulMono(0, a, b);
  }

  lemma BitsToDigits(bits: nat, digits: nat)
    requires bits + 4 <= 28 * digits
    ensures 16 * Pow(2, bits) <= P(digits)
  {
    PIsPow2(digits);
    PowAdd(2, 4, bits);
    PowMono(2, bits + 4, 28 * digits);
    assert Pow(2, 4) == 16;
  }

  /** Numbers of up to 3300 bits leave room in the digit buffer. */
  lemma SmallFits(b: Bignum, bits: nat)
    requires b.Norm() && Small(b.Value(), bits) && bits <= 3300
    ensures b.used + b.exponent <= 118 && b.used < CAPACITY
    ensures Roomy(b.Value())
  {
    BitsToDigits(bits, 118);
    BitsToDigits(bits, CAPACITY - 2);
    hide Pow;
    hide P;
    hide Val;
    b.LengthFits(118);
  }

  lemma MantissaBelowValue(b: Bignum)
    requires b.Norm()
    ensures b.Mantissa() <= b.Value()
  {
    hide Val;
    hide P;
    MulMono(1, P(b.exponent), b.Mantissa());
  }

  /** Shifting by at most `shift` bits. */
  method ShiftBits(b: Bignum, shift: nat, ghost bits: nat)
    requires b.Norm() && Small(b.Value(), bits) && bits + shift <= 3300
    modifies b, b.bigits
    ensures b.Norm() && b.Value() == old(b.Value()) * Pow(2, shift)
    ensures Small(b.Value(), bits + shift)
  {
    hide Val;
    hide P;
    SmallFits(b, bits);
    SmallTimes(b.Value(), bits, Pow(2, shift), shift);
    b.ShiftLeft(shift);
  }

  lemma TenPowerFits(power: nat)
    requires power <= 350
    ensures PowerFits(OddPart(10), power)
  {
    assert OddPart(5) == 5 && OddPart(10) == OddPart(5);
    assert BitSize(0) == 0 && BitSize(1) == 1 && BitSize(2) == 2 && BitSize(5) == 3;
  }

  method PowerOfTen(b: Bignum, power: nat)
    requires b.Valid() && power <= 350
    modifies b, b.bigits
    ensures b.Norm() && b.Value() == Pow(10, power) && Small(b.Value(), 4 * power + 1)
  {
    TenPowerFits(power);
    TenBelowSixteen(power);
    assert Pow(2, 4 * power + 1) == 2 * Pow(2, 4 * power);
    hide *;
    b.AssignPowerUInt16(10, power);
  }

  method AssignSmall(b: Bignum, value: uint64)
    requires b.Valid()
    modifies b, b.bigits
    ensures b.Norm() && b.Value() == value && Small(value, 64)
  {
    Pow2Of64();
    hide Val;
    hide P;
    b.AssignUInt64(value);
  }

  method AssignOne(b: Bignum)
    requires b.Valid()
    modifies b, b.bigits
    ensures b.Norm() && b.Value() == 1 && Small(1, 1)
  {
    assert Pow(2, 1) == 2 * Pow(2, 0);
    hide Val;
    hide P;
    b.AssignUInt16(1);
  }

  /** Doubles the numbers that share the common denominator. */
  method Double(b: Bignum, ghost bits: nat)
    requires b.Norm() && Small(b.Value(), bits) && bits < 3300
    modifies b, b.bigits
    ensures b.Norm() && b.Value() == 2 * old(b.Value()) && Small(b.Value(), bits + 1)
  {
    ShiftBits(b, 1, bits);
    assert Pow(2, 1) == 2 * Pow(2, 0);
  }

  ghost predicate AllNorm(a: Bignum, b: Bignum, c: Bignum, d: Bignum)
    reads a, a.bigits, b, b.bigits, c, c.bigits, d, d.bigits
  {
    a.Norm() && b.Norm() && c.Norm() && d.Norm()
  }

  /** value * 2^shift */
  method AssignShifted(b: Bignum, value: uint64, shift: nat)
    requires b.Valid() && shift <= 2400
    modifies b, b.bigits
    ensures b.Norm() && b.Value() == value * Pow(2, shift) && Small(b.Value(), 64 + shift)
  {
    AssignSmall(b, value);
    ShiftBits(b, shift, 64);
  }

  /** 2^shift */
  method AssignBit(b: Bignum, shift: nat)
    requires b.Valid() && shift <= 2400
    modifies b, b.bigits
    ensures b.Norm() && b.Value() == Pow(2, shift) && Small(b.Value(), 1 + shift)
  {
    AssignOne(b);
    ShiftBits(b, shift, 1);
  }

  /** numerator / denominator is v / 10^power, both multiplied by `unit`. */
  ghost predicate Ratio(significand: nat, exponent: int, power: int, unit: nat, numerator: Bignum, denominator: Bignum)
    requires numerator.Valid() && denominator.Valid()
    reads numerator, numerator.bigits, denominator, denominator.bigits
  {
    && numerator.Value() == significand * Above(exponent, power) * unit
    && denominator.Value() == Below(exponent, power) * unit
  }

  ghost predicate BothSmall(a: Bignum, b: Bignum, bits: nat)
    requires a.Valid() && b.Valid()
    reads a, a.bigits, b, b.bigits
  {
    Small(a.Value(), bits) && Small(b.Value(), bits)
  }

  /** The distances to both boundaries, in the same units. */
  ghost predicate Deltas(exponent: int, power: int, factor: nat, deltaMinus: Bignum, deltaPlus: Bignum)
    requires deltaMinus.Valid() && deltaPlus.Valid()
    reads deltaMinus, deltaMinus.bigits, deltaPlus, deltaPlus.bigits
  {
    && deltaMinus.Value() == Above(exponent, power)
    && deltaPlus.Value() == Above(exponent, power) * factor
    && Small(deltaPlus.Value(), if factor == 1 then 2600 else 2601)
  }

  /** Introduces a common denominator of 2 so that the distances are integers. */
  method DoubleRatio(significand: uint64, exponent: int, power: int, numerator: Bignum, denominator: Bignum,
                     ghost unit: nat, ghost bits: nat)
    requires numerator.Norm() && denominator.Norm() && numerator.Apart(denominator)
    requires Ratio(significand, exponent, power, unit, numerator, denominator)
    requires BothSmall(numerator, denominator, bits) && bits < 3300
    modifies numerator, numerator.bigits, denominator, denominator.bigits
    ensures numerator.Norm() && denominator.Norm()
    ensures Ratio(significand, exponent, power, 2 * unit, numerator, denominator)
    ensures BothSmall(numerator, denominator, bits + 1)
  {
    hide Val;
    hide P;
    hide Pow;
    hide Small;
    hide Above;
    hide Below;
    Double(denominator, bits);
    Double(numerator, bits);
    Twice(significand * Above(exponent, power), unit);
    Twice(Below(exponent, power), unit);
  }

  lemma Twice(x: int, unit: int)
    ensures 2 * (x * unit) == x * (2 * unit)
  {
  }

  /** exponent >= 0, so power >= 0. */
  method StartPositiveExponent(significand: uint64, exponent: int, power: int, deltas: bool,
                               numerator: Bignum, denominator: Bignum, deltaMinus: Bignum, deltaPlus: Bignum)
    requires AllNorm(numerator, denominator, deltaMinus, deltaPlus)
    requires Separate(numerator, denominator, deltaMinus, deltaPlus)
    requires InRange(significand, exponent, power) && exponent >= 0
    modifies numerator, numerator.bigits, denominator, denominator.bigits
    modifies deltaMinus, deltaMinus.bigits, deltaPlus, deltaPlus.bigits
    ensures AllNorm(numerator, denominator, deltaMinus, deltaPlus)
    ensures Ratio(significand, exponent, power, if deltas then 2 else 1, numerator, denominator)
    ensures BothSmall(numerator, denominator, if deltas then 2600 else 2599)
    ensures deltas ==> Deltas(exponent, power, 1, deltaMinus, deltaPlus)
    ensures !deltas ==> deltaMinus.Value() == old(deltaMinus.Value()) && deltaPlus.Value() == old(deltaPlus.Value())
  {
    hide Val;
    hide P;
    hide Pow;
    hide Small;
    PositiveExponent(exponent, power);
    hide Above;
    hide Below;
    RatioPositiveExponent(significand, exponent, power, numerator, denominator);
    if deltas {
      DoubleRatio(significand, exponent, power, numerator, denominator, 1, 2599);
      AssignBit(deltaPlus, exponent);
      AssignBit(deltaMinus, exponent);
      SmallMore(deltaPlus.Value(), 1 + exponent, 2600);
    }
  }

  lemma PositiveExponent(exponent: int, power: int)
    requires exponent >= 0 && power >= 0
    ensures Above(exponent, power) == Above(exponent, power) * 1 == Pow(2, exponent)
  {
  }

  method RatioPositiveExponent(significand: uint64, exponent: int, power: int,
                               numerator: Bignum, denominator: Bignum)
    requires numerator.Norm() && denominator.Norm() && numerator.Apart(denominator)
    requires InRange(significand, exponent, power) && exponent >= 0
    modifies numerator, numerator.bigits, denominator, denominator.bigits
    ensures numerator.Norm() && denominator.Norm()
    ensures Ratio(significand, exponent, power, 1, numerator, denominator)
    ensures BothSmall(numerator, denominator, 2599)
  {
    hide Val;
    hide P;
    hide Pow;
    hide Small;
    AssignShifted(numerator, significand, exponent);
    PowerOfTen(denominator, power);
    SmallMore(numerator.Value(), 64 + exponent, 2599);
    SmallMore(denominator.Value(), 4 * power + 1, 2599);
  }

  /** exponent < 0 and power >= 0. */
  method StartNegativeExponentPositivePower(
      significand: uint64, exponent: int, power: int, deltas: bool,
      numerator: Bignum, denominator: Bignum, deltaMinus: Bignum, deltaPlus: Bignum)
    requires AllNorm(numerator, denominator, deltaMinus, deltaPlus)
    requires Separate(numerator, denominator, deltaMinus, deltaPlus)
    requires InRange(significand, exponent, power) && exponent < 0 <= power
    modifies numerator, numerator.bigits, denominator, denominator.bigits
    modifies deltaMinus, deltaMinus.bigits, deltaPlus, deltaPlus.bigits
    ensures AllNorm(numerator, denominator, deltaMinus, deltaPlus)
    ensures Ratio(significand, exponent, power, if deltas then 2 else 1, numerator, denominator)
    ensures BothSmall(numerator, denominator, if deltas then 2600 else 2599)
    ensures deltas ==> Deltas(exponent, power, 1, deltaMinus, deltaPlus)
    ensures !deltas ==> deltaMinus.Value() == old(deltaMinus.Value()) && deltaPlus.Value() == old(deltaPlus.Value())
  {
    hide Val;
    hide P;
    hide Pow;
    hide Small;
    RatioNegativeExponent(significand, exponent, power, numerator, denominator);
    if deltas {
      DoubleRatio(significand, exponent, power, numerator, denominator, 1, 2599);
      AssignOne(deltaPlus);
      AssignOne(deltaMinus);
      SmallMore(deltaPlus.Value(), 1, 2600);
    }
  }

  lemma NegativeExponent(significand: int, exponent: int, power: int)
    requires exponent < 0 <= power
    ensures significand * Above(exponent, power) * 1 == significand
    ensures Below(exponent, power) * 1 == Pow(10, power) * Pow(2, -exponent)
  {
  }

  method RatioNegativeExponent(significand: uint64, exponent: int, power: int,
                               numerator: Bignum, denominator: Bignum)
    requires numerator.Norm() && denominator.Norm() && numerator.Apart(denominator)
    requires InRange(significand, exponent, power) && exponent < 0 <= power
    modifies numerator, numerator.bigits, denominator, denominator.bigits
    ensures numerator.Norm() && denominator.Norm()
    ensures Ratio(significand, exponent, power, 1, numerator, denominator)
    ensures BothSmall(numerator, denominator, 2599)
  {
    hide Val;
    hide P;
    hide Pow;
    hide Small;
    NegativeExponent(significand, exponent, power);
    hide Above;
    hide Below;
    AssignSmall(numerator, significand);
    PowerOfTen(denominator, power);
    ShiftBits(denominator, 0 - exponent, 4 * power + 1);
    SmallMore(numerator.Value(), 64, 2599);
    SmallMore(denominator.Value(), 4 * power + 1 - exponent, 2599);
  }

  /** exponent < 0 and power < 0: the power of ten goes into the numerator, which holds it
      alone while the distances are copied from it. */
  method StartNegativeExponentNegativePower(
      significand: uint64, exponent: int, power: int, deltas: bool,
      numerator: Bignum, denominator: Bignum, deltaMinus: Bignum, deltaPlus: Bignum)
    requires AllNorm(numerator, denominator, deltaMinus, deltaPlus)
    requires Separate(numerator, denominator, deltaMinus, deltaPlus)
    requires InRange(significand, exponent, power) && exponent < 0 && power < 0
    modifies numerator, numerator.bigits, denominator, denominator.bigits
    modifies deltaMinus, deltaMinus.bigits, deltaPlus, deltaPlus.bigits
    ensures AllNorm(numerator, denominator, deltaMinus, deltaPlus)
    ensures Ratio(significand, exponent, power, if deltas then 2 else 1, numerator, denominator)
    ensures BothSmall(numerator, denominator, if deltas then 2600 else 2599)
    ensures deltas ==> Deltas(exponent, power, 1, deltaMinus, deltaPlus)
    ensures !deltas ==> deltaMinus.Value() == old(deltaMinus.Value()) && deltaPlus.Value() == old(deltaPlus.Value())
  {
    hide Val;
    hide P;
    hide Pow;
    hide Small;
    NegativePower(exponent, power);
    hide Above;
    hide Below;
    PowerOfTen(numerator, 0 - power);
    if deltas {
      CopyTo(numerator, deltaMinus, deltaPlus, exponent, power);
    }
    MultiplyBySignificand(significand, exponent, power, numerator, denominator);
    if deltas {
      DoubleRatio(significand, exponent, power, numerator, denominator, 1, 2599);
    }
  }

  /** Both distances are the power of ten held by the numerator at this moment. */
  method CopyTo(powerTen: Bignum, deltaMinus: Bignum, deltaPlus: Bignum, ghost exponent: int, ghost power: int)
    requires powerTen.Norm() && deltaMinus.Norm() && deltaPlus.Norm()
    requires powerTen.Apart(deltaMinus) && powerTen.Apart(deltaPlus) && deltaMinus.Apart(deltaPlus)
    requires powerTen.Value() == Above(exponent, power) && -350 <= power < 0
    requires Small(powerTen.Value(), 1 - 4 * power)
    modifies deltaMinus, deltaMinus.bigits, deltaPlus, deltaPlus.bigits
    ensures deltaMinus.Norm() && deltaPlus.Norm()
    ensures Deltas(exponent, power, 1, deltaMinus, deltaPlus)
  {
    hide Val;
    hide P;
    hide Pow;
    hide Small;
    hide Above;
    SmallMore(powerTen.Value(), 1 - 4 * power, 2600);
    deltaPlus.AssignBignum(powerTen);
    deltaMinus.AssignBignum(powerTen);
  }

  lemma NegativePower(exponent: int, power: int)
    requires exponent < 0 && power < 0
    ensures Above(exponent, power) == Above(exponent, power) * 1 == Pow(10, -power)
    ensures Below(exponent, power) == Below(exponent, power) * 1 == Pow(2, -exponent)
  {
  }

  method MultiplyBySignificand(significand: uint64, exponent: int, power: int,
                               numerator: Bignum, denominator: Bignum)
    requires numerator.Norm() && denominator.Norm() && numerator.Apart(denominator)
    requires InRange(significand, exponent, power) && exponent < 0 && power < 0
    requires numerator.Value() == Pow(10, -power) && Small(numerator.Value(), 1 - 4 * power)
    modifies numerator, numerator.bigits, denominator, denominator.bigits
    ensures numerator.Norm() && denominator.Norm()
    ensures Ratio(significand, exponent, power, 1, numerator, denominator)
    ensures BothSmall(numerator, denominator, 2599)
  {
    hide Val;
    hide P;
    hide Pow;
    hide Small;
    NegativePower(exponent, power);
    hide Above;
    hide Below;
    TimesSignificand(numerator, significand, 1 - 4 * power);
    AssignBit(denominator, 0 - exponent);
    SmallMore(numerator.Value(), 65 - 4 * power, 2599);
    SmallMore(denominator.Value(), 1 - exponent, 2599);
  }

  method TimesSignificand(b: Bignum, significand: uint64, ghost bits: nat)
    requires b.Norm() && significand > 0 && Small(b.Value(), bits) && bits + 64 <= 3300
    modifies b, b.bigits
    ensures b.Norm() && b.Value() == old(b.Value()) * significand
    ensures Small(b.Value(), bits + 64)
  {
    hide Val;
    hide P;
    ghost var m := b.Mantissa();
    Pow2Of64();
    SmallTimes(b.Value(), bits, significand, 64);
    MantissaBelowValue(b);
    MulMono(m, b.Value(), significand);
    BitsToDigits(bits + 64, b.bigits.Length);
    assert m * significand < P(b.bigits.Length);
    b.MultiplyByUInt64(significand);
    MulRight(m, significand, P(b.exponent));
  }

  lemma SmallMore(v: int, bits: nat, more: nat)
    requires bits <= more && (Small(v, bits) || (bits > 0 && Small(v, bits - 1)))
    ensures Small(v, more)
  {
    PowMono(2, bits, more);
    if bits > 0 {
      PowMono(2, bits - 1, more);
    }
  }

  /** Computes v / 10^power exactly, as a ratio, together with the distances to the
      boundaries of v; the lower boundary may be closer by half. */
  method InitialScaledStartValues(
      significand: uint64, exponent: int, lowerBoundaryIsCloser: bool, power: int, deltas: bool,
      numerator: Bignum, denominator: Bignum, deltaMinus: Bignum, deltaPlus: Bignum)
    requires AllNorm(numerator, denominator, deltaMinus, deltaPlus)
    requires Separate(numerator, denominator, deltaMinus, deltaPlus)
    requires InRange(significand, exponent, power)
    modifies numerator, numerator.bigits, denominator, denominator.bigits
    modifies deltaMinus, deltaMinus.bigits, deltaPlus, deltaPlus.bigits
    ensures AllNorm(numerator, denominator, deltaMinus, deltaPlus)
    ensures Ratio(significand, exponent, power, Unit(deltas, lowerBoundaryIsCloser), numerator, denominator)
    ensures BothSmall(numerator, denominator, 2601)
    ensures deltas ==> Deltas(exponent, power, if lowerBoundaryIsCloser then 2 else 1, deltaMinus, deltaPlus)
    ensures !deltas ==> deltaMinus.Value() == old(deltaMinus.Value()) && deltaPlus.Value() == old(deltaPlus.Value())
  {
    hide Val;
    hide P;
    hide Pow;
    hide Small;
    hide Above;
    hide Below;
    if exponent >= 0 {
      StartPositiveExponent(significand, exponent, power, deltas, numerator, denominator, deltaMinus, deltaPlus);
    } else if power >= 0 {
      StartNegativeExponentPositivePower(significand, exponent, power, deltas,
                                         numerator, denominator, deltaMinus, deltaPlus);
    } else {
      StartNegativeExponentNegativePower(significand, exponent, power, deltas,
                                         numerator, denominator, deltaMinus, deltaPlus);
    }
    if deltas && lowerBoundaryIsCloser {
      DoubleRatio(significand, exponent, power, numerator, denominator, 2, 2600);
      Double(deltaPlus, 2600);
    } else {
      SmallMore(numerator.Value(), if deltas then 2600 else 2599, 2601);
      SmallMore(denominator.Value(), if deltas then 2600 else 2599, 2601);
    }
  }

  /** The common denominator that makes the distances integers. */
  function Unit(deltas: bool, closer: bool): nat {
    if !deltas then 1 else if closer then 4 else 2
  }

  /** Multiplies by ten unless the number, or the end of its interval, already reaches 1;
      `decimalPoint` records which. The ratio of every number to the denominator is then
      as before, relative to 10^(decimalPoint-1) instead of 10^power. */
  method FixupMultiply10(power: int, isEven: bool,
                         numerator: Bignum, denominator: Bignum, deltaMinus: Bignum, deltaPlus: Bignum)
    returns (decimalPoint: int)
    requires AllNorm(numerator, denominator, deltaMinus, deltaPlus)
    requires Separate(numerator, denominator, deltaMinus, deltaPlus)
    requires Roomy(numerator.Value()) && Roomy(deltaMinus.Value()) && Roomy(deltaPlus.Value())
    modifies numerator, numerator.bigits, deltaMinus, deltaMinus.bigits, deltaPlus, deltaPlus.bigits
    ensures AllNorm(numerator, denominator, deltaMinus, deltaPlus)
    ensures power <= decimalPoint <= power + 1
    ensures decimalPoint == power + 1 <==>
      if isEven then old(numerator.Value()) + old(deltaPlus.Value()) >= denominator.Value()
      else old(numerator.Value()) + old(deltaPlus.Value()) > denominator.Value()
    ensures var factor := if decimalPoint == power then 10 else 1;
      && numerator.Value() == factor * old(numerator.Value())
      && deltaMinus.Value() == factor * old(deltaMinus.Value())
      && deltaPlus.Value() == factor * old(deltaPlus.Value())
  {
    hide Val;
    hide P;
    hide Roomy;
    var order := Bignum.PlusCompare(numerator, deltaPlus, denominator);
    var inRange := if isEven then order >= 0 else order > 0;
    if inRange {
      decimalPoint := power + 1;
    } else {
      decimalPoint := power;
      Times10(numerator, numerator.Value());
      var same := Bignum.Compare(deltaMinus, deltaPlus);
      Times10(deltaMinus, deltaMinus.Value());
      if same == 0 {
        deltaPlus.AssignBignum(deltaMinus);
      } else {
        Times10(deltaPlus, deltaPlus.Value());
      }
    }
  }
}
