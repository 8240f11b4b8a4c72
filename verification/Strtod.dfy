/** From decimal digits to doubles (strtod.cc): trimming and cutting the digits, the exact
    comparison with a boundary, and the final decision.
  */
module Strtods {
  import opened Powers
  import opened PowerPhase
  import opened Limbs
  import opened Decimals
  import opened BinaryDecimal
  import opened Bignums
  import opened Ieee
  import opened NearestDouble
  import opened CutDigits

  /** The number that digits spell. */
  ghost function Decimal(s: seq<char>): nat
    requires AllDigits(s, |s|)
  {
    NumberBound(s, |s|);
    Number(s, |s|)
  }

  method TrimLeadingZeros(buffer: seq<char>) returns (trimmed: seq<char>)
    requires AllDigits(buffer, |buffer|)
    ensures AllDigits(trimmed, |trimmed|) && |trimmed| <= |buffer|
    ensures trimmed == buffer[|buffer| - |trimmed|..] && (trimmed != [] ==> trimmed[0] != '0')
    ensures Number(trimmed, |trimmed|) == Number(buffer, |buffer|)
  {
    hide Number;
    for i := 0 to |buffer|
      invariant forall j :: 0 <= j < i ==> buffer[j] == '0'
    {
      if buffer[i] != '0' {
        trimmed := buffer[i..];
        LeadingZeros(buffer, trimmed, i, |trimmed|);
        return;
      }
    }
    trimmed := [];
    LeadingZeros(buffer, trimmed, |buffer|, 0);
  }

  method TrimTrailingZeros(buffer: seq<char>) returns (trimmed: seq<char>)
    requires AllDigits(buffer, |buffer|)
    ensures AllDigits(trimmed, |trimmed|) && trimmed <= buffer
    ensures trimmed != [] ==> trimmed[|trimmed| - 1] != '0'
    ensures Number(buffer, |buffer|) == Number(trimmed, |trimmed|) * Pow(10, |buffer| - |trimmed|)
  {
    hide Number, Pow;
    PowZero(10);
    var i: int := |buffer| - 1;
    while i >= 0
      invariant -1 <= i < |buffer|
      invariant Number(buffer, |buffer|) == Number(buffer, i + 1) * Pow(10, |buffer| - (i + 1))
    {
      if buffer[i] != '0' {
        trimmed := buffer[..i + 1];
        NumberFrame(buffer, trimmed, i + 1);
        return;
      }
      OneZeroLess(buffer, i + 1, |buffer| - (i + 1));
      i := i - 1;
    }
    trimmed := [];
    NumberFrame(buffer, trimmed, 0);
  }

  /** Copies all but one of the significant digits and sets the last to '1'. */
  method CutToMaxSignificantDigits(buffer: seq<char>, exponent: int, significantBuffer: array<char>)
    returns (significantExponent: int)
    requires |buffer| > MAX_SIGNIFICANT_DIGITS && significantBuffer.Length >= MAX_SIGNIFICANT_DIGITS
    requires AllDigits(buffer, |buffer|) && buffer[0] != '0' && buffer[|buffer| - 1] != '0'
    modifies significantBuffer
    ensures var cut := significantBuffer[..MAX_SIGNIFICANT_DIGITS];
      AllDigits(cut, |cut|) && SameSide(Decimal(buffer), exponent, Decimal(cut), significantExponent)
    ensures significantExponent + MAX_SIGNIFICANT_DIGITS == exponent + |buffer| && significantBuffer[0] == buffer[0]
  {
    hide Number, Pow, SameSide;
    var digits: nat := MAX_SIGNIFICANT_DIGITS - 1;
    for i := 0 to digits
      invariant forall j :: 0 <= j < i ==> significantBuffer[j] == buffer[j]
    {
      significantBuffer[i] := buffer[i];
    }
    significantBuffer[digits] := '1';
    significantExponent := exponent + (|buffer| - MAX_SIGNIFICANT_DIGITS);
    ghost var cut := significantBuffer[..MAX_SIGNIFICANT_DIGITS];
    NumberFrame(buffer, cut, digits);
    LeadingDigits(buffer, digits, |buffer| - digits);
    LastIsOne(cut, digits);
    NumberBound(buffer, digits);
    CutRoundsAlike(Number(buffer, |buffer|), exponent, |buffer| - digits, Number(buffer, digits),
                   Number(buffer, |buffer|) - Number(buffer, digits) * Pow(10, |buffer| - digits), digits - 1);
  }

  lemma LastIsOne(s: seq<char>, n: nat)
    requires n < |s| && s[n] == '1'
    ensures Number(s, n + 1) == 10 * Number(s, n) + 1
  {
  }

  /** The first `digits` digits and what the others add, which is not nothing. */
  lemma {:induction false} LeadingDigits(s: seq<char>, digits: nat, n: nat)
    requires 0 < digits && digits + n <= |s| && AllDigits(s, digits + n) && s[0] != '0' && n > 0
    ensures Number(s, digits) >= Pow(10, digits - 1)
    ensures var r := Number(s, digits + n) - Number(s, digits) * Pow(10, n);
      0 <= r < Pow(10, n) && (s[digits + n - 1] != '0' ==> r > 0)
  {
    FirstDigit(s, digits);
    var k := n - 1;
    if k > 0 {
      LeadingDigits(s, digits, k);
    }
    assert Number(s, digits + n) == 10 * Number(s, digits + k) + DigitOf(s[digits + n - 1]);
    TenOut(Number(s, digits), Pow(10, k));
  }

  lemma {:induction false} FirstDigit(s: seq<char>, n: nat)
    requires 0 < n <= |s| && AllDigits(s, n) && s[0] != '0'
    ensures Number(s, n) >= Pow(10, n - 1)
  {
    if n == 1 {
      assert Number(s, 1) == 10 * Number(s, 0) + DigitOf(s[0]);
    } else {
      FirstDigit(s, n - 1);
    }
  }

  /** What is left has at most 780 digits, none of them a leading zero, and rounds alike. */
  ghost predicate Trimmed(buffer: seq<char>, exponent: int, trimmed: seq<char>, newExponent: int) {
    AllDigits(buffer, |buffer|) && AllDigits(trimmed, |trimmed|) && |trimmed| <= MAX_SIGNIFICANT_DIGITS &&
    (trimmed != [] ==> trimmed[0] != '0') &&
    SameSide(Decimal(buffer), exponent, Decimal(trimmed), newExponent)
  }

  method TrimAndCut(buffer: seq<char>, exponent: int, copySpace: array<char>)
    returns (trimmed: seq<char>, updatedExponent: int)
    requires AllDigits(buffer, |buffer|) && copySpace.Length >= MAX_SIGNIFICANT_DIGITS
    modifies copySpace
    ensures Trimmed(buffer, exponent, trimmed, updatedExponent)
  {
    hide Number, Pow, SameSide;
    var leftTrimmed := TrimLeadingZeros(buffer);
    var rightTrimmed := TrimTrailingZeros(leftTrimmed);
    var s: nat := |leftTrimmed| - |rightTrimmed|;
    updatedExponent := exponent + s;
    ghost var q := updatedExponent;
    TrailingZeros(Decimal(rightTrimmed), exponent, s);
    if |rightTrimmed| > MAX_SIGNIFICANT_DIGITS {
      updatedExponent := CutToMaxSignificantDigits(rightTrimmed, updatedExponent, copySpace);
      trimmed := copySpace[..MAX_SIGNIFICANT_DIGITS];
      SameSideTransitive(Decimal(buffer), exponent, Decimal(rightTrimmed), q, Decimal(trimmed), updatedExponent);
    } else {
      trimmed := rightTrimmed;
    }
  }

  lemma SameSideTransitive(n: nat, q: int, m: nat, r: int, k: nat, s: int)
    requires SameSide(n, q, m, r) && SameSide(m, r, k, s)
    ensures SameSide(n, q, k, s)
  {
    hide Offset, BoundaryInUnits;
  }

  lemma {:induction false} FiveBelowEight(n: nat)
    ensures Pow(5, n) <= Pow(2, 3 * n)
  {
    if n > 0 {
      FiveBelowEight(n - 1);
      PowAdd(2, 3, 3 * (n - 1));
      assert Pow(2, 3) == 8;
      MulMono(Pow(5, n - 1), Pow(2, 3 * (n - 1)), 5);
    }
  }

  lemma TenTimesFive(n: nat)
    ensures Pow(10, n) == Pow(2, n) * Pow(5, n) && Pow(10, n) <= Pow(2, 4 * n) && Pow(5, n) <= Pow(10, n)
  {
    FiveBelowEight(n);
    PowProduct(2, 5, n);
    PowAdd(2, n, 3 * n);
    hide Pow;
    MulMono(Pow(5, n), Pow(2, 3 * n), Pow(2, n));
    MulMono(1, Pow(2, n), Pow(5, n));
  }

  /** A number of at most 3528 bits fits 126 digits of a bignum. */
  lemma BitsFit(bits: nat, room: nat)
    requires bits <= 28 * room
    ensures Pow(2, bits) <= P(room)
  {
    PIsPow2(room);
    PowMono(2, bits, 28 * room);
  }

  lemma DecimalRoom(length: nat, room: nat)
    requires 4 * length <= 28 * room
    ensures Pow(10, length) <= P(room)
  {
    TenTimesFive(length);
    BitsFit(4 * length, room);
  }

  lemma MantissaAtMost(b: Bignum)
    requires b.Norm()
    ensures b.Mantissa() <= b.Value()
  {
    hide Val, P;
    MulMono(1, P(b.exponent), b.Mantissa());
  }

  /** The digits times a power of ten, for exponents that are not negative. */
  lemma ScaledBufferFits(b: Bignum, length: nat, exponent: nat, room: nat)
    requires b.Norm() && b.Value() < Pow(10, length) && length + exponent <= 310 && room == 126
    ensures b.Mantissa() * Pow(5, exponent) < P(room)
  {
    hide Val, P, Pow;
    MantissaAtMost(b);
    TenTimesFive(exponent);
    PowAdd(10, length, exponent);
    DecimalRoom(length + exponent, room);
    MulMono(Pow(5, exponent), Pow(10, exponent), b.Mantissa());
    MulLess(b.Mantissa(), Pow(10, length), Pow(10, exponent));
  }

  /** A machine word times a power of ten. */
  lemma ScaledWordFits(b: Bignum, f: uint64, power: nat, bits: nat, room: nat)
    requires b.Norm() && b.Value() == f && power <= 1103 && bits == 64 && room == 126
    ensures b.Mantissa() * Pow(5, power) < P(room)
  {
    hide Val, P;
    MantissaAtMost(b);
    WordBits(bits);
    FiveBelowEight(power);
    PowAdd(2, bits, 3 * power);
    BitsFit(bits + 3 * power, room);
    hide Pow;
    MulMono(Pow(5, power), Pow(2, 3 * power), b.Mantissa());
    MulLess(b.Mantissa(), Pow(2, bits), Pow(2, 3 * power));
  }

  lemma WordBits(bits: nat)
    requires bits == 64
    ensures Pow(2, bits) == TWO64
  {
    Pow2Of64();
  }

  /** Compares buffer * 10^exponent with f * 2^e by making both integers. */
  method CompareBufferWithDiyFp(buffer: seq<char>, exponent: int, diyFp: DiyFp) returns (sign: int)
    requires AllDigits(buffer, |buffer|) && |buffer| <= MAX_SIGNIFICANT_DIGITS
    requires MIN_DECIMAL_POWER < |buffer| + exponent <= MAX_DECIMAL_POWER + 1
    ensures sign == Sign(Decimal(buffer) * Below(diyFp.e, exponent) - diyFp.f * Above(diyFp.e, exponent))
  {
    hide Val, P, Pow, Number;
    var bufferBignum := new Bignum();
    var diyFpBignum := new Bignum();
    DecimalRoom(|buffer|, bufferBignum.bigits.Length - 2);
    NumberBound(buffer, |buffer|);
    bufferBignum.AssignDecimalString(buffer);
    diyFpBignum.AssignUInt64(diyFp.f);
    ScaleToIntegers(bufferBignum, diyFpBignum, |buffer|, exponent, diyFp.f, diyFp.e);
    sign := Bignum.Compare(bufferBignum, diyFpBignum);
  }

  /** Multiplies each side by the powers that the other would have to be divided by. */
  method ScaleToIntegers(buffer: Bignum, diyFp: Bignum, ghost length: nat, exponent: int, ghost f: uint64, e: int)
    requires buffer.Norm() && diyFp.Norm() && buffer.Apart(diyFp)
    requires buffer.Value() < Pow(10, length) && diyFp.Value() == f
    requires length <= MAX_SIGNIFICANT_DIGITS && MIN_DECIMAL_POWER < length + exponent <= MAX_DECIMAL_POWER + 1
    modifies buffer, buffer.bigits, diyFp, diyFp.bigits
    ensures buffer.Norm() && diyFp.Norm()
    ensures buffer.Value() == old(buffer.Value()) * Below(e, exponent) && diyFp.Value() == f * Above(e, exponent)
  {
    hide Val, P, Pow, Above, Below;
    ghost var n := buffer.Value();
    DecimalRoom(length, 126);
    buffer.LengthFits(126);
    WordFits(diyFp, f, 64, 126);
    if exponent >= 0 {
      ScaledBufferFits(buffer, length, exponent, 126);
      buffer.MultiplyByPowerOfTen(exponent, 126);
    } else {
      ScaledWordFits(diyFp, f, -exponent, 64, 126);
      diyFp.MultiplyByPowerOfTen(-exponent, 126);
    }
    ghost var x, y := buffer.Value(), diyFp.Value();
    if e > 0 {
      diyFp.ShiftLeft(e);
    } else {
      buffer.ShiftLeft(-e);
    }
    ScaledBoth(n, f, e, exponent, x, y, buffer.Value(), diyFp.Value());
  }

  lemma WordFits(b: Bignum, f: uint64, bits: nat, room: nat)
    requires b.Norm() && b.Value() == f && bits == 64 && room == 126
    ensures b.used <= room
  {
    hide Val, P;
    WordBits(bits);
    BitsFit(bits, room);
    b.LengthFits(room);
  }

  lemma ScaledBoth(n: nat, f: nat, e: int, q: int, x: nat, y: nat, x': nat, y': nat)
    requires x == (if q >= 0 then n * Pow(10, q) else n) && y == if q >= 0 then f else f * Pow(10, -q)
    requires x' == (if e > 0 then x else x * Pow(2, -e)) && y' == if e > 0 then y * Pow(2, e) else y
    ensures x' == n * Below(e, q) && y' == f * Above(e, q)
  {
    PowZero(2);
    hide Pow;
    if q >= 0 {
      MulAssoc(n, Pow(10, q), if e < 0 then Pow(2, -e) else 1);
    } else {
      MulAssoc(f, Pow(10, -q), if e > 0 then Pow(2, e) else 1);
    }
  }

  /** What the fast conversions promise of a guess: if they claim success, it is the double
      the decimal rounds to; otherwise it is that double or the one just below. */
  ghost predicate GoodGuess(n: nat, exponent: int, isCorrect: bool, guess: uint64) {
    guess <= INFINITY &&
    (Nearest(guess, n, exponent) || (!isCorrect && guess < INFINITY && Nearest(guess + 1, n, exponent)))
  }

  /** The fast conversions as a function of digits and exponent, with their promise for the
      range in which they are tried. */
  ghost predicate GoodConversion(fast: (seq<char>, int) -> (bool, uint64)) {
    forall digits: seq<char>, exponent: int {:trigger fast(digits, exponent)}
      | digits != [] && AllDigits(digits, |digits|) && digits[0] != '0' &&
        |digits| <= MAX_SIGNIFICANT_DIGITS && MIN_DECIMAL_POWER < |digits| + exponent <= MAX_DECIMAL_POWER ::
      GoodGuess(Decimal(digits), exponent, fast(digits, exponent).0, fast(digits, exponent).1)
  }

  /** The promise can be kept. */
  lemma GoodConversionExists()
    ensures exists fast: (seq<char>, int) -> (bool, uint64) :: GoodConversion(fast)
  {
    hide Number, Nearest;
    var fast: (seq<char>, int) -> (bool, uint64) :=
      (digits: seq<char>, exponent: int) =>
        if AllDigits(digits, |digits|) then (true, NearestTo(Decimal(digits), exponent)) else (false, 0);
    assert GoodConversion(fast);
  }

  ghost function NearestTo(n: nat, q: int): (d: uint64)
    ensures Nearest(d, n, q) && d <= INFINITY
  {
    NearestExists(n, q);
    var d: uint64 :| Nearest(d, n, q);
    d
  }

  /** Decides what is beyond the range of doubles, and otherwise guesses. */
  method ComputeGuess(trimmed: seq<char>, exponent: int, fast: (seq<char>, int) -> (bool, uint64))
    returns (isCorrect: bool, guess: uint64)
    requires AllDigits(trimmed, |trimmed|) && |trimmed| <= MAX_SIGNIFICANT_DIGITS
    requires (trimmed != [] ==> trimmed[0] != '0') && GoodConversion(fast)
    ensures GoodGuess(Decimal(trimmed), exponent, isCorrect, guess)
    ensures !isCorrect ==> guess < INFINITY && MIN_DECIMAL_POWER < |trimmed| + exponent <= MAX_DECIMAL_POWER
  {
    hide Number, Pow, Nearest;
    EmptyNumber(trimmed);
    ZeroRounds(exponent);
    if |trimmed| == 0 {
      return true, 0;
    }
    FirstDigit(trimmed, |trimmed|);
    NumberBound(trimmed, |trimmed|);
    if exponent + |trimmed| - 1 >= MAX_DECIMAL_POWER {
      LargeRounds(Decimal(trimmed), |trimmed|, exponent, MAX_DECIMAL_POWER);
      return true, INFINITY;
    }
    if exponent + |trimmed| <= MIN_DECIMAL_POWER {
      SmallRounds(Decimal(trimmed), |trimmed|, exponent, -MIN_DECIMAL_POWER);
      return true, 0;
    }
    var result := fast(trimmed, exponent);
    isCorrect, guess := result.0, result.1;
    if guess == INFINITY {
      isCorrect := true;
    }
  }

  /** Correct rounding of digit strings of any length: to the nearest double, ties to even. */
  method Strtod(buffer: seq<char>, exponent: int, fast: (seq<char>, int) -> (bool, uint64)) returns (d64: uint64)
    requires AllDigits(buffer, |buffer|) && GoodConversion(fast)
    ensures Nearest(d64, Decimal(buffer), exponent)
  {
    hide Number, Nearest, SameSide;
    var copyBuffer := new char[MAX_SIGNIFICANT_DIGITS];
    var trimmed, updatedExponent := TrimAndCut(buffer, exponent, copyBuffer);
    var isCorrect, guess := ComputeGuess(trimmed, updatedExponent, fast);
    ghost var n, q := Decimal(trimmed), updatedExponent;
    if isCorrect {
      SameSideRoundsAlike(Decimal(buffer), exponent, n, q, guess);
      return guess;
    }
    var comparison := CompareBufferWithDiyFp(trimmed, updatedExponent, UpperBoundary(guess));
    Decide(n, q, guess, comparison);
    if comparison < 0 {
      d64 := guess;
    } else if comparison > 0 {
      d64 := NextDouble(guess);
    } else if Significand(guess) % 2 == 0 {
      d64 := guess;
    } else {
      d64 := NextDouble(guess);
    }
    SameSideRoundsAlike(Decimal(buffer), exponent, n, q, d64);
  }

  /** The boundary above the guess separates the two doubles in question. */
  lemma Decide(n: nat, q: int, guess: uint64, comparison: int)
    requires guess < INFINITY && (Nearest(guess, n, q) || Nearest(guess + 1, n, q))
    requires var b := UpperBoundary(guess); comparison == Sign(n * Below(b.e, q) - b.f * Above(b.e, q))
    ensures var up := comparison > 0 || (comparison == 0 && Significand(guess) % 2 != 0);
      Nearest(if up then guess + 1 else guess, n, q)
  {
    NearestIsBetween(guess, n, q);
    NearestIsBetween(guess + 1, n, q);
    OffsetCompares(n, q, UpperBoundary(guess).f, UpperBoundary(guess).e);
    ParityAlternates(guess);
    hide Nearest, Offset, Above, Below, Significand, UpperBoundary;
  }
}
