/** Fast fixed-notation printing (fixed-dtoa.cc) with 64- and 128-bit integers. Its digits
    denote exactly what the printer with arbitrary-precision integers prints.
  */
module FixedDtoa {
  import opened Powers
  import opened PowerPhase
  import opened Decimals
  import opened Rounding
  import opened BinaryDecimal
  import opened BignumDtoa
  import opened WideInteger
  import opened FillDigits

  /** n is the number of whole units of 10^-j in v / d; f is what remains, as a binary
      fraction whose point has moved down by j bits because 10 = 5 * 2. */
  ghost predicate Pending(v: int, d: int, j: nat, n: int, f: int) {
    v * Pow(10, j) == n * d + f * Pow(2, j) && 0 <= f * Pow(2, j) < d
  }

  lemma StartPending(n: nat, d: nat, f: nat)
    requires f < d
    ensures Pending(n * d + f, d, 0, n, f)
  {
  }

  /** Multiplying by 5 and moving the point is multiplying by 10. */
  lemma PendingStep(v: int, d: int, j: nat, n: int, f: int, point: nat, digit: int, f': int)
    requires Pending(v, d, j, n, f) && d == Pow(2, point) * Pow(2, j) && 0 <= f < Pow(2, point) && point > 0
    requires 5 * f == digit * Pow(2, point - 1) + f' && 0 <= f' < Pow(2, point - 1)
    ensures 0 <= digit <= 9
    ensures Pending(v, d, j + 1, 10 * n + digit, f')
    ensures d == Pow(2, point - 1) * Pow(2, j + 1)
  {
    var p, q := Pow(2, point - 1), Pow(2, j);
    assert Pow(2, point) == 2 * p && Pow(2, j + 1) == 2 * q && Pow(10, j + 1) == 10 * Pow(10, j);
    DigitRange(digit, f', p, f);
    PendingValues(v, d, Pow(10, j), n, f, p, q, digit, f');
  }

  lemma DigitRange(digit: int, f': int, p: int, f: int)
    requires 5 * f == digit * p + f' && 0 <= f' < p && 0 <= f < 2 * p
    ensures 0 <= digit <= 9
  {
    if digit >= 10 {
      MulMono(10, digit, p);
    } else if digit <= -1 {
      MulMono(digit, -1, p);
    }
  }

  lemma PendingValues(v: int, d: int, t: int, n: int, f: int, p: int, q: int, digit: int, f': int)
    requires v * t == n * d + f * q && d == (2 * p) * q && q > 0
    requires 5 * f == digit * p + f' && 0 <= f' < p
    ensures v * (10 * t) == (10 * n + digit) * d + f' * (2 * q) && 0 <= f' * (2 * q) < d
    ensures d == p * (2 * q)
  {
    MulRight(2, p, q);
    MulMono(f' + 1, p, 2 * q);
    MulMono(0, f', 2 * q);
    PendingSum(v, d, t, n, f, p, q, digit, f');
  }

  lemma PendingSum(v: int, d: int, t: int, n: int, f: int, p: int, q: int, digit: int, f': int)
    requires v * t == n * d + f * q && d == p * (2 * q) && 5 * f == digit * p + f'
    ensures v * (10 * t) == (10 * n + digit) * d + f' * (2 * q)
  {
    TenOut(v, t);
    FiveTimesTwo(f, q);
    PullOut(digit, f', 2 * q, p, d);
    PullOut(n, digit, d, 10, 10 * d);
  }

  lemma FiveTimesTwo(f: int, q: int)
    ensures (5 * f) * (2 * q) == 10 * (f * q)
  {
  }

  /** Whether to round up is the first bit behind the point. */
  lemma RoundingBit(v: nat, d: nat, j: nat, n: nat, f: nat, point: nat)
    requires Pending(v, d, j, n, f) && d == Pow(2, point) * Pow(2, j) && f < Pow(2, point) && point > 0
    ensures RoundHalfUp(v * Pow(10, j), d) == if f / Pow(2, point - 1) % 2 == 1 then n + 1 else n
  {
    var p, q := Pow(2, point - 1), Pow(2, j);
    assert Pow(2, point) == 2 * p;
    assert d > 0 by { MulMono(1, Pow(2, point), q); }
    if f >= p {
      DivModUnique(f, p, 1, f - p);
      MulMono(p, f, q);
    } else {
      DivModUnique(f, p, 0, f);
      MulLess(f, p, q);
    }
    MulAssoc(2, p, q);
    hide RoundHalfUp;
    RoundFromRemainder(v * Pow(10, j), d, n, f * q);
  }

  /** If nothing remains, the further digits are zeros. */
  lemma NothingPending(v: nat, d: nat, j: nat, n: nat, count: nat)
    requires Pending(v, d, j, n, 0) && j <= count && d > 0
    ensures RoundHalfUp(v * Pow(10, count), d) == n * Pow(10, count - j)
  {
    PowAdd(10, j, count - j);
    MulAssoc(v, Pow(10, j), Pow(10, count - j));
    MulRight(n, d, Pow(10, count - j));
    RoundFromRemainder(v * Pow(10, count), d, n * Pow(10, count - j), 0);
  }

  /** Three iterations fit into w bits because of the leading zeros, the others because the
      point has moved far enough. */
  ghost predicate Fits(f: int, j: int, point: int, w: nat)
    requires w >= 8
  {
    0 <= f && 0 <= point <= w - j && f < Pow(2, point) && (j == 0 ==> f < Pow(2, w - 8)) &&
    (j == 1 ==> f < 5 * Pow(2, w - 8)) && (j == 2 ==> f < 25 * Pow(2, w - 8))
  }

  lemma FitsTimesFive(f: int, j: nat, point: nat, w: nat)
    requires w >= 8 && Fits(f, j, point, w)
    ensures 5 * f < Pow(2, w)
  {
    EightBits();
    hide Pow;
    PowAdd(2, w - 8, 8);
    if j >= 3 {
      PowMono(2, point, w - 3);
      PowAdd(2, w - 3, 3);
    }
  }

  lemma EightBits()
    ensures Pow(2, 3) == 8 && Pow(2, 8) == 256
  {
  }

  lemma FitsNext(f: int, j: nat, point: nat, w: nat, f': int)
    requires w >= 8 && Fits(f, j, point, w) && point > 0 && 0 <= f' <= 5 * f && f' < Pow(2, point - 1)
    ensures Fits(f', j + 1, point - 1, w)
  {
  }

  /** The digits so far, the buffer and the machine word. */
  ghost predicate Fractionals(s: seq<char>, length: nat, v: int, d: int, j: nat, f: int, point: int, w: nat)
    requires w >= 8
  {
    length <= |s| && AllDigits(s, length) && Pending(v, d, j, Number(s, length), f) && Fits(f, j, point, w) &&
    d == Pow(2, point) * Pow(2, j)
  }

  lemma NoPointLeft(s: seq<char>, length: nat, v: int, d: int, j: nat, f: int, point: nat, w: nat)
    requires w >= 8 && Fractionals(s, length, v, d, j, f, point, w) && f > 0
    ensures point > 0 && length <= |s| && AllDigits(s, length) && 5 * f < Pow(2, w)
  {
    assert Pow(2, 0) == 1;
    FitsTimesFive(f, j, point, w);
  }

  /** Writes the next digit. */
  method EmitFractional(buffer: array<char>, length: nat, digit: nat, ghost v: int, ghost d: int, ghost j: nat,
                        ghost f: int, ghost point: nat, ghost f': int, ghost w: nat)
    requires w >= 8 && length < buffer.Length && Fractionals(buffer[..], length, v, d, j, f, point, w) && point > 0
    requires 5 * f == digit * Pow(2, point - 1) + f' && 0 <= f' < Pow(2, point - 1)
    modifies buffer
    ensures Fractionals(buffer[..], length + 1, v, d, j + 1, f', point - 1, w)
    ensures f' >= 0
  {
    hide Number, Pow, Pending, Fits;
    ghost var n := Number(buffer[..], length);
    FitsRange(f, j, point, w);
    PendingStep(v, d, j, n, f, point, digit, f');
    MulMono(0, digit, Pow(2, point - 1));
    FitsNext(f, j, point, w, f');
    PutDigit(buffer, length, digit);
  }

  lemma FitsRange(f: int, j: nat, point: nat, w: nat)
    requires w >= 8 && Fits(f, j, point, w)
    ensures 0 <= f < Pow(2, point)
  {
  }

  lemma DivideByPoint(f: nat, point: nat)
    ensures var p := Pow(2, point); f / p >= 0 && 0 <= f % p < p && f == f / p * p + f % p && f / p * p <= f
  {
    QuotientAndRemainder(f, Pow(2, point));
    if f / Pow(2, point) < 0 {
      MulMono(f / Pow(2, point), -1, Pow(2, point));
    }
  }

  /** The digits denote v / d rounded to count places. */
  ghost predicate RoundedTo(s: seq<char>, length: nat, decimalPoint: int, v: int, d: nat, count: nat)
    requires d > 0
  {
    v >= 0 && length <= |s| && AllDigits(s, length) && decimalPoint - length + count >= 0 &&
    Number(s, length) * Pow(10, decimalPoint - length + count) == RoundHalfUp(v * Pow(10, count), d)
  }

  /** Rounds up if the first bit behind the point is set. */
  method RoundFractionals(buffer: array<char>, length: nat, decimalPoint: int, bit: nat, ghost v: nat, ghost d: nat,
                          ghost j: nat, ghost f: nat, ghost point: nat, ghost count: nat, ghost w: nat)
    returns (newLength: nat, newPoint: int)
    requires w >= 8 && Fractionals(buffer[..], length, v, d, j, f, point, w) && d > 0 && 0 < buffer.Length
    requires decimalPoint == length - j && (length == 0 ==> decimalPoint == 0)
    requires j <= count && (f != 0 ==> j == count && point > 0 && bit == f / Pow(2, point - 1) % 2)
    requires f == 0 ==> bit == 0
    modifies buffer
    ensures newLength <= (if length == 0 then 1 else length)
    ensures RoundedTo(buffer[..], newLength, newPoint, v, d, count)
  {
    hide Number, Pow, Pending, Fits, RoundHalfUp;
    newLength, newPoint := length, decimalPoint;
    PowZero(10);
    NumberBound(buffer[..], length);
    if f != 0 {
      FitsRange(f, j, point, w);
      RoundingBit(v, d, j, Number(buffer[..], length), f, point);
    } else {
      NothingPending(v, d, j, Number(buffer[..], length), count);
    }
    if bit == 1 {
      newLength, newPoint := RoundUp(buffer, length, decimalPoint);
    }
  }

  /** One word is sufficient. */
  method FillFractionals64(fractionals: uint64, exponent: int, fractionalCount: nat, buffer: array<char>,
                           length: nat, ghost n: nat)
    returns (newLength: nat, newPoint: int)
    requires -64 <= exponent <= 0 && fractionals < Pow(2, 56) && fractionals < Pow(2, -exponent)
    requires length + fractionalCount <= buffer.Length && 0 < buffer.Length
    requires AllDigits(buffer[..], length) && n == Number(buffer[..], length)
    modifies buffer
    ensures newLength <= length + fractionalCount || (newLength == 1 && length + fractionalCount == 0)
    ensures RoundedTo(buffer[..], newLength, newPoint, n * Pow(2, -exponent) + fractionals, Pow(2, -exponent), fractionalCount)
  {
    hide Number, Pow, Fractionals, RoundedTo;
    var f: uint64 := fractionals;
    var point: nat := -exponent;
    ghost var d: nat := Pow(2, point);
    StartFractionals(buffer[..], length, n, d, fractionals, point, 64);
    ghost var v: nat := n * d + fractionals;
    var i: nat := 0;
    newLength := length;
    Pow2Of64();
    while i < fractionalCount
      invariant i <= fractionalCount && newLength == length + i && i + point == -exponent
      invariant Fractionals(buffer[..], newLength, v, d, i, f, point, 64)
    {
      if f == 0 {
        break;
      }
      NoPointLeft(buffer[..], newLength, v, d, i, f, point, 64);
      ghost var f0 := f;
      f := f * 5;
      point := point - 1;
      DivideByPoint(f, point);
      var digit: nat := f / Pow(2, point);
      EmitFractional(buffer, newLength, digit, v, d, i, f0, point + 1, f % Pow(2, point), 64);
      newLength := newLength + 1;
      f := f - digit * Pow(2, point);
      i := i + 1;
    }
    var bit: nat := 0;
    if f != 0 {
      NoPointLeft(buffer[..], newLength, v, d, i, f, point, 64);
      DivideByPoint(f, point - 1);
      bit := f / Pow(2, point - 1) % 2;
    }
    newLength, newPoint := RoundFractionals(buffer, newLength, length, bit, v, d, i, f, point, fractionalCount, 64);
  }

  lemma StartFractionals(s: seq<char>, length: nat, n: nat, d: nat, f: nat, point: nat, w: nat)
    requires w >= 8 && length <= |s| && AllDigits(s, length) && n == Number(s, length)
    requires d == Pow(2, point) && point <= w && f < d && f < Pow(2, w - 8)
    ensures n * d + f >= 0 && Fractionals(s, length, n * d + f, d, 0, f, point, w)
  {
    MulMono(0, n, d);
    StartPending(n, d, f);
  }

  /** One digit of the fraction in two words. */
  method NextFractional(x: UInt128, buffer: array<char>, length: nat, pointIn: nat, ghost v: int, ghost d: int, ghost i: nat)
    returns (point: nat)
    requires i < 20 && i + pointIn == 128 && length < buffer.Length && x.Value() > 0 && Pow(2, 128) == TWO128
    requires Fractionals(buffer[..], length, v, d, i, x.Value(), pointIn, 128)
    modifies buffer, x
    ensures point == pointIn - 1
    ensures Fractionals(buffer[..], length + 1, v, d, i + 1, x.Value(), point, 128)
  {
    hide Number, Pow, Fractionals;
    NoPointLeft(buffer[..], length, v, d, i, x.Value(), pointIn, 128);
    ghost var f0 := x.Value();
    x.Multiply(5);
    point := pointIn - 1;
    ghost var f1 := x.Value();
    DigitIsSmall(buffer[..], length, v, d, i, f0, pointIn, f1, 128);
    var digit: nat := x.DivModPowerOf2(point);
    EmitFractional(buffer, length, digit, v, d, i, f0, pointIn, x.Value(), 128);
  }

  /** The loop, which ends early when nothing is left. */
  method FractionalLoop(x: UInt128, buffer: array<char>, length: nat, fractionalCount: nat, ghost v: int, ghost d: int)
    returns (newLength: nat, point: nat, i: nat)
    requires fractionalCount <= 20 && length + fractionalCount <= buffer.Length && Pow(2, 128) == TWO128
    requires Fractionals(buffer[..], length, v, d, 0, x.Value(), 128, 128)
    modifies buffer, x
    ensures i <= fractionalCount && newLength == length + i && i + point == 128
    ensures Fractionals(buffer[..], newLength, v, d, i, x.Value(), point, 128)
    ensures x.Value() == 0 || i == fractionalCount
  {
    hide Number, Pow, Fractionals;
    newLength, point, i := length, 128, 0;
    while i < fractionalCount
      invariant i <= fractionalCount && newLength == length + i && i + point == 128
      invariant Fractionals(buffer[..], newLength, v, d, i, x.Value(), point, 128)
    {
      if x.IsZero() {
        break;
      }
      point := NextFractional(x, buffer, newLength, point, v, d, i);
      newLength := newLength + 1;
      i := i + 1;
    }
  }

  /** The fraction with the point 128 bits from the right. */
  method AlignedFractionals(fractionals: uint64, exponent: int) returns (x: UInt128)
    requires -128 <= exponent < -64 && fractionals < Pow(2, 56)
    ensures fresh(x) && Pow(2, 128) == TWO128
    ensures x.Value() == fractionals * Pow(2, 128 + exponent) < Pow(2, 120) < Pow(2, 128)
  {
    hide Pow;
    x := new UInt128(fractionals, 0);
    x.Shift(-exponent - 64);
    AlignPoint(fractionals, -exponent);
  }

  /** Two words are needed. */
  method FillFractionals128(fractionals: uint64, exponent: int, fractionalCount: nat, buffer: array<char>,
                            length: nat, ghost n: nat)
    returns (newLength: nat, newPoint: int)
    requires -128 <= exponent < -64 && fractionals < Pow(2, 56) && fractionalCount <= 20
    requires length + fractionalCount <= buffer.Length && 0 < buffer.Length
    requires AllDigits(buffer[..], length) && n == Number(buffer[..], length)
    modifies buffer
    ensures newLength <= length + fractionalCount || (newLength == 1 && length + fractionalCount == 0)
    ensures RoundedTo(buffer[..], newLength, newPoint, n * Pow(2, -exponent) + fractionals, Pow(2, -exponent), fractionalCount)
  {
    hide Number, Pow, Fractionals, RoundedTo;
    var x := AlignedFractionals(fractionals, exponent);
    var point: nat := 128;
    ghost var d: nat := Pow(2, point);
    StartFractionals(buffer[..], length, n, d, x.Value(), point, 128);
    ghost var v: nat := n * d + x.Value();
    var i: nat := 0;
    newLength, point, i := FractionalLoop(x, buffer, length, fractionalCount, v, d);
    var bit := x.BitAt(point - 1);
    ZeroBit(point - 1);
    newLength, newPoint := RoundFractionals(buffer, newLength, length, bit, v, d, i, x.Value(), point, fractionalCount, 128);
    SameFraction(buffer[..], newLength, newPoint, n, fractionals, -exponent, fractionalCount);
  }

  lemma ZeroBit(k: nat)
    ensures 0 / Pow(2, k) % 2 == 0
  {
    DivModUnique(0, Pow(2, k), 0, 0);
  }

  lemma DigitIsSmall(s: seq<char>, length: nat, v: int, d: int, j: nat, f: nat, point: nat, f1: nat, w: nat)
    requires w >= 8 && Fractionals(s, length, v, d, j, f, point, w) && point > 0 && f1 == 5 * f
    ensures var p := Pow(2, point - 1); 0 <= f1 / p <= 9 && 0 <= f1 % p < p && f1 == f1 / p * p + f1 % p
  {
    var p := Pow(2, point - 1);
    DivideByPoint(f1, point - 1);
    DigitRange(f1 / p, f1 % p, p, f);
  }

  /** fractionals * 2^-k as a fraction of 2^128. */
  lemma AlignPoint(f: nat, k: nat)
    requires 64 < k <= 128 && f < Pow(2, 56)
    ensures Pow(2, 128) == TWO128
    ensures f * TWO64 / Pow(2, k - 64) == f * Pow(2, 128 - k)
    ensures f * Pow(2, 128 - k) < Pow(2, 120) < Pow(2, 128)
  {
    Pow2Of64();
    hide Pow;
    PowAdd(2, 64, 64);
    PowAdd(2, k - 64, 128 - k);
    AlignBy(f, Pow(2, k - 64), Pow(2, 128 - k), TWO64);
    PowMono(2, 128 - k, 64);
    MulLess(f, Pow(2, 56), Pow(2, 128 - k));
    MulMono(Pow(2, 128 - k), Pow(2, 64), Pow(2, 56));
    PowAdd(2, 64, 56);
    PowStrict(2, 120, 128);
  }

  lemma AlignBy(f: nat, p: nat, q: nat, w: nat)
    requires p > 0 && p * q == w
    ensures f * w / p == f * q
  {
    assert f * w == (f * q) * p;
    DivModUnique(f * w, p, f * q, 0);
  }

  lemma SameFraction(s: seq<char>, length: nat, decimalPoint: int, n: nat, f: nat, k: nat, count: nat)
    requires k <= 128
    requires RoundedTo(s, length, decimalPoint, n * Pow(2, 128) + f * Pow(2, 128 - k), Pow(2, 128), count)
    ensures RoundedTo(s, length, decimalPoint, n * Pow(2, k) + f, Pow(2, k), count)
  {
    hide Pow, RoundHalfUp;
    PowAdd(2, k, 128 - k);
    SameFractionOf(n, f, Pow(2, k), Pow(2, 128 - k), Pow(10, count), Pow(2, 128));
  }

  lemma SameFractionOf(n: nat, f: nat, a: nat, b: nat, c: nat, w: nat)
    requires a > 0 && b > 0 && a * b == w
    ensures w > 0 && RoundHalfUp((n * w + f * b) * c, w) == RoundHalfUp((n * a + f) * c, a)
  {
    hide RoundHalfUp;
    MulMono(1, a, b);
    assert n * w + f * b == (n * a + f) * b by { assert (n * a) * b == n * w; }
    MulRight(n * a + f, b, c);
    MulAssoc((n * a + f) * c, b, a);
    RoundSameRatio((n * w + f * b) * c, w, (n * a + f) * c, a);
  }

  /** Appends the decimals of fractionals * 2^exponent, rounded to fractionalCount places. */
  method FillFractionals(fractionals: uint64, exponent: int, fractionalCount: nat, buffer: array<char>, length: nat)
    returns (newLength: nat, newPoint: int)
    requires -128 <= exponent <= 0 && fractionals < Pow(2, 56) && fractionals < Pow(2, -exponent)
    requires fractionalCount <= 20
    requires length + fractionalCount <= buffer.Length && 0 < buffer.Length && AllDigits(buffer[..], length)
    modifies buffer
    ensures newLength <= length + fractionalCount || (newLength == 1 && length + fractionalCount == 0)
    ensures RoundedTo(buffer[..], newLength, newPoint,
                      Number(old(buffer[..]), length) * Pow(2, -exponent) + fractionals, Pow(2, -exponent), fractionalCount)
  {
    NumberBound(buffer[..], length);
    ghost var n := Number(buffer[..], length);
    if -exponent <= 64 {
      newLength, newPoint := FillFractionals64(fractionals, exponent, fractionalCount, buffer, length, n);
    } else {
      newLength, newPoint := FillFractionals128(fractionals, exponent, fractionalCount, buffer, length, n);
    }
  }

  // 5^17
  const FIVE17: uint64 := 0xB1_A2BC_2EC5
  const TEN17: int := 100000000000000000

  // 2^53, the bound of a double's significand
  const TWO53: int := 0x20_0000_0000_0000

  lemma SomePowers()
    ensures Pow(2, 17) == 131072 && FIVE17 * 131072 == TEN17
    ensures Pow(10, 5) == 100000 && Pow(10, 16) == 10000000000000000 && Pow(10, 17) == TEN17
    ensures Pow(10, 20) == 100000000000000000000
    ensures Pow(2, 53) == TWO53 && Pow(2, 56) == 8 * TWO53 && Pow(2, 52) * 2 == TWO53 && Pow(2, 11) == 2048
  {
    assert Pow(2, 1) == 2 && Pow(2, 2) == 4 && Pow(2, 3) == 8 && Pow(2, 4) == 16;
    assert Pow(10, 1) == 10 && Pow(10, 2) == 100 && Pow(10, 3) == 1000;
    Ten7();
    hide Pow;
    PowAdd(2, 4, 4);
    assert Pow(2, 8) == 256;
    PowAdd(2, 8, 3);
    PowAdd(2, 8, 8);
    assert Pow(2, 16) == 65536;
    PowAdd(2, 16, 1);
    PowAdd(2, 16, 16);
    assert Pow(2, 32) == TWO32;
    PowAdd(2, 32, 16);
    assert Pow(2, 48) == 0x1_0000_0000_0000;
    PowAdd(2, 48, 4);
    PowAdd(2, 52, 1);
    PowAdd(2, 53, 3);
    PowAdd(10, 2, 3);
    PowAdd(10, 14, 2);
    PowAdd(10, 14, 3);
    PowAdd(10, 17, 3);
  }

  /** The first branch: up to 22 digits, split by 10^17. */
  method FillLargeInteger(significand: uint64, exponent: nat, buffer: array<char>) returns (length: nat)
    requires significand < TWO53 && 11 < exponent <= 20 && buffer.Length >= 22
    modifies buffer
    ensures length <= 22 && AllDigits(buffer[..], length)
    ensures Number(buffer[..], length) == significand * Pow(2, exponent)
  {
    hide Number, Pow;
    SomePowers();
    var divisor: uint64 := FIVE17;
    var dividend: uint64 := significand;
    var quotient: uint32;
    var remainder: uint64;
    if exponent > 17 {
      LargeParts(significand, exponent);
      dividend := dividend * Pow(2, exponent - 17);
      quotient := dividend / divisor;
      remainder := dividend % divisor * Pow(2, 17);
    } else {
      SmallerParts(significand, exponent);
      divisor := divisor * Pow(2, 17 - exponent);
      quotient := dividend / divisor;
      remainder := dividend % divisor * Pow(2, exponent);
    }
    EmptyNumber(buffer[..]);
    ghost var s := buffer[..];
    PowMono(10, 5, buffer.Length);
    length := FillDigits32(quotient, buffer, 0);
    AppendedBound(s, buffer[..], 0, length, quotient, 5);
    length := FillDigits64FixedLength(remainder, buffer, length);
  }

  lemma SmallShift(k: nat)
    requires k <= 5
    ensures 1 <= Pow(2, k) <= 32 && (k <= 3 ==> Pow(2, k) <= 8)
  {
    PowMono(2, k, 5);
    assert Pow(2, 5) == 32 && Pow(2, 3) == 8;
    if k <= 3 {
      PowMono(2, k, 3);
    }
  }

  /** With more than 17 trailing zero bits: dividing by 5^17 what is left without them. */
  lemma LargeParts(f: nat, exponent: nat)
    requires f < TWO53 && 17 < exponent <= 20
    ensures var dividend := f * Pow(2, exponent - 17); var q, r := dividend / FIVE17, dividend % FIVE17;
      0 <= dividend < TWO64 && 0 <= q < 100000 && 0 <= r * Pow(2, 17) < TEN17 &&
      f * Pow(2, exponent) == q * TEN17 + r * Pow(2, 17)
  {
    SomePowers();
    SmallShift(exponent - 17);
    PowAdd(2, exponent - 17, 17);
    hide Pow;
    SplitLarge(f, Pow(2, exponent - 17), f * Pow(2, exponent - 17), Pow(2, exponent));
  }

  lemma SplitLarge(f: nat, shift: nat, dividend: nat, p: nat)
    requires f < TWO53 && 1 <= shift <= 8 && dividend == f * shift && p == shift * 131072
    ensures var q, r := dividend / FIVE17, dividend % FIVE17;
      dividend < TWO64 && 0 <= q < 100000 && 0 <= r * 131072 < TEN17 && f * p == q * TEN17 + r * 131072
  {
    MulAssoc(f, shift, 131072);
    MulMono(f, TWO53, shift);
  }

  lemma SmallerParts(f: nat, exponent: nat)
    requires f < TWO53 && 11 < exponent <= 17
    ensures var divisor := FIVE17 * Pow(2, 17 - exponent);
      0 < divisor < TWO64 &&
      (var q, r := f / divisor, f % divisor;
      0 <= q < 100000 && 0 <= r * Pow(2, exponent) < TEN17 &&
      f * Pow(2, exponent) == q * TEN17 + r * Pow(2, exponent))
  {
    SomePowers();
    SmallShift(17 - exponent);
    PowAdd(2, 17 - exponent, exponent);
    hide Pow;
    SplitSmaller(f, Pow(2, 17 - exponent), Pow(2, exponent), FIVE17 * Pow(2, 17 - exponent));
  }

  lemma SplitSmaller(f: nat, shift: nat, p: nat, divisor: nat)
    requires f < TWO53 && divisor == FIVE17 * shift && shift * p == 131072 && 1 <= shift <= 32 && p > 0
    ensures 0 < divisor < TWO64
    ensures var q, r := f / divisor, f % divisor;
      0 <= q < 100000 && 0 <= r * p < TEN17 && f * p == q * TEN17 + r * p
  {
    var q, r := f / divisor, f % divisor;
    QuotientAndRemainder(f, divisor);
    SmallQuotient(f, divisor, 100000);
    MulAssoc(FIVE17, shift, p);
    assert (q * divisor) * p == q * (divisor * p);
    MulMono(0, r, p);
    MulLess(r, divisor, p);
  }

  /** An integer has no fraction to round. */
  lemma IntegerRounded(s: seq<char>, length: nat, v: int, count: nat)
    requires length <= |s| && AllDigits(s, length) && Number(s, length) == v
    ensures RoundedTo(s, length, length, v, 1, count)
  {
    NumberBound(s, length);
    MulMono(0, v, Pow(10, count));
    RoundFromRemainder(v * Pow(10, count), 1, v * Pow(10, count), 0);
  }

  lemma TooSmallToShow(significand: nat, k: nat, count: nat)
    requires significand < TWO53 && k > 128 && count <= 20
    ensures RoundHalfUp(significand * Pow(10, count), Pow(2, k)) == 0
  {
    hide RoundHalfUp;
    SomePowers();
    AlignPoint(0, 128);
    hide Pow;
    PowMono(10, count, 20);
    PowMono(2, 128, k);
    SmallProduct(significand, Pow(10, count));
    RoundsToZero(significand * Pow(10, count), Pow(2, k));
  }

  lemma SmallProduct(f: nat, a: nat)
    requires f < TWO53 && a <= 100000000000000000000
    ensures 2 * (f * a) < TWO128
  {
    MulMono(f, TWO53, a);
  }

  lemma TrimmedRounded(s: seq<char>, t: seq<char>, length: nat, point: int, newLength: nat, newPoint: int,
                       v: int, d: nat, count: nat)
    requires d > 0 && RoundedTo(s, length, point, v, d, count) && newLength <= |t| && AllDigits(t, newLength)
    requires (newPoint - newLength) - (point - length) >= 0
    requires Number(t, newLength) * Pow(10, (newPoint - newLength) - (point - length)) == Number(s, length)
    ensures RoundedTo(t, newLength, newPoint, v, d, count)
    ensures newLength == 0 ==> RoundedTo(t, 0, 0 - count, v, d, count)
  {
    hide RoundHalfUp;
    var k, z := (newPoint - newLength) - (point - length), point - length + count;
    PowAdd(10, k, z);
    MulAssoc(Number(t, newLength), Pow(10, k), Pow(10, z));
    assert k + z == newPoint - newLength + count;
    if newLength == 0 {
      EmptyNumber(t);
    }
  }

  /** In the terms in which the exact printer is specified. */
  lemma RoundedToIsRoundedAt(s: seq<char>, length: nat, point: int, significand: nat, exponent: int, count: nat)
    requires exponent >= 0 ==> RoundedTo(s, length, point, significand * Pow(2, exponent), 1, count)
    requires exponent < 0 ==> RoundedTo(s, length, point, significand, Pow(2, -exponent), count)
    ensures length <= |s| && AllDigits(s, length) && point - length + count >= 0
    ensures Number(s, length) * Pow(10, point - length + count) == RoundedAt(significand, exponent, 0 - count)
  {
    PowZero(10);
    hide Pow, RoundHalfUp;
    if exponent >= 0 {
      MulAssoc(significand, Pow(2, exponent), Pow(10, count));
    }
  }

  /** Prints significand * 2^exponent with fractionalCount digits behind the point. */
  method FastFixedDtoa(significand: uint64, exponent: int, fractionalCount: nat, buffer: array<char>)
    returns (ok: bool, length: nat, decimalPoint: int)
    requires significand < TWO53 && buffer.Length >= 23 + fractionalCount
    modifies buffer
    ensures ok <==> exponent <= 20 && fractionalCount <= 20
    ensures ok ==> length < buffer.Length && AllDigits(buffer[..], length) && buffer[length] == '\0'
    ensures ok && length > 0 ==> buffer[0] != '0' && buffer[length - 1] != '0'
    ensures ok && length == 0 ==> decimalPoint == 0 - fractionalCount
    ensures ok ==> decimalPoint - length + fractionalCount >= 0
    ensures ok ==> (Number(buffer[..], length) * Pow(10, decimalPoint - length + fractionalCount)
                    == RoundedAt(significand, exponent, 0 - fractionalCount))
  {
    hide Number, Pow, RoundedTo, RoundedAt;
    ok, length, decimalPoint := false, 0, 0;
    if exponent > 20 {
      return;
    }
    if fractionalCount > 20 {
      return;
    }
    ghost var v, d: nat;
    length, decimalPoint, v, d := FillFixed(significand, exponent, fractionalCount, buffer);
    ghost var s, n, p := buffer[..], length, decimalPoint;
    length, decimalPoint := TrimZeros(buffer, length, decimalPoint);
    TrimmedRounded(s, buffer[..], n, p, length, decimalPoint, v, d, fractionalCount);
    ghost var t := buffer[..];
    buffer[length] := '\0';
    if length == 0 {
      decimalPoint := 0 - fractionalCount;
    }
    NumberFrame(t, buffer[..], length);
    Terminated(t, buffer[..], length, decimalPoint, v, d, fractionalCount);
    RoundedToIsRoundedAt(buffer[..], length, decimalPoint, significand, exponent, fractionalCount);
    ok := true;
  }

  lemma Terminated(t: seq<char>, u: seq<char>, length: nat, point: int, v: int, d: nat, count: nat)
    requires d > 0 && RoundedTo(t, length, point, v, d, count) && length < |u| && |t| == |u|
    requires forall i :: 0 <= i < length ==> t[i] == u[i]
    ensures RoundedTo(u, length, point, v, d, count)
  {
    NumberFrame(t, u, length);
  }

  /** The digits before zeros are trimmed. */
  method FillFixed(significand: uint64, exponent: int, fractionalCount: nat, buffer: array<char>)
    returns (length: nat, decimalPoint: int, ghost v: nat, ghost d: nat)
    requires significand < TWO53 && exponent <= 20 && fractionalCount <= 20 && buffer.Length >= 23 + fractionalCount
    modifies buffer
    ensures d > 0 && length < buffer.Length && RoundedTo(buffer[..], length, decimalPoint, v, d, fractionalCount)
    ensures exponent >= 0 ==> v == significand * Pow(2, exponent) && d == 1
    ensures exponent < 0 ==> v == significand && d == Pow(2, -exponent)
    ensures AllDigits(buffer[..], length)
  {
    hide Number, Pow, RoundedTo, RoundHalfUp;
    length := 0;
    SomePowers();
    if exponent + 53 > 64 {
      length := FillLargeInteger(significand, exponent, buffer);
      decimalPoint := length;
      v, d := significand * Pow(2, exponent), 1;
      IntegerRounded(buffer[..], length, v, fractionalCount);
    } else if exponent >= 0 {
      ghost var s := buffer[..];
      ShiftFits(significand, exponent);
      var shifted: uint64 := significand * Pow(2, exponent);
      PowMono(10, 20, buffer.Length);
      EmptyNumber(s);
      length := FillDigits64(shifted, buffer, 0);
      AppendedBound(s, buffer[..], 0, length, shifted, 20);
      decimalPoint := length;
      v, d := shifted, 1;
      IntegerRounded(buffer[..], length, v, fractionalCount);
    } else if exponent > -53 {
      v, d := significand, Pow(2, -exponent);
      length, decimalPoint := FillMixed(significand, exponent, fractionalCount, buffer);
    } else if exponent < -128 {
      buffer[0] := '\0';
      decimalPoint := 0 - fractionalCount;
      v, d := significand, Pow(2, -exponent);
      EmptyNumber(buffer[..]);
      TooSmallToShow(significand, -exponent, fractionalCount);
      NothingShown(buffer[..], v, d, fractionalCount);
    } else {
      v, d := significand, Pow(2, -exponent);
      PowMono(2, 53, -exponent);
      EmptyNumber(buffer[..]);
      length, decimalPoint := FillFractionals(significand, exponent, fractionalCount, buffer, 0);
      RoundedDigits(buffer[..], length, decimalPoint, v, d, fractionalCount);
    }
  }

  lemma NothingShown(s: seq<char>, v: nat, d: nat, count: nat)
    requires d > 0 && RoundHalfUp(v * Pow(10, count), d) == 0
    ensures RoundedTo(s, 0, 0 - count, v, d, count)
  {
    EmptyNumber(s);
  }

  lemma RoundedDigits(s: seq<char>, length: nat, point: int, v: int, d: nat, count: nat)
    requires d > 0 && RoundedTo(s, length, point, v, d, count)
    ensures length <= |s| && AllDigits(s, length)
  {
  }

  lemma ShiftFits(significand: nat, exponent: nat)
    requires significand < TWO53 && exponent <= 11
    ensures 0 <= significand * Pow(2, exponent) < TWO64
  {
    SomePowers();
    PowMono(2, exponent, 11);
    hide Pow;
    MulMono(significand, TWO53, Pow(2, exponent));
    MulMono(Pow(2, exponent), 2048, TWO53);
    MulMono(0, significand, Pow(2, exponent));
  }

  /** The number has digits on both sides of the point. */
  method FillMixed(significand: uint64, exponent: int, fractionalCount: nat, buffer: array<char>)
    returns (length: nat, decimalPoint: int)
    requires significand < TWO53 && -53 < exponent < 0 && fractionalCount <= 20 && buffer.Length >= 17 + fractionalCount
    modifies buffer
    ensures length < buffer.Length && AllDigits(buffer[..], length)
    ensures RoundedTo(buffer[..], length, decimalPoint, significand, Pow(2, -exponent), fractionalCount)
  {
    hide Number, Pow, RoundedTo, RoundHalfUp, Appended;
    SomePowers();
    ghost var s := buffer[..];
    DivideByPoint(significand, -exponent);
    DivBound(significand, Pow(2, -exponent));
    PowMono(2, -exponent, 52);
    var integrals: uint64 := significand / Pow(2, -exponent);
    var fractionals: uint64 := significand - integrals * Pow(2, -exponent);
    PowMono(10, 16, buffer.Length);
    if integrals > 0xFFFFFFFF {
      length := FillDigits64(integrals, buffer, 0);
    } else {
      length := FillDigits32(integrals, buffer, 0);
    }
    AppendedBound(s, buffer[..], 0, length, integrals, 16);
    AppendedNumber(s, buffer[..], length, integrals);
    length, decimalPoint := FillFractionals(fractionals, exponent, fractionalCount, buffer, length);
    RoundedDigits(buffer[..], length, decimalPoint, significand, Pow(2, -exponent), fractionalCount);
  }

  lemma AppendedNumber(s: seq<char>, t: seq<char>, length: nat, number: nat)
    requires Appended(s, t, 0, length, number)
    ensures length <= |t| && AllDigits(t, length) && Number(t, length) == number
  {
    EmptyNumber(s);
  }

  /** The exact printer in fixed mode promises the same of its own digits, so the two
      print the same decimal: they differ at most in trailing zeros. */
  lemma SameAsExact(significand: nat, exponent: int, closer: bool, count: nat,
                    n: nat, length: nat, point: int, n': nat, length': nat, point': int)
    requires point - length + count >= 0
    requires n * Pow(10, point - length + count) == RoundedAt(significand, exponent, 0 - count)
    requires Converted(Mode.Fixed, significand, exponent, closer, count, n', length', point')
    ensures n * Pow(10, point - length + count) == n' * Pow(10, point' - length' + count)
    ensures point - length >= point' - length' ==> n' == n * Pow(10, (point - length) - (point' - length'))
  {
    hide RoundedAt;
    var k, k' := point - length + count, point' - length' + count;
    if k >= k' {
      PowAdd(10, k - k', k');
      MulAssoc(n, Pow(10, k - k'), Pow(10, k'));
      Cancel(n', n * Pow(10, k - k'), Pow(10, k'));
    }
  }

  lemma Cancel(a: int, b: int, p: nat)
    requires p > 0 && a * p == b * p
    ensures a == b
  {
    if a < b {
      MulLess(a, b, p);
    } else if b < a {
      MulLess(b, a, p);
    }
  }
}
