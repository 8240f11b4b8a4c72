/** `GenerateCountedDigits` and `BignumToFixed` of bignum-dtoa.cc. */
module CountedDigits {
  import opened Powers
  import opened Limbs
  import opened Bignums
  import opened Decimals
  import opened Rounding
  import opened ShortestDigits

  /** After k digits: they spell n, and `rest` is what remains of num/den, enlarged. */
  ghost predicate Counting(num: nat, den: nat, k: nat, n: int, rest: int) {
    num * Pow(10, k) == 10 * n * den + rest && 0 <= rest < 10 * den && n >= 0
  }

  lemma CountDigit(num: nat, den: nat, k: nat, n: int, rest: int)
    requires den > 0 && Counting(num, den, k, n, rest)
    ensures 0 <= rest / den <= 9
    ensures Counting(num, den, k + 1, 10 * n + rest / den, 10 * (rest % den))
  {
    var d, r := rest / den, rest % den;
    QuotientAndRemainder(rest, den);
    if d <= -1 {
      MulMono(d, -1, den);
    } else if d >= 10 {
      MulMono(10, d, den);
    }
    assert Pow(10, k + 1) == 10 * Pow(10, k);
    hide Pow;
    NextCount(num, den, Pow(10, k), n, rest, d, r);
  }

  lemma NextCount(num: int, den: int, t: int, n: int, rest: int, d: int, r: int)
    requires num * t == 10 * n * den + rest && rest == d * den + r
    ensures num * (10 * t) == 10 * (10 * n + d) * den + 10 * r
  {
    AppendDigit(n, d, den);
  }

  lemma AppendDigit(n: int, d: int, den: int)
    ensures (10 * n + d) * den == 10 * n * den + d * den
  {
  }

  /** The last digit together with the rounding. */
  lemma CountLast(num: nat, den: nat, k: nat, n: int, rest: int)
    requires den > 0 && Counting(num, den, k, n, rest)
    ensures 0 <= rest / den <= 9
    ensures RoundHalfUp(num * Pow(10, k), den)
         == 10 * n + rest / den + if 2 * (rest % den) >= den then 1 else 0
  {
    var d, r := rest / den, rest % den;
    QuotientAndRemainder(rest, den);
    if d <= -1 {
      MulMono(d, -1, den);
    } else if d >= 10 {
      MulMono(10, d, den);
    }
    hide Pow, RoundHalfUp;
    AppendDigit(n, d, den);
    RoundFromRemainder(num * Pow(10, k), den, 10 * n + d, r);
  }

  lemma StartCounting(num: nat, den: nat)
    requires num < 10 * den
    ensures Counting(num, den, 0, 0, num)
  {
  }

  method DivideStep(numerator: Bignum, denominator: Bignum) returns (digit: uint16)
    requires numerator.Norm() && denominator.Norm() && numerator.Apart(denominator)
    requires 0 < denominator.Value() && numerator.Value() < 10 * denominator.Value() && Roomy(denominator.Value())
    modifies numerator, numerator.bigits
    ensures numerator.Norm() && numerator.Value() == old(numerator.Value()) % denominator.Value()
    ensures digit == old(numerator.Value()) / denominator.Value()
    ensures 0 <= numerator.Value() < denominator.Value()
  {
    hide Val;
    hide P;
    hide Roomy;
    numerator.LengthBounds();
    RoomyNumber(numerator, denominator.Value());
    digit := numerator.DivideModuloIntBignum(denominator);
  }

  /** Writes `count` digits of the number, rounded at the last one, ties upwards. If the
      rounding carries past the first digit the decimal point moves. */
  method GenerateCountedDigits(count: nat, decimalPointIn: int, numerator: Bignum, denominator: Bignum,
                               buffer: array<char>)
    returns (decimalPoint: int, length: nat)
    requires numerator.Norm() && denominator.Norm() && numerator.Apart(denominator)
    requires 0 < denominator.Value() && numerator.Value() < 10 * denominator.Value() && Roomy(denominator.Value())
    requires 0 < count <= buffer.Length
    modifies numerator, numerator.bigits, buffer
    ensures length == count && AllDigits(buffer[..], count)
    ensures decimalPointIn <= decimalPoint <= decimalPointIn + 1
    ensures decimalPoint > decimalPointIn ==> Number(buffer[..], count) == Pow(10, count - 1)
    ensures Number(buffer[..], count) * Pow(10, decimalPoint - decimalPointIn)
         == ScaledRound(old(numerator.Value()), denominator.Value(), count - 1)
  {
    hide Val, P, Roomy, Counting, Number;
    ghost var num, den: nat := numerator.Value(), denominator.Value();
    numerator.LengthBounds();
    StartCounting(num, den);
    EmptyNumber(buffer[..]);
    for i: nat := 0 to count - 1
      invariant numerator.Norm() && 0 <= numerator.Value() < 10 * den && denominator.Value() == den
      invariant AllDigits(buffer[..], i)
      invariant Counting(num, den, i, Number(buffer[..], i), numerator.Value())
    {
      CountDigit(num, den, i, Number(buffer[..], i), numerator.Value());
      var digit := DivideStep(numerator, denominator);
      PutDigit(buffer, i, digit);
      Times10(numerator, den);
    }
    ghost var n := Number(buffer[..], count - 1);
    CountLast(num, den, count - 1, n, numerator.Value());
    var digit := DivideStep(numerator, denominator);
    var half := Bignum.PlusCompare(numerator, numerator, denominator);
    if half >= 0 {
      digit := digit + 1;
    }
    PutDigit(buffer, count - 1, digit);
    var pastTop := PropagateCarry(buffer, count);
    decimalPoint := decimalPointIn;
    if pastTop {
      decimalPoint := decimalPoint + 1;
    }
    length := count;
    PowOfTen();
  }

  lemma PowOfTen()
    ensures Pow(10, 0) == 1 && Pow(10, 1) == 10
  {
  }

  /** A number below 10, scaled down by at least 100, rounds to zero. */
  lemma TooSmall(num: nat, den: nat, k: int)
    requires num < 10 * den && k <= -2
    ensures ScaledRound(num, den, k) == 0
  {
    PowMono(10, 2, -k);
    assert Pow(10, 2) == 100;
    hide Pow;
    MulMono(100, Pow(10, -k), den);
    RoundsToZero(num, den * Pow(10, -k));
  }

  lemma OneTenth(num: nat, den: nat)
    requires 0 < den && num < 10 * den
    ensures ScaledRound(num, den, -1) == if 2 * num >= 10 * den then 1 else 0
  {
    assert Pow(10, 1) == 10;
    RoundFromRemainder(num, den * 10, 0, num);
  }

  /** Prints the number num/den * 10^(decimalPointIn-1) with `requestedDigits` digits
      behind the decimal point. The digits, read with the final decimal point, are the
      number rounded to a multiple of 10^-requestedDigits. */
  method BignumToFixed(requestedDigits: nat, decimalPointIn: int, numerator: Bignum, denominator: Bignum,
                       buffer: array<char>)
    returns (decimalPoint: int, length: nat)
    requires numerator.Norm() && denominator.Norm() && numerator.Apart(denominator)
    requires 0 < denominator.Value() && numerator.Value() < 10 * denominator.Value() && Roomy(denominator.Value())
    requires 0 < buffer.Length && decimalPointIn + requestedDigits <= buffer.Length
    modifies numerator, numerator.bigits, denominator, denominator.bigits, buffer
    ensures length <= buffer.Length && (length <= 1 || length <= decimalPointIn + requestedDigits)
    ensures AllDigits(buffer[..], length)
    ensures decimalPoint - length + requestedDigits >= 0
    ensures Number(buffer[..], length) * Pow(10, decimalPoint - length + requestedDigits)
         == ScaledRound(old(numerator.Value()), old(denominator.Value()), decimalPointIn + requestedDigits - 1)
  {
    hide Val;
    hide P;
    hide Roomy;
    hide ScaledRound;
    ghost var num, den := numerator.Value(), denominator.Value();
    EmptyNumber(buffer[..]);
    PowOfTen();
    decimalPoint := decimalPointIn;
    if -decimalPoint > requestedDigits {
      TooSmall(num, den, decimalPointIn + requestedDigits - 1);
      decimalPoint := 0 - requestedDigits;
      length := 0;
    } else if -decimalPoint == requestedDigits {
      OneTenth(num, den);
      Times10(denominator, den);
      var half := Bignum.PlusCompare(numerator, numerator, denominator);
      if half >= 0 {
        PutDigit(buffer, 0, 1);
        length := 1;
        decimalPoint := decimalPoint + 1;
      } else {
        length := 0;
      }
    } else {
      var neededDigits := decimalPoint + requestedDigits;
      decimalPoint, length := GenerateCountedDigits(neededDigits, decimalPoint, numerator, denominator, buffer);
    }
  }
}
