/** `BiggestPowerTen` of fast-dtoa.cc: the largest power of ten not above a 32-bit number. */
module SmallPowers {
  import opened Powers

  // kSmallPowersOfTen
  const SMALL_POWERS: seq<uint32> :=
    [0, 1, 10, 100, 1000, 10000, 100000, 1000000, 10000000, 100000000, 1000000000]

  lemma SmallPower(i: nat)
    requires 1 <= i <= 10
    ensures SMALL_POWERS[i] == Pow(10, i - 1)
  {
    assert Pow(10, 0) == 1;
    assert Pow(10, 1) == 10;
    assert Pow(10, 2) == 100;
    assert Pow(10, 3) == 1000;
    assert Pow(10, 4) == 10000;
    assert Pow(10, 5) == 100000;
    assert Pow(10, 6) == 1000000;
    assert Pow(10, 7) == 10000000;
    assert Pow(10, 8) == 100000000;
    assert Pow(10, 9) == 1000000000;
  }

  /** Powers of two on either side of the powers of ten. */
  lemma TwoPowers()
    ensures Pow(2, 1) == 2 && Pow(2, 3) == 8 && Pow(2, 4) == 16
    ensures Pow(2, 6) == 64
    ensures Pow(2, 7) == 128
    ensures Pow(2, 9) == 512
    ensures Pow(2, 10) == 1024
    ensures Pow(2, 13) == 8192
    ensures Pow(2, 14) == 16384
    ensures Pow(2, 16) == 65536
    ensures Pow(2, 17) == 131072
    ensures Pow(2, 19) == 524288
    ensures Pow(2, 20) == 1048576
    ensures Pow(2, 23) == 8388608
    ensures Pow(2, 24) == 16777216
    ensures Pow(2, 26) == 67108864
    ensures Pow(2, 27) == 134217728
    ensures Pow(2, 29) == 536870912
    ensures Pow(2, 30) == 1073741824
    ensures Pow(2, 33) == 8589934592
  {
    assert Pow(2, 1) == 2 && Pow(2, 2) == 4 && Pow(2, 3) == 8;
    assert Pow(2, 4) == 16;
    PowAdd(2, 4, 2);
    PowAdd(2, 6, 1);
    PowAdd(2, 7, 2);
    PowAdd(2, 9, 1);
    PowAdd(2, 10, 3);
    PowAdd(2, 13, 1);
    PowAdd(2, 14, 2);
    PowAdd(2, 16, 1);
    PowAdd(2, 17, 2);
    PowAdd(2, 19, 1);
    PowAdd(2, 20, 3);
    PowAdd(2, 23, 1);
    PowAdd(2, 24, 2);
    PowAdd(2, 26, 1);
    PowAdd(2, 27, 2);
    PowAdd(2, 29, 1);
    PowAdd(2, 30, 3);
  }

  /** 1233 / 4096 is close enough to log10(2) for up to 33 bits. */
  lemma GuessBrackets(bits: nat)
    requires bits <= 32
    ensures var g := (bits + 1) * 1233 / 4096;
      g <= 9 && Pow(10, g) <= Pow(2, bits + 1) < Pow(10, g + 1)
  {
    var m := bits + 1;
    TwoPowers();
    TenPowers();
    hide Pow;
    if m <= 3 {
      Bracket(m, 0, 1, 3);
    } else if m <= 6 {
      Bracket(m, 1, 4, 6);
    } else if m <= 9 {
      Bracket(m, 2, 7, 9);
    } else if m <= 13 {
      Bracket(m, 3, 10, 13);
    } else if m <= 16 {
      Bracket(m, 4, 14, 16);
    } else if m <= 19 {
      Bracket(m, 5, 17, 19);
    } else if m <= 23 {
      Bracket(m, 6, 20, 23);
    } else if m <= 26 {
      Bracket(m, 7, 24, 26);
    } else if m <= 29 {
      Bracket(m, 8, 27, 29);
    } else {
      Bracket(m, 9, 30, 33);
    }
  }

  lemma TenPowers()
    ensures Pow(10, 0) == 1 && Pow(10, 1) == 10 && Pow(10, 2) == 100 && Pow(10, 3) == 1000 && Pow(10, 4) == 10000
    ensures Pow(10, 5) == 100000 && Pow(10, 6) == 1000000 && Pow(10, 7) == 10000000
    ensures Pow(10, 8) == 100000000 && Pow(10, 9) == 1000000000 && Pow(10, 10) == 10000000000
  {
    SmallPower(10);
    assert Pow(10, 10) == 10 * Pow(10, 9);
  }

  lemma Bracket(m: nat, g: nat, low: nat, high: nat)
    requires low <= m <= high
    requires Pow(10, g) <= Pow(2, low) && Pow(2, high) < Pow(10, g + 1)
    ensures Pow(10, g) <= Pow(2, m) < Pow(10, g + 1)
  {
    PowMono(2, low, m);
    PowMono(2, m, high);
  }

  /** The least number for which the power is right: the source corrects its guess by one
      place only. */
  function LeastNumber(bits: nat): nat
    requires bits <= 32
  {
    var guess := (bits + 1) * 1233 / 4096;
    if guess == 0 then 1 else SMALL_POWERS[guess]
  }

  /** The result is right exactly for numbers that are not much shorter than `bits` says. */
  method BiggestPowerTen(number: uint32, bits: nat) returns (power: uint32, exponentPlusOne: nat)
    requires bits <= 32 && number < Pow(2, bits + 1)
    ensures exponentPlusOne <= 10 && power == if exponentPlusOne == 0 then 0 else Pow(10, exponentPlusOne - 1)
    ensures power <= number < 10 * power <==> number >= LeastNumber(bits)
    ensures 0 < number < LeastNumber(bits) ==> power == LeastNumber(bits)
  {
    var guess: nat := (bits + 1) * 1233 / 4096;
    GuessBrackets(bits);
    assert Pow(10, guess + 1) == 10 * Pow(10, guess);
    assert guess > 0 ==> Pow(10, guess) == 10 * Pow(10, guess - 1);
    PowZero(10);
    SmallPower(guess + 1);
    if guess > 0 {
      SmallPower(guess);
    }
    guess := guess + 1;
    if number < SMALL_POWERS[guess] {
      guess := guess - 1;
    }
    power := SMALL_POWERS[guess];
    exponentPlusOne := guess;
  }

  /** At most one leading zero bit is not much. */
  lemma FewLeadingZeros(number: nat, bits: nat)
    requires 2 <= bits <= 32 && Pow(2, bits - 2) <= number
    ensures number >= LeastNumber(bits)
  {
    GuessBrackets(bits);
    var guess := (bits + 1) * 1233 / 4096;
    assert Pow(2, bits + 1) == 2 * Pow(2, bits) && Pow(2, bits) == 2 * Pow(2, bits - 1);
    assert Pow(2, bits - 1) == 2 * Pow(2, bits - 2);
    if guess > 0 {
      SmallPower(guess);
      assert Pow(10, guess) == 10 * Pow(10, guess - 1);
    }
  }

  /** With more, it may be too large: for 1 as a number of 32 bits it is 10^8. */
  lemma TooManyLeadingZeros()
    ensures 0 < 1 < LeastNumber(32) == 100000000 && 1 < Pow(2, 33)
  {
    TwoPowers();
  }
}
