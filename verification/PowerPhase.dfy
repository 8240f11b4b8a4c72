/** The machine-integer part of `Bignum::AssignPowerUInt16`: stripping factors of two
    from the base, and exponentiation from the top bit down while it fits 64 bits.
  */
module PowerPhase {
  import opened Powers

  const MAX32: int := 0xFFFF_FFFF

  /** The base without its factors of two. */
  function OddPart(b: nat): (odd: nat)
    ensures b > 0 ==> 0 < odd <= b && odd % 2 == 1
  {
    if b > 0 && b % 2 == 0 then OddPart(b / 2) else b
  }

  /** Number of significant bits. */
  function BitSize(b: nat): (n: nat)
    ensures b < Pow(2, n)
    ensures b > 0 ==> n > 0 && Pow(2, n - 1) <= b
  {
    if b == 0 then 0 else 1 + BitSize(b / 2)
  }

  method StripTwos(b: uint16) returns (odd: uint16, shifts: nat)
    requires b != 0
    ensures odd == OddPart(b) && b == odd * Pow(2, shifts)
  {
    odd, shifts := b, 0;
    while odd % 2 == 0
      invariant odd > 0 && OddPart(odd) == OddPart(b) && b == odd * Pow(2, shifts)
      decreases odd
    {
      MulAssoc(odd / 2, 2, Pow(2, shifts));
      odd, shifts := odd / 2, shifts + 1;
    }
  }

  method CountBits(b: uint16) returns (bitSize: nat)
    ensures bitSize == BitSize(b)
  {
    bitSize := 0;
    var rest: uint16 := b;
    while rest != 0
      invariant bitSize + BitSize(rest) == BitSize(b)
      decreases rest
    {
      rest := rest / 2;
      bitSize := bitSize + 1;
    }
  }

  lemma BitSizeBound(b: nat)
    requires b < 0x1_0000
    ensures BitSize(b) <= 16
  {
    Pow2Of16();
    if BitSize(b) > 16 {
      PowMono(2, 16, BitSize(b) - 1);
    }
  }

  /** Where left-to-right exponentiation stands: `mask` selects the next bit of the
      exponent, and `prefix` is the number formed by the bits above it. */
  ghost predicate Pending(mask: nat, prefix: nat, power: nat) {
    if mask == 0 then prefix == power
    else prefix == power / (2 * mask) && exists j: nat :: mask == Pow(2, j)
  }

  /** Whether the exponent has the bit selected by the mask. */
  predicate BitSet(power: nat, mask: nat)
    requires mask > 0
  {
    power / mask % 2 == 1
  }

  function NextPrefix(prefix: nat, power: nat, mask: nat): nat
    requires mask > 0
  {
    2 * prefix + if BitSet(power, mask) then 1 else 0
  }

  /** Moving on to the next bit. */
  lemma NextBit(mask: nat, prefix: nat, power: nat)
    requires mask > 0 && Pending(mask, prefix, power)
    ensures Pending(mask / 2, NextPrefix(prefix, power, mask), power)
    ensures NextPrefix(prefix, power, mask) <= power
  {
    var j: nat :| mask == Pow(2, j);
    var next := power / mask;
    HalfQuotient(power, mask);
    assert next == 2 * prefix + next % 2;
    assert next <= power by { DivAtMost(power, mask); }
    if j == 0 {
      assert mask == 1;
    } else {
      assert Pow(2, j) == 2 * Pow(2, j - 1);
      assert mask / 2 == Pow(2, j - 1);
    }
  }

  lemma PendingEnds(prefix: nat, power: nat)
    requires Pending(0, prefix, power)
    ensures prefix == power
  {
  }

  lemma DivAtMost(x: nat, d: nat)
    requires d > 0
    ensures 0 <= x / d <= x
  {
    var q, r := x / d, x % d;
    assert x == q * d + r;
    if q < 0 {
      MulMono(q, -1, d);
    } else {
      MulMono(1, d, q);
    }
  }

  lemma HalfQuotient(x: nat, d: nat)
    requires d > 0
    ensures x / d / 2 == x / (2 * d)
  {
    var q, r := x / (2 * d), x % (2 * d);
    assert x == q * (2 * d) + r;
    assert q * (2 * d) == (2 * q) * d;
    if r < d {
      DivModUnique(x, d, 2 * q, r);
    } else {
      assert (2 * q + 1) * d == (2 * q) * d + d;
      DivModUnique(x, d, 2 * q + 1, r - d);
    }
  }

  /** The mask just below the top bit of the exponent. */
  method TopMask(power: nat) returns (mask: nat)
    requires power > 0
    ensures Pending(mask, 1, power)
  {
    mask := 1;
    ghost var j: nat := 0;
    while power >= mask
      invariant mask == Pow(2, j) && (j > 0 ==> power >= Pow(2, j - 1))
      decreases power - mask
    {
      mask, j := mask * 2, j + 1;
    }
    mask := mask / 4;
    if j >= 2 {
      assert Pow(2, j) == 2 * Pow(2, j - 1) && Pow(2, j - 1) == 2 * Pow(2, j - 2);
      assert mask == Pow(2, j - 2);
      DivModUnique(power, 2 * mask, 1, power - 2 * mask);
    } else {
      assert j == 1;
    }
  }

  /** The power computed so far; a delayed multiplication by the base is still due. */
  ghost predicate Holds(value: int, delayed: bool, b: nat, prefix: nat) {
    value * (if delayed then b else 1) == Pow(b, prefix)
  }

  lemma SquareHolds(value: int, b: nat, prefix: nat)
    requires Holds(value, false, b, prefix)
    ensures Holds(value * value, false, b, 2 * prefix)
  {
    PowAdd(b, prefix, prefix);
  }

  lemma TimesHolds(value: int, b: nat, prefix: nat)
    requires Holds(value, false, b, prefix)
    ensures Holds(value * b, false, b, prefix + 1) && Holds(value, true, b, prefix + 1)
  {
  }

  /** Exponentiation on a 64-bit integer. When the last multiplication by the base might
      overflow it is left to the caller, and the loop ends. */
  method PowerIn64Bits(b: uint16, bitSize: nat, power: nat)
    returns (value: uint64, delayed: bool, mask: nat, ghost prefix: nat)
    requires b > 0 && bitSize == BitSize(b) && power > 0
    ensures Pending(mask, prefix, power) && 0 < prefix <= power
    ensures Holds(value, delayed, b, prefix)
  {
    BitSizeBound(b);
    PowOne(b);
    mask := TopMask(power);
    value, delayed, prefix := b, false, 1;
    assert Holds(value, delayed, b, prefix);
    hide Pow;
    hide Pending;
    hide Holds;
    hide BitSet;
    hide HighBitsZero;
    while mask != 0 && value <= MAX32
      invariant Pending(mask, prefix, power) && 0 < prefix <= power
      invariant Holds(value, delayed, b, prefix)
      invariant delayed ==> value > MAX32
      decreases mask
    {
      NextBit(mask, prefix, power);
      SquareHolds(value, b, prefix);
      SquareFits(value);
      value := value * value;
      prefix := 2 * prefix;
      if BitSet(power, mask) {
        TimesHolds(value, b, prefix);
        HighBits(value, b, bitSize);
        if HighBitsZero(value, bitSize) {
          value := value * b;
        } else {
          delayed := true;
        }
        prefix := prefix + 1;
      }
      mask := mask / 2;
    }
  }

  lemma SquareFits(value: int)
    requires 0 <= value <= MAX32
    ensures 0 <= value * value < TWO64
  {
    MulMono(value, MAX32, value);
    MulMono(value, MAX32, MAX32);
    MulMono(0, value, value);
  }

  lemma PowOne(b: nat)
    ensures Pow(b, 1) == b
  {
    assert Pow(b, 1) == b * Pow(b, 0);
  }

  /** Whether the first `bitSize` of the 64 bits are zero. */
  predicate HighBitsZero(value: uint64, bitSize: nat)
    requires bitSize <= 64
  {
    value / Pow(2, 64 - bitSize) == 0
  }

  /** The test of the top bits decides whether the product with the base fits 64 bits. */
  lemma HighBits(value: uint64, b: nat, bitSize: nat)
    requires 0 < bitSize <= 16 && b < Pow(2, bitSize)
    ensures HighBitsZero(value, bitSize) ==> 0 <= value * b < TWO64
    ensures !HighBitsZero(value, bitSize) ==> value > MAX32
  {
    var high := Pow(2, 64 - bitSize);
    PowAdd(2, 64 - bitSize, bitSize);
    Pow2Of64();
    PowMono(2, 48, 64 - bitSize);
    hide Pow;
    BelowOne(value, high);
    if value / high == 0 {
      MulMono(b, Pow(2, bitSize), value);
      MulLess(value, high, Pow(2, bitSize));
      MulMono(0, value, b);
    }
  }

  lemma BelowOne(x: nat, d: nat)
    requires d > 0
    ensures x / d == 0 <==> x < d
  {
    if x < d {
      DivModUnique(x, d, 0, x);
    } else {
      assert x == x / d * d + x % d;
    }
  }

  lemma Pow2Of16()
    ensures Pow(2, 16) == 0x1_0000
  {
    assert Pow(2, 8) == 256;
    PowAdd(2, 8, 8);
  }

  lemma Pow2Of64()
    ensures Pow(2, 64) == TWO64 && Pow(2, 48) > MAX32
  {
    Pow2Of16();
    PowAdd(2, 16, 16);
    PowAdd(2, 32, 16);
    PowAdd(2, 48, 16);
  }
}
