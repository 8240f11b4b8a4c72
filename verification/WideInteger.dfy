/** The 128-bit integer of fixed-dtoa.cc, made of two 64-bit words. */
module WideInteger {
  import opened Powers
  import opened PowerPhase

  const TWO128: int := 0x1_0000_0000_0000_0000_0000_0000_0000_0000

  /** Shifting a 64-bit word left loses the bits that leave it. */
  function ShiftLeft64(x: uint64, k: nat): uint64 {
    x * Pow(2, k) % TWO64
  }

  function ShiftRight64(x: uint64, k: nat): uint64 {
    var p := Pow(2, k);
    DivBound(x, p);
    x / p
  }

  lemma DivBound(x: nat, p: nat)
    requires p > 0
    ensures 0 <= x / p <= x
  {
    QuotientAndRemainder(x, p);
    if x / p < 0 {
      MulMono(x / p, -1, p);
    } else {
      MulMono(1, p, x / p);
    }
  }

  /** The four partial products, with the carries as they are passed on. */
  lemma PartialProducts(low: uint64, high: uint64, m: uint32, a: int, b: int, c: int, d: int)
    requires a == low % TWO32 * m && b == low / TWO32 * m && c == high % TWO32 * m && d == high / TWO32 * m
    ensures (high * TWO64 + low) * m == a + b * TWO32 + c * TWO64 + d * TWO32 * TWO64
    ensures 0 <= a <= (TWO32 - 1) * (TWO32 - 1) && 0 <= b <= (TWO32 - 1) * (TWO32 - 1)
    ensures 0 <= c <= (TWO32 - 1) * (TWO32 - 1) && 0 <= d <= (TWO32 - 1) * (TWO32 - 1)
  {
    var l0, l1, h0, h1 := low % TWO32, low / TWO32, high % TWO32, high / TWO32;
    assert (high * TWO64 + low) == l0 + l1 * TWO32 + h0 * TWO64 + h1 * TWO32 * TWO64;
    FourTerms(l0, l1, h0, h1, m);
    WordProduct(l0, m);
    WordProduct(l1, m);
    WordProduct(h0, m);
    WordProduct(h1, m);
  }

  lemma FourTerms(l0: int, l1: int, h0: int, h1: int, m: int)
    ensures (l0 + l1 * TWO32 + h0 * TWO64 + h1 * TWO32 * TWO64) * m
         == l0 * m + l1 * m * TWO32 + h0 * m * TWO64 + h1 * m * TWO32 * TWO64
  {
  }

  lemma WordProduct(x: uint32, m: uint32)
    ensures 0 <= x * m <= (TWO32 - 1) * (TWO32 - 1)
  {
    MulMono(0, x, m);
    MulMono(x, TWO32 - 1, m);
    MulMono(m, TWO32 - 1, TWO32 - 1);
  }

  class UInt128 {
    var high: uint64
    var low: uint64

    ghost function Value(): (v: nat)
      reads this
      ensures v < TWO128
    {
      high * TWO64 + low
    }

    constructor (high: uint64, low: uint64)
      ensures Value() == high * TWO64 + low
    {
      this.high, this.low := high, low;
    }

    /** Schoolbook multiplication in halves of words. */
    method Multiply(multiplicand: uint32)
      requires Value() * multiplicand < TWO128
      modifies this
      ensures Value() == old(Value()) * multiplicand
    {
      ghost var a, b, c, d := low % TWO32 * multiplicand, low / TWO32 * multiplicand,
                              high % TWO32 * multiplicand, high / TWO32 * multiplicand;
      PartialProducts(low, high, multiplicand, a, b, c, d);
      PassCarries(a, b, c, d);
      var accumulator: uint64 := low % TWO32 * multiplicand;
      var part: uint32 := accumulator % TWO32;
      accumulator := accumulator / TWO32;
      accumulator := accumulator + low / TWO32 * multiplicand;
      ShiftWord(accumulator);
      low := accumulator * TWO32 % TWO64 + part;
      accumulator := accumulator / TWO32;
      accumulator := accumulator + high % TWO32 * multiplicand;
      part := accumulator % TWO32;
      accumulator := accumulator / TWO32;
      accumulator := accumulator + high / TWO32 * multiplicand;
      ShiftWord(accumulator);
      high := accumulator * TWO32 % TWO64 + part;
      assert accumulator / TWO32 == 0;
    }

    /** Shifts right for positive amounts, left for negative ones. */
    method Shift(shiftAmount: int)
      requires -64 <= shiftAmount <= 64
      modifies this
      ensures shiftAmount >= 0 ==> Value() == old(Value()) / Pow(2, shiftAmount)
      ensures shiftAmount < 0 ==> Value() == old(Value()) * Pow(2, -shiftAmount) % TWO128
    {
      hide Pow;
      ghost var h, l: int := high, low;
      if shiftAmount == 0 {
        PowZero(2);
        return;
      } else if shiftAmount == -64 {
        high := low;
        low := 0;
        Pow2Of64();
        WholeWordLeft(h, l);
      } else if shiftAmount == 64 {
        low := high;
        high := 0;
        Pow2Of64();
        DivModUnique(h * TWO64 + l, TWO64, h, l);
      } else if shiftAmount <= 0 {
        SplitWord(-shiftAmount);
        LeftParts(h, l, Pow(2, -shiftAmount), Pow(2, 64 + shiftAmount), TWO64);
        high := ShiftLeft64(high, -shiftAmount);
        high := high + ShiftRight64(low, 64 + shiftAmount);
        low := ShiftLeft64(low, -shiftAmount);
      } else {
        SplitWord(shiftAmount);
        RightParts(h, l, Pow(2, shiftAmount), Pow(2, 64 - shiftAmount), TWO64);
        low := ShiftRight64(low, shiftAmount);
        low := low + ShiftLeft64(high, 64 - shiftAmount);
        high := ShiftRight64(high, shiftAmount);
      }
    }

    /** Leaves the remainder and returns the quotient, which must fit an int. */
    method DivModPowerOf2(power: nat) returns (result: uint32)
      requires 0 < power < 128 && Value() / Pow(2, power) < 0x8000_0000
      modifies this
      ensures result == old(Value()) / Pow(2, power)
      ensures Value() == old(Value()) % Pow(2, power)
    {
      hide Pow;
      ghost var v := Value();
      if power >= 64 {
        HighQuotient(high, low, Pow(2, power - 64), TWO64);
        WordAndMore(power);
        result := ShiftRight64(high, power - 64);
        high := high - ShiftLeft64(result, power - 64);
      } else {
        SplitWord(power);
        LowQuotient(high, low, Pow(2, power), Pow(2, 64 - power), TWO64);
        var partLow: uint64 := ShiftRight64(low, power);
        var partHigh: uint64 := ShiftLeft64(high, 64 - power);
        result := partLow + partHigh;
        high := 0;
        low := low - ShiftLeft64(partLow, power);
      }
    }

    predicate IsZero()
      reads this
      ensures IsZero() <==> Value() == 0
    {
      high == 0 && low == 0
    }

    /** The bit of weight 2^position. */
    function BitAt(position: nat): (bit: nat)
      requires position < 128
      reads this
      ensures bit == Value() / Pow(2, position) % 2
    {
      if position >= 64 then
        WordAndMore(position);
        HighQuotient(high, low, Pow(2, position - 64), TWO64);
        ShiftRight64(high, position - 64) % 2
      else
        SplitWord(position);
        LowBit(high, low, Pow(2, position), Pow(2, 63 - position), TWO64);
        ShiftRight64(low, position) % 2
    }
  }

  lemma SplitWord(k: nat)
    requires k <= 64
    ensures Pow(2, k) * Pow(2, 64 - k) == TWO64
  {
    Pow2Of64();
    PowAdd(2, k, 64 - k);
  }

  lemma WordAndMore(k: nat)
    requires k >= 64
    ensures Pow(2, k - 64) * TWO64 == Pow(2, k)
  {
    Pow2Of64();
    PowAdd(2, k - 64, 64);
  }

  lemma WholeWordLeft(h: uint64, l: uint64)
    ensures (h * TWO64 + l) * TWO64 % TWO128 == l * TWO64
  {
    DivModUnique((h * TWO64 + l) * TWO64, TWO128, h, l * TWO64);
  }

  /** x * p modulo p * q keeps the low part of x. */
  lemma LowPart(x: nat, p: nat, q: nat, w: nat)
    requires p > 0 && q > 0 && p * q == w
    ensures x * p % w == x % q * p
    ensures 0 <= x % q * p <= w - p
  {
    QuotientAndRemainder(x, q);
    var a, b := x / q, x % q;
    PullOut(a, b, p, q, w);
    MulMono(b, q - 1, p);
    MulMono(0, b, p);
    DivModUnique(x * p, w, a, b * p);
  }

  lemma PullOut(a: int, b: int, p: int, q: int, w: int)
    requires p * q == w
    ensures (a * q + b) * p == a * w + b * p
  {
    assert (a * q) * p == a * (p * q);
  }

  /** The quotient of a word that fits p * q. */
  lemma SmallQuotient(x: nat, p: nat, q: nat)
    requires p > 0 && x < p * q
    ensures 0 <= x / p < q && 0 <= x % p && x == x / p * p + x % p
  {
    QuotientAndRemainder(x, p);
    if x / p >= q {
      MulMono(q, x / p, p);
    }
    if x / p < 0 {
      MulMono(x / p, -1, p);
    }
  }

  lemma LeftParts(h: nat, l: nat, p: nat, q: nat, w: nat)
    requires p > 0 && q > 0 && p * q == w && h < w && l < w
    ensures h * p % w + l / q < w && 0 <= l / q
    ensures (h * p % w + l / q) * w + l * p % w == (h * w + l) * p % (w * w)
  {
    LowPart(h, p, q, w);
    LowPart(l, p, q, w);
    SmallQuotient(l, q, p);
    SmallQuotient(h, q, p);
    LeftPartsFrom(h, l, h / q, h % q, l / q, l % q, p, q, w, h % q * p, l % q * p);
  }

  lemma LeftPartsFrom(h: int, l: int, g1: int, g0: int, m1: int, m0: int, p: int, q: int, w: int, a: int, b: int)
    requires h == g1 * q + g0 && l == m1 * q + m0 && p * q == w && a == g0 * p && b == m0 * p
    requires 0 <= a <= w - p && 0 <= m1 < p && 0 <= b < w
    ensures a + m1 < w && (a + m1) * w + b == (h * w + l) * p % (w * w)
  {
    LeftWhole(h, l, g1, g0, m1, m0, p, q, w);
    TwoWords((h * w + l) * p, g1, a + m1, b, w);
  }

  lemma TwoWords(x: int, beyond: int, top: int, bottom: int, w: int)
    requires x == beyond * (w * w) + (top * w + bottom) && 0 <= top < w && 0 <= bottom < w
    ensures x % (w * w) == top * w + bottom
  {
    MulMono(top + 1, w, w);
    MulMono(0, top, w);
    DivModUnique(x, w * w, beyond, top * w + bottom);
  }

  lemma LeftWhole(h: int, l: int, g1: int, g0: int, m1: int, m0: int, p: int, q: int, w: int)
    requires p * q == w && h == g1 * q + g0 && l == m1 * q + m0
    ensures (h * w + l) * p == g1 * (w * w) + ((g0 * p + m1) * w + m0 * p)
  {
    PullOut(g1, g0, p, q, w);
    PullOut(m1, m0, p, q, w);
    Distribute(h, l, w, p);
    Distribute(g1, g0 * p, w, w);
  }

  lemma Distribute(h: int, l: int, w: int, p: int)
    ensures (h * w + l) * p == (h * p) * w + l * p
  {
    assert (h * w + l) * p == (h * w) * p + l * p;
  }

  lemma RightParts(h: nat, l: nat, p: nat, q: nat, w: nat)
    requires p > 0 && q > 0 && p * q == w && l < w
    ensures l / p + h * q % w < w && 0 <= l / p
    ensures h / p * w + (l / p + h * q % w) == (h * w + l) / p
  {
    LowPart(h, q, p, w);
    SmallQuotient(l, p, q);
    QuotientAndRemainder(h, p);
    RightWhole(h / p, h % p, l / p, l % p, p, q, w);
    DivModUnique(h * w + l, p, h / p * w + (l / p + h % p * q), l % p);
  }

  lemma RightWhole(h1: int, h0: int, l1: int, l0: int, p: int, q: int, w: int)
    requires p * q == w
    ensures (h1 * p + h0) * w + (l1 * p + l0) == (h1 * w + (l1 + h0 * q)) * p + l0
  {
    assert (h0 * q) * p == h0 * (p * q);
    assert (h1 * w + (l1 + h0 * q)) * p == (h1 * p) * w + l1 * p + (h0 * q) * p;
    assert (h1 * p + h0) * w == (h1 * p) * w + h0 * w;
  }

  lemma HighQuotient(h: nat, l: nat, p: nat, w: nat)
    requires p > 0 && w > 0 && l < w && h < w
    ensures (h * w + l) / (p * w) == h / p && 0 <= h / p * p <= h
    ensures (h * w + l) % (p * w) == (h - h / p * p % w) * w + l
  {
    QuotientAndRemainder(h, p);
    var a, b := h / p, h % p;
    if a < 0 {
      MulMono(a, -1, p);
    }
    MulMono(0, if a < 0 then 0 else a, p);
    assert (a * p + b) * w == a * (p * w) + b * w by { PullOut(a, b, w, p, p * w); }
    MulMono(b + 1, p, w);
    MulMono(0, b, w);
    DivModUnique(h * w + l, p * w, a, b * w + l);
    DivModUnique(a * p, w, 0, a * p);
  }

  lemma LowQuotient(h: nat, l: nat, p: nat, q: nat, w: nat)
    requires p > 0 && p * q == w && l < w && (h * w + l) / p < w
    ensures l / p + h * q % w == (h * w + l) / p && 0 <= l / p * p <= l
    ensures l - l / p * p % w == (h * w + l) % p
  {
    SmallQuotient(l, p, q);
    Gather(h, l / p, l % p, p, q, w);
    DivModUnique(h * w + l, p, h * q + l / p, l % p);
    MulMono(0, h, q);
    MulMono(0, l / p, p);
    DivModUnique(h * q, w, 0, h * q);
    DivModUnique(l / p * p, w, 0, l / p * p);
  }

  lemma Gather(h: int, l1: int, l0: int, p: int, q: int, w: int)
    requires p * q == w
    ensures h * w + (l1 * p + l0) == (h * q + l1) * p + l0
  {
    assert (h * q) * p == h * (p * q);
  }

  lemma LowBit(h: nat, l: nat, p: nat, q2: nat, w: nat)
    requires p > 0 && p * (2 * q2) == w && l < w
    ensures l / p % 2 == (h * w + l) / p % 2
  {
    SmallQuotient(l, p, 2 * q2);
    Gather(h, l / p, l % p, p, 2 * q2, w);
    DivModUnique(h * w + l, p, h * (2 * q2) + l / p, l % p);
    EvenPart(h, q2, l / p);
  }

  lemma EvenPart(h: int, q2: int, x: int)
    ensures (h * (2 * q2) + x) % 2 == x % 2
  {
    assert h * (2 * q2) == 2 * (h * q2);
  }

  lemma ShiftWord(x: uint64)
    ensures x * TWO32 % TWO64 == x % TWO32 * TWO32
  {
  }

  lemma PassCarries(a: int, b: int, c: int, d: int)
    requires 0 <= a <= (TWO32 - 1) * (TWO32 - 1) && 0 <= b <= (TWO32 - 1) * (TWO32 - 1)
    requires 0 <= c <= (TWO32 - 1) * (TWO32 - 1) && 0 <= d <= (TWO32 - 1) * (TWO32 - 1)
    requires a + b * TWO32 + c * TWO64 + d * TWO32 * TWO64 < TWO128
    ensures var s := a / TWO32 + b; var t := s / TWO32 + c; var u := t / TWO32 + d;
      0 <= s < TWO64 && 0 <= t < TWO64 && 0 <= u < TWO32 &&
      a + b * TWO32 + c * TWO64 + d * TWO32 * TWO64
        == a % TWO32 + s % TWO32 * TWO32 + (t % TWO32 + u * TWO32) * TWO64
  {
    var s := a / TWO32 + b;
    var t := s / TWO32 + c;
    var u := t / TWO32 + d;
    assert a == a / TWO32 * TWO32 + a % TWO32;
    assert s == s / TWO32 * TWO32 + s % TWO32;
    assert t == t / TWO32 * TWO32 + t % TWO32;
  }
}
