/** `DigitGen` and `DigitGenCounted` of fast-dtoa.cc: the digit generators of Grisu3.

    The inputs are significands of 64 bits that are off by less than one unit in their
    last place. The digits are those of the upper end of the interval in which the real
    bounds cannot lie; they are generated until what is left of it no longer matters, and
    then rounded towards w.
  */
module Grisu {
  import opened Powers
  import opened Decimals
  import opened SmallPowers
  import opened RoundWeeding
  import opened Ieee

  /** n * 10^kappa and f * 2^e compare as n * Step(e, kappa) and f * Scale(kappa). */
  function Step(e: int, kappa: int): nat
    requires e <= 0
  {
    Pow(10, if kappa > 0 then kappa else 0) * Pow(2, -e)
  }

  function Scale(kappa: int): nat {
    Pow(10, if kappa < 0 then -kappa else 0)
  }

  /** Inside the interval, even if the bounds are off by a unit each. */
  predicate Safe(low: int, high: int, n: int, step: int, t: int) {
    (low + 1) * t <= n * step <= (high - 1) * t
  }

  /** Nothing with fewer digits lies even in the widest interval. */
  ghost predicate NoShorter(low: int, high: int, step: int, t: int) {
    forall j: nat, m: int {:trigger m * (Pow(10, j) * step)} | j >= 1 ::
      !((low - 1) * t < m * (Pow(10, j) * step) <= (high + 1) * t)
  }

  ghost predicate Near(v: real, w: int) {
    (w - 1) as real < v < (w + 1) as real
  }

  /** No other multiple of the step in the widest interval is closer to any point that the
      imprecise w may stand for. */
  ghost predicate Nearest(low: int, w: int, high: int, n: int, step: int, t: int) {
    forall m: int, v: real {:trigger m * step, Near(v, w)}
      | Near(v, w) && (low - 1) * t <= m * step <= (high + 1) * t ::
      Abs((n * step) as real - v * t as real) <= Abs((m * step) as real - v * t as real)
  }

  /** d is the number of whole steps in y. */
  ghost predicate Split(y: int, d: int, step: int, rest: int) {
    y == d * step + rest && 0 <= rest < step
  }

  lemma SplitFurther(y: int, d: int, step: int, rest: int, digit: int, rest': int)
    requires Split(y, d, 10 * step, rest) && rest == digit * step + rest' && 0 <= rest' < step
    ensures 0 <= digit <= 9
    ensures Split(y, 10 * d + digit, step, rest')
  {
    if digit >= 10 {
      MulMono(10, digit, step);
    } else if digit <= -1 {
      MulMono(digit, -1, step);
    }
    assert (10 * d + digit) * step == d * (10 * step) + digit * step;
  }

  lemma SplitTenfold(y: int, d: int, step: int, rest: int)
    requires Split(y, d, step, rest)
    ensures Split(10 * y, d, 10 * step, 10 * rest)
  {
    assert d * (10 * step) == 10 * (d * step);
  }

  /** Integral and fractional parts are divided separately. */
  lemma DivideIntegrals(integrals: nat, divisor: nat, one: nat, fractionals: nat)
    requires divisor > 0 && one > 0 && fractionals < one
    ensures var digit, left := integrals / divisor, integrals % divisor;
      integrals * one + fractionals == digit * (divisor * one) + (left * one + fractionals) &&
      0 <= left * one + fractionals < divisor * one
  {
    var digit, left := integrals / divisor, integrals % divisor;
    assert integrals == digit * divisor + left;
    assert integrals * one == digit * divisor * one + left * one;
    MulAssoc(digit, divisor, one);
    MulMono(left + 1, divisor, one);
  }

  /** There is still room in the buffer while more than the interval is left. */
  lemma RoomLeft(y: int, d: int, step: int, rest: int, unsafe: int, length: nat, size: nat)
    requires Split(y, d, step, rest) && rest >= unsafe > 0
    requires size > 0 && y <= unsafe * Pow(10, size - 1)
    requires length > 0 ==> d >= Pow(10, length - 1)
    ensures length < size
  {
    if length > 0 {
      var p, q := Pow(10, length - 1), Pow(10, size - 1);
      MulMono(p, d, step);
      MulLess(unsafe, step, p);
      if q <= p {
        MulMono(q, p, unsafe);
      }
      PowOrder(10, length - 1, size - 1);
    }
  }

  /** The digits so far are those of y, and at least `unsafe` of it is left. */
  ghost predicate Generating(s: seq<char>, length: nat, y: int, step: int, rest: int, unsafe: int) {
    length <= |s| && AllDigits(s, length) && Split(y, Number(s, length), step, rest) && rest >= unsafe > 0 &&
    (if length > 0 then Number(s, length) >= Pow(10, length - 1) else 10 * rest >= step)
  }

  /** The last digit is the first that may leave less. */
  ghost predicate Generated(s: seq<char>, length: nat, y: int, step: int, rest: int, unsafe: int) {
    0 < length <= |s| && AllDigits(s, length) && Split(y, Number(s, length), step, rest) && unsafe > 0 &&
    Number(s, length) >= Pow(10, length - 1) &&
    unsafe <= rest + DigitOf(s[length - 1]) * step &&
    Split(y, Number(s, length - 1), 10 * step, rest + DigitOf(s[length - 1]) * step) &&
    (length > 1 ==> Number(s, length - 1) >= Pow(10, length - 2))
  }

  lemma GoOn(s: seq<char>, length: nat, y: int, step: int, rest: int, unsafe: int)
    requires Generated(s, length, y, step, rest, unsafe) && rest >= unsafe
    ensures Generating(s, length, y, step, rest, unsafe)
  {
  }

  lemma TenfoldGenerating(s: seq<char>, length: nat, y: int, step: int, rest: int, unsafe: int)
    requires Generating(s, length, y, step, rest, unsafe)
    ensures Generating(s, length, 10 * y, 10 * step, 10 * rest, 10 * unsafe)
  {
    SplitTenfold(y, Number(s, length), step, rest);
  }

  method EmitDigit(buffer: array<char>, length: nat, digit: nat,
                   ghost y: int, ghost step: int, ghost rest: int, ghost rest': int, ghost unsafe: int)
    requires Generating(buffer[..], length, y, 10 * step, rest, unsafe)
    requires rest == digit * step + rest' && 0 <= rest' < step
    requires buffer.Length > 0 && y <= unsafe * Pow(10, buffer.Length - 1)
    modifies buffer
    ensures Generated(buffer[..], length + 1, y, step, rest', unsafe)
    ensures DigitOf(buffer[length]) == digit
  {
    hide Number, Pow, Split;
    ghost var d0 := Number(buffer[..], length);
    EmptyNumber(buffer[..]);
    RoomLeft(y, d0, 10 * step, rest, unsafe, length, buffer.Length);
    SplitFurther(y, d0, step, rest, digit, rest');
    FirstDigit(length, d0, digit, step, rest, rest');
    PutDigit(buffer, length, digit);
  }

  lemma FirstDigit(length: nat, d: int, digit: int, step: int, rest: int, rest': int)
    requires rest == digit * step + rest' && 0 <= rest' < step && digit >= 0
    requires if length > 0 then d >= Pow(10, length - 1) else d == 0 && 10 * rest >= 10 * step
    ensures 10 * d + digit >= Pow(10, length)
  {
    MulMono(digit, if digit <= 0 then 0 else digit, step);
  }

  /** What acceptance by RoundWeed means for the digits: they are inside, ... */
  lemma AcceptedIsSafe(low: int, high: int, step: int, t: nat, rest: int, n: int)
    requires (high + 1) * t == n * step + rest
    requires 2 * t <= rest <= (high - low + 2) * t - 4 * t
    ensures Safe(low, high, n, step, t)
  {
    MulSub(high + 1, high - low + 2, t);
    MulSub(low + 1, 2, t);
    MulSub(high + 1, 2, t);
  }

  /** ... and nothing else is closer. */
  lemma AcceptedIsNearest(low: int, w: int, high: int, step: int, t: nat, rest: int, n: int)
    requires t > 0 && step > 0
    requires (high + 1) * t == n * step + rest
    requires Closest(rest, step, (high - low + 2) * t, (high + 1 - w) * t, t)
    ensures Nearest(low, w, high, n, step, t)
  {
    hide Closest;
    forall m: int, v: real {:trigger m * step, Near(v, w)}
      | Near(v, w) && (low - 1) * t <= m * step <= (high + 1) * t
      ensures Abs((n * step) as real - v * t as real) <= Abs((m * step) as real - v * t as real)
    {
      NearestAt(low, w, high, step, t, rest, n, m, v);
    }
  }

  lemma NearestAt(low: int, w: int, high: int, step: int, t: nat, rest: int, n: int, m: int, v: real)
    requires t > 0 && step > 0
    requires (high + 1) * t == n * step + rest
    requires Closest(rest, step, (high - low + 2) * t, (high + 1 - w) * t, t)
    requires Near(v, w) && (low - 1) * t <= m * step <= (high + 1) * t
    ensures Abs((n * step) as real - v * t as real) <= Abs((m * step) as real - v * t as real)
  {
    NearScaled(v, w, high + 1, t);
    MulSub(high + 1, high - low + 2, t);
    Multiples(n, m, step);
    CloserThan((high + 1) * t, rest, step, (high - low + 2) * t, (high + 1 - w) * t, t, n * step, m * step, v * t as real);
  }

  lemma Multiples(n: int, m: int, step: int)
    requires step > 0
    ensures (n * step - m * step) % step == 0
  {
    MulSub(n, m, step);
    DivModUnique(n * step - m * step, step, n - m, 0);
  }

  /** From distances below y to the points themselves. */
  lemma CloserThan(y: int, rest: int, step: int, unsafe: int, distance: int, t: int, n: int, m: int, v: real)
    requires step > 0 && Closest(rest, step, unsafe, distance, t)
    requires y == n + rest && y - unsafe <= m <= y && (n - m) % step == 0
    requires NearW(y as real - v, distance, t)
    ensures Abs(n as real - v) <= Abs(m as real - v)
  {
    var c := y - m;
    assert c - rest == n - m;
    assert Candidate(c, rest, step, unsafe);
    var x := y as real - v;
    assert Abs(rest as real - x) <= Abs(c as real - x);
  }

  lemma NearScaled(v: real, w: int, top: int, t: nat)
    requires t > 0 && Near(v, w)
    ensures NearW((top * t) as real - v * t as real, (top - w) * t, t)
  {
    var low, high: int := (w - 1) * t, (w + 1) * t;
    ScaleAbove(w - 1, v, t);
    ScaleBelow(v, w + 1, t);
    assert (top - w) * t == top * t - low - t == top * t - high + t by {
      MulSub(top, w, t);
      MulSub(w, 1, t);
      MulSub(w, -1, t);
    }
    Below(top * t, low, high, (top - w) * t, t, v * t as real);
  }

  lemma ScaleAbove(a: int, v: real, t: nat)
    requires t > 0 && a as real < v
    ensures (a * t) as real < v * t as real
  {
    ToRealMul(a, t);
    RealLess(a as real, v, t as real);
  }

  lemma ScaleBelow(v: real, a: int, t: nat)
    requires t > 0 && v < a as real
    ensures v * t as real < (a * t) as real
  {
    ToRealMul(a, t);
    RealLess(v, a as real, t as real);
  }

  lemma Below(y: int, low: int, high: int, distance: int, t: int, v: real)
    requires low as real < v < high as real
    requires distance == y - low - t == y - high + t
    ensures NearW(y as real - v, distance, t)
  {
  }

  lemma {:induction false} ToRealMul(a: int, b: nat)
    ensures (a * b) as real == a as real * b as real
  {
    if b > 0 {
      ToRealMul(a, b - 1);
      assert a * b == a * (b - 1) + a;
      RealStep(a as real, (b - 1) as real);
      assert b as real == (b - 1) as real + 1.0;
    }
  }

  lemma RealStep(a: real, b: real)
    ensures a * (b + 1.0) == a * b + a
  {
  }

  lemma RealLess(x: real, y: real, k: real)
    requires x < y && k > 0.0
    ensures x * k < y * k
  {
  }

  /** One digit earlier, more than the interval was left. */
  lemma NothingShorter(low: int, high: int, d: int, step: int, t: nat, rest: int)
    requires t > 0 && step > 0 && Split((high + 1) * t, d, 10 * step, rest) && rest >= (high - low + 2) * t
    ensures NoShorter(low, high, step, t)
  {
    forall j: nat, m: int {:trigger m * (Pow(10, j) * step)} | j >= 1
      ensures !((low - 1) * t < m * (Pow(10, j) * step) <= (high + 1) * t)
    {
      var k := m * Pow(10, j - 1);
      assert m * (Pow(10, j) * step) == k * (10 * step) by {
        assert Pow(10, j) * step == Pow(10, j - 1) * (10 * step);
        MulAssoc(m, Pow(10, j - 1), 10 * step);
      }
      MulSub(high + 1, high - low + 2, t);
      if k <= d {
        MulMono(k, d, 10 * step);
      } else {
        MulMono(d + 1, k, 10 * step);
        assert (d + 1) * (10 * step) == d * (10 * step) + 10 * step;
      }
    }
  }

  /** What DigitGen promises when it succeeds. */
  ghost predicate Shortest(low: DiyFp, w: DiyFp, high: DiyFp, n: int, kappa: int)
    requires w.e <= 0
  {
    var step, t := Step(w.e, kappa), Scale(kappa);
    Safe(low.f, high.f, n, step, t) && NoShorter(low.f, high.f, step, t) && Nearest(low.f, w.f, high.f, n, step, t)
  }

  /** The place of the last digit is right: with fewer digits nothing lies in the widest
      interval, with these something does. */
  ghost predicate ShortestPlace(low: DiyFp, high: DiyFp, kappa: int)
    requires low.e <= 0
  {
    var step, t := Step(low.e, kappa), Scale(kappa);
    NoShorter(low.f, high.f, step, t) && exists n: int :: Inside(low.f, high.f, n, step, t)
  }

  ghost predicate Inside(low: int, high: int, n: int, step: int, t: int) {
    (low - 1) * t < n * step <= (high + 1) * t
  }

  /** Certainly nearest and certainly inside; at the lower end three units inside, where one
      would do. */
  ghost predicate Weedable(low: int, w: int, high: int, n: int, step: int, t: int) {
    (low + 3) * t <= n * step <= (high - 1) * t && Nearest(low, w, high, n, step, t)
  }

  /** There is a multiple at this place that can be decided. */
  ghost predicate Decidable(low: DiyFp, w: DiyFp, high: DiyFp, kappa: int)
    requires w.e <= 0
  {
    exists n: int :: Weedable(low.f, w.f, high.f, n, Step(w.e, kappa), Scale(kappa))
  }

  /** What can be decided among the multiples can be decided by RoundWeed. */
  lemma WeedableIsDecided(low: int, w: int, high: int, step: int, t: nat, d: int, restIn: int, n: int)
    requires t > 0 && step > 0 && (high + 1) * t == d * step + restIn && Weedable(low, w, high, n, step, t)
    ensures Decided((high + 1) * t - n * step, restIn, step, (high - low + 2) * t, (high + 1 - w) * t, t)
  {
    var c := (high + 1) * t - n * step;
    MulSub(d, n, step);
    DivModUnique(c - restIn, step, d - n, 0);
    MulSub(high + 1, 2, t);
    MulSub(high + 1, high - low + 2, t);
    MulSub(low + 3, 4, t);
    NearestIsClosest(low, w, high, step, t, n, c);
  }

  lemma NearestIsClosest(low: int, w: int, high: int, step: int, t: nat, n: int, c: int)
    requires t > 0 && step > 0 && c == (high + 1) * t - n * step && Nearest(low, w, high, n, step, t)
    ensures Closest(c, step, (high - low + 2) * t, (high + 1 - w) * t, t)
  {
    hide Nearest;
    forall c': int, x: real {:trigger Candidate(c', c, step, (high - low + 2) * t), NearW(x, (high + 1 - w) * t, t)}
      | Candidate(c', c, step, (high - low + 2) * t) && NearW(x, (high + 1 - w) * t, t)
      ensures Abs(c as real - x) <= Abs(c' as real - x)
    {
      NearestHere(low, w, high, step, t, n, c, c', x);
    }
  }

  lemma NearestHere(low: int, w: int, high: int, step: int, t: nat, n: int, c: int, c': int, x: real)
    requires t > 0 && step > 0 && c == (high + 1) * t - n * step && Nearest(low, w, high, n, step, t)
    requires Candidate(c', c, step, (high - low + 2) * t) && NearW(x, (high + 1 - w) * t, t)
    ensures Abs(c as real - x) <= Abs(c' as real - x)
  {
    var q := (c' - c) / step;
    assert c' - c == q * step;
    MulSub(n, q, step);
    MulSub(high + 1, high - low + 2, t);
    var v := Unscaled((high + 1) * t, w, high + 1, t, x);
    assert (low - 1) * t <= (n - q) * step <= (high + 1) * t;
    Distances(n * step, (n - q) * step, (high + 1) * t, c, c', v * t as real, x);
  }

  /** The point at distance x from the top, in units. */
  lemma Unscaled(y: int, w: int, top: int, t: nat, x: real) returns (v: real)
    requires t > 0 && y == top * t && NearW(x, (top - w) * t, t)
    ensures v * t as real == y as real - x && Near(v, w)
  {
    v := (y as real - x) / t as real;
    MulSub(top, w, t);
    MulSub(w, 1, t);
    MulSub(w, -1, t);
    ToRealMul(w - 1, t);
    ToRealMul(w + 1, t);
    RealOrder((w - 1) as real, v, t as real);
    RealOrder(v, (w + 1) as real, t as real);
  }

  lemma RealOrder(a: real, b: real, k: real)
    requires k > 0.0 && a * k < b * k
    ensures a < b
  {
    if b < a {
      RealLess(b, a, k);
    }
  }

  lemma Distances(n: int, m: int, y: int, c: int, c': int, v: real, x: real)
    requires n == y - c && m == y - c' && v == y as real - x
    requires Abs(n as real - v) <= Abs(m as real - v)
    ensures Abs(c as real - x) <= Abs(c' as real - x)
  {
  }

  /** The last digit was generated from `rest0`, RoundWeed turned d into n. */
  lemma Finished(low: int, w: int, high: int, step: nat, t: nat,
                 d0: int, rest0: int, d: int, rest: int, n: int, rest': int)
    requires step > 0 && t > 0
    requires Split((high + 1) * t, d0, 10 * step, rest0) && rest0 >= (high - low + 2) * t
    requires Split((high + 1) * t, d, step, rest) && rest' - rest == (d - n) * step
    requires 2 * t <= rest' <= (high - low + 2) * t - 4 * t
    requires Closest(rest', step, (high - low + 2) * t, (high + 1 - w) * t, t)
    ensures Safe(low, high, n, step, t) && NoShorter(low, high, step, t) && Nearest(low, w, high, n, step, t)
  {
    hide Closest, NoShorter, Nearest, Safe;
    MulSub(d, n, step);
    NothingShorter(low, high, d0, step, t, rest0);
    AcceptedIsSafe(low, high, step, t, rest', n);
    AcceptedIsNearest(low, w, high, step, t, rest', n);
  }

  lemma NoLeadingZero(n: int, upper: int, last: int, length: nat, low: nat, step: nat, t: nat)
    requires n == 10 * upper + last && last >= 0 && length > 0 && low > 0 && t > 0
    requires length > 1 ==> upper >= Pow(10, length - 2)
    requires length == 1 ==> upper == 0
    requires (low + 1) * t <= n * step
    ensures n >= Pow(10, length - 1)
  {
    if length == 1 {
      MulMono(1, low + 1, t);
      if n <= 0 {
        MulMono(n, 0, step);
      }
    }
  }

  const HIDDEN_BIT: int := 0x4000_0000_0000_0000

  lemma OneBounds(e: int)
    requires -60 <= e <= -32
    ensures TWO32 <= Pow(2, -e) <= HIDDEN_BIT / 4
    ensures Pow(2, 62 + e) * Pow(2, -e) == HIDDEN_BIT
    ensures Pow(2, 64 + e) * Pow(2, -e) == TWO64
    ensures Pow(2, 64 + e) <= TWO32
  {
    TwoPowers();
    hide Pow;
    PowAdd(2, 16, 16);
    PowAdd(2, 30, 30);
    PowAdd(2, 32, 30);
    PowAdd(2, 32, 32);
    PowMono(2, 32, -e);
    PowMono(2, -e, 60);
    PowAdd(2, 62 + e, -e);
    PowAdd(2, 64 + e, -e);
    PowMono(2, 64 + e, 32);
  }

  lemma QuotientBetween(f: int, one: int, a: int, b: int)
    requires one > 0 && a * one <= f < b * one
    ensures a <= f / one < b
  {
    QuotientAndRemainder(f, one);
    var q := f / one;
    if q < a {
      MulMono(q + 1, a, one);
    }
    if q >= b {
      MulMono(b, q, one);
    }
  }

  /** A 64-bit significand with at most one leading zero, cut at the point. */
  lemma Integrals(f: int, e: int)
    requires -60 <= e <= -32 && HIDDEN_BIT <= f < TWO64
    ensures TWO32 <= Pow(2, -e) <= HIDDEN_BIT / 4
    ensures Pow(2, 64 + e - 2) <= f / Pow(2, -e) < Pow(2, 64 + e + 1) && f / Pow(2, -e) < TWO32
    ensures 0 <= f % Pow(2, -e) < Pow(2, -e) && f == f / Pow(2, -e) * Pow(2, -e) + f % Pow(2, -e)
  {
    OneBounds(e);
    hide Pow;
    QuotientBetween(f, Pow(2, -e), Pow(2, 62 + e), Pow(2, 64 + e));
    assert 64 + e - 2 == 62 + e;
    PowMono(2, 64 + e, 64 + e + 1);
    QuotientAndRemainder(f, Pow(2, -e));
  }

  lemma TenTimes(k: nat, one: nat)
    requires k > 0
    ensures Pow(10, k) * one == 10 * (Pow(10, k - 1) * one)
  {
  }

  lemma StartSplit(x: nat, one: nat, kappa: nat, integrals: nat, fractionals: nat, divisor: nat)
    requires kappa > 0 && divisor == Pow(10, kappa - 1) && divisor <= integrals < 10 * divisor
    requires x == integrals * one + fractionals && fractionals < one
    ensures Split(x, 0, Pow(10, kappa) * one, integrals * one + fractionals)
    ensures 10 * (integrals * one + fractionals) >= Pow(10, kappa) * one
  {
    MulMono(integrals + 1, Pow(10, kappa), one);
    MulMono(divisor, integrals, one);
    MulAssoc(10, divisor, one);
  }

  /** The step is no larger than the number. */
  lemma StepFits(s: seq<char>, length: nat, y: int, step: int, rest: int, unsafe: int)
    requires Generated(s, length, y, step, rest, unsafe)
    ensures 0 < step <= y && 0 <= rest < step
  {
    MulMono(1, Number(s, length), step);
  }

  /** Rounds the digits that were generated, or finds that they cannot be decided. */
  method Weed(low: DiyFp, w: DiyFp, high: DiyFp, buffer: array<char>, length: nat, ghost kappa: int,
              distance: uint64, unsafe: uint64, rest: uint64, tenKappa: uint64, unit: uint64)
    returns (ok: bool)
    requires low.e == w.e == high.e <= 0 && 1 <= low.f <= w.f <= high.f && low.f + 1 <= high.f - 1
    requires tenKappa == Step(w.e, kappa) && unit == Scale(kappa)
    requires distance == (high.f + 1 - w.f) * unit && unsafe == (high.f - low.f + 2) * unit
    requires Generated(buffer[..], length, (high.f + 1) * unit, tenKappa, rest, unsafe) && rest < unsafe
    modifies buffer
    ensures 0 < length <= buffer.Length && AllDigits(buffer[..], length)
    ensures ok ==> Number(buffer[..], length) >= Pow(10, length - 1)
    ensures ok ==> Shortest(low, w, high, Number(buffer[..], length), kappa)
    ensures ShortestPlace(low, high, kappa) && (ok <==> Decidable(low, w, high, kappa))
  {
    hide Number, Pow, Closest, Generated, Shortest, Step, Scale, ShortestPlace, Decidable, CanDecide;
    StepPositive(w.e, kappa);
    Margins(high.f + 1 - w.f, high.f - low.f + 2, unit);
    AboutToWeed(buffer[..], length, (high.f + 1) * unit, tenKappa, rest, unsafe);
    ghost var s := buffer[..];
    ghost var rest';
    ok, rest' := RoundWeed(buffer, length, distance, unsafe, rest, tenKappa, unit);
    PlaceFound(low, high, s, length, kappa, rest);
    if ok {
      Weeded(low, w, high, s, buffer[..], length, kappa, rest, rest');
    } else {
      NotWeeded(low, w, high, s, length, kappa, rest);
    }
  }

  /** Generates the digits of the upper end of the unsafe interval until less than the
      interval is left. */
  method DigitGen(low: DiyFp, w: DiyFp, high: DiyFp, buffer: array<char>)
    returns (ok: bool, length: nat, kappa: int)
    requires low.e == w.e == high.e && -60 <= w.e <= -32
    requires 1 <= low.f <= w.f <= high.f && low.f + 1 <= high.f - 1
    requires HIDDEN_BIT <= high.f <= TWO64 - 2
    requires buffer.Length > 0 && high.f + 1 <= (high.f - low.f + 2) * Pow(10, buffer.Length - 1)
    modifies buffer
    ensures length <= buffer.Length && AllDigits(buffer[..], length)
    ensures ok ==> length > 0 && Number(buffer[..], length) >= Pow(10, length - 1)
    ensures ok ==> Shortest(low, w, high, Number(buffer[..], length), kappa)
    ensures ShortestPlace(low, high, kappa) && (ok <==> Decidable(low, w, high, kappa))
  {
    hide Number, Pow, Split, Closest, Generating, Generated, Shortest, Step, Scale, Whole, ShortestPlace,
         Decidable, Decided;
    var unit: uint64 := 1;
    var tooLow: uint64 := low.f - unit;
    var tooHigh: uint64 := high.f + unit;
    var unsafe: uint64 := tooHigh - tooLow;
    OneBounds(w.e);
    var one: uint64 := Pow(2, -w.e);
    Integrals(tooHigh, w.e);
    var integrals: uint32 := tooHigh / one;
    var fractionals: uint64 := tooHigh % one;
    FewLeadingZeros(integrals, 64 + w.e);
    var divisor: uint32, divisorExponentPlusOne: nat := BiggestPowerTen(integrals, 64 + w.e);
    kappa := divisorExponentPlusOne;
    length := 0;
    ok := false;
    StartGenerating(buffer[..], tooHigh, one, kappa, integrals, fractionals, divisor, unsafe);
    while kappa > 0
      invariant 0 <= kappa && length <= buffer.Length && AllDigits(buffer[..], length)
      invariant Whole(buffer[..], length, tooHigh, one, kappa, integrals, fractionals, divisor, unsafe)
      decreases kappa
    {
      WholeDigit(buffer[..], length, tooHigh, one, kappa, integrals, fractionals, divisor, unsafe);
      var digit: nat := integrals / divisor;
      integrals := integrals % divisor;
      ghost var step, left := divisor * one, integrals * one + fractionals;
      EmitDigit(buffer, length, digit, tooHigh, step, digit * step + left, left, unsafe);
      length := length + 1;
      kappa := kappa - 1;
      StepFits(buffer[..], length, tooHigh, step, left, unsafe);
      var rest: uint64 := integrals * one + fractionals;
      if rest < unsafe {
        var tenKappa: uint64 := divisor * one;
        WholeUnits(w.e, kappa);
        ok := Weed(low, w, high, buffer, length, kappa, tooHigh - w.f, unsafe, rest, tenKappa, unit);
        return;
      }
      WholeNext(buffer[..], length, tooHigh, one, kappa, integrals, fractionals, divisor, unsafe);
      divisor := divisor / 10;
    }
    NoIntegralsLeft(buffer[..], length, tooHigh, one, integrals, fractionals, divisor, unsafe);
    ok, length, kappa := FractionalDigits(low, w, high, buffer, length, one, fractionals, unsafe);
  }

  /** The loop before the decimal point. */
  ghost predicate Whole(s: seq<char>, length: nat, x: int, one: int, kappa: int, integrals: int, fractionals: int,
                        divisor: int, unsafe: int)
  {
    kappa >= 0 && integrals >= 0 && 0 <= fractionals < one && (kappa > 0 ==> divisor == Pow(10, kappa - 1)) &&
    Generating(s, length, x, Pow(10, kappa) * one, integrals * one + fractionals, unsafe)
  }

  lemma WholeDigit(s: seq<char>, length: nat, x: int, one: int, kappa: int, integrals: int, fractionals: int,
                   divisor: int, unsafe: int)
    requires Whole(s, length, x, one, kappa, integrals, fractionals, divisor, unsafe) && kappa > 0
    ensures divisor == Pow(10, kappa - 1) && divisor > 0 && integrals / divisor >= 0 && 0 <= integrals % divisor <= integrals
    ensures var digit, step, left := integrals / divisor, divisor * one, integrals % divisor * one + fractionals;
      Generating(s, length, x, 10 * step, digit * step + left, unsafe) && 0 <= left < step
  {
    TenTimes(kappa, one);
    hide Generating, Pow;
    QuotientIsNatural(integrals, divisor);
    DivideIntegrals(integrals, divisor, one, fractionals);
  }

  lemma QuotientIsNatural(x: int, d: int)
    requires x >= 0 && d > 0
    ensures x / d >= 0 && 0 <= x % d <= x
  {
    QuotientAndRemainder(x, d);
    if x / d < 0 {
      MulMono(x / d, -1, d);
    } else {
      MulMono(0, x / d, d);
    }
  }

  lemma WholeNext(s: seq<char>, length: nat, x: int, one: int, kappa: int, integrals: int, fractionals: int,
                  divisor: int, unsafe: int)
    requires kappa >= 0 && integrals >= 0 && 0 <= fractionals < one && divisor == Pow(10, kappa)
    requires Generated(s, length, x, divisor * one, integrals * one + fractionals, unsafe)
    requires integrals * one + fractionals >= unsafe
    ensures Whole(s, length, x, one, kappa, integrals, fractionals, divisor / 10, unsafe)
    ensures length <= |s| && AllDigits(s, length)
  {
    GoOn(s, length, x, divisor * one, integrals * one + fractionals, unsafe);
    NextDivisor(kappa);
  }

  lemma WholeUnits(e: int, kappa: nat)
    requires e <= 0
    ensures Step(e, kappa) == Pow(10, kappa) * Pow(2, -e) && Scale(kappa) == 1
  {
  }

  lemma DecimalUnits(e: int, j: nat)
    requires e <= 0
    ensures Step(e, 0 - j) == Pow(2, -e) && Scale(0 - j) == Pow(10, j)
  {
  }

  lemma NoIntegralsLeft(s: seq<char>, length: nat, x: int, one: int, integrals: int, fractionals: int,
                        divisor: int, unsafe: int)
    requires Whole(s, length, x, one, 0, integrals, fractionals, divisor, unsafe)
    ensures Generating(s, length, x, one, fractionals, unsafe)
  {
    if integrals > 0 {
      MulMono(1, integrals, one);
    }
  }

  /** The loop of DigitGen behind the decimal point: interval and unit grow with the rest. */
  method FractionalDigits(low: DiyFp, w: DiyFp, high: DiyFp, buffer: array<char>, lengthIn: nat,
                          one: uint64, fractionalsIn: uint64, unsafeIn: uint64)
    returns (ok: bool, length: nat, kappa: int)
    requires low.e == w.e == high.e && -60 <= w.e <= -32 && one == Pow(2, -w.e) <= HIDDEN_BIT / 4
    requires 1 <= low.f <= w.f <= high.f && low.f + 1 <= high.f - 1 && unsafeIn == high.f - low.f + 2
    requires Generating(buffer[..], lengthIn, high.f + 1, one, fractionalsIn, unsafeIn)
    requires buffer.Length > 0 && high.f + 1 <= unsafeIn * Pow(10, buffer.Length - 1)
    modifies buffer
    ensures length <= buffer.Length && AllDigits(buffer[..], length)
    ensures ok ==> length > 0 && Number(buffer[..], length) >= Pow(10, length - 1)
    ensures ok ==> Shortest(low, w, high, Number(buffer[..], length), kappa)
    ensures ShortestPlace(low, high, kappa) && (ok <==> Decidable(low, w, high, kappa))
  {
    hide Number, Pow, Split, Closest, Generating, Generated, Shortest, Scaled, Step, Scale, ShortestPlace,
         Decidable, Decided;
    var fractionals, unsafe: uint64 := fractionalsIn, unsafeIn;
    var unit: uint64 := 1;
    ghost var y := high.f + 1;
    length, kappa := lengthIn, 0;
    StartScaled(y, unsafeIn);
    while true
      invariant kappa <= 0 && Scaled(high.f + 1, unsafeIn, unit, -kappa, y, unsafe)
      invariant Generating(buffer[..], length, y, one, fractionals, unsafe)
      decreases one - unsafe
    {
      GeneratingBounds(buffer[..], length, y, one, fractionals, unsafe);
      TenfoldGenerating(buffer[..], length, y, one, fractionals, unsafe);
      MoreDigits(high.f + 1, unsafeIn, unit, -kappa, y, unsafe, Pow(10, buffer.Length - 1));
      fractionals := fractionals * 10;
      unit := unit * 10;
      unsafe := unsafe * 10;
      y := y * 10;
      NatQuotient(fractionals, one);
      var digit: nat := fractionals / one;
      EmitDigit(buffer, length, digit, y, one, fractionals, fractionals % one, unsafe);
      length := length + 1;
      fractionals := fractionals % one;
      kappa := kappa - 1;
      if fractionals < unsafe {
        ScaledMargins(high.f + 1, unsafeIn, unit, -kappa, y, unsafe, high.f + 1 - w.f);
        var distance: uint64 := (high.f + 1 - w.f) * unit;
        FractionUnits(low, w, high, kappa, unit, y, unsafe, distance);
        ok := Weed(low, w, high, buffer, length, kappa, distance, unsafe, fractionals, one, unit);
        return;
      }
      GoOn(buffer[..], length, y, one, fractionals, unsafe);
    }
  }

  /** Behind the point, everything is measured in units of 10^-j. */
  ghost predicate Scaled(top: int, interval: int, unit: int, j: int, y: int, unsafe: int) {
    j >= 0 && unit == Pow(10, j) && y == top * unit && unsafe == interval * unit
  }

  lemma StartScaled(top: int, interval: int)
    ensures Scaled(top, interval, 1, 0, top, interval)
  {
  }

  lemma NatQuotient(x: nat, d: nat)
    requires d > 0
    ensures x / d >= 0 && x == x / d * d + x % d && 0 <= x % d < d
  {
  }

  lemma GeneratingBounds(s: seq<char>, length: nat, y: int, step: int, rest: int, unsafe: int)
    requires Generating(s, length, y, step, rest, unsafe)
    ensures length <= |s| && 0 < unsafe <= rest < step
  {
  }

  lemma MoreDigits(top: int, interval: int, unit: int, j: int, y: int, unsafe: int, p: int)
    requires Scaled(top, interval, unit, j, y, unsafe) && top <= interval * p && interval > 0
    ensures 0 < unit <= unsafe
    ensures Scaled(top, interval, unit * 10, j + 1, y * 10, unsafe * 10)
    ensures y * 10 <= unsafe * 10 * p
  {
    MulAssoc(top, unit, 10);
    MulAssoc(interval, unit, 10);
    MulMono(top, interval * p, unit * 10);
    MulRight(interval, p, unit * 10);
    MulMono(1, interval, unit);
  }

  lemma Margins(distance: int, interval: int, unit: int)
    requires 1 <= distance && distance + 1 <= interval && 4 <= interval && unit > 0
    ensures 0 < unit <= distance * unit && distance * unit + unit <= interval * unit && 4 * unit <= interval * unit
  {
    MulMono(1, distance, unit);
    MulMono(distance + 1, interval, unit);
    MulMono(4, interval, unit);
  }

  lemma ScaledMargins(top: int, interval: int, unit: int, j: int, y: int, unsafe: int, distance: int)
    requires Scaled(top, interval, unit, j, y, unsafe) && 1 <= distance && distance + 1 <= interval && 4 <= interval
    ensures 0 < unit <= distance * unit && distance * unit + unit <= unsafe
  {
    Margins(distance, interval, unit);
  }

  lemma FractionUnits(low: DiyFp, w: DiyFp, high: DiyFp, kappa: int, unit: int, y: int, unsafe: int, distance: int)
    requires w.e <= 0 && kappa <= 0 && Scaled(high.f + 1, high.f - low.f + 2, unit, -kappa, y, unsafe)
    requires distance == (high.f + 1 - w.f) * unit
    ensures Step(w.e, kappa) == Pow(2, -w.e) && Scale(kappa) == unit
    ensures y == (high.f + 1) * Scale(kappa) && unsafe == (high.f - low.f + 2) * Scale(kappa)
    ensures distance == (high.f + 1 - w.f) * Scale(kappa)
  {
    DecimalUnits(w.e, -kappa);
  }

  lemma NextDivisor(k: nat)
    ensures k > 0 ==> Pow(10, k) / 10 == Pow(10, k - 1)
  {
    if k > 0 {
      DivModUnique(Pow(10, k), 10, Pow(10, k - 1), 0);
    }
  }

  lemma AboutToWeed(s: seq<char>, length: nat, y: int, step: int, rest: int, unsafe: int)
    requires Generated(s, length, y, step, rest, unsafe)
    ensures 0 < length <= |s| && AllDigits(s, length) && 0 <= rest < step
    ensures unsafe <= rest + DigitOf(s[length - 1]) * step
  {
  }

  /** The digits s became t in RoundWeed, which accepted them. */
  lemma Weeded(low: DiyFp, w: DiyFp, high: DiyFp, s: seq<char>, t: seq<char>, length: nat, kappa: int,
               rest: int, rest': int)
    requires w.e <= 0 && 1 <= low.f && low.f + 1 <= high.f
    requires Generated(s, length, (high.f + 1) * Scale(kappa), Step(w.e, kappa), rest, (high.f - low.f + 2) * Scale(kappa))
    requires length <= |t| && AllDigits(t, length)
    requires Number(t, length - 1) == Number(s, length - 1)
    requires rest' - rest == (Number(s, length) - Number(t, length)) * Step(w.e, kappa)
    requires 2 * Scale(kappa) <= rest' <= (high.f - low.f + 2) * Scale(kappa) - 4 * Scale(kappa)
    requires Closest(rest', Step(w.e, kappa), (high.f - low.f + 2) * Scale(kappa), (high.f + 1 - w.f) * Scale(kappa), Scale(kappa))
    ensures Number(t, length) >= Pow(10, length - 1)
    ensures Shortest(low, w, high, Number(t, length), kappa) && Decidable(low, w, high, kappa)
  {
    hide Closest, Split, Pow, Scale, Step, Safe, NoShorter, Nearest;
    var step, scale := Step(w.e, kappa), Scale(kappa);
    assert step > 0 && scale > 0 by { StepPositive(w.e, kappa); }
    Finished(low.f, w.f, high.f, step, scale, Number(s, length - 1), rest + DigitOf(s[length - 1]) * step,
             Number(s, length), rest, Number(t, length), rest');
    EmptyNumber(t);
    MulSub(Number(s, length), Number(t, length), step);
    SplitSum((high.f + 1) * scale, Number(s, length), step, rest);
    WithMargin(low.f, w.f, high.f, Number(t, length), step, scale, rest');
    assert (low.f + 1) * scale <= Number(t, length) * step by { SafeAbove(low.f, high.f, Number(t, length), step, scale); }
    NoLeadingZero(Number(t, length), Number(t, length - 1), DigitOf(t[length - 1]), length, low.f, step, scale);
  }

  lemma SplitSum(y: int, d: int, step: int, rest: int)
    requires Split(y, d, step, rest)
    ensures y == d * step + rest
  {
  }

  lemma WithMargin(low: int, w: int, high: int, n: int, step: int, t: int, rest: int)
    requires (high + 1) * t == n * step + rest && 2 * t <= rest <= (high - low + 2) * t - 4 * t
    requires Nearest(low, w, high, n, step, t)
    ensures Weedable(low, w, high, n, step, t)
  {
    MulSub(high + 1, high - low + 2, t);
    MulSub(low + 3, 4, t);
    MulSub(high + 1, 2, t);
  }

  /** The digits are the first that leave less than the interval. */
  lemma PlaceFound(low: DiyFp, high: DiyFp, s: seq<char>, length: nat, kappa: int, rest: int)
    requires low.e == high.e <= 0
    requires Generated(s, length, (high.f + 1) * Scale(kappa), Step(low.e, kappa), rest, (high.f - low.f + 2) * Scale(kappa))
    requires rest < (high.f - low.f + 2) * Scale(kappa)
    ensures ShortestPlace(low, high, kappa)
  {
    hide Pow, Scale, Step, NoShorter;
    var step, t := Step(low.e, kappa), Scale(kappa);
    assert step > 0 && t > 0 by { StepPositive(low.e, kappa); }
    NothingShorter(low.f, high.f, Number(s, length - 1), step, t, rest + DigitOf(s[length - 1]) * step);
    MulSub(high.f + 1, high.f - low.f + 2, t);
    assert Inside(low.f, high.f, Number(s, length), step, t);
  }

  /** What RoundWeed cannot decide cannot be decided. */
  lemma NotWeeded(low: DiyFp, w: DiyFp, high: DiyFp, s: seq<char>, length: nat, kappa: int, rest: int)
    requires w.e <= 0
    requires Generated(s, length, (high.f + 1) * Scale(kappa), Step(w.e, kappa), rest, (high.f - low.f + 2) * Scale(kappa))
    requires Step(w.e, kappa) > 0
    requires !CanDecide(rest, Step(w.e, kappa), (high.f - low.f + 2) * Scale(kappa),
                        (high.f + 1 - w.f) * Scale(kappa), Scale(kappa))
    ensures !Decidable(low, w, high, kappa)
  {
    hide Pow, Scale, Step, Weedable, Decided;
    var step, t := Step(w.e, kappa), Scale(kappa);
    assert step > 0 && t > 0 by { StepPositive(w.e, kappa); }
    forall n: int | Weedable(low.f, w.f, high.f, n, step, t)
      ensures false
    {
      WeedableIsDecided(low.f, w.f, high.f, step, t, Number(s, length), rest, n);
    }
  }

  lemma SafeAbove(low: int, high: int, n: int, step: int, t: int)
    requires Safe(low, high, n, step, t)
    ensures (low + 1) * t <= n * step
  {
  }

  lemma StepPositive(e: int, kappa: int)
    requires e <= 0
    ensures Step(e, kappa) > 0 && Scale(kappa) > 0
  {
    MulMono(1, Pow(10, if kappa > 0 then kappa else 0), Pow(2, -e));
  }

  lemma StartGenerating(s: seq<char>, x: nat, one: nat, kappa: nat, integrals: nat, fractionals: nat, divisor: nat, unsafe: nat)
    requires kappa > 0 && divisor == Pow(10, kappa - 1) && divisor <= integrals < 10 * divisor
    requires x == integrals * one + fractionals && fractionals < one && 0 < unsafe <= x
    ensures Whole(s, 0, x, one, kappa, integrals, fractionals, divisor, unsafe)
  {
    StartSplit(x, one, kappa, integrals, fractionals, divisor);
  }

  /** The digits so far are those of y. */
  ghost predicate Counting(s: seq<char>, length: nat, y: int, step: int, rest: int) {
    length <= |s| && AllDigits(s, length) && Split(y, Number(s, length), step, rest) &&
    (if length > 0 then Number(s, length) >= Pow(10, length - 1) else 10 * rest >= step)
  }

  method EmitCountedDigit(buffer: array<char>, length: nat, digit: nat,
                          ghost y: int, ghost step: int, ghost rest: int, ghost rest': int)
    requires Counting(buffer[..], length, y, 10 * step, rest) && length < buffer.Length
    requires rest == digit * step + rest' && 0 <= rest' < step
    modifies buffer
    ensures Counting(buffer[..], length + 1, y, step, rest')
  {
    hide Number, Pow, Split;
    ghost var d0 := Number(buffer[..], length);
    EmptyNumber(buffer[..]);
    SplitFurther(y, d0, step, rest, digit, rest');
    FirstDigit(length, d0, digit, step, rest, rest');
    PutDigit(buffer, length, digit);
  }

  lemma CountingBounds(s: seq<char>, length: nat, y: int, step: int, rest: int)
    requires Counting(s, length, y, step, rest) && length > 0
    ensures length <= |s| && AllDigits(s, length) && 0 <= rest < step <= y
  {
    MulMono(1, Number(s, length), step);
  }

  lemma TenfoldCounting(s: seq<char>, length: nat, y: int, step: int, rest: int)
    requires Counting(s, length, y, step, rest)
    ensures Counting(s, length, 10 * y, 10 * step, 10 * rest)
  {
    SplitTenfold(y, Number(s, length), step, rest);
  }

  lemma StartCounting(s: seq<char>, x: nat, one: nat, kappa: nat, integrals: nat, fractionals: nat, divisor: nat)
    requires kappa > 0 && divisor == Pow(10, kappa - 1) && divisor <= integrals < 10 * divisor
    requires x == integrals * one + fractionals && fractionals < one
    ensures CountingWhole(s, 0, x, one, kappa, integrals, fractionals, divisor)
  {
    StartSplit(x, one, kappa, integrals, fractionals, divisor);
  }

  /** Whatever v the imprecise w stands for, n steps are within half a step of it. */
  ghost predicate Rounded(w: int, n: int, step: int, scale: int) {
    forall v: real {:trigger Near(v, w)} | Near(v, w) ::
      Abs((n * step) as real - v * scale as real) <= step as real / 2.0
  }

  lemma RoundedBy(w: int, y: int, d: int, step: int, scale: nat, rest: int, up: bool, v: real)
    requires y == w * scale && Split(y, d, step, rest) && scale > 0
    requires RoundsWell(rest, step, scale, up) && Near(v, w)
    ensures Abs(((d + if up then 1 else 0) * step) as real - v * scale as real) <= step as real / 2.0
  {
    hide RoundsWell;
    ScaleAbove(w - 1, v, scale);
    ScaleBelow(v, w + 1, scale);
    MulSub(w, 1, scale);
    MulSub(w, -1, scale);
    MulSub(d, -1, step);
    RoundedAround(y, d * step, step, scale, rest, up, v * scale as real);
  }

  lemma RoundedAround(y: int, whole: int, step: int, scale: int, rest: int, up: bool, x: real)
    requires y == whole + rest && (y - scale) as real < x < (y + scale) as real
    requires RoundsWell(rest, step, scale, up)
    ensures Abs((whole + if up then step else 0) as real - x) <= step as real / 2.0
  {
    assert NearW(x - whole as real, rest, scale);
  }

  /** The digits were accepted by RoundWeedCounted. */
  lemma CountedWeeded(w: int, s: seq<char>, length: nat, step: int, scale: int, rest: int, n: int, up: bool)
    requires Counting(s, length, w * scale, step, rest) && scale > 0 && RoundsWell(rest, step, scale, up)
    requires n == Number(s, length) + if up then 1 else 0
    ensures Rounded(w, n, step, scale)
  {
    hide RoundsWell, Split;
    forall v: real {:trigger Near(v, w)} | Near(v, w)
      ensures Abs((n * step) as real - v * scale as real) <= step as real / 2.0
    {
      RoundedBy(w, w * scale, Number(s, length), step, scale, rest, up, v);
    }
  }

  /** The first digits of w: how many there are decides the place of the last. */
  ghost predicate Leading(w: DiyFp, n: int, length: nat, place: int)
    requires w.e <= 0
  {
    length > 0 && Pow(10, length - 1) <= n < Pow(10, length) &&
    n * Step(w.e, place) <= w.f * Scale(place) < (n + 1) * Step(w.e, place)
  }

  ghost predicate LeadingAt(w: DiyFp, length: nat, place: int)
    requires w.e <= 0
  {
    exists n: int :: Leading(w, n, length, place)
  }

  /** All that w may stand for rounds to the same multiple, in steps of more than two units. */
  ghost predicate Roundable(w: DiyFp, place: int)
    requires w.e <= 0
  {
    2 * Scale(place) < Step(w.e, place) && exists n: int :: Rounded(w.f, n, Step(w.e, place), Scale(place))
  }

  /** The digits stop where w may be a whole number of steps. */
  ghost predicate NearlyWhole(w: DiyFp, length: nat, place: int)
    requires w.e <= 0
  {
    place <= 0 && exists n: int :: Leading(w, n, length, place) && w.f * Scale(place) <= n * Step(w.e, place) + Scale(place)
  }

  /** Only the two multiples around w come into question. */
  lemma RoundableIff(w: DiyFp, s: seq<char>, length: nat, place: int, rest: int)
    requires w.e <= 0 && Counting(s, length, w.f * Scale(place), Step(w.e, place), rest)
    requires 2 * Scale(place) < Step(w.e, place)
    ensures Roundable(w, place) <==> exists u :: RoundsWell(rest, Step(w.e, place), Scale(place), u)
  {
    hide RoundsWell, Rounded, Step, Scale, Pow, Number;
    var step, t := Step(w.e, place), Scale(place);
    assert step > 0 && t > 0 by { StepPositive(w.e, place); }
    var d := Number(s, length);
    forall u | RoundsWell(rest, step, t, u)
      ensures Rounded(w.f, d + if u then 1 else 0, step, t)
    {
      CountedWeeded(w.f, s, length, step, t, rest, d + if u then 1 else 0, u);
    }
    forall n: int | Rounded(w.f, n, step, t)
      ensures exists u :: RoundsWell(rest, step, t, u)
    {
      OneOfTwo(w.f, n, d, step, t, rest);
      assert RoundsWell(rest, step, t, n == d + 1);
    }
  }

  lemma RoundableAt(w: DiyFp, s: seq<char>, length: nat, place: int, rest: int)
    requires w.e <= 0 && Counting(s, length, w.f * Scale(place), Step(w.e, place), rest)
    ensures Roundable(w, place) <==>
      2 * Scale(place) < Step(w.e, place) && exists u :: RoundsWell(rest, Step(w.e, place), Scale(place), u)
  {
    hide RoundsWell, Rounded, Step, Scale, Pow, Number, Counting;
    if 2 * Scale(place) < Step(w.e, place) {
      RoundableIff(w, s, length, place, rest);
    }
  }

  lemma StoppedEarly(w: DiyFp, s: seq<char>, length: nat, place: int, rest: int, unit: int)
    requires w.e <= 0 && length > 0 && Counting(s, length, w.f * Scale(place), Step(w.e, place), rest)
    requires place <= 0 && unit == Scale(place) && rest <= unit
    ensures LeadingAt(w, length, place) && NearlyWhole(w, length, place)
  {
    hide Step, Scale, Number, Pow, Leading, Counting;
    CountingLeads(w, s, length, place, rest);
  }

  lemma OneOfTwo(w: int, n: int, d: int, step: int, t: nat, rest: int)
    requires step > 0 && t > 0 && Rounded(w, n, step, t) && Split(w * t, d, step, rest)
    ensures n == d || n == d + 1
    ensures RoundsWell(rest, step, t, n == d + 1)
  {
    hide Rounded, NearW;
    ToRealMul(w, t);
    RoundedHere(w, n, step, t, w as real);
    HalfAStep(n * step, w * t, step);
    Neighbour(n, d, step, n * step, d * step, rest);
    MulSub(d, -1, step);
    forall x: real {:trigger NearW(x, rest, t)} | NearW(x, rest, t)
      ensures Abs((if n == d + 1 then step else 0) as real - x) <= step as real / 2.0
    {
      var v := AboveWhole(w * t, d * step, w, t, rest, x);
      RoundedHere(w, n, step, t, v);
      SameDistance(n * step, d * step, if n == d + 1 then step else 0, v * t as real, x);
    }
  }

  lemma HalfAStep(a: int, b: int, step: int)
    requires Abs(a as real - b as real) <= step as real / 2.0
    ensures -step <= 2 * (a - b) <= step
  {
  }

  lemma SameDistance(a: int, whole: int, up: int, v: real, x: real)
    requires a == whole + up && v == whole as real + x
    ensures Abs(a as real - v) == Abs(up as real - x)
  {
  }

  lemma RoundedHere(w: int, n: int, step: int, t: int, v: real)
    requires Rounded(w, n, step, t) && Near(v, w)
    ensures Abs((n * step) as real - v * t as real) <= step as real / 2.0
  {
  }

  lemma Neighbour(n: int, d: int, step: int, a: int, b: int, rest: int)
    requires a == n * step && b == d * step && 0 <= rest < step && -step <= 2 * (a - (b + rest)) <= step
    ensures n == d || n == d + 1
  {
    MulSub(n, d, step);
    if n - d <= -1 {
      MulMono(n - d, -1, step);
    } else if n - d >= 2 {
      MulMono(2, n - d, step);
    }
  }

  /** The point at x above the whole steps, in units. */
  lemma AboveWhole(y: int, whole: int, w: int, t: nat, rest: int, x: real) returns (v: real)
    requires t > 0 && y == w * t == whole + rest && NearW(x, rest, t)
    ensures v * t as real == whole as real + x && Near(v, w)
  {
    v := (whole as real + x) / t as real;
    MulSub(w, 1, t);
    MulSub(w, -1, t);
    ToRealMul(w - 1, t);
    ToRealMul(w + 1, t);
    RealOrder((w - 1) as real, v, t as real);
    RealOrder(v, (w + 1) as real, t as real);
  }

  lemma CountingLeads(w: DiyFp, s: seq<char>, length: nat, place: int, rest: int)
    requires w.e <= 0 && length > 0 && Counting(s, length, w.f * Scale(place), Step(w.e, place), rest)
    ensures Leading(w, Number(s, length), length, place) && LeadingAt(w, length, place)
    ensures w.f * Scale(place) == Number(s, length) * Step(w.e, place) + rest
  {
    hide Step, Scale, Number, Pow;
    NumberBound(s, length);
    MulSub(Number(s, length), -1, Step(w.e, place));
    assert Leading(w, Number(s, length), length, place);
  }

  ghost predicate CountingWhole(s: seq<char>, length: nat, x: int, one: int, kappa: int, integrals: int,
                                fractionals: int, divisor: int)
  {
    kappa >= 0 && integrals >= 0 && 0 <= fractionals < one && (kappa > 0 ==> divisor == Pow(10, kappa - 1)) &&
    Counting(s, length, x, Pow(10, kappa) * one, integrals * one + fractionals)
  }

  lemma CountingWholeDigit(s: seq<char>, length: nat, x: int, one: int, kappa: int, integrals: int, fractionals: int,
                           divisor: int)
    requires CountingWhole(s, length, x, one, kappa, integrals, fractionals, divisor) && kappa > 0
    ensures divisor == Pow(10, kappa - 1) && divisor > 0 && integrals / divisor >= 0 && 0 <= integrals % divisor <= integrals
    ensures var digit, step, left := integrals / divisor, divisor * one, integrals % divisor * one + fractionals;
      Counting(s, length, x, 10 * step, digit * step + left) && 0 <= left < step
  {
    TenTimes(kappa, one);
    hide Counting, Pow;
    QuotientIsNatural(integrals, divisor);
    DivideIntegrals(integrals, divisor, one, fractionals);
  }

  lemma CountingWholeNext(s: seq<char>, length: nat, x: int, one: int, kappa: int, integrals: int, fractionals: int,
                          divisor: int)
    requires kappa >= 0 && integrals >= 0 && 0 <= fractionals < one && divisor == Pow(10, kappa) && length > 0
    requires Counting(s, length, x, divisor * one, integrals * one + fractionals)
    ensures CountingWhole(s, length, x, one, kappa, integrals, fractionals, divisor / 10)
    ensures length <= |s| && AllDigits(s, length) && 0 <= integrals * one + fractionals < divisor * one <= x
  {
    NextDivisor(kappa);
    CountingBounds(s, length, x, divisor * one, integrals * one + fractionals);
  }

  lemma CountingDecimals(s: seq<char>, length: nat, x: int, one: int, integrals: int, fractionals: int, divisor: int)
    requires CountingWhole(s, length, x, one, 0, integrals, fractionals, divisor)
    ensures Counting(s, length, x, one, fractionals)
  {
    if integrals > 0 {
      MulMono(1, integrals, one);
    }
  }

  /** Generates exactly the requested number of digits, or fails: if what is left may be
      nothing, or if it cannot be decided how to round. A final carry moves all digits up;
      then they are a one and zeros, correct in the place below the last. */
  method DigitGenCounted(w: DiyFp, requestedDigits: int, buffer: array<char>)
    returns (ok: bool, length: nat, kappa: int, ghost place: int)
    requires -60 <= w.e <= -32 && HIDDEN_BIT <= w.f
    requires buffer.Length >= if requestedDigits > 0 then requestedDigits else 10
    modifies buffer
    ensures length <= buffer.Length && AllDigits(buffer[..], length)
    ensures ok ==> length == requestedDigits > 0 && place <= kappa
    ensures ok ==> Number(buffer[..], length) >= Pow(10, length - 1)
    ensures ok ==> Rounded(w.f, Number(buffer[..], length) * Pow(10, kappa - place), Step(w.e, place), Scale(place))
    ensures ok && place < kappa ==> place == kappa - 1 && Number(buffer[..], length) == Pow(10, length - 1)
    ensures requestedDigits > 0 ==> length <= requestedDigits && LeadingAt(w, length, place)
    ensures requestedDigits > 0 ==> (ok <==> length == requestedDigits && Roundable(w, place))
    ensures length < requestedDigits ==> NearlyWhole(w, length, place)
  {
    hide Number, Pow, Split, RoundsWell, Rounded, Counting, CountingWhole, Step, Scale, Scaled, Leading, LeadingAt,
         Roundable, NearlyWhole;
    var wError: uint64 := 1;
    OneBounds(w.e);
    var one: uint64 := Pow(2, -w.e);
    Integrals(w.f, w.e);
    var integrals: uint32 := w.f / one;
    var fractionals: uint64 := w.f % one;
    FewLeadingZeros(integrals, 64 + w.e);
    var divisor: uint32, divisorExponentPlusOne: nat := BiggestPowerTen(integrals, 64 + w.e);
    var requested := requestedDigits;
    kappa, length, ok, place := divisorExponentPlusOne, 0, false, 0;
    StartCounting(buffer[..], w.f, one, kappa, integrals, fractionals, divisor);
    while kappa > 0
      invariant 0 <= kappa && kappa + length <= 10 && requested == requestedDigits - length
      invariant requestedDigits > 0 ==> requested > 0
      invariant length <= buffer.Length && AllDigits(buffer[..], length)
      invariant length == 0 ==> kappa > 0
      invariant CountingWhole(buffer[..], length, w.f, one, kappa, integrals, fractionals, divisor)
      decreases kappa
    {
      CountingWholeDigit(buffer[..], length, w.f, one, kappa, integrals, fractionals, divisor);
      var digit: nat := integrals / divisor;
      integrals := integrals % divisor;
      ghost var step, left := divisor * one, integrals * one + fractionals;
      EmitCountedDigit(buffer, length, digit, w.f, step, digit * step + left, left);
      length := length + 1;
      requested := requested - 1;
      kappa := kappa - 1;
      CountingWholeNext(buffer[..], length, w.f, one, kappa, integrals, fractionals, divisor);
      if requested == 0 {
        break;
      }
      divisor := divisor / 10;
    }
    if requested == 0 {
      var rest: uint64 := integrals * one + fractionals;
      var tenKappa: uint64 := divisor * one;
      WholeUnits(w.e, kappa);
      ok, length, kappa, place := RoundCounted(w, buffer, length, rest, tenKappa, wError, kappa);
      return;
    }
    CountingDecimals(buffer[..], length, w.f, one, integrals, fractionals, divisor);
    ghost var y: int := w.f;
    StartScaled(w.f, 1);
    while requested > 0 && fractionals > wError
      invariant kappa <= 0 && Scaled(w.f, 1, wError, -kappa, y, wError)
      invariant requested == requestedDigits - length && (requestedDigits > 0 ==> requested >= 0)
      invariant 0 < length <= buffer.Length && AllDigits(buffer[..], length) && 0 <= fractionals < one
      invariant Counting(buffer[..], length, y, one, fractionals)
      decreases requested
    {
      TenfoldCounting(buffer[..], length, y, one, fractionals);
      MoreDigits(w.f, 1, wError, -kappa, y, wError, w.f);
      fractionals := fractionals * 10;
      wError := wError * 10;
      y := y * 10;
      NatQuotient(fractionals, one);
      var digit: nat := fractionals / one;
      EmitCountedDigit(buffer, length, digit, y, one, fractionals, fractionals % one);
      length := length + 1;
      requested := requested - 1;
      fractionals := fractionals % one;
      kappa := kappa - 1;
      CountingBounds(buffer[..], length, y, one, fractionals);
    }
    DecimalUnits(w.e, -kappa);
    ScaledUnit(w.f, wError, -kappa, y);
    if requested != 0 {
      if requested > 0 {
        place := kappa;
        StoppedEarly(w, buffer[..], length, place, fractionals, wError);
      }
      return;
    }
    ok, length, kappa, place := RoundCounted(w, buffer, length, fractionals, one, wError, kappa);
  }

  lemma ScaledUnit(top: int, unit: int, j: int, y: int)
    requires Scaled(top, 1, unit, j, y, unit)
    ensures j >= 0 && unit == Pow(10, j) > 0 && y == top * unit
  {
  }

  /** The end of DigitGenCounted, in either loop. */
  method RoundCounted(w: DiyFp, buffer: array<char>, lengthIn: nat, rest: uint64, tenKappa: uint64, unit: uint64,
                      kappaIn: int)
    returns (ok: bool, length: nat, kappa: int, ghost place: int)
    requires w.e <= 0 && 0 < lengthIn <= buffer.Length
    requires tenKappa == Step(w.e, kappaIn) && unit == Scale(kappaIn) > 0
    requires Counting(buffer[..], lengthIn, w.f * unit, tenKappa, rest)
    modifies buffer
    ensures length == lengthIn && place == kappaIn <= kappa && AllDigits(buffer[..], length)
    ensures ok ==> Number(buffer[..], length) >= Pow(10, length - 1)
    ensures ok ==> Rounded(w.f, Number(buffer[..], length) * Pow(10, kappa - place), Step(w.e, place), Scale(place))
    ensures ok && place < kappa ==> place == kappa - 1 && Number(buffer[..], length) == Pow(10, length - 1)
    ensures LeadingAt(w, length, place) && (ok <==> Roundable(w, place))
  {
    hide Number, Pow, RoundsWell, Rounded, Counting, Step, Scale, Leading, LeadingAt, Roundable;
    length, place := lengthIn, kappaIn;
    CountingBounds(buffer[..], length, w.f * unit, tenKappa, rest);
    CountingLeads(w, buffer[..], length, place, rest);
    RoundableAt(w, buffer[..], length, place, rest);
    ghost var s, up := buffer[..], false;
    ok, kappa, up := RoundWeedCounted(buffer, length, rest, tenKappa, unit, kappaIn);
    if ok {
      CountedWeeded(w.f, s, length, tenKappa, unit, rest, Number(buffer[..], length) * Pow(10, kappa - place), up);
      if kappa == place {
        PowZero(10);
        CountingAbove(s, length, w.f * unit, tenKappa, rest);
      }
    }
  }

  lemma CountingAbove(s: seq<char>, length: nat, y: int, step: int, rest: int)
    requires Counting(s, length, y, step, rest) && length > 0
    ensures Number(s, length) >= Pow(10, length - 1)
  {
  }

  /** A scaled real bound and its approximation. */
  lemma NearBounds(v: real, w: int, t: nat)
    requires t > 0 && Near(v, w)
    ensures ((w - 1) * t) as real < v * t as real < ((w + 1) * t) as real
  {
    ScaleAbove(w - 1, v, t);
    ScaleBelow(v, w + 1, t);
  }

  lemma SafeForReals(low: int, high: int, n: int, step: int, t: nat, lo: real, hi: real)
    requires t > 0 && Safe(low, high, n, step, t) && Near(lo, low) && Near(hi, high)
    ensures lo * t as real < (n * step) as real < hi * t as real
  {
    NearBounds(lo, low, t);
    NearBounds(hi, high, t);
  }

  lemma NoShorterForReals(low: int, high: int, step: int, t: nat, lo: real, hi: real, j: nat, m: int)
    requires t > 0 && NoShorter(low, high, step, t) && Near(lo, low) && Near(hi, high) && j >= 1
    ensures !(lo * t as real <= (m * (Pow(10, j) * step)) as real <= hi * t as real)
  {
    NearBounds(lo, low, t);
    NearBounds(hi, high, t);
    assert !((low - 1) * t < m * (Pow(10, j) * step) <= (high + 1) * t);
  }

  lemma NearestForReals(low: int, w: int, high: int, n: int, step: int, t: nat, lo: real, v: real, hi: real, m: int)
    requires t > 0 && Nearest(low, w, high, n, step, t) && Near(lo, low) && Near(v, w) && Near(hi, high)
    requires lo * t as real <= (m * step) as real <= hi * t as real
    ensures Abs((n * step) as real - v * t as real) <= Abs((m * step) as real - v * t as real)
  {
    assert (low - 1) * t <= m * step <= (high + 1) * t by {
      NearBounds(lo, low, t);
      NearBounds(hi, high, t);
    }
  }

  /** The digits lie strictly between two real bounds, ... */
  ghost predicate StrictlyBetween(lo: real, hi: real, n: int, step: int, t: int) {
    lo * t as real < (n * step) as real < hi * t as real
  }

  /** ... nothing with fewer digits does, ... */
  ghost predicate NoneShorterBetween(lo: real, hi: real, step: int, t: int) {
    forall j: nat, m: int {:trigger m * (Pow(10, j) * step)} | j >= 1 ::
      !(lo * t as real <= (m * (Pow(10, j) * step)) as real <= hi * t as real)
  }

  /** ... and no other decimal of that length between them is closer to v. */
  ghost predicate NearestBetween(lo: real, v: real, hi: real, n: int, step: int, t: int) {
    forall m: int {:trigger m * step} | lo * t as real <= (m * step) as real <= hi * t as real ::
      Abs((n * step) as real - v * t as real) <= Abs((m * step) as real - v * t as real)
  }

  lemma ForReals(low: int, w: int, high: int, n: int, step: int, t: nat, lo: real, v: real, hi: real)
    requires t > 0 && Safe(low, high, n, step, t) && NoShorter(low, high, step, t) && Nearest(low, w, high, n, step, t)
    requires Near(lo, low) && Near(v, w) && Near(hi, high)
    ensures StrictlyBetween(lo, hi, n, step, t) && NoneShorterBetween(lo, hi, step, t)
    ensures NearestBetween(lo, v, hi, n, step, t)
  {
    hide Near, Safe, NoShorter, Nearest;
    SafeForReals(low, high, n, step, t, lo, hi);
    forall j: nat, m: int {:trigger m * (Pow(10, j) * step)} | j >= 1
      ensures !(lo * t as real <= (m * (Pow(10, j) * step)) as real <= hi * t as real)
    {
      NoShorterForReals(low, high, step, t, lo, hi, j, m);
    }
    forall m: int {:trigger m * step} | lo * t as real <= (m * step) as real <= hi * t as real
      ensures Abs((n * step) as real - v * t as real) <= Abs((m * step) as real - v * t as real)
    {
      NearestForReals(low, w, high, n, step, t, lo, v, hi, m);
    }
  }

  /** Grisu3 agrees with the exact answer: whatever the real bounds and the real number
      are, if each is less than one unit from its approximation, the digits lie strictly
      between the bounds, nothing with fewer digits does, and no decimal of that length
      between them is closer. */
  lemma ShortestForRealBounds(low: DiyFp, w: DiyFp, high: DiyFp, n: int, kappa: int, lo: real, v: real, hi: real)
    requires w.e <= 0 && Shortest(low, w, high, n, kappa)
    requires Near(lo, low.f) && Near(v, w.f) && Near(hi, high.f)
    ensures StrictlyBetween(lo, hi, n, Step(w.e, kappa), Scale(kappa))
    ensures NoneShorterBetween(lo, hi, Step(w.e, kappa), Scale(kappa))
    ensures NearestBetween(lo, v, hi, n, Step(w.e, kappa), Scale(kappa))
  {
    hide Near, Safe, NoShorter, Nearest, StrictlyBetween, NoneShorterBetween, NearestBetween;
    StepPositive(w.e, kappa);
    ForReals(low.f, w.f, high.f, n, Step(w.e, kappa), Scale(kappa), lo, v, hi);
  }

  /** The margin of four units at the lower end is larger than the safe interval needs: here
      the digits are safe, shortest and nearest, and yet are rejected. */
  lemma SafeButRejected()
    ensures var low, w, high := DiyFp(HIDDEN_BIT - 1, -32), DiyFp(HIDDEN_BIT, -32), DiyFp(HIDDEN_BIT + 10, -32);
      Shortest(low, w, high, 0x4000_0000, 0) && ShortestPlace(low, high, 0) && !Decidable(low, w, high, 0)
  {
    var low, w, high := DiyFp(HIDDEN_BIT - 1, -32), DiyFp(HIDDEN_BIT, -32), DiyFp(HIDDEN_BIT + 10, -32);
    WholeUnits(-32, 0);
    TwoPowers();
    var step, n := Step(-32, 0), 0x4000_0000;
    assert step == TWO32 && Scale(0) == 1 by {
      PowAdd(2, 16, 16);
      PowZero(10);
    }
    hide Step, Scale, Pow;
    OnlyMultiple(low.f, w.f, high.f, n, step);
    assert Inside(low.f, high.f, n, step, 1);
  }

  lemma OnlyMultiple(low: int, w: int, high: int, n: int, step: int)
    requires step > 20 && n * step == low + 1 == w && high == low + 11 && n % 10 != 0
    ensures Safe(low, high, n, step, 1) && NoShorter(low, high, step, 1) && Nearest(low, w, high, n, step, 1)
    ensures forall m: int :: !Weedable(low, w, high, m, step, 1)
  {
    forall m: int | low - 1 <= m * step <= high + 1
      ensures m == n
    {
      OnlyOneNear(low, high, n, m, step);
    }
    OnlyWithAllDigits(low, high, n, step);
    hide NoShorter;
  }

  lemma OnlyOneNear(low: int, high: int, n: int, m: int, step: int)
    requires step > 20 && n * step == low + 1 && high == low + 11 && low - 1 <= m * step <= high + 1
    ensures m == n
  {
    if m < n {
      MulMono(m + 1, n, step);
    } else if m > n {
      MulMono(n + 1, m, step);
    }
  }

  lemma OnlyWithAllDigits(low: int, high: int, n: int, step: int)
    requires step > 20 && n * step == low + 1 && high == low + 11 && n % 10 != 0
    ensures NoShorter(low, high, step, 1)
  {
    forall j: nat, m: int {:trigger m * (Pow(10, j) * step)} | j >= 1
      ensures !((low - 1) * 1 < m * (Pow(10, j) * step) <= (high + 1) * 1)
    {
      MulAssoc(m, Pow(10, j), step);
      NotTenfold(m, j, n);
      if low - 1 < m * (Pow(10, j) * step) <= high + 1 {
        OnlyOneNear(low, high, n, m * Pow(10, j), step);
      }
    }
  }

  lemma NotTenfold(m: int, j: nat, n: int)
    requires j >= 1 && n % 10 != 0
    ensures m * Pow(10, j) != n
  {
    MulAssoc(m, 10, Pow(10, j - 1));
    var q := m * Pow(10, j - 1);
    assert m * Pow(10, j) == q * 10;
    DivModUnique(q * 10, 10, q, 0);
  }
}
