/** Which decimals read back as a given floating-point number, and what one round of
    digit generation says about them.

    The number is num/den, between 0 and 10; its rounding interval reaches from
    (num - dm)/den to (num + dp)/den and includes its ends exactly when the significand
    is even. A candidate with k digits is an integer n standing for n / 10^(k-1).
  */
module ShortestSpec {
  import opened Powers

  datatype Target = Target(num: int, den: int, dm: int, dp: int, even: bool) {
    ghost predicate Valid() {
      0 <= num && 0 < den && 0 < dm && 0 < dp
      && (if even then num + dp < 10 * den else num + dp <= 10 * den)
    }

    /** n / 10^(k-1) lies in the rounding interval. */
    ghost predicate Inside(n: int, k: nat)
      requires k > 0
    {
      var t := Pow(10, k - 1);
      if even then (num - dm) * t <= n * den <= (num + dp) * t
      else (num - dm) * t < n * den < (num + dp) * t
    }

    /** How far n / 10^(k-1) is from num/den, in units of 1 / (den * 10^(k-1)). */
    ghost function Distance(n: int, k: nat): int
      requires k > 0
    {
      var d := n * den - num * Pow(10, k - 1);
      if d < 0 then -d else d
    }

    /** n is the result that the conversion promises: a shortest decimal that reads back
        as the number, and among those a closest one; of two equally close ones, even. */
    ghost predicate Shortest(n: int, k: nat) {
      && k > 0
      && Inside(n, k)
      && (forall j, m | 1 <= j < k :: !Inside(m, j))
      && (forall m | Inside(m, k) :: Distance(n, k) <= Distance(m, k))
      && (forall m | Inside(m, k) && m != n && Distance(n, k) == Distance(m, k) :: n % 2 == 0)
    }

    /** Before the digit number k + 1: the k digits so far spell n, and `rest` is what
        remains of the number, ten times enlarged with each digit. */
    ghost predicate Generating(k: nat, n: int, rest: int, minus: int, plus: int) {
      var t := Pow(10, k);
      && num * t == 10 * n * den + rest
      && minus == dm * t && plus == dp * t
      && 0 <= rest && (if even then rest + plus < 10 * den else rest + plus <= 10 * den)
      && (forall j, m | 1 <= j <= k :: !Inside(m, j))
    }

    /** After the digit number k + 1: now `rest` is below the denominator. */
    ghost predicate Divided(k: nat, n: int, rest: int, minus: int, plus: int) {
      var t := Pow(10, k);
      && num * t == n * den + rest
      && minus == dm * t && plus == dp * t
      && 0 <= rest < den && 0 < minus && 0 < plus
      && (forall j, m | 1 <= j <= k :: !Inside(m, j))
    }

    lemma Start()
      requires Valid()
      ensures Generating(0, 0, num, dm, dp)
    {
    }

    lemma GeneratingBounds(k: nat, n: int, rest: int, minus: int, plus: int)
      requires Valid() && Generating(k, n, rest, minus, plus)
      ensures 0 <= rest <= 10 * den
    {
      MulMono(1, Pow(10, k), dp);
    }

    /** The next digit is the quotient; it is a 9 only if the number cannot be rounded up. */
    lemma Divide(k: nat, n: int, rest: int, minus: int, plus: int, d: int, r: int)
      requires Valid() && Generating(k, n, rest, minus, plus)
      requires rest == d * den + r && 0 <= r < den
      ensures Divided(k, 10 * n + d, r, minus, plus)
      ensures 0 <= d <= 9
      ensures RoomAbove(r, plus) ==> d < 9
    {
      MulMono(1, Pow(10, k), dm);
      MulMono(1, Pow(10, k), dp);
      hide Target.Inside;
      hide Pow;
      AppendDigit(n, d);
      QuotientDigit(rest, d, r);
    }

    lemma AppendDigit(n: int, d: int)
      ensures (10 * n + d) * den == 10 * n * den + d * den
    {
    }

    lemma QuotientDigit(rest: int, d: int, r: int)
      requires 0 < den && rest == d * den + r && 0 <= r < den && 0 <= rest < 10 * den
      ensures 0 <= d <= 9
      ensures d == 9 ==> rest == 9 * den + r
    {
      if d <= -1 {
        MulMono(d, -1, den);
      } else if d >= 10 {
        MulMono(10, d, den);
      }
    }

    /** Whether the digits so far, or the next number above, lie in the interval. */
    ghost predicate RoomBelow(r: int, minus: int) {
      if even then r <= minus else r < minus
    }

    ghost predicate RoomAbove(r: int, plus: int) {
      if even then r + plus >= den else r + plus > den
    }

    /** Being inside the interval, told from the remainder. */
    lemma InsideByRemainder(k: nat, n: int, r: int, minus: int, plus: int, m: int)
      requires Valid() && Divided(k, n, r, minus, plus)
      ensures Inside(m, k + 1) <==>
        if even then r - minus <= (m - n) * den <= r + plus else r - minus < (m - n) * den < r + plus
      ensures Distance(m, k + 1) == if (m - n) * den < r then r - (m - n) * den else (m - n) * den - r
    {
      hide Pow;
      var t := Pow(10, k);
      MulSub(num, dm, t);
      MulSub(num, -dp, t);
      MulSub(m, n, den);
    }

    /** Candidates other than n and n + 1 are far away. */
    lemma FarCandidates(n: int, m: int)
      requires den > 0
      ensures m <= n - 1 ==> (m - n) * den <= -den
      ensures m >= n + 2 ==> (m - n) * den >= 2 * den
      ensures m == n ==> (m - n) * den == 0
      ensures m == n + 1 ==> (m - n) * den == den
    {
      if m <= n - 1 {
        MulMono(m - n, -1, den);
      } else if m >= n + 2 {
        MulMono(2, m - n, den);
      }
    }

    /** Without room on either side no candidate of this length lies in the interval. */
    lemma NothingInside(k: nat, n: int, r: int, minus: int, plus: int)
      requires Valid() && Divided(k, n, r, minus, plus)
      requires !RoomBelow(r, minus) && !RoomAbove(r, plus)
      ensures forall j, m | 1 <= j <= k + 1 :: !Inside(m, j)
    {
      var length := k + 1;
      forall m ensures !Inside(m, length) {
        InsideByRemainder(k, n, r, minus, plus, m);
        FarCandidates(n, m);
      }
    }

    /** The search then goes on with everything enlarged ten times. */
    lemma Continue(k: nat, n: int, r: int, minus: int, plus: int)
      requires Valid() && Divided(k, n, r, minus, plus)
      requires !RoomBelow(r, minus) && !RoomAbove(r, plus)
      ensures Generating(k + 1, n, 10 * r, 10 * minus, 10 * plus)
      ensures minus <= r && (dm + dp) * Pow(10, k) <= den
    {
      NothingInside(k, n, r, minus, plus);
      assert Pow(10, k + 1) == 10 * Pow(10, k);
      hide Target.Inside;
      hide Pow;
      TenTimes(num, Pow(10, k), n, r);
      TenTimes(dm, Pow(10, k), 0, minus);
      TenTimes(dp, Pow(10, k), 0, plus);
      assert (dm + dp) * Pow(10, k) == dm * Pow(10, k) + dp * Pow(10, k);
    }

    lemma TenTimes(x: int, t: int, n: int, r: int)
      requires x * t == n * den + r
      ensures x * (10 * t) == 10 * n * den + 10 * r
    {
    }

    /** The digits so far are the answer if there is room below, and either none above or
        they are at least as close. */
    lemma StopBelow(k: nat, n: int, r: int, minus: int, plus: int)
      requires Valid() && Divided(k, n, r, minus, plus) && RoomBelow(r, minus)
      requires RoomAbove(r, plus) ==> 2 * r < den || (2 * r == den && n % 2 == 0)
      ensures Shortest(n, k + 1)
    {
      InsideByRemainder(k, n, r, minus, plus, n);
      FarCandidates(n, n);
      var length := k + 1;
      forall m | Inside(m, length)
        ensures Distance(n, length) <= Distance(m, length)
        ensures m != n && Distance(n, length) == Distance(m, length) ==> n % 2 == 0
      {
        InsideByRemainder(k, n, r, minus, plus, m);
        FarCandidates(n, m);
      }
    }

    /** The next number above is the answer if there is room above, and either none below
        or it is at least as close. */
    lemma StopAbove(k: nat, n: int, r: int, minus: int, plus: int)
      requires Valid() && Divided(k, n, r, minus, plus) && RoomAbove(r, plus)
      requires RoomBelow(r, minus) ==> 2 * r > den || (2 * r == den && n % 2 != 0)
      ensures Shortest(n + 1, k + 1)
    {
      InsideByRemainder(k, n, r, minus, plus, n + 1);
      FarCandidates(n, n + 1);
      var length := k + 1;
      forall m | Inside(m, length)
        ensures Distance(n + 1, length) <= Distance(m, length)
        ensures m != n + 1 && Distance(n + 1, length) == Distance(m, length) ==> (n + 1) % 2 == 0
      {
        InsideByRemainder(k, n, r, minus, plus, m);
        FarCandidates(n, m);
      }
    }

    /** a / 10^f lies in the rounding interval. */
    ghost predicate ReadsBack(a: nat, f: nat) {
      var t := Pow(10, f);
      if even then (num - dm) * t <= a * den <= (num + dp) * t
      else (num - dm) * t < a * den < (num + dp) * t
    }

    lemma ReadsBackIsInside(a: nat, f: nat)
      ensures ReadsBack(a, f) <==> Inside(a, f + 1)
    {
    }

    /** The upper end of the interval is at least 1, and 1 is inside if it is equal. */
    ghost predicate Leading() {
      if even then num + dp >= den else num + dp > den
    }

    /** With f digits behind the point, a / 10^f is also a candidate with j > f digits. */
    lemma MoreDigits(a: nat, f: nat, j: nat)
      requires f < j
      ensures ReadsBack(a, f) ==> Inside(a * Pow(10, j - 1 - f), j)
    {
      var t, u := Pow(10, f), Pow(10, j - 1 - f);
      PowAdd(10, f, j - 1 - f);
      MulAssoc(num - dm, t, u);
      MulAssoc(num + dp, t, u);
      MulRight(a, u, den);
      if ReadsBack(a, f) {
        Scale((num - dm) * t, a * den, u);
        Scale(a * den, (num + dp) * t, u);
      }
    }

    lemma Scale(x: int, y: int, u: int)
      requires u > 0
      ensures x <= y ==> x * u <= y * u
      ensures x < y ==> x * u < y * u
    {
    }

    /** If the interval holds a number below 1 then it also holds 1. */
    lemma OneInside(a: nat, f: nat)
      requires Valid() && Leading() && ReadsBack(a, f) && a < Pow(10, f)
      ensures Inside(1, 1)
    {
      var t := Pow(10, f);
      MulLess(a, t, den);
      if num - dm >= den {
        MulMono(den, num - dm, t);
      }
      assert Pow(10, 0) == 1;
    }

    /** No decimal with fewer digits reads back as the number, wherever its point is. */
    lemma NoShorterDecimal(n: int, k: nat, a: nat, f: nat, j: nat)
      requires Valid() && Leading() && Shortest(n, k)
      requires a < Pow(10, j) && 1 <= j < k
      ensures !ReadsBack(a, f)
    {
      if f < j {
        MoreDigits(a, f, j);
      } else if ReadsBack(a, f) {
        PowMono(10, j, f);
        OneInside(a, f);
      }
    }
  }
}
