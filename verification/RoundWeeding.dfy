/** `RoundWeed` and `RoundWeedCounted` of fast-dtoa.cc: the last step of Grisu3, which
    rounds the digits towards the number and rejects what cannot be decided.

    All quantities are distances below the upper end of the unsafe interval, measured in
    the same fraction of a unit in the last place.
  */
module RoundWeeding {
  import opened Powers
  import opened Decimals

  function Abs(x: real): real {
    if x < 0.0 then -x else x
  }

  /** Another decimal of the same length, within the unsafe interval. */
  ghost predicate Candidate(c: int, rest: int, tenKappa: int, unsafe: int)
    requires tenKappa > 0
  {
    0 <= c <= unsafe && (c - rest) % tenKappa == 0
  }

  /** A point less than one unit from w. */
  ghost predicate NearW(x: real, distance: int, unit: int) {
    (distance - unit) as real < x < (distance + unit) as real
  }

  /** Whichever point near w the number really is, no other candidate is closer to it. */
  ghost predicate Closest(rest: int, tenKappa: int, unsafe: int, distance: int, unit: int)
    requires tenKappa > 0
  {
    forall c: int, x: real {:trigger Candidate(c, rest, tenKappa, unsafe), NearW(x, distance, unit)}
      | Candidate(c, rest, tenKappa, unsafe) && NearW(x, distance, unit) ::
      Abs(rest as real - x) <= Abs(c as real - x)
  }

  /** A candidate is at least as close as its two neighbours, hence as all others. */
  lemma NeighboursDecide(rest: int, tenKappa: int, unsafe: int, distance: int, unit: int)
    requires tenKappa > 0
    requires rest >= tenKappa ==> 2 * rest - tenKappa <= 2 * (distance - unit)
    requires rest + tenKappa <= unsafe ==> 2 * rest + tenKappa >= 2 * (distance + unit)
    ensures Closest(rest, tenKappa, unsafe, distance, unit)
  {
    forall c: int, x: real {:trigger Candidate(c, rest, tenKappa, unsafe), NearW(x, distance, unit)}
      | Candidate(c, rest, tenKappa, unsafe) && NearW(x, distance, unit)
      ensures Abs(rest as real - x) <= Abs(c as real - x)
    {
      OtherCandidate(c, rest, tenKappa);
    }
  }

  /** Conversely, a neighbour that is too near is closer to some point. */
  lemma ClosestDecides(rest: int, tenKappa: int, unsafe: int, distance: int, unit: int)
    requires tenKappa > 0 && unit > 0 && 0 <= rest <= unsafe && Closest(rest, tenKappa, unsafe, distance, unit)
    ensures rest >= tenKappa ==> 2 * rest - tenKappa <= 2 * (distance - unit)
    ensures rest + tenKappa <= unsafe ==> 2 * rest + tenKappa >= 2 * (distance + unit)
  {
    if rest >= tenKappa && 2 * rest - tenKappa > 2 * (distance - unit) {
      var middle: real := rest as real - tenKappa as real / 2.0;
      var high: real := if middle < (distance + unit) as real then middle else (distance + unit) as real;
      NotCloser(rest, rest - tenKappa, tenKappa, unsafe, distance, unit, ((distance - unit) as real + high) / 2.0);
    }
    if rest + tenKappa <= unsafe && 2 * rest + tenKappa < 2 * (distance + unit) {
      var middle: real := rest as real + tenKappa as real / 2.0;
      var low: real := if middle > (distance - unit) as real then middle else (distance - unit) as real;
      NotCloser(rest, rest + tenKappa, tenKappa, unsafe, distance, unit, (low + (distance + unit) as real) / 2.0);
    }
  }

  lemma NotCloser(rest: int, c: int, tenKappa: int, unsafe: int, distance: int, unit: int, x: real)
    requires tenKappa > 0 && Closest(rest, tenKappa, unsafe, distance, unit)
    requires 0 <= c <= unsafe && (c == rest - tenKappa || c == rest + tenKappa) && NearW(x, distance, unit)
    ensures Abs(rest as real - x) <= Abs(c as real - x)
  {
    NeighbourIsCandidate(c, rest, tenKappa, unsafe);
    hide Candidate, Abs;
  }

  lemma NeighbourIsCandidate(c: int, rest: int, tenKappa: int, unsafe: int)
    requires tenKappa > 0 && 0 <= c <= unsafe && (c == rest - tenKappa || c == rest + tenKappa)
    ensures Candidate(c, rest, tenKappa, unsafe)
  {
    if c < rest {
      DivModUnique(c - rest, tenKappa, -1, 0);
    } else {
      DivModUnique(c - rest, tenKappa, 1, 0);
    }
  }

  /** A candidate that is certainly inside the interval and certainly closest. The lower
      margin is four units. */
  ghost predicate Decided(c: int, rest: int, tenKappa: int, unsafe: int, distance: int, unit: int)
    requires tenKappa > 0
  {
    Candidate(c, rest, tenKappa, unsafe) && 2 * unit <= c <= unsafe - 4 * unit &&
    Closest(c, tenKappa, unsafe, distance, unit)
  }

  ghost predicate CanDecide(rest: int, tenKappa: int, unsafe: int, distance: int, unit: int)
    requires tenKappa > 0
  {
    exists c: int :: Decided(c, rest, tenKappa, unsafe, distance, unit)
  }

  /** Decrementing does not stop before a closest candidate, nor go beyond it. */
  lemma StopsThere(c: int, restIn: int, j: int, r: int, tenKappa: int, unsafe: int, distance: int, unit: int)
    requires tenKappa > 0 && unit > 0 && 0 <= restIn < tenKappa && 0 <= j && r == restIn + j * tenKappa
    requires Decided(c, restIn, tenKappa, unsafe, distance, unit)
    requires j > 0 ==> 2 * r - tenKappa <= 2 * (distance - unit)
    requires r <= unsafe
    requires r >= distance - unit || r + tenKappa > unsafe || 2 * r + tenKappa > 2 * (distance - unit)
    ensures r == c
  {
    hide Closest;
    ClosestDecides(c, tenKappa, unsafe, distance, unit);
    SameSteps(c, restIn, j, r, tenKappa);
    OtherCandidate(c, r, tenKappa);
    if j == 0 {
      assert r == restIn;
    }
  }

  lemma SameSteps(c: int, restIn: int, j: int, r: int, tenKappa: int)
    requires tenKappa > 0 && (c - restIn) % tenKappa == 0 && r == restIn + j * tenKappa
    ensures (c - r) % tenKappa == 0
  {
    var i := (c - restIn) / tenKappa;
    assert c - restIn == i * tenKappa;
    assert c - r == (i - j) * tenKappa;
    DivModUnique(c - r, tenKappa, i - j, 0);
  }

  lemma OtherCandidate(c: int, rest: int, tenKappa: int)
    requires tenKappa > 0 && (c - rest) % tenKappa == 0
    ensures c == rest || c <= rest - tenKappa || c >= rest + tenKappa
  {
    var q := (c - rest) / tenKappa;
    assert c - rest == q * tenKappa;
    if q >= 1 {
      MulMono(1, q, tenKappa);
    } else if q <= -1 {
      MulMono(q, -1, tenKappa);
    }
  }

  /** While there is room below, the last digit is not yet zero. */
  lemma CanDecrement(restIn: int, j: int, d: int, tenKappa: int, unsafe: int)
    requires unsafe <= restIn + d * tenKappa && tenKappa > 0
    requires restIn + j * tenKappa + tenKappa <= unsafe
    ensures j < d && (j + 1) * tenKappa == j * tenKappa + tenKappa
  {
    if d <= j {
      MulMono(d, j, tenKappa);
    }
  }

  /** The guard of the loop: the next decimal is still inside, and above the distance or not
      farther from it. In this order no sum or difference leaves 64 bits. */
  predicate AnotherIsCloser(r: uint64, tenKappa: uint64, unsafeInterval: uint64, distance: uint64)
    requires r <= unsafeInterval
  {
    if r < distance then
      var room: uint64 := unsafeInterval - r;
      if room >= tenKappa then
        var next: uint64 := r + tenKappa;
        if next < distance then true
        else
          var before: uint64, after: uint64 := distance - r, next - distance;
          before >= after
      else false
    else false
  }

  /** The test behind the loop, which excludes equal distances. */
  predicate AnotherMayBeCloser(r: uint64, tenKappa: uint64, unsafeInterval: uint64, distance: uint64)
    requires r <= unsafeInterval
  {
    if r < distance then
      var room: uint64 := unsafeInterval - r;
      if room >= tenKappa then
        var next: uint64 := r + tenKappa;
        if next < distance then true
        else
          var before: uint64, after: uint64 := distance - r, next - distance;
          before > after
      else false
    else false
  }

  /** Decrements the last digit while that brings the decimal closer to w, then checks
      that it is certainly a closest one and certainly inside the interval. Succeeds
      whenever there is such a decimal. */
  method RoundWeed(buffer: array<char>, length: nat, distanceTooHighW: uint64, unsafeInterval: uint64,
                   restIn: uint64, tenKappa: uint64, unit: uint64)
    returns (ok: bool, ghost rest: uint64)
    requires 0 < length <= buffer.Length && AllDigits(buffer[..], length)
    requires 0 < unit <= distanceTooHighW && distanceTooHighW + unit <= unsafeInterval
    requires 4 * unit <= unsafeInterval && restIn <= unsafeInterval && restIn < tenKappa
    requires unsafeInterval <= restIn + DigitOf(buffer[length - 1]) * tenKappa
    modifies buffer
    ensures AllDigits(buffer[..], length)
    ensures rest - restIn == (Number(old(buffer[..]), length) - Number(buffer[..], length)) * tenKappa
    ensures rest <= unsafeInterval
    ensures Number(buffer[..], length - 1) == Number(old(buffer[..]), length - 1)
    ensures ok ==> 2 * unit <= rest <= unsafeInterval - 4 * unit
    ensures ok ==> Closest(rest, tenKappa, unsafeInterval, distanceTooHighW, unit)
    ensures ok <==> CanDecide(restIn, tenKappa, unsafeInterval, distanceTooHighW, unit)
  {
    hide Number, Closest, CanDecide;
    var smallDistance: uint64 := distanceTooHighW - unit;
    var bigDistance: uint64 := distanceTooHighW + unit;
    var r: uint64 := restIn;
    ghost var s, d, j := buffer[..], DigitOf(buffer[length - 1]), 0;
    while AnotherIsCloser(r, tenKappa, unsafeInterval, smallDistance)
      invariant r <= unsafeInterval && 0 <= j <= d && r == restIn + j * tenKappa
      invariant IsDigit(buffer[length - 1]) && DigitOf(buffer[length - 1]) == d - j
      invariant forall i :: 0 <= i < length - 1 ==> buffer[i] == s[i]
      invariant j > 0 ==> 2 * r - tenKappa <= 2 * smallDistance
      decreases unsafeInterval - r
    {
      CanDecrement(restIn, j, d, tenKappa, unsafeInterval);
      buffer[length - 1] := (buffer[length - 1] as int - 1) as char;
      r := r + tenKappa;
      j := j + 1;
    }
    NumberLastDigit(s, buffer[..], length);
    NumberFrame(s, buffer[..], length - 1);
    rest := r;
    OnlyOne(restIn, j, r, tenKappa, unsafeInterval, distanceTooHighW, unit);
    if AnotherMayBeCloser(r, tenKappa, unsafeInterval, bigDistance) {
      return false, rest;
    }
    NeighboursDecide(r, tenKappa, unsafeInterval, distanceTooHighW, unit);
    var two: uint64 := 2 * unit;
    var four: uint64 := 4 * unit;
    var end: uint64 := unsafeInterval - four;
    ok := two <= r && r <= end;
    if ok {
      ThisOne(restIn, j, r, tenKappa, unsafeInterval, distanceTooHighW, unit);
    }
  }

  lemma ThisOne(restIn: int, j: int, r: int, tenKappa: int, unsafe: int, distance: int, unit: int)
    requires tenKappa > 0 && unit > 0 && r == restIn + j * tenKappa && 2 * unit <= r <= unsafe - 4 * unit
    requires Closest(r, tenKappa, unsafe, distance, unit)
    ensures CanDecide(restIn, tenKappa, unsafe, distance, unit)
  {
    hide Closest;
    DivModUnique(r - restIn, tenKappa, j, 0);
    assert Decided(r, restIn, tenKappa, unsafe, distance, unit);
  }

  /** Where decrementing stops is the only candidate that can be decided. */
  lemma OnlyOne(restIn: int, j: int, r: int, tenKappa: int, unsafe: int, distance: int, unit: int)
    requires tenKappa > 0 && unit > 0 && 0 <= restIn < tenKappa && 0 <= j && r == restIn + j * tenKappa
    requires j > 0 ==> 2 * r - tenKappa <= 2 * (distance - unit)
    requires r <= unsafe
    requires r >= distance - unit || r + tenKappa > unsafe || 2 * r + tenKappa > 2 * (distance - unit)
    ensures CanDecide(restIn, tenKappa, unsafe, distance, unit) ==>
      2 * unit <= r <= unsafe - 4 * unit && (r + tenKappa <= unsafe ==> 2 * r + tenKappa >= 2 * (distance + unit))
  {
    hide Closest;
    forall c: int | Decided(c, restIn, tenKappa, unsafe, distance, unit)
      ensures 2 * unit <= r <= unsafe - 4 * unit && (r + tenKappa <= unsafe ==> 2 * r + tenKappa >= 2 * (distance + unit))
    {
      StopsThere(c, restIn, j, r, tenKappa, unsafe, distance, unit);
      ClosestDecides(c, tenKappa, unsafe, distance, unit);
    }
  }

  lemma NumberLastDigit(s: seq<char>, t: seq<char>, n: nat)
    requires 0 < n <= |s| == |t|
    requires forall i :: 0 <= i < n - 1 ==> s[i] == t[i]
    ensures Number(t, n) - Number(s, n) == DigitOf(t[n - 1]) - DigitOf(s[n - 1])
  {
    NumberFrame(s, t, n - 1);
  }

  /** Every point less than one unit from the remainder is within half of 10^kappa of the
      digits, rounded as decided. */
  ghost predicate RoundsWell(rest: int, tenKappa: int, unit: int, up: bool) {
    forall x: real {:trigger NearW(x, rest, unit)} | NearW(x, rest, unit) ::
      Abs((if up then tenKappa else 0) as real - x) <= tenKappa as real / 2.0
  }

  /** Rounding down or up is right exactly when the whole range is on that side. */
  lemma RoundsWellIff(rest: int, tenKappa: int, unit: int)
    requires 0 <= rest < tenKappa && unit > 0 && 2 * unit < tenKappa
    ensures RoundsWell(rest, tenKappa, unit, false) <==> 2 * (rest + unit) <= tenKappa
    ensures RoundsWell(rest, tenKappa, unit, true) <==> 2 * (rest - unit) >= tenKappa
  {
    var half: real := tenKappa as real / 2.0;
    if 2 * (rest + unit) > tenKappa {
      var low: real := if (rest - unit) as real > half then (rest - unit) as real else half;
      var x := (low + (rest + unit) as real) / 2.0;
      assert NearW(x, rest, unit) && x > half;
    }
    if 2 * (rest - unit) < tenKappa {
      var high: real := if (rest + unit) as real < half then (rest + unit) as real else half;
      var x := ((rest - unit) as real + high) / 2.0;
      assert NearW(x, rest, unit) && x < half;
    }
  }

  /** The test for rounding down; no step leaves 64 bits. */
  predicate RoundsDown(rest: uint64, tenKappa: uint64, unit: uint64)
    requires rest < tenKappa && 2 * unit < tenKappa
  {
    var above: uint64 := tenKappa - rest;
    if above > rest then
      var twiceRest: uint64, twiceUnit: uint64 := 2 * rest, 2 * unit;
      var left: uint64 := tenKappa - twiceRest;
      left >= twiceUnit
    else false
  }

  /** The test for rounding up. */
  predicate RoundsUp(rest: uint64, tenKappa: uint64, unit: uint64)
    requires rest < tenKappa
  {
    if rest > unit then
      var below: uint64 := rest - unit;
      var above: uint64 := tenKappa - below;
      above <= below
    else false
  }

  /** Rounds to the requested number of digits, if the imprecision of one unit permits. A
      carry past the first digit shifts the digits and increases kappa. */
  method RoundWeedCounted(buffer: array<char>, length: nat, rest: uint64, tenKappa: uint64, unit: uint64,
                          kappaIn: int)
    returns (ok: bool, kappa: int, ghost up: bool)
    requires 0 < length <= buffer.Length && AllDigits(buffer[..], length)
    requires rest < tenKappa && unit > 0
    modifies buffer
    ensures AllDigits(buffer[..], length) && kappaIn <= kappa <= kappaIn + 1
    ensures ok ==> RoundsWell(rest, tenKappa, unit, up)
    ensures ok <==> 2 * unit < tenKappa && exists u :: RoundsWell(rest, tenKappa, unit, u)
    ensures ok ==> (Number(buffer[..], length) * Pow(10, kappa - kappaIn)
                    == Number(old(buffer[..]), length) + (if up then 1 else 0))
    ensures kappa > kappaIn ==> Number(buffer[..], length) == Pow(10, length - 1)
  {
    hide Number;
    kappa, ok, up := kappaIn, false, false;
    PowTen();
    if unit >= tenKappa {
      return;
    }
    var aboveUnit: uint64 := tenKappa - unit;
    if aboveUnit <= unit {
      return;
    }
    RoundsWellIff(rest, tenKappa, unit);
    if RoundsDown(rest, tenKappa, unit) {
      ok := true;
      return;
    }
    if RoundsUp(rest, tenKappa, unit) {
      ghost var s := buffer[..];
      buffer[length - 1] := (buffer[length - 1] as int + 1) as char;
      NumberLastDigit(s, buffer[..], length);
      var pastTop := PropagateCarry(buffer, length);
      if pastTop {
        kappa := kappa + 1;
      }
      ok, up := true, true;
    }
  }

  lemma PowTen()
    ensures Pow(10, 0) == 1 && Pow(10, 1) == 10
  {
  }
}
