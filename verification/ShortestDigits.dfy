/** `GenerateShortestDigits` of bignum-dtoa.cc. */
module ShortestDigits {
  import opened Powers
  import opened Limbs
  import opened Bignums
  import opened Decimals
  import opened ShortestSpec

  /** Values small enough that ten times as much still fits the digit buffer. */
  ghost predicate Roomy(v: int) {
    0 <= v && 10 * v < P(CAPACITY - 2)
  }

  lemma RoomyNumber(b: Bignum, bound: int)
    requires b.Norm() && b.Value() <= 10 * bound && Roomy(bound)
    ensures b.BigitLength() <= CAPACITY
    ensures b.Value() <= bound ==> b.Mantissa() * 10 < P(b.bigits.Length)
  {
    hide Val;
    hide P;
    b.LengthFits(CAPACITY - 2);
    PMono(CAPACITY - 2, b.bigits.Length);
    ValBound(b.bigits[..], b.used);
    MulMono(1, P(b.exponent), b.Mantissa());
  }

  method Times10(b: Bignum, ghost bound: int)
    requires b.Norm() && b.Value() <= bound && Roomy(bound)
    modifies b, b.bigits
    ensures b.Norm() && b.Value() == 10 * old(b.Value())
  {
    RoomyNumber(b, bound);
    b.Times10();
  }

  /** The two tests of one round of the loop. */
  method Rooms(numerator: Bignum, denominator: Bignum, deltaMinus: Bignum, deltaPlus: Bignum,
               isEven: bool, ghost t: Target)
    returns (inDeltaRoomMinus: bool, inDeltaRoomPlus: bool)
    requires numerator.Norm() && denominator.Norm() && deltaMinus.Norm() && deltaPlus.Norm()
    requires t.den == denominator.Value() && t.even == isEven
    ensures inDeltaRoomMinus == t.RoomBelow(numerator.Value(), deltaMinus.Value())
    ensures inDeltaRoomPlus == t.RoomAbove(numerator.Value(), deltaPlus.Value())
  {
    hide Val;
    hide P;
    var order := Bignum.Compare(numerator, deltaMinus);
    if isEven {
      inDeltaRoomMinus := order <= 0;
    } else {
      inDeltaRoomMinus := order < 0;
    }
    var sum := Bignum.PlusCompare(numerator, deltaPlus, denominator);
    if isEven {
      inDeltaRoomPlus := sum >= 0;
    } else {
      inDeltaRoomPlus := sum > 0;
    }
  }

  /** Whether the last digit must be rounded up, once it was decided to stop. */
  method RoundsUp(numerator: Bignum, denominator: Bignum, roomMinus: bool, roomPlus: bool, digit: uint16)
    returns (up: bool)
    requires numerator.Norm() && denominator.Norm() && (roomMinus || roomPlus)
    ensures up ==> roomPlus
    ensures up && roomMinus ==>
      2 * numerator.Value() > denominator.Value()
      || (2 * numerator.Value() == denominator.Value() && digit % 2 != 0)
    ensures !up ==> roomMinus
    ensures !up && roomPlus ==>
      2 * numerator.Value() < denominator.Value()
      || (2 * numerator.Value() == denominator.Value() && digit % 2 == 0)
  {
    hide Val;
    hide P;
    if roomMinus && roomPlus {
      var compare := Bignum.PlusCompare(numerator, numerator, denominator);
      if compare < 0 {
        up := false;
      } else if compare > 0 {
        up := true;
      } else {
        up := digit % 2 != 0;
      }
    } else {
      up := roomPlus;
    }
  }

  /** So many digits are enough: the interval is wider than a unit of the last one. */
  ghost predicate EnoughRoom(t: Target, size: nat) {
    size > 0 && t.den < (t.dm + t.dp) * Pow(10, size - 1)
  }

  lemma DigitFits(t: Target, size: nat, k: nat)
    requires t.Valid() && EnoughRoom(t, size)
    requires k > 0 ==> (t.dm + t.dp) * Pow(10, k - 1) <= t.den
    ensures k < size
  {
    if size <= k {
      PowMono(10, size - 1, k - 1);
      MulMono(Pow(10, size - 1), Pow(10, k - 1), t.dm + t.dp);
    }
  }

  /** Separate numbers, each with its own digits. */
  ghost predicate Separate(a: Bignum, b: Bignum, c: Bignum, d: Bignum)
    reads a, b, c, d
  {
    a.Apart(b) && a.Apart(c) && a.Apart(d) && b.Apart(c) && b.Apart(d) && c.Apart(d)
  }

  /** The digits are a shortest decimal that reads back as the number, and a closest one. */
  method GenerateShortestDigits(numerator: Bignum, denominator: Bignum, deltaMinus: Bignum, deltaPlus: Bignum,
                                isEven: bool, buffer: array<char>, ghost size: nat)
    returns (length: nat)
    requires numerator.Norm() && denominator.Norm() && deltaMinus.Norm() && deltaPlus.Norm()
    requires Separate(numerator, denominator, deltaMinus, deltaPlus)
    requires Roomy(denominator.Value())
    requires var t := Target(numerator.Value(), denominator.Value(), deltaMinus.Value(), deltaPlus.Value(), isEven);
      t.Valid() && EnoughRoom(t, size) && size <= buffer.Length
    modifies numerator, numerator.bigits, deltaMinus, deltaMinus.bigits, deltaPlus, deltaPlus.bigits, buffer
    ensures 0 < length <= size && AllDigits(buffer[..], length)
    ensures var t := old(Target(numerator.Value(), denominator.Value(), deltaMinus.Value(), deltaPlus.Value(), isEven));
      t.Shortest(Number(buffer[..], length), length)
  {
    hide Val;
    hide P;
    ghost var t := Target(numerator.Value(), denominator.Value(), deltaMinus.Value(), deltaPlus.Value(), isEven);
    var plus := deltaPlus;
    var same := Bignum.Compare(deltaMinus, deltaPlus);
    if same == 0 {
      plus := deltaMinus;
    }
    t.Start();
    EmptyNumber(buffer[..]);
    DigitFits(t, size, 0);
    hide Target.Generating;
    hide Target.Shortest;
    hide EnoughRoom;
    hide Number;
    hide Pow;
    hide Roomy;
    length := 0;
    var stop := false;
    while !stop
      invariant numerator.Norm() && denominator.Norm() && deltaMinus.Norm() && plus.Norm()
      invariant denominator.Value() == t.den
      invariant length <= size && AllDigits(buffer[..], length)
      invariant stop ==> length > 0 && t.Shortest(Number(buffer[..], length), length)
      invariant !stop ==> length < size
      invariant !stop ==>
        t.Generating(length, Number(buffer[..], length), numerator.Value(), deltaMinus.Value(), plus.Value())
      decreases if stop then 0 else 1, 10 * t.den - deltaMinus.Value()
    {
      stop := Round(numerator, denominator, deltaMinus, plus, isEven, buffer, length, t);
      length := length + 1;
      if !stop {
        DigitFits(t, size, length);
      }
    }
  }

  /** One round: one more digit, and either the end or the start of the next round. */
  method Round(numerator: Bignum, denominator: Bignum, deltaMinus: Bignum, deltaPlus: Bignum,
               isEven: bool, buffer: array<char>, length: nat, ghost t: Target)
    returns (stop: bool)
    requires numerator.Norm() && denominator.Norm() && deltaMinus.Norm() && deltaPlus.Norm()
    requires numerator.Apart(denominator) && numerator.Apart(deltaMinus) && numerator.Apart(deltaPlus)
    requires denominator.Apart(deltaMinus) && denominator.Apart(deltaPlus)
    requires deltaMinus == deltaPlus || deltaMinus.Apart(deltaPlus)
    requires t.Valid() && t.den == denominator.Value() && t.even == isEven && Roomy(t.den)
    requires length < buffer.Length && AllDigits(buffer[..], length)
    requires t.Generating(length, Number(buffer[..], length), numerator.Value(), deltaMinus.Value(), deltaPlus.Value())
    modifies numerator, numerator.bigits, deltaMinus, deltaMinus.bigits, deltaPlus, deltaPlus.bigits, buffer
    ensures numerator.Norm() && deltaMinus.Norm() && deltaPlus.Norm()
    ensures AllDigits(buffer[..], length + 1)
    ensures stop ==> t.Shortest(Number(buffer[..], length + 1), length + 1)
    ensures !stop ==>
      t.Generating(length + 1, Number(buffer[..], length + 1), numerator.Value(), deltaMinus.Value(), deltaPlus.Value())
    ensures !stop ==> deltaMinus.Value() == 10 * old(deltaMinus.Value()) && 0 < old(deltaMinus.Value()) < t.den
    ensures !stop ==> (t.dm + t.dp) * Pow(10, length) <= t.den
  {
    hide Val;
    hide P;
    hide Target.Generating;
    hide Target.Shortest;
    hide Target.Divided;
    hide Target.RoomBelow;
    hide Target.RoomAbove;
    hide Number;
    hide Pow;
    hide Roomy;
    ghost var n := Number(buffer[..], length);
    var digit := NextDigit(numerator, denominator, t, length, n, deltaMinus.Value(), deltaPlus.Value());
    PutDigit(buffer, length, digit);
    var roomMinus, roomPlus := Rooms(numerator, denominator, deltaMinus, deltaPlus, isEven, t);
    stop := roomMinus || roomPlus;
    if !stop {
      Enlarge(numerator, deltaMinus, deltaPlus, t.den, t, length, 10 * n + digit);
    } else {
      FinishDigits(numerator, denominator, roomMinus, roomPlus, buffer, length, digit, t, n,
                   deltaMinus.Value(), deltaPlus.Value());
    }
  }

  /** Rounds the last digit, up or down. */
  method FinishDigits(numerator: Bignum, denominator: Bignum, roomMinus: bool, roomPlus: bool,
                      buffer: array<char>, length: nat, digit: uint16,
                      ghost t: Target, ghost n: int, ghost minus: int, ghost plus: int)
    requires numerator.Norm() && denominator.Norm()
    requires t.Valid() && t.den == denominator.Value() && digit <= 9
    requires t.Divided(length, 10 * n + digit, numerator.Value(), minus, plus)
    requires roomMinus == t.RoomBelow(numerator.Value(), minus)
    requires roomPlus == t.RoomAbove(numerator.Value(), plus)
    requires roomMinus || roomPlus
    requires roomPlus ==> digit < 9
    requires length < buffer.Length && AllDigits(buffer[..], length + 1)
    requires Number(buffer[..], length + 1) == 10 * n + digit && Number(buffer[..], length) == n
    modifies buffer
    ensures AllDigits(buffer[..], length + 1)
    ensures t.Shortest(Number(buffer[..], length + 1), length + 1)
  {
    hide Val;
    hide P;
    hide Target.Shortest;
    hide Target.Divided;
    hide Target.RoomBelow;
    hide Target.RoomAbove;
    hide Number;
    ghost var r := numerator.Value();
    Parity(n, digit);
    var up := RoundsUp(numerator, denominator, roomMinus, roomPlus, digit);
    if up {
      t.StopAbove(length, 10 * n + digit, r, minus, plus);
      PutDigit(buffer, length, digit + 1);
    } else {
      t.StopBelow(length, 10 * n + digit, r, minus, plus);
    }
  }

  lemma Parity(n: int, digit: int)
    ensures (10 * n + digit) % 2 == digit % 2
  {
    QuotientAndRemainder(digit, 2);
    DivModUnique(10 * n + digit, 2, 5 * n + digit / 2, digit % 2);
  }

  /** Takes the next digit from the numerator. */
  method NextDigit(numerator: Bignum, denominator: Bignum, ghost t: Target, ghost k: nat, ghost n: int,
                   ghost minus: int, ghost plus: int)
    returns (digit: uint16)
    requires numerator.Norm() && denominator.Norm() && numerator.Apart(denominator)
    requires t.Valid() && t.den == denominator.Value() && Roomy(t.den)
    requires t.Generating(k, n, numerator.Value(), minus, plus)
    modifies numerator, numerator.bigits
    ensures numerator.Norm() && digit <= 9
    ensures t.Divided(k, 10 * n + digit, numerator.Value(), minus, plus)
    ensures t.RoomAbove(numerator.Value(), plus) ==> digit < 9
  {
    hide Val;
    hide P;
    hide Pow;
    hide Roomy;
    hide Target.Generating;
    hide Target.Divided;
    ghost var rest := numerator.Value();
    t.GeneratingBounds(k, n, rest, minus, plus);
    RoomyNumber(numerator, t.den);
    QuotientAndRemainder(rest, t.den);
    digit := numerator.DivideModuloIntBignum(denominator);
    t.Divide(k, n, rest, minus, plus, digit, numerator.Value());
  }

  /** Prepares the next round: ten times the remainder and the two distances, each number
      once even if the distances share one. */
  method Enlarge(numerator: Bignum, deltaMinus: Bignum, deltaPlus: Bignum, ghost den: int, ghost t: Target,
                 ghost k: nat, ghost n: int)
    requires numerator.Norm() && deltaMinus.Norm() && deltaPlus.Norm() && Roomy(den)
    requires numerator.Apart(deltaMinus) && numerator.Apart(deltaPlus)
    requires deltaMinus == deltaPlus || deltaMinus.Apart(deltaPlus)
    requires t.Valid() && t.den == den
    requires t.Divided(k, n, numerator.Value(), deltaMinus.Value(), deltaPlus.Value())
    requires !t.RoomBelow(numerator.Value(), deltaMinus.Value())
    requires !t.RoomAbove(numerator.Value(), deltaPlus.Value())
    modifies numerator, numerator.bigits, deltaMinus, deltaMinus.bigits, deltaPlus, deltaPlus.bigits
    ensures numerator.Norm() && deltaMinus.Norm() && deltaPlus.Norm()
    ensures t.Generating(k + 1, n, numerator.Value(), deltaMinus.Value(), deltaPlus.Value())
    ensures deltaMinus.Value() == 10 * old(deltaMinus.Value()) && 0 < old(deltaMinus.Value()) < den
    ensures (t.dm + t.dp) * Pow(10, k) <= den
  {
    hide Val;
    hide P;
    t.Continue(k, n, numerator.Value(), deltaMinus.Value(), deltaPlus.Value());
    assert 0 <= numerator.Value() < den && 0 < deltaMinus.Value() && 0 < deltaPlus.Value() <= den;
    assert (t.dm + t.dp) * Pow(10, k) <= den;
    hide *;
    Times10(numerator, den);
    Times10(deltaMinus, den);
    if deltaMinus != deltaPlus {
      Times10(deltaPlus, den);
    }
  }
}
