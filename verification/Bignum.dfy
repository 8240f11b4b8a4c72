/** The arbitrary-precision natural numbers of double-conversion: a fixed buffer of
    28-bit digits, a count of used digits and a hidden exponent.
  */
module Bignums {
  import opened Powers
  import opened Limbs
  import opened LimbSteps
  import opened Comba
  import opened PowerPhase
  import opened Decimals

  // kBigitCapacity == kMaxSignificantBits / kBigitSize == 3584 / 28
  const CAPACITY: nat := 128

  class Bignum {
    const bigits: array<int>
    var used: nat
    var exponent: nat

    ghost predicate Valid()
      reads this, bigits
    {
      && bigits.Length == CAPACITY
      && used <= CAPACITY
      && Digits(bigits[..], used)
      && (forall i :: used <= i < CAPACITY ==> bigits[i] == 0)
    }

    ghost predicate IsClamped()
      requires Valid()
      reads this, bigits
    {
      used == 0 || bigits[used - 1] != 0
    }

    /** The representation invariant between operations. */
    ghost predicate Norm()
      reads this, bigits
    {
      Valid() && IsClamped() && (used == 0 ==> exponent == 0)
    }

    ghost function Mantissa(): nat
      requires Valid()
      reads this, bigits
    {
      ValBound(bigits[..], used);
      Val(bigits[..], used)
    }

    ghost function Value(): nat
      requires Valid()
      reads this, bigits
    {
      Mantissa() * P(exponent)
    }

    ghost predicate Apart(other: Bignum)
      reads this, other
    {
      this != other && bigits != other.bigits
    }

    function BigitLength(): nat
      reads this
    {
      used + exponent
    }

    /** A number with digits has a top digit. */
    lemma NotEmpty()
      requires Norm() && BigitLength() > 0
      ensures used > 0 && P(BigitLength() - 1) <= Value()
    {
      LengthBounds();
    }

    constructor ()
      ensures Norm() && Value() == 0 && fresh(bigits)
    {
      bigits := new int[CAPACITY](i => 0);
      used := 0;
      exponent := 0;
    }

    /** The length of a clamped number says between which powers of the base it lies. */
    lemma LengthBounds()
      requires Norm()
      ensures 0 <= Value() < P(BigitLength())
      ensures used > 0 ==> P(BigitLength() - 1) <= Value()
      ensures used == 0 <==> Value() == 0
    {
      hide P;
      ValBound(bigits[..], used);
      PAdd(used, exponent);
      MulLess(Mantissa(), P(used), P(exponent));
      if used > 0 {
        ValTop(bigits[..], used);
        PAdd(used - 1, exponent);
        MulMono(P(used - 1), Mantissa(), P(exponent));
      }
    }

    lemma EmptyMantissa()
      requires Valid() && used == 0
      ensures Mantissa() == 0
    {
    }

    lemma LengthFits(m: nat)
      requires Norm() && Value() < P(m)
      ensures BigitLength() <= m
    {
      LengthBounds();
      if used > 0 {
        POrder(BigitLength() - 1, m);
      }
    }

    method Zero()
      requires Valid()
      modifies this, bigits
      ensures Norm() && Mantissa() == Value() == 0 && used == 0 && exponent == 0
    {
      for i := 0 to used
        modifies bigits
        invariant forall j :: 0 <= j < i ==> bigits[j] == 0
        invariant forall j :: i <= j < CAPACITY ==> bigits[j] == old(bigits[j])
      {
        bigits[i] := 0;
      }
      used := 0;
      exponent := 0;
    }

    method Clamp()
      requires Valid()
      modifies this
      ensures Norm() && Value() == old(Value())
      ensures used <= old(used) && exponent <= old(exponent)
      ensures used > 0 ==> exponent == old(exponent)
    {
      while used > 0 && bigits[used - 1] == 0
        invariant Valid() && used <= old(used) && exponent == old(exponent)
        invariant Mantissa() == old(Mantissa())
      {
        used := used - 1;
      }
      if used == 0 {
        exponent := 0;
      }
    }

    method AssignUInt16(value: uint16)
      requires Valid()
      modifies this, bigits
      ensures Norm() && Value() == value && exponent == 0 && used <= 1
    {
      Zero();
      if value == 0 {
        return;
      }
      bigits[0] := value;
      used := 1;
      assert Val(bigits[..], 0) == 0;
    }

    method AssignUInt64(value: uint64)
      requires Valid()
      modifies this, bigits
      ensures Norm() && Value() == value && exponent == 0 && used <= 3
    {
      hide Val, P;
      Zero();
      if value == 0 {
        return;
      }
      var rest: uint64 := value;
      NoneYet(bigits[..], value);
      for i := 0 to 3
        modifies bigits
        invariant used == 0 && exponent == 0 && bigits.Length == CAPACITY
        invariant Digits(bigits[..], i)
        invariant forall j :: i <= j < CAPACITY ==> bigits[j] == 0
        invariant Val(bigits[..], i) + rest * P(i) == value
      {
        ghost var s := bigits[..];
        var d := rest % BASE;
        bigits[i] := d;
        CarryStep(s, bigits[..], i, rest, rest / BASE, d, 0);
        rest := rest / BASE;
      }
      ThreeDigits(bigits[..], rest, value);
      used := 3;
      Clamp();
    }

    method AssignBignum(other: Bignum)
      requires Valid() && other.Norm() && Apart(other)
      modifies this, bigits
      ensures Norm() && Value() == other.Value()
    {
      hide Val;
      hide P;
      exponent := other.exponent;
      for i := 0 to other.used
        modifies bigits
        invariant forall j :: 0 <= j < i ==> bigits[j] == other.bigits[j]
        invariant forall j :: i <= j < CAPACITY ==> bigits[j] == old(bigits[j])
      {
        bigits[i] := other.bigits[i];
      }
      var k := other.used;
      while k < used
        modifies bigits
        invariant other.used <= k && (k <= used || k == other.used)
        invariant bigits.Length == CAPACITY
        invariant forall j :: 0 <= j < other.used ==> bigits[j] == other.bigits[j]
        invariant forall j :: other.used <= j < k ==> bigits[j] == 0
        invariant forall j :: k <= j && used <= j < CAPACITY ==> bigits[j] == 0
      {
        bigits[k] := 0;
        k := k + 1;
      }
      used := other.used;
      ValFrame(bigits[..], other.bigits[..], used);
    }
 
    method CopyUp(zeros: nat)
      requires bigits.Length == CAPACITY && used + zeros <= CAPACITY
      requires forall j :: used <= j < CAPACITY ==> bigits[j] == 0
      modifies bigits
      ensures forall j :: 0 <= j < used ==> bigits[j + zeros] == old(bigits[j])
      ensures forall j :: used + zeros <= j < CAPACITY ==> bigits[j] == 0
    {
      ghost var s := bigits[..];
      var i: nat := used;
      while i > 0
        invariant i <= used
        invariant CopiedUp(bigits[..], s, i, used, zeros)
      {
        ghost var t := bigits[..];
        i := i - 1;
        CopyOne(t, s, i, used, zeros);
        bigits[i + zeros] := bigits[i];
        assert bigits[..] == t[i + zeros := t[i]];
      }
    }

    /** The digits from i on are at their new places, those below at the old ones. */
    static ghost predicate CopiedUp(t: seq<int>, s: seq<int>, i: nat, n: nat, zeros: nat) {
      i <= n && n + zeros <= |t| == |s| &&
      (forall j :: i <= j < n ==> t[j + zeros] == s[j]) && (forall j :: 0 <= j < i ==> t[j] == s[j]) &&
      (forall j :: n + zeros <= j < |t| ==> t[j] == 0)
    }

    static lemma CopyOne(t: seq<int>, s: seq<int>, i: nat, n: nat, zeros: nat)
      requires i < n && CopiedUp(t, s, i + 1, n, zeros)
      ensures CopiedUp(t[i + zeros := t[i]], s, i, n, zeros)
    {
    }

    /** Moves the used digits up by `zeros` places and clears the places below. */
    method MoveUp(zeros: nat)
      requires Valid() && used + zeros <= CAPACITY
      modifies bigits
      ensures forall j :: 0 <= j < zeros ==> bigits[j] == 0
      ensures forall j :: 0 <= j < used ==> bigits[j + zeros] == old(bigits[j])
      ensures forall j :: used + zeros <= j < CAPACITY ==> bigits[j] == 0
    {
      CopyUp(zeros);
      ghost var s := bigits[..];
      for k := 0 to zeros
        invariant forall j :: 0 <= j < k ==> bigits[j] == 0
        invariant forall j :: zeros <= j < CAPACITY ==> bigits[j] == s[j]
      {
        bigits[k] := 0;
      }
    }

    /** Trades hidden zero digits for explicit ones until the exponent is no larger
        than that of the other number. */
    method Align(other: Bignum)
      requires Norm()
      requires exponent > other.exponent ==> used + (exponent - other.exponent) <= CAPACITY
      modifies this, bigits
      ensures Valid() && IsClamped() && Value() == old(Value())
      ensures exponent == if old(exponent) > other.exponent then other.exponent else old(exponent)
      ensures BigitLength() == old(BigitLength())
    {
      if exponent > other.exponent {
        var zeros := exponent - other.exponent;
        ghost var s, n := bigits[..], used;
        MoveUp(zeros);
        used := used + zeros;
        exponent := exponent - zeros;
        ShiftedDigits(s, bigits[..], n, zeros, exponent);
      }
    }

    /** Adds the digits of `other`, moved up by k places, carrying as far as needed.
        Returns the place after the last one written. */
    method AddDigits(other: Bignum, k: nat) returns (pos: nat)
      requires Valid() && other.Valid() && Apart(other)
      requires used < CAPACITY && k + other.used < CAPACITY
      modifies bigits
      ensures k + other.used <= pos <= CAPACITY
      ensures pos > used ==> pos == k + other.used || bigits[pos - 1] != 0
      ensures Digits(bigits[..], CAPACITY)
      ensures forall j :: pos <= j < CAPACITY ==> bigits[j] == old(bigits[j])
      ensures Difference(bigits[..], pos, 0, old(bigits[..]), ScaledVal(other.bigits[..], -1, k, other.used))
    {
      hide Val;
      hide P;
      ghost var a, b := bigits[..], other.bigits[..];
      DifferenceStart(a, b, k, -1);
      hide Difference;
      hide ScaledVal;
      var carry: uint32 := 0;
      pos := k;
      for i := 0 to other.used
        invariant pos == k + i && carry <= 1
        invariant Digits(bigits[..], CAPACITY)
        invariant forall j :: pos <= j < CAPACITY ==> bigits[j] == a[j]
        invariant Difference(bigits[..], pos, 0 - carry, a, ScaledVal(b, -1, k, i))
      {
        var sum: uint32 := bigits[pos] + other.bigits[i] + carry;
        ghost var s := bigits[..];
        bigits[pos] := sum % BASE;
        SubColumn(s, bigits[..], a, b, i, k, -1, 0 - carry, 0 - sum / BASE, sum % BASE);
        carry := sum / BASE;
        pos := pos + 1;
      }
      ghost var x := ScaledVal(b, -1, k, other.used);
      while carry != 0
        invariant carry <= 1 && k + other.used <= pos <= CAPACITY
        invariant Digits(bigits[..], CAPACITY)
        invariant forall j :: pos <= j < CAPACITY ==> bigits[j] == a[j]
        invariant Difference(bigits[..], pos, 0 - carry, a, x)
        invariant pos == k + other.used || pos <= used || (carry == 0 && bigits[pos - 1] != 0)
        decreases carry, CAPACITY - pos
      {
        var sum: uint32 := bigits[pos] + carry;
        ghost var s := bigits[..];
        bigits[pos] := sum % BASE;
        SubStep(s, bigits[..], a, pos, 0 - carry, 0 - sum / BASE, sum % BASE, x, 0);
        carry := sum / BASE;
        pos := pos + 1;
      }
    }

    method AddBignum(other: Bignum)
      requires Norm() && other.Norm() && Apart(other)
      requires 1 + Max(BigitLength(), other.BigitLength()) - Min(exponent, other.exponent) <= CAPACITY
      modifies this, bigits
      ensures Norm() && Value() == old(Value()) + other.Value()
      ensures exponent <= old(exponent)
    {
      hide Val;
      hide P;
      Align(other);
      ghost var a, n := bigits[..], used;
      var k := other.exponent - exponent;
      var pos := AddDigits(other, k);
      used := Max(pos, used);
      ScaledValIs(other.bigits[..], -1, k, other.used);
      AddedDigits(a, bigits[..], other.bigits[..], n, other.used, pos, k, exponent);
    }

    /** First loop of `SubtractBignum`: subtracts the digits of `other`, moved up by k
        places. The 32-bit differences wrap around and their top bit is the borrow. */
    method SubtractLow(other: Bignum, k: nat) returns (borrow: uint32)
      requires Valid() && other.Valid() && Apart(other) && k + other.used <= used
      modifies bigits
      ensures Valid() && borrow <= 1
      ensures forall j :: k + other.used <= j < used ==> bigits[j] == old(bigits[j])
      ensures Difference(bigits[..], k + other.used, borrow, old(bigits[..]),
                         ScaledVal(other.bigits[..], 1, k, other.used))
    {
      ghost var a, b := bigits[..], other.bigits[..];
      DifferenceStart(a, b, k, 1);
      hide Difference;
      hide ScaledVal;
      borrow := 0;
      for i := 0 to other.used
        invariant borrow <= 1 && Valid()
        invariant forall j :: k + i <= j < CAPACITY ==> bigits[j] == a[j]
        invariant Difference(bigits[..], k + i, borrow, a, ScaledVal(b, 1, k, i))
      {
        var difference := Wrap32(bigits[i + k] - other.bigits[i] - borrow);
        BorrowBit(bigits[i + k], other.bigits[i] + borrow);
        ghost var s := bigits[..];
        bigits[i + k] := difference % BASE;
        SubColumn(s, bigits[..], a, b, i, k, 1, borrow, difference / 0x8000_0000, difference % BASE);
        borrow := difference / 0x8000_0000;
      }
    }

    /** One digit of `SubtractTimes`: the 64-bit product and the 32-bit difference. */
    static method SubtractDigitTimes(x: uint32, factor: uint32, y: uint32, borrow: uint32)
      returns (digit: uint32, borrow': uint32)
      requires x < BASE && y < BASE && 0 < factor < BASE && borrow <= factor
      ensures digit < BASE && borrow' <= factor
      ensures digit - borrow' * BASE == x - factor * y - borrow
    {
      MulMono(y, BASE - 1, factor);
      MulMono(0, y, factor);
      var product: uint64 := factor * y;
      digit, borrow' := SubtractProduct(x, factor, product, borrow);
    }

    static method SubtractProduct(x: uint32, factor: uint32, product: uint64, borrow: uint32)
      returns (digit: uint32, borrow': uint32)
      requires x < BASE && product <= (BASE - 1) * factor && 0 < factor < BASE && borrow <= factor
      ensures digit < BASE && borrow' <= factor
      ensures digit - borrow' * BASE == x - product - borrow
    {
      var remove: uint64 := borrow + product;
      var difference := Wrap32(x - remove % BASE);
      BorrowBit(x, remove % BASE);
      digit := difference % BASE;
      borrow' := difference / 0x8000_0000 + remove / BASE;
    }

    /** First loop of `SubtractTimes`. */
    method SubtractTimesLow(other: Bignum, factor: uint32, k: nat) returns (borrow: uint32)
      requires Valid() && other.Valid() && Apart(other) && k + other.used <= used
      requires 0 < factor < BASE
      modifies bigits
      ensures Valid() && borrow <= factor
      ensures forall j :: k + other.used <= j < used ==> bigits[j] == old(bigits[j])
      ensures Difference(bigits[..], k + other.used, borrow, old(bigits[..]),
                         ScaledVal(other.bigits[..], factor, k, other.used))
    {
      ghost var a, b := bigits[..], other.bigits[..];
      DifferenceStart(a, b, k, factor);
      hide Difference;
      hide ScaledVal;
      borrow := 0;
      for i := 0 to other.used
        invariant borrow <= factor && Valid()
        invariant forall j :: k + i <= j < CAPACITY ==> bigits[j] == a[j]
        invariant Difference(bigits[..], k + i, borrow, a, ScaledVal(b, factor, k, i))
      {
        var digit, borrow' := SubtractDigitTimes(bigits[i + k], factor, other.bigits[i], borrow);
        ghost var s := bigits[..];
        bigits[i + k] := digit;
        SubColumn(s, bigits[..], a, b, i, k, factor, borrow, borrow', digit);
        borrow := borrow';
      }
    }

    /** A multiple that can be subtracted has no digit above the top one. */
    lemma SubtrahendFits(other: Bignum, factor: int)
      requires Norm() && other.Norm() && factor >= 1
      requires factor * other.Value() <= Value()
      ensures other.BigitLength() <= BigitLength()
    {
      LengthBounds();
      other.LengthBounds();
      MulMono(1, factor, other.Value());
      if other.used > 0 {
        POrder(other.BigitLength() - 1, BigitLength());
      }
    }

    /** Second loop of `SubtractBignum`: lets the borrow run through the digits above. */
    method SubtractBorrow(start: nat, borrowIn: uint32, ghost a: seq<int>, ghost x: int)
      requires Valid() && start <= used && borrowIn <= 1 && |a| == CAPACITY
      requires forall j :: start <= j < used ==> bigits[j] == a[j]
      requires Difference(bigits[..], start, borrowIn, a, x) && x <= Val(a, used)
      modifies bigits
      ensures Valid() && Mantissa() == Val(a, used) - x
    {
      hide Val;
      hide P;
      hide Difference;
      var borrow: uint32, i: nat := borrowIn, start;
      while borrow != 0
        invariant borrow <= 1 && start <= i <= used && Valid()
        invariant forall j :: i <= j < used ==> bigits[j] == a[j]
        invariant Difference(bigits[..], i, borrow, a, x)
        decreases used - i, borrow
      {
        BorrowFits(bigits[..], a, i, used, borrow, x);
        var difference := Wrap32(bigits[i] - borrow);
        BorrowBit(bigits[i], borrow);
        ghost var s := bigits[..];
        bigits[i] := difference % BASE;
        SubStep(s, bigits[..], a, i, borrow, difference / 0x8000_0000, difference % BASE, x, 0);
        borrow := difference / 0x8000_0000;
        i := i + 1;
      }
      DifferenceEnd(bigits[..], i, used, a, x);
    }

    method SubtractBignum(other: Bignum)
      requires Norm() && other.Norm() && Apart(other)
      requires other.Value() <= Value()
      requires BigitLength() - Min(exponent, other.exponent) <= CAPACITY
      modifies this, bigits
      ensures Norm() && Value() == old(Value()) - other.Value()
      ensures exponent <= old(exponent)
    {
      hide Val;
      hide P;
      SubtrahendFits(other, 1);
      Align(other);
      var k := other.exponent - exponent;
      ghost var a := bigits[..];
      ghost var x := ScaledVal(other.bigits[..], 1, k, other.used);
      ScaledValIs(other.bigits[..], 1, k, other.used);
      AlignedDifference(Mantissa(), other.Mantissa(), 1, k, exponent);
      var borrow := SubtractLow(other, k);
      SubtractBorrow(k + other.used, borrow, a, x);
      Clamp();
    }

    /** Second loop of `SubtractTimes`. It returns early once there is no borrow, leaving
        the top digit as it was, and clamps only when it went through the top digit. */
    method SubtractTimesBorrow(start: nat, borrowIn: uint32, ghost a: seq<int>, ghost x: int)
      requires Valid() && start <= used && borrowIn < BASE && |a| == CAPACITY
      requires used > 0 ==> a[used - 1] != 0
      requires forall j :: start <= j < used ==> bigits[j] == a[j]
      requires Difference(bigits[..], start, borrowIn, a, x) && x <= Val(a, used)
      modifies this, bigits
      ensures Norm() && exponent <= old(exponent)
      ensures Value() == (Val(a, old(used)) - x) * P(old(exponent))
    {
      hide Val;
      hide P;
      hide Difference;
      var borrow: uint32 := borrowIn;
      for i: nat := start to used
        invariant borrow < BASE && Valid()
        invariant forall j :: i <= j < used ==> bigits[j] == a[j]
        invariant Difference(bigits[..], i, borrow, a, x)
        modifies bigits
      {
        if borrow == 0 {
          DifferenceEnd(bigits[..], i, used, a, x);
          return;
        }
        var difference := Wrap32(bigits[i] - borrow);
        BorrowBit(bigits[i], borrow);
        ghost var s := bigits[..];
        bigits[i] := difference % BASE;
        SubStep(s, bigits[..], a, i, borrow, difference / 0x8000_0000, difference % BASE, x, 0);
        borrow := difference / 0x8000_0000;
      }
      if borrow != 0 {
        BorrowFits(bigits[..], a, used, used, borrow, x);
      }
      DifferenceEnd(bigits[..], used, used, a, x);
      Clamp();
    }

    method SubtractTimes(other: Bignum, factor: uint32)
      requires Norm() && other.Norm() && Apart(other)
      requires exponent <= other.exponent && factor < BASE
      requires factor * other.Value() <= Value()
      modifies this, bigits
      ensures Norm() && Value() == old(Value()) - factor * other.Value()
      ensures exponent <= old(exponent)
    {
      hide Val;
      hide P;
      if factor < 3 {
        ghost var v, w := Value(), other.Value();
        for i: nat := 0 to factor
          invariant Norm() && exponent <= old(exponent)
          invariant Value() == v - i * w
        {
          other.LengthBounds();
          assert (i + 1) * w == i * w + w;
          MulMono(i + 1, factor, w);
          SubtractBignum(other);
        }
        return;
      }
      SubtrahendFits(other, factor);
      var k := other.exponent - exponent;
      ghost var a := bigits[..];
      ghost var x := ScaledVal(other.bigits[..], factor, k, other.used);
      ScaledValIs(other.bigits[..], factor, k, other.used);
      AlignedDifference(Mantissa(), other.Mantissa(), factor, k, exponent);
      var borrow := SubtractTimesLow(other, factor, k);
      SubtractTimesBorrow(k + other.used, borrow, a, x);
    }

    /** The loop of `BigitsShiftLeft`. */
    method ShiftDigits(shift: nat) returns (carry: uint32)
      requires Valid() && shift < 28
      modifies bigits
      ensures Valid() && carry < Pow(2, shift)
      ensures Product(bigits[..], used, carry, old(bigits[..]), Pow(2, shift))
    {
      ghost var a := bigits[..];
      var up, down := Pow(2, shift), Pow(2, 28 - shift);
      ShiftFactors(shift);
      ProductStart(a, a, up);
      hide Product;
      hide Pow;
      carry := 0;
      for i := 0 to used
        invariant carry < up && Valid()
        invariant forall j :: i <= j < CAPACITY ==> bigits[j] == a[j]
        invariant Product(bigits[..], i, carry, a, up)
      {
        ShiftDigit(bigits[i], carry, up, down);
        var newCarry: uint32 := bigits[i] / down;
        ghost var s := bigits[..];
        bigits[i] := Wrap32(bigits[i] * up + carry) % BASE;
        MulStep(s, bigits[..], a, i, up, carry, newCarry, bigits[i]);
        carry := newCarry;
      }
    }

    method BigitsShiftLeft(shift: nat)
      requires Norm() && shift < 28 && used < CAPACITY
      modifies this`used, bigits
      ensures Norm() && Value() == old(Value()) * Pow(2, shift) && used <= old(used) + 1
    {
      ghost var a, n := bigits[..], used;
      ShiftFactors(shift);
      var carry := ShiftDigits(shift);
      if carry != 0 {
        ghost var s := bigits[..];
        bigits[used] := carry;
        used := used + 1;
        ValFrame(s, bigits[..], n);
      }
      ScaledTop(a, bigits[..], n, used, Pow(2, shift));
      MulRight(Val(a, n), Pow(2, shift), P(exponent));
    }

    method ShiftLeft(shift: nat)
      requires Norm() && used < CAPACITY
      modifies this, bigits
      ensures Norm() && Value() == old(Value()) * Pow(2, shift) && used <= old(used) + 1
    {
      if used == 0 {
        return;
      }
      ghost var v := Value();
      exponent := exponent + shift / 28;
      PAdd(old(exponent), shift / 28);
      MulAssoc(Mantissa(), P(old(exponent)), P(shift / 28));
      PIsPow2(shift / 28);
      PowAdd(2, 28 * (shift / 28), shift % 28);
      BigitsShiftLeft(shift % 28);
      MulAssoc(v, P(shift / 28), Pow(2, shift % 28));
    }

    /** `MultiplyByUInt32` past its special cases. */
    method MultiplyBy32(factor: uint32)
      requires Norm() && used > 0 && factor > 1 && Mantissa() * factor < P(bigits.Length)
      modifies this`used, bigits
      ensures Norm() && Mantissa() == old(Mantissa()) * factor
    {
      hide Val;
      hide P;
      ghost var a := bigits[..];
      var carry := MultiplyDigits32(factor);
      FinishProduct(carry, a, factor);
    }

    /** The first loop of `MultiplyByUInt32`. */
    method MultiplyDigits32(factor: uint32) returns (carry: uint64)
      requires Valid() && factor > 0
      modifies bigits
      ensures Valid() && carry < factor
      ensures Product(bigits[..], used, carry, old(bigits[..]), factor)
    {
      ghost var a := bigits[..];
      ProductStart(a, a, factor);
      hide Product;
      carry := 0;
      for i: nat := 0 to used
        invariant carry < factor && Valid()
        invariant forall j :: i <= j < CAPACITY ==> bigits[j] == a[j]
        invariant Product(bigits[..], i, carry, a, factor)
      {
        var digit, carry' := MultiplyDigit32(bigits[i], factor, carry);
        ghost var s := bigits[..];
        bigits[i] := digit;
        MulStep(s, bigits[..], a, i, factor, carry, carry', digit);
        carry := carry';
      }
    }

    method MultiplyByUInt32(factor: uint32)
      requires Norm() && Mantissa() * factor < P(bigits.Length)
      modifies this, bigits
      ensures Norm() && Mantissa() == old(Mantissa()) * factor
      ensures factor > 0 ==> exponent == old(exponent)
    {
      hide Val;
      hide P;
      if factor == 0 {
        Zero();
      } else if factor != 1 && used != 0 {
        MultiplyBy32(factor);
      } else if used == 0 {
        EmptyMantissa();
      }
    }

    static method MultiplyDigit32(x: uint32, factor: uint32, carry: uint64) returns (digit: uint32, carry': uint64)
      requires x < BASE && carry < factor
      ensures digit < BASE && carry' < factor
      ensures digit + carry' * BASE == factor * x + carry
    {
      MulMono(x, BASE - 1, factor);
      MulMono(0, x, factor);
      var product: uint64 := factor * x + carry;
      digit := product % BASE;
      carry' := product / BASE;
    }

    /** The last loop of the multiplications: appends the remaining carry as new digits. */
    method PushCarry(carryIn: uint64, ghost v: int)
      requires Valid() && used > 0
      requires Mantissa() + carryIn * P(used) == v < P(bigits.Length)
      modifies this`used, bigits
      ensures Valid() && Mantissa() == v
      ensures used >= old(used) && (used > old(used) ==> bigits[used - 1] != 0)
    {
      hide Val;
      hide P;
      var carry: uint64 := carryIn;
      while carry != 0
        invariant Valid() && used >= old(used)
        invariant Mantissa() + carry * P(used) == v
        invariant carry == 0 && used > old(used) ==> bigits[used - 1] != 0
        decreases carry
      {
        CarryFits(bigits[..], used, carry, v, bigits.Length);
        ghost var s := bigits[..];
        bigits[used] := carry % BASE;
        PushDigit(s, bigits[..], used, carry, v);
        used := used + 1;
        carry := carry / BASE;
      }
    }

    /** `MultiplyByUInt64` past its special cases. */
    method MultiplyBy64(factor: uint64)
      requires Norm() && factor > 1 && Mantissa() * factor < P(bigits.Length)
      modifies this`used, bigits
      ensures Norm() && Mantissa() == old(Mantissa()) * factor
    {
      hide Val;
      hide P;
      ghost var a := bigits[..];
      var carry := MultiplyDigits64(factor);
      if used != 0 {
        FinishProduct(carry, a, factor);
      } else {
        EmptyMantissa();
      }
    }

    /** The first loop of `MultiplyByUInt64`. */
    method MultiplyDigits64(factor: uint64) returns (carry: uint64)
      requires Valid() && factor > 0
      modifies bigits
      ensures Valid() && carry < factor
      ensures Product(bigits[..], used, carry, old(bigits[..]), factor)
      ensures used == 0 ==> carry == 0
    {
      ghost var a := bigits[..];
      ProductStart(a, a, factor);
      hide Product;
      var low: uint32, high: uint32 := factor % TWO32, factor / TWO32;
      carry := 0;
      for i: nat := 0 to used
        invariant carry < factor && Valid()
        invariant forall j :: i <= j < CAPACITY ==> bigits[j] == a[j]
        invariant Product(bigits[..], i, carry, a, factor)
        invariant i == 0 ==> carry == 0
      {
        var digit, carry' := MultiplyDigit64(bigits[i], low, high, carry);
        ghost var s := bigits[..];
        bigits[i] := digit;
        MulStep(s, bigits[..], a, i, factor, carry, carry', digit);
        carry := carry';
      }
    }

    method MultiplyByUInt64(factor: uint64)
      requires Norm() && Mantissa() * factor < P(bigits.Length)
      modifies this, bigits
      ensures Norm() && Mantissa() == old(Mantissa()) * factor
      ensures factor > 0 ==> exponent == old(exponent)
    {
      hide Val;
      hide P;
      if factor == 0 {
        Zero();
      } else if factor != 1 {
        MultiplyBy64(factor);
      }
    }

    /** Appends the last carry of a product; the top digit of the result is not zero. */
    method FinishProduct(carry: uint64, ghost a: seq<int>, ghost factor: int)
      requires Valid() && used > 0 && factor >= 1
      requires |a| == CAPACITY && Digits(a, used) && a[used - 1] != 0
      requires Product(bigits[..], used, carry, a, factor)
      requires Val(a, used) * factor < P(bigits.Length)
      modifies this`used, bigits
      ensures Norm() && Mantissa() == Val(a, old(used)) * factor
    {
      hide Val;
      hide P;
      ghost var n := used;
      PushCarry(carry, Val(a, n) * factor);
      ScaledTop(a, bigits[..], n, used, factor);
    }

    /** One digit of `MultiplyByUInt64`, with the 64-bit factor cut in two halves; no
        intermediate value exceeds 64 bits because the carry stays below the factor. */
    static method MultiplyDigit64(x: uint32, low: uint32, high: uint32, carry: uint64)
      returns (digit: uint32, carry': uint64)
      requires x < BASE && carry < low + high * TWO32
      ensures digit < BASE && carry' < low + high * TWO32
      ensures digit + carry' * BASE == (low + high * TWO32) * x + carry
    {
      MulMono(x, BASE - 1, low);
      MulMono(x, BASE - 1, high);
      MulMono(0, x, low);
      MulMono(0, x, high);
      var productLow: uint64 := low * x;
      var productHigh: uint64 := high * x;
      var tmp: uint64 := carry % BASE + productLow;
      digit := tmp % BASE;
      assert (low + high * TWO32) * x == productLow + productHigh * TWO32;
      carry' := carry / BASE + tmp / BASE + productHigh * 16;
    }

    method Times10()
      requires Norm() && Mantissa() * 10 < P(bigits.Length)
      modifies this, bigits
      ensures Norm() && Value() == old(Value()) * 10 && exponent == old(exponent)
    {
      ghost var m := Mantissa();
      MultiplyByUInt32(10);
      MulRight(m, 10, P(exponent));
    }

    /** The loops of `MultiplyByPowerOfTen`: only the fives, the twos are shifted in later. */
    method MultiplyByPowerOfFive(power: nat)
      requires Norm() && Mantissa() * Pow(5, power) < P(bigits.Length)
      modifies this, bigits
      ensures Norm() && exponent == old(exponent)
      ensures Mantissa() == old(Mantissa()) * Pow(5, power)
    {
      hide Val;
      hide P;
      hide Pow;
      ghost var goal := Mantissa() * Pow(5, power);
      ValBound(bigits[..], used);
      FiveConstants();
      assert LeftOver(Mantissa(), power, goal);
      hide LeftOver;
      var remaining: nat := power;
      while remaining >= 27
        invariant Norm() && exponent == old(exponent)
        invariant LeftOver(Mantissa(), remaining, goal)
      {
        PeelPower(Mantissa(), FIVE27, 27, remaining, goal);
        MultiplyByUInt64(FIVE27);
        remaining := remaining - 27;
      }
      while remaining >= 13
        invariant Norm() && exponent == old(exponent) && remaining < 27
        invariant LeftOver(Mantissa(), remaining, goal)
      {
        PeelPower(Mantissa(), FIVE13, 13, remaining, goal);
        MultiplyByUInt32(FIVE13);
        remaining := remaining - 13;
      }
      if remaining > 0 {
        FiveTable(remaining);
        var five := FIVE1_TO_12[remaining - 1];
        PeelPower(Mantissa(), five, remaining, remaining, goal);
        MultiplyByUInt32(five);
        remaining := 0;
      }
      NothingLeft(Mantissa(), goal);
    }

    method MultiplyByPowerOfTen(power: nat, ghost room: nat)
      requires Norm() && Mantissa() * Pow(5, power) < P(room) && room < bigits.Length
      modifies this, bigits
      ensures Norm() && Value() == old(Value()) * Pow(10, power) && used <= Max(old(used), room + 1)
    {
      hide Val;
      hide P;
      hide Pow;
      PowZero(10);
      LengthBounds();
      if power == 0 {
        return;
      }
      if used == 0 {
        return;
      }
      ghost var m, v := Mantissa(), Value();
      PMono(room, bigits.Length);
      MultiplyByPowerOfFive(power);
      LengthFromValue(bigits[..], used, room);
      PowProduct(5, 2, power);
      MulRight(m, Pow(5, power), P(exponent));
      MulAssoc(v, Pow(5, power), Pow(2, power));
      ShiftLeft(power);
    }

    method AddUInt64(operand: uint64)
      requires Norm() && BigitLength() + 1 <= CAPACITY
      modifies this, bigits
      ensures Norm() && Value() == old(Value()) + operand
    {
      hide Val, P;
      if operand == 0 {
        return;
      }
      var other := new Bignum();
      other.AssignUInt64(operand);
      AddBignum(other);
    }

    /** Reads the decimal digits in chunks that fit a machine word. */
    method AssignDecimalString(value: seq<char>)
      requires Valid() && AllDigits(value, |value|) && Pow(10, |value|) <= P(bigits.Length - 2)
      modifies this, bigits
      ensures Norm() && Value() == Number(value, |value|)
    {
      hide Val, P, Pow, Number;
      Zero();
      var length: nat := |value|;
      var pos: nat := 0;
      EmptyNumber(value);
      while length >= 19
        invariant pos + length == |value| && Norm() && Value() == Number(value, pos)
        decreases length
      {
        var digits := ReadUInt64(value, pos, 19);
        ghost var before := pos;
        pos := pos + 19;
        length := length - 19;
        DecimalFits(value, before, 19);
        MultiplyByPowerOfTen(19, bigits.Length - 2);
        LengthFits(bigits.Length - 2);
        AddUInt64(digits);
      }
      var digits := ReadUInt64(value, pos, length);
      DecimalFits(value, pos, length);
      MultiplyByPowerOfTen(length, bigits.Length - 2);
      LengthFits(bigits.Length - 2);
      AddUInt64(digits);
      Clamp();
    }

    /** All intermediate numbers are prefixes of the whole one. */
    lemma DecimalFits(value: seq<char>, pos: nat, n: nat)
      requires Norm() && pos + n <= |value| && AllDigits(value, |value|) && Pow(10, |value|) <= P(bigits.Length - 2)
      requires Value() == Number(value, pos)
      ensures Mantissa() * Pow(5, n) < P(bigits.Length - 2)
      ensures Value() * Pow(10, n) < P(bigits.Length - 2)
    {
      NumberBound(value, pos);
      PowAdd(10, pos, n);
      PowMono(10, pos + n, |value|);
      PowProduct(5, 2, n);
      hide Val, P, Number, Pow;
      FactorsFit(Mantissa(), P(exponent), Pow(10, pos), Pow(5, n), Pow(2, n), P(bigits.Length - 2));
    }

    /** The digit at an absolute place, hidden zero digits included. */
    function BigitAt(index: nat): (d: int)
      requires Valid()
      reads this, bigits
      ensures 0 <= d < BASE
    {
      if index >= BigitLength() then 0
      else if index < exponent then 0
      else bigits[index - exponent]
    }

    /** The number made of the digits below an absolute place. */
    ghost function Low(m: nat): int
      requires Valid()
      reads this, bigits
    {
      if m == 0 then 0 else Low(m - 1) + BigitAt(m - 1) * P(m - 1)
    }

    lemma {:induction false} LowBound(m: nat)
      requires Valid()
      ensures 0 <= Low(m) < P(m)
    {
      if m > 0 {
        LowBound(m - 1);
        MulMono(BigitAt(m - 1), BASE - 1, P(m - 1));
        MulMono(0, BigitAt(m - 1), P(m - 1));
      }
    }

    lemma {:induction false} LowHidden(m: nat)
      requires Valid() && m <= exponent
      ensures Low(m) == 0
    {
      if m > 0 {
        LowHidden(m - 1);
      }
    }

    lemma {:induction false} LowVisible(k: nat)
      requires Valid() && k <= used
      ensures Low(exponent + k) == Val(bigits[..], k) * P(exponent)
    {
      if k == 0 {
        LowHidden(exponent);
      } else {
        LowVisible(k - 1);
        PAdd(k - 1, exponent);
        AddMul(Val(bigits[..], k - 1), bigits[k - 1], P(k - 1), P(exponent));
      }
    }

    lemma {:induction false} LowIsValue(m: nat)
      requires Valid() && m >= BigitLength()
      ensures Low(m) == Value()
    {
      if m == BigitLength() {
        LowVisible(used);
      } else {
        LowIsValue(m - 1);
      }
    }

    static method Compare(a: Bignum, b: Bignum) returns (sign: int)
      requires a.Norm() && b.Norm()
      ensures sign == Sign(a.Value() - b.Value())
    {
      hide Val;
      hide P;
      hide Bignum.Low;
      var lengthA, lengthB := a.BigitLength(), b.BigitLength();
      if lengthA < lengthB {
        ShorterIsLess(a, b);
        return -1;
      }
      if lengthA > lengthB {
        ShorterIsLess(b, a);
        return 1;
      }
      a.LowIsValue(lengthA);
      b.LowIsValue(lengthA);
      var i: nat := lengthA;
      while i > Min(a.exponent, b.exponent)
        invariant a.Value() - a.Low(i) == b.Value() - b.Low(i)
      {
        i := i - 1;
        LowDigits(a, b, i);
        var digitA, digitB := a.BigitAt(i), b.BigitAt(i);
        if digitA < digitB {
          return -1;
        }
        if digitA > digitB {
          return 1;
        }
      }
      a.LowHidden(i);
      b.LowHidden(i);
      return 0;
    }

    static lemma ShorterIsLess(a: Bignum, b: Bignum)
      requires a.Norm() && b.Norm() && a.BigitLength() < b.BigitLength()
      ensures a.Value() < b.Value()
    {
      hide *;
      a.LengthBounds();
      b.NotEmpty();
      PMono(a.BigitLength(), b.BigitLength() - 1);
    }

    /** The highest digit that differs decides the order of the digits up to it. */
    static lemma LowDigits(a: Bignum, b: Bignum, i: nat)
      requires a.Valid() && b.Valid()
      ensures a.BigitAt(i) < b.BigitAt(i) ==> a.Low(i + 1) < b.Low(i + 1)
      ensures a.BigitAt(i) > b.BigitAt(i) ==> a.Low(i + 1) > b.Low(i + 1)
      ensures a.BigitAt(i) == b.BigitAt(i) ==> a.Low(i + 1) - a.Low(i) == b.Low(i + 1) - b.Low(i)
    {
      hide Val;
      hide P;
      a.LowBound(i);
      b.LowBound(i);
      var x, y := a.BigitAt(i), b.BigitAt(i);
      if x < y {
        DigitOrder(a.Low(i), x, b.Low(i), y, P(i));
      } else if x > y {
        DigitOrder(b.Low(i), y, a.Low(i), x, P(i));
      }
    }

    /** Compares a + b with c without computing the sum. */
    static method PlusCompare(a: Bignum, b: Bignum, c: Bignum) returns (sign: int)
      requires a.Norm() && b.Norm() && c.Norm()
      ensures sign == Sign(a.Value() + b.Value() - c.Value())
      decreases if a.BigitLength() < b.BigitLength() then 1 else 0
    {
      if a.BigitLength() < b.BigitLength() {
        sign := PlusCompare(b, a, c);
        return;
      }
      if a.BigitLength() + 1 < c.BigitLength() {
        SumBelow(a, b, c);
        return -1;
      }
      if a.BigitLength() > c.BigitLength() {
        ShorterIsLess(c, a);
        b.LengthBounds();
        return 1;
      }
      if a.exponent >= b.BigitLength() && a.BigitLength() < c.BigitLength() {
        SumWithoutCarry(a, b, c);
        return -1;
      }
      sign := PlusCompareDigits(a, b, c);
    }

    /** The loop of `PlusCompare`: from the top digit down, keeps in `borrow` by how much
        c is ahead so far, and stops as soon as the lower digits cannot make it up. */
    static method PlusCompareDigits(a: Bignum, b: Bignum, c: Bignum) returns (sign: int)
      requires a.Norm() && b.Norm() && c.Norm()
      requires b.BigitLength() <= a.BigitLength() <= c.BigitLength()
      ensures sign == Sign(a.Value() + b.Value() - c.Value())
    {
      hide Val;
      hide P;
      hide Bignum.Low;
      var i: nat := c.BigitLength();
      a.LowIsValue(i);
      b.LowIsValue(i);
      c.LowIsValue(i);
      ghost var lead := 0;
      var borrow: uint32 := 0;
      while i > Min(Min(a.exponent, b.exponent), c.exponent)
        invariant 0 <= lead <= 1 && borrow == lead * BASE
        invariant Ahead(a, b, c, i) == lead * P(i)
      {
        i := i - 1;
        AheadStep(a, b, c, i, lead);
        var chunkA: uint32, chunkB: uint32, chunkC: uint32 := a.BigitAt(i), b.BigitAt(i), c.BigitAt(i);
        var sum: uint32 := chunkA + chunkB;
        if sum > chunkC + borrow {
          return 1;
        } else {
          borrow := chunkC + borrow - sum;
          if borrow > 1 {
            return -1;
          }
          lead := borrow;
          borrow := borrow * BASE;
        }
      }
      a.LowHidden(i);
      b.LowHidden(i);
      c.LowHidden(i);
      assert lead == 1 ==> lead * P(i) == P(i);
      return if borrow == 0 then 0 else -1;
    }

    /** By how much the digits of c from place i up are ahead of those of a and b. */
    static ghost function Ahead(a: Bignum, b: Bignum, c: Bignum, i: nat): int
      requires a.Valid() && b.Valid() && c.Valid()
      reads a, a.bigits, b, b.bigits, c, c.bigits
    {
      (c.Value() - c.Low(i)) - (a.Value() - a.Low(i)) - (b.Value() - b.Low(i))
    }

    static lemma AheadStep(a: Bignum, b: Bignum, c: Bignum, i: nat, lead: int)
      requires a.Valid() && b.Valid() && c.Valid()
      requires Ahead(a, b, c, i + 1) == lead * P(i + 1)
      ensures var next := c.BigitAt(i) + lead * BASE - a.BigitAt(i) - b.BigitAt(i);
        && Ahead(a, b, c, i) == next * P(i)
        && (next <= -1 ==> a.Value() + b.Value() > c.Value())
        && (next >= 2 ==> a.Value() + b.Value() < c.Value())
    {
      var next := c.BigitAt(i) + lead * BASE - a.BigitAt(i) - b.BigitAt(i);
      a.LowBound(i);
      b.LowBound(i);
      c.LowBound(i);
      NextLead(lead, c.BigitAt(i), a.BigitAt(i), b.BigitAt(i), P(i));
      if next <= -1 {
        MulMono(next, -1, P(i));
      } else if next >= 2 {
        MulMono(2, next, P(i));
      }
    }

    static lemma SumBelow(a: Bignum, b: Bignum, c: Bignum)
      requires a.Norm() && b.Norm() && c.Norm()
      requires b.BigitLength() <= a.BigitLength() && a.BigitLength() + 1 < c.BigitLength()
      ensures a.Value() + b.Value() < c.Value()
    {
      hide *;
      a.LengthBounds();
      b.LengthBounds();
      c.NotEmpty();
      PMono(b.BigitLength(), a.BigitLength());
      PMono(a.BigitLength() + 1, c.BigitLength() - 1);
      PTwice(a.BigitLength());
    }

    static lemma SumWithoutCarry(a: Bignum, b: Bignum, c: Bignum)
      requires a.Norm() && b.Norm() && c.Norm()
      requires a.exponent >= b.BigitLength() && a.BigitLength() < c.BigitLength()
      ensures a.Value() + b.Value() < c.Value()
    {
      hide Val;
      hide P;
      b.LengthBounds();
      c.LengthBounds();
      PMono(b.BigitLength(), a.exponent);
      ValBound(a.bigits[..], a.used);
      PAdd(a.used, a.exponent);
      DigitOrder(b.Value(), a.Mantissa(), 0, P(a.used), P(a.exponent));
      if c.used > 0 {
        PMono(a.BigitLength(), c.BigitLength() - 1);
      }
    }

    /** The top digit says between which multiples of its unit the value lies. */
    lemma TopDigit()
      requires Norm() && used > 0
      ensures bigits[used - 1] * P(BigitLength() - 1) <= Value() < (bigits[used - 1] + 1) * P(BigitLength() - 1)
    {
      var t, m, p, q := bigits[used - 1], Mantissa(), P(used - 1), P(exponent);
      ValTop(bigits[..], used);
      PAdd(used - 1, exponent);
      hide Val;
      hide P;
      MulMono(t * p, m, q);
      MulLess(m, (t + 1) * p, q);
      MulAssoc(t, p, q);
      MulAssoc(t + 1, p, q);
    }

    /** Takes multiples of `other` away until no digit is left above its top one. Only
        the top digit decides how many; the number stays positive throughout. */
    method ReduceLength(other: Bignum) returns (result: uint16)
      requires Norm() && other.Norm() && Apart(other)
      requires other.used > 0 && exponent <= other.exponent
      requires other.BigitLength() <= BigitLength()
      requires Divided(Value(), 0, other.Value(), Value())
      modifies this, bigits
      ensures Norm() && used > 0 && exponent <= old(exponent)
      ensures Divided(Value(), result, other.Value(), old(Value()))
      ensures BigitLength() <= other.BigitLength()
      ensures LongEnough(other)
      ensures BigitLength() < other.BigitLength() <==> EndsShorter(old(Value()), other.Value(), other.BigitLength())
    {
      hide Val;
      hide P;
      hide Divided;
      hide EndsShorter;
      ghost var v, w, n := Value(), other.Value(), other.BigitLength();
      other.LengthBounds();
      LengthBounds();
      if n < BigitLength() {
        PMono(n, BigitLength() - 1);
      }
      result := 0;
      while BigitLength() > other.BigitLength()
        invariant Norm() && used > 0 && exponent <= old(exponent)
        invariant Divided(Value(), result, other.Value(), old(Value()))
        invariant LongEnough(other)
        invariant if v < P(n) then Value() == v && BigitLength() == n else Value() + w >= P(n)
        decreases Value()
      {
        var top: uint32 := bigits[used - 1];
        RemovableTop(other);
        TakeMore(Value(), result, top, other.Value(), old(Value()));
        SubtractTimes(other, top);
        result := result + top;
        StillLong(other);
      }
      LengthBounds();
      if BigitLength() < n {
        PMono(BigitLength(), n - 1);
      }
      HowItEnds(Value(), result, w, v, n);
    }

    /** The number has a digit at the top place of `other`, or that digit of `other` is
        as large as a digit can be. */
    ghost predicate LongEnough(other: Bignum)
      requires other.Valid() && other.used > 0
      reads this, other, other.bigits
    {
      BigitLength() >= other.BigitLength() || (BASE - 1) * P(other.BigitLength() - 1) < other.Value()
    }

    lemma RemovableTop(other: Bignum)
      requires Norm() && other.Norm() && 0 < other.used && other.BigitLength() < BigitLength()
      ensures var top, w, n := bigits[used - 1], other.Value(), other.BigitLength();
        && 0 < top * w < Value()
        && (Value() - top * w >= P(n - 1) || (BASE - 1) * P(n - 1) < w)
        && Value() - top * w + w >= P(n)
    {
      hide Val;
      hide P;
      other.LengthBounds();
      TopDigit();
      RemoveTop(Value(), bigits[used - 1], other.Value(), other.BigitLength(), BigitLength());
      MulMono(1, bigits[used - 1], other.Value());
    }

    lemma StillLong(other: Bignum)
      requires Norm() && other.Norm() && other.used > 0
      requires Value() > 0
      requires var n := other.BigitLength();
        Value() >= P(n - 1) || (BASE - 1) * P(n - 1) < other.Value()
      ensures used > 0 && LongEnough(other)
    {
      LengthBounds();
      if Value() >= P(other.BigitLength() - 1) {
        POrder(other.BigitLength() - 1, BigitLength());
      }
    }

    /** Divides by `other`, leaving the remainder. */
    method DivideModuloIntBignum(other: Bignum) returns (result: uint16)
      requires Norm() && other.Norm() && Apart(other)
      requires 0 < other.Value() && Value() < 0x1_0000 * other.Value()
      requires BigitLength() - Min(exponent, other.exponent) <= CAPACITY
      modifies this, bigits
      ensures Norm() && exponent <= old(exponent)
      ensures result == old(Value()) / other.Value()
      ensures Value() == old(Value()) % other.Value()
    {
      hide Val;
      hide P;
      ghost var v, w := Value(), other.Value();
      other.LengthBounds();
      if BigitLength() < other.BigitLength() {
        ShorterIsLess(this, other);
        LengthBounds();
        DivModUnique(v, w, 0, v);
        return 0;
      }
      Align(other);
      result := ReduceLength(other);
      result := DivideSameLength(other, result, v);
      DivModUnique(v, w, result, Value());
    }

    /** The end of the division, once the number has no digit above the top one of
        `other`. When `other` is not a single digit the quotient estimated from the top
        digits may be too small, and is then counted up. */
    method DivideSameLength(other: Bignum, quotient: uint16, ghost v: int) returns (result: uint16)
      requires Norm() && other.Norm() && Apart(other)
      requires other.used > 0 && used > 0 && exponent <= other.exponent
      requires BigitLength() <= other.BigitLength() && LongEnough(other)
      requires Divided(Value(), quotient, other.Value(), v)
      modifies this, bigits
      ensures Norm() && exponent <= old(exponent)
      ensures Divided(Value(), result, other.Value(), v)
      ensures 0 <= Value() < other.Value()
    {
      hide Val;
      hide P;
      hide Divided, Value;
      var thisBigit: uint32 := bigits[used - 1];
      var otherBigit: uint32 := other.bigits[other.used - 1];
      if other.used == 1 {
        result := DivideByDigit(other, quotient, v);
        return;
      }
      TopDigit();
      other.TopDigit();
      var estimate: uint32, exact :=
        EstimateDigit(thisBigit, otherBigit, Value(), other.Value(), BigitLength(), other.BigitLength());
      TakeMore(Value(), quotient, estimate, other.Value(), v);
      SubtractTimes(other, estimate);
      result := quotient + estimate;
      if exact {
        LengthBounds();
        return;
      }
      result := CountUp(other, result, v);
    }

    static method DivideDigit(top: uint32, d: uint32) returns (q: uint32, r: uint32)
      requires 0 < d
      ensures q == top / d && r == top - d * q && r < d && r <= top && q <= top
    {
      RemainderBounds(top, d, top / d);
      MulMono(1, d, top / d);
      q := top / d;
      r := top - d * q;
    }

    /** The shortcut for a divisor with a single digit. */
    method DivideByDigit(other: Bignum, quotient: uint16, ghost v: int) returns (result: uint16)
      requires Norm() && other.Norm() && Apart(other)
      requires other.used == 1 && used > 0 && exponent <= other.exponent
      requires BigitLength() <= other.BigitLength() && LongEnough(other)
      requires Divided(Value(), quotient, other.Value(), v)
      modifies this, bigits
      ensures Norm() && exponent <= old(exponent)
      ensures Divided(Value(), result, other.Value(), v)
      ensures 0 <= Value() < other.Value()
    {
      hide Val;
      hide P;
      hide Divided;
      SingleDigit(other);
      var thisBigit: uint32, otherBigit: uint32 := bigits[used - 1], other.bigits[0];
      var q: uint32, r: uint32 := DivideDigit(thisBigit, otherBigit);
      ghost var s := bigits[..];
      bigits[used - 1] := r;
      TopReplaced(s, bigits[..], used, exponent, thisBigit, otherBigit, q);
      TakeMore(old(Value()), quotient, q, other.Value(), v);
      result := quotient + q;
      Clamp();
    }

    /** The last loop of the division: subtracts the divisor until it no longer fits. */
    method CountUp(other: Bignum, quotient: uint16, ghost v: int) returns (result: uint16)
      requires Norm() && other.Norm() && Apart(other)
      requires other.used > 0 && exponent <= other.exponent
      requires Divided(Value(), quotient, other.Value(), v)
      modifies this, bigits
      ensures Norm() && exponent <= old(exponent)
      ensures Divided(Value(), result, other.Value(), v)
      ensures 0 <= Value() < other.Value()
    {
      hide Val;
      hide P;
      hide Divided;
      result := quotient;
      other.LengthBounds();
      LengthBounds();
      var order := Compare(other, this);
      while order <= 0
        invariant Norm() && exponent <= old(exponent) && Value() >= 0
        invariant Divided(Value(), result, other.Value(), v)
        invariant order == Sign(other.Value() - Value())
        decreases Value()
      {
        TakeMore(Value(), result, 1, other.Value(), v);
        SubtractBignum(other);
        result := result + 1;
        order := Compare(other, this);
      }
    }

    /** A divisor with one digit has no more digits than the number divided. */
    lemma SingleDigit(other: Bignum)
      requires Norm() && other.Norm() && used > 0 && other.used == 1 && exponent <= other.exponent
      requires BigitLength() <= other.BigitLength() && LongEnough(other)
      ensures BigitLength() == other.BigitLength()
      ensures other.Value() == other.bigits[0] * P(used + exponent - 1)
    {
      assert P(0) == 1;
      assert Val(other.bigits[..], 0) == 0;
      assert other.Mantissa() == other.bigits[0];
      MulMono(other.bigits[0], BASE - 1, P(other.exponent));
    }

    /** The inner loop of `Square` for the columns below n: adds column i to the
        accumulator. The digits were copied up by n places. */
    method AddLowColumn(i: nat, n: nat, accumulatorIn: uint64, ghost c: seq<int>) returns (accumulator: uint64)
      requires bigits.Length == CAPACITY && i < n <= 64 && |c| == CAPACITY && Digits(c, n)
      requires forall j :: 0 <= j < n ==> bigits[n + j] == c[j]
      requires accumulatorIn <= 64 * BASE
      ensures accumulator == accumulatorIn + Column(c, n, n, i)
      ensures accumulator <= 64 * BASE * BASE
    {
      accumulator := accumulatorIn;
      var index1: int, index2: nat := i, 0;
      while index1 >= 0
        invariant index1 + index2 == i && -1 <= index1
        invariant accumulator == accumulatorIn + Column(c, n, index2, i)
      {
        NextRow(c, n, index2, i);
        var chunk1: uint32, chunk2: uint32 := bigits[n + index1], bigits[n + index2];
        accumulator := accumulator + chunk1 * chunk2;
        index1, index2 := index1 - 1, index2 + 1;
      }
      ColumnEnds(c, n, index2, n, i);
      ColumnBound(c, n, n, i);
    }

    /** The inner loop of `Square` for the columns from n on. The copied digits below
        place i - n + 1 are not read: they may have been overwritten. */
    method AddHighColumn(i: nat, n: nat, accumulatorIn: uint64, ghost c: seq<int>) returns (accumulator: uint64)
      requires bigits.Length == CAPACITY && n <= i < 2 * n <= 128 && |c| == CAPACITY && Digits(c, n)
      requires forall j :: i - n < j < n ==> bigits[n + j] == c[j]
      requires accumulatorIn <= 64 * BASE
      ensures accumulator == accumulatorIn + Column(c, n, n, i)
      ensures accumulator <= 64 * BASE * BASE
    {
      accumulator := accumulatorIn;
      var index1: nat, index2: nat := n - 1, i - (n - 1);
      ColumnEnds(c, n, 0, index2, i);
      while index2 < n
        invariant index1 + index2 == i && i - n < index2 <= n && i - n <= index1 < n
        invariant accumulator == accumulatorIn + Column(c, n, index2, i)
      {
        NextRow(c, n, index2, i);
        var chunk1: uint32, chunk2: uint32 := bigits[n + index1], bigits[n + index2];
        accumulator := accumulator + chunk1 * chunk2;
        index1, index2 := index1 - 1, index2 + 1;
      }
      ColumnBound(c, n, n, i);
    }

    /** The digits a second time, behind themselves. */
    method CopyUpwards(n: nat)
      requires bigits.Length == CAPACITY && 2 * n <= CAPACITY
      modifies bigits
      ensures forall j :: 0 <= j < n ==> bigits[j] == old(bigits[j]) == bigits[n + j]
      ensures forall j :: 2 * n <= j < CAPACITY ==> bigits[j] == old(bigits[j])
    {
      for i := 0 to n
        invariant forall j :: 0 <= j < n ==> bigits[j] == old(bigits[j])
        invariant forall j :: 0 <= j < i ==> bigits[n + j] == old(bigits[j])
        invariant forall j :: 2 * n <= j < CAPACITY ==> bigits[j] == old(bigits[j])
      {
        bigits[n + i] := bigits[i];
      }
    }

    /** The copying loop and the two column loops of `Square`. */
    method SquareColumns(n: nat)
      requires bigits.Length == CAPACITY && 2 * n <= CAPACITY && Digits(bigits[..], n)
      requires forall j :: n <= j < CAPACITY ==> bigits[j] == 0
      modifies bigits
      ensures Digits(bigits[..], 2 * n)
      ensures forall j :: 2 * n <= j < CAPACITY ==> bigits[j] == 0
      ensures Val(bigits[..], 2 * n) == Val(old(bigits[..]), n) * Val(old(bigits[..]), n)
    {
      ghost var c := bigits[..];
      CopyUpwards(n);
      NothingAccumulated(bigits[..], c, n);
      hide Val;
      hide P;
      hide Column;
      hide Accumulated;
      var accumulator: uint64 := 0;
      for i: nat := 0 to n
        invariant accumulator <= 64 * BASE && Digits(bigits[..], i)
        invariant forall j :: 0 <= j < n ==> bigits[n + j] == c[j]
        invariant forall j :: 2 * n <= j < CAPACITY ==> bigits[j] == 0
        invariant Accumulated(bigits[..], i, accumulator, c, n)
      {
        ghost var s, before := bigits[..], accumulator;
        accumulator := AddLowColumn(i, n, accumulator, c);
        bigits[i] := Wrap32(accumulator) % BASE;
        MaskAfterWrap(accumulator);
        AccumulateStep(s, bigits[..], i, before, accumulator, c, n);
        accumulator := accumulator / BASE;
      }
      for i: nat := n to 2 * n
        invariant accumulator <= 64 * BASE && Digits(bigits[..], i)
        invariant forall j :: 0 <= j < n && i <= n + j ==> bigits[n + j] == c[j]
        invariant forall j :: 2 * n <= j < CAPACITY ==> bigits[j] == 0
        invariant Accumulated(bigits[..], i, accumulator, c, n)
      {
        ghost var s, before := bigits[..], accumulator;
        accumulator := AddHighColumn(i, n, accumulator, c);
        bigits[i] := Wrap32(accumulator) % BASE;
        MaskAfterWrap(accumulator);
        AccumulateStep(s, bigits[..], i, before, accumulator, c, n);
        accumulator := accumulator / BASE;
      }
      AccumulatedSquare(bigits[..], accumulator, c, n);
    }

    method Square()
      requires Norm() && 2 * used <= CAPACITY
      modifies this, bigits
      ensures Norm() && Value() == old(Value()) * old(Value())
      ensures old(exponent) == 0 ==> exponent == 0
    {
      hide Val;
      hide P;
      ghost var m, e := Mantissa(), exponent;
      var productLength := 2 * used;
      SquareColumns(used);
      used := productLength;
      exponent := exponent * 2;
      PAdd(e, e);
      MulSwap(m, P(e), m, P(e));
      MulSwap(m, m, P(e), P(e));
      Clamp();
    }

    /** Assigns base^power: on 64 bits as far as that goes, then by squaring. */
    method AssignPowerUInt16(base: uint16, power: nat)
      requires Valid() && base != 0 && PowerFits(OddPart(base), power)
      modifies this, bigits
      ensures Norm() && Value() == Pow(base, power)
    {
      hide Val;
      hide P;
      hide Pow;
      hide PowerFits;
      if power == 0 {
        PowZero(base);
        AssignUInt16(1);
        return;
      }
      Zero();
      var odd: uint16, shifts := StripTwos(base);
      AssignOddPower(odd, power);
      PowerLength(odd, power, power);
      ShiftedPower(base, odd, shifts, power);
      ShiftLeft(shifts * power);
    }

    method AssignOddPower(odd: uint16, power: nat)
      requires Valid() && used == 0 && odd != 0 && power > 0 && PowerFits(odd, power)
      modifies this, bigits
      ensures Norm() && exponent == 0 && Value() == Pow(odd, power)
    {
      hide Val;
      hide P;
      hide Pow;
      hide PowerFits;
      hide Pending;
      hide Holds;
      hide BitSize;
      var bitSize := CountBits(odd);
      var value: uint64, delayed, mask, prefix := PowerIn64Bits(odd, bitSize, power);
      AssignUInt64(value);
      AssignDelayed(odd, value, delayed, prefix, power);
      SquareAndMultiply(odd, mask, prefix, power);
    }

    /** A power of the base not past the final one has room for one more digit, and for
        its square if that is not past the final one either. */
    lemma PowerLength(b: nat, prefix: nat, power: nat)
      requires Norm() && exponent == 0 && Value() == Pow(b, prefix)
      requires 0 < b && 0 < prefix <= power && PowerFits(b, power)
      ensures used < CAPACITY
      ensures 2 * prefix <= power ==> 2 * used <= CAPACITY
    {
      hide Val;
      hide P;
      hide Pow;
      hide PowerBigits;
      hide PowerFits;
      hide BitSize;
      PowerBelow(b, prefix);
      PowerBigitsFit(b, prefix, power);
      LengthFits(PowerBigits(b, prefix));
    }

    method AssignDelayed(b: uint16, value: uint64, delayed: bool, ghost prefix: nat, ghost power: nat)
      requires Norm() && exponent == 0 && Value() == value && b > 0
      requires Holds(value, delayed, b, prefix) && 0 < prefix <= power && PowerFits(b, power)
      modifies this, bigits
      ensures Norm() && exponent == 0 && Value() == Pow(b, prefix)
    {
      hide Val;
      hide P;
      hide PowerFits;
      if delayed {
        PlainMantissa();
        PowerRoom(b, prefix, power);
        MultiplyByUInt32(b);
        PlainMantissa();
      }
    }

    lemma PlainMantissa()
      requires Norm() && exponent == 0
      ensures Value() == Mantissa()
    {
    }

    lemma PowerRoom(b: nat, prefix: nat, power: nat)
      requires Valid() && 0 < b && 0 < prefix <= power && PowerFits(b, power)
      ensures Pow(b, prefix) < P(bigits.Length)
    {
      hide Val;
      hide P;
      hide Pow;
      hide PowerBigits;
      hide PowerFits;
      hide BitSize;
      PowerBelow(b, prefix);
      PowerBigitsFit(b, prefix, power);
      PMono(PowerBigits(b, prefix), bigits.Length);
    }

    /** The last loop of `AssignPowerUInt16`. */
    method SquareAndMultiply(b: uint16, maskIn: nat, ghost prefixIn: nat, power: nat)
      requires Norm() && exponent == 0 && Value() == Pow(b, prefixIn) && b > 0
      requires 0 < prefixIn <= power && Pending(maskIn, prefixIn, power) && PowerFits(b, power)
      modifies this, bigits
      ensures Norm() && exponent == 0 && Value() == Pow(b, power)
    {
      hide Val;
      hide P;
      hide Pow;
      hide PowerFits;
      hide Pending;
      var mask := maskIn;
      ghost var prefix: nat := prefixIn;
      while mask != 0
        invariant Norm() && exponent == 0 && Value() == Pow(b, prefix)
        invariant Pending(mask, prefix, power) && 0 < prefix <= power
        decreases mask
      {
        SquareStep(b, mask, prefix, power);
        prefix := NextPrefix(prefix, power, mask);
        mask := mask / 2;
      }
      PendingEnds(prefix, power);
    }

    /** One round of the loop: squares, and multiplies if the exponent has the bit. */
    method SquareStep(b: uint16, mask: nat, ghost prefix: nat, power: nat)
      requires Norm() && exponent == 0 && Value() == Pow(b, prefix) && b > 0
      requires mask > 0 && 0 < prefix && Pending(mask, prefix, power) && PowerFits(b, power)
      modifies this, bigits
      ensures Norm() && exponent == 0 && Value() == Pow(b, NextPrefix(prefix, power, mask))
      ensures Pending(mask / 2, NextPrefix(prefix, power, mask), power)
      ensures NextPrefix(prefix, power, mask) <= power
    {
      hide Val;
      hide P;
      hide Pow;
      hide Pending;
      hide BitSet;
      hide PowerFits;
      NextBit(mask, prefix, power);
      PowerLength(b, prefix, power);
      PowAdd(b, prefix, prefix);
      Square();
      if BitSet(power, mask) {
        PowNext(b, 2 * prefix);
        PowerRoom(b, 2 * prefix + 1, power);
        PlainMantissa();
        MultiplyByUInt32(b);
        PlainMantissa();
      }
    }
  }

  lemma PowNext(b: nat, n: nat)
    ensures Pow(b, n + 1) == Pow(b, n) * b
  {
  }

  lemma ShiftedPower(base: nat, odd: nat, shifts: nat, power: nat)
    requires base == odd * Pow(2, shifts)
    ensures Pow(odd, power) * Pow(2, shifts * power) == Pow(base, power)
  {
    PowProduct(odd, Pow(2, shifts), power);
    PowPow(2, shifts, power);
  }

  /** The capacity check of `AssignPowerUInt16`, on the base without its factors of two. */
  predicate PowerFits(b: nat, power: nat) {
    BitSize(b) * power / 28 + 2 <= CAPACITY
  }

  /** Digits enough for b^n. */
  function PowerBigits(b: nat, n: nat): nat {
    (BitSize(b) * n + 27) / 28
  }

  /** b^n has at most n times as many bits as b. */
  lemma {:induction false} PowerBits(b: nat, n: nat)
    requires b > 0 && n > 0
    ensures Pow(b, n) < Pow(2, BitSize(b) * n)
  {
    var s := BitSize(b);
    if n == 1 {
      PowOne(b);
      assert s * n == s;
    } else {
      PowerBits(b, n - 1);
      MulMono(0, s, n - 1);
      PowAdd(2, s, s * (n - 1));
      Successor(s, n);
      assert Pow(b, n) == b * Pow(b, n - 1);
      hide Pow;
      hide BitSize;
      MulLess(Pow(b, n - 1), Pow(2, s * (n - 1)), b);
      MulMono(b, Pow(2, s), Pow(2, s * (n - 1)));
    }
  }

  lemma PowerBelow(b: nat, n: nat)
    requires b > 0 && n > 0
    ensures Pow(b, n) < P(PowerBigits(b, n))
  {
    hide Pow;
    hide P;
    hide BitSize;
    PowerBits(b, n);
    MulMono(0, BitSize(b), n);
    PIsPow2(PowerBigits(b, n));
    RoundedUp(BitSize(b) * n);
    PowMono(2, BitSize(b) * n, 28 * PowerBigits(b, n));
  }

  lemma Successor(s: int, n: int)
    ensures s * n == s + s * (n - 1)
  {
  }

  lemma RoundedUp(x: nat)
    ensures x <= 28 * ((x + 27) / 28)
  {
  }

  /** Powers up to the final one leave a digit of room, and those still to be squared
      occupy at most half of the capacity. */
  lemma PowerBigitsFit(b: nat, n: nat, power: nat)
    requires PowerFits(b, power) && n <= power
    ensures PowerBigits(b, n) < CAPACITY
    ensures 2 * n <= power ==> 2 * PowerBigits(b, n) <= CAPACITY
  {
    MulMono(n, power, BitSize(b));
    if 2 * n <= power {
      MulMono(2 * n, power, BitSize(b));
      MulAssoc(2, n, BitSize(b));
    }
    BigitCounts(BitSize(b) * n, BitSize(b) * power, 2 * n <= power);
  }

  lemma BigitCounts(x: nat, y: nat, half: bool)
    requires x <= y && y / 28 + 2 <= CAPACITY
    requires half ==> 2 * x <= y
    ensures (x + 27) / 28 < CAPACITY
    ensures half ==> 2 * ((x + 27) / 28) <= CAPACITY
  {
  }

  lemma NothingAccumulated(s: seq<int>, c: seq<int>, n: nat)
    requires n <= |c|
    ensures Accumulated(s, 0, 0, c, n)
  {
  }

  lemma NextRow(c: seq<int>, n: nat, m: nat, k: nat)
    requires m < n <= 64 && n <= |c| && Digits(c, n) && 0 <= k - m < n
    ensures Column(c, n, m + 1, k) == Column(c, n, m, k) + c[k - m] * c[m]
    ensures 0 <= c[k - m] * c[m] && Column(c, n, m + 1, k) <= 64 * ((BASE - 1) * (BASE - 1))
    ensures 0 <= Column(c, n, m, k)
  {
    ColumnBound(c, n, m + 1, k);
    ColumnBound(c, n, m, k);
    DigitProduct(c[k - m], c[m]);
    var x := (BASE - 1) * (BASE - 1);
    MulMono(m + 1, 64, x);
    assert Column(c, n, m + 1, k) == Column(c, n, m, k) + c[m] * c[k - m];
  }

  /** Removing `top` times w from a number whose top digit, above those of w, is `top`. */
  lemma RemoveTop(v: int, top: int, w: int, n: nat, length: nat)
    requires 0 < n < length && top >= 1
    requires top * P(length - 1) <= v && P(n - 1) <= w < P(n)
    ensures top * w < v
    ensures v - top * w >= P(n - 1) || (BASE - 1) * P(n - 1) < w
    ensures v - top * w + w >= P(n)
  {
    PMono(n, length - 1);
    assert P(n) == BASE * P(n - 1);
    hide P;
    var gap := P(length - 1) - w;
    MulMono(1, top, gap);
    assert top * P(length - 1) == top * w + top * gap;
  }

  /** Taking away multiples of the top digit leaves fewer than the n digits of w exactly if
      it has to begin, and ends with a remainder that short to which w cannot be added
      without one digit more. */
  ghost predicate EndsShorter(v: int, w: int, n: nat)
    requires n > 0 && w > 0
  {
    v >= P(n) && P(n) - w <= v % w < P(n - 1)
  }

  lemma HowItEnds(rest: int, result: int, w: int, v: int, n: nat)
    requires n > 0 && P(n - 1) <= w && 0 <= rest < P(n) && Divided(rest, result, w, v)
    requires if v < P(n) then rest >= P(n - 1) else rest + w >= P(n)
    ensures rest < P(n - 1) <==> EndsShorter(v, w, n)
  {
    SameRemainder(rest, result, w, v);
    hide P, Divided;
  }

  lemma SameRemainder(rest: int, result: int, w: int, v: int)
    requires 0 <= rest && Divided(rest, result, w, v)
    ensures v % w == rest % w && (rest < w ==> rest % w == rest) && (rest >= w ==> rest % w + w <= rest)
  {
    var k := rest / w;
    QuotientAndRemainder(rest, w);
    MulAdd(result, k, w);
    DivModUnique(v, w, result + k, rest % w);
    if rest < w {
      DivModUnique(rest, w, 0, rest);
    } else if k <= 0 {
      MulMono(k, 0, w);
    } else {
      MulMono(1, k, w);
    }
  }

  lemma MulAdd(a: int, b: int, k: int)
    ensures (a + b) * k == a * k + b * k
  {
  }

  /** What is left of v after `result` multiples of w were taken away. */
  ghost predicate Divided(rest: int, result: int, w: int, v: int) {
    0 <= result && 0 < w && rest + result * w == v < 0x1_0000 * w
  }

  lemma NoneYet(s: seq<int>, rest: int)
    ensures Val(s, 0) + rest * P(0) == rest
  {
  }

  /** Three digits take any number of 64 bits. */
  lemma ThreeDigits(s: seq<int>, rest: nat, value: uint64)
    requires 3 <= |s| && Digits(s, 3) && Val(s, 3) + rest * P(3) == value
    ensures rest == 0 && Val(s, 3) * P(0) == value
  {
    assert P(1) == BASE && P(2) == BASE * BASE && P(3) == BASE * BASE * BASE;
    ValBound(s, 3);
    hide Val, P;
    MulMono(if rest > 0 then 1 else 0, rest, P(3));
  }

  lemma PTwice(n: nat)
    ensures 2 * P(n) <= P(n + 1)
  {
  }

  lemma TakeMore(rest: int, result: int, more: int, w: int, v: int)
    requires Divided(rest, result, w, v) && 0 <= more && more * w <= rest
    ensures Divided(rest - more * w, result + more, w, v)
    ensures result + more < 0x1_0000
  {
    assert (result + more) * w == result * w + more * w;
    if result + more >= 0x1_0000 {
      MulMono(0x1_0000, result + more, w);
    }
  }

  /** A quotient digit from the top digits, and whether it cannot be too small. */
  method EstimateDigit(thisBigit: uint32, otherBigit: uint32, ghost v: nat, ghost w: nat, ghost length: nat, ghost n: nat)
    returns (estimate: uint32, exact: bool)
    requires 0 < length <= n && thisBigit < BASE && 0 < otherBigit < BASE
    requires thisBigit * P(length - 1) <= v < (thisBigit + 1) * P(length - 1)
    requires otherBigit * P(n - 1) <= w < (otherBigit + 1) * P(n - 1)
    requires length == n || (BASE - 1) * P(n - 1) < w
    ensures estimate < BASE && estimate * w <= v && (exact ==> v - estimate * w < w)
  {
    hide P;
    EstimateFits(v, thisBigit, w, otherBigit, thisBigit / (otherBigit + 1), length, n);
    estimate := thisBigit / (otherBigit + 1);
    OneMore(v, estimate, w);
    var next: uint32 := otherBigit * (estimate + 1);
    exact := next > thisBigit;
  }

  lemma OneMore(v: int, estimate: int, w: int)
    ensures v < (estimate + 1) * w ==> v - estimate * w < w
  {
  }

  /** The estimate from the top digits is not too large. */
  lemma EstimateLow(v: int, top: int, w: int, otherTop: int, estimate: int, p: int)
    requires 0 <= p && 0 <= estimate && estimate * (otherTop + 1) <= top
    requires top * p <= v && w <= (otherTop + 1) * p
    ensures estimate * w <= v
  {
    MulMono(w, (otherTop + 1) * p, estimate);
    MulAssoc(estimate, otherTop + 1, p);
    MulMono(estimate * (otherTop + 1), top, p);
  }

  /** Nor is it too small when even the top digits do not admit one more. */
  lemma EstimateHigh(v: int, top: int, w: int, otherTop: int, estimate: int, q: int, p: int)
    requires 0 <= q <= p && 0 <= estimate && 0 <= top < otherTop * (estimate + 1)
    requires v < (top + 1) * q && otherTop * p <= w
    ensures v < (estimate + 1) * w
  {
    MulMono(q, p, top + 1);
    MulMono(top + 1, otherTop * (estimate + 1), p);
    MulMono(otherTop * p, w, estimate + 1);
    MulAssoc(estimate + 1, otherTop, p);
  }

  lemma EstimateFits(v: int, top: int, w: int, otherTop: int, estimate: int, length: nat, n: nat)
    requires 0 < length <= n && 0 <= top < BASE && 0 < otherTop < BASE
    requires estimate == top / (otherTop + 1)
    requires top * P(length - 1) <= v < (top + 1) * P(length - 1)
    requires otherTop * P(n - 1) <= w < (otherTop + 1) * P(n - 1)
    requires length == n || (BASE - 1) * P(n - 1) < w
    ensures 0 <= estimate <= top && estimate * w <= v
    ensures otherTop * (estimate + 1) <= 2 * BASE
    ensures otherTop * (estimate + 1) > top ==> v < (estimate + 1) * w
  {
    PMono(length - 1, n - 1);
    hide P;
    EstimateBelow(top, otherTop, estimate);
    if length < n && otherTop < BASE - 1 {
      MulMono(otherTop + 1, BASE - 1, P(n - 1));
    }
    if length < n {
      assert estimate == 0;
      MulMono(0, top, P(length - 1));
    } else {
      EstimateLow(v, top, w, otherTop, estimate, P(n - 1));
    }
    if otherTop * (estimate + 1) > top {
      EstimateHigh(v, top, w, otherTop, estimate, P(length - 1), P(n - 1));
    }
  }

  lemma EstimateBelow(top: int, otherTop: int, estimate: int)
    requires 0 <= top < BASE && 0 < otherTop < BASE && estimate == top / (otherTop + 1)
    ensures 0 <= estimate <= top && estimate * (otherTop + 1) <= top
    ensures otherTop * (estimate + 1) <= 2 * BASE
    ensures otherTop == BASE - 1 ==> estimate == 0
  {
    QuotientBelow(top, otherTop + 1, top + 1);
    assert otherTop * (estimate + 1) == estimate * (otherTop + 1) - estimate + otherTop;
    if otherTop == BASE - 1 {
      DivModUnique(top, BASE, 0, top);
    }
  }

  /** The single-digit shortcut: only the top digit of the remainder changes. */
  lemma TopReplaced(s: seq<int>, t: seq<int>, n: nat, e: nat, top: int, d: int, q: int)
    requires 0 < n <= |s| && t == s[n - 1 := top - d * q] && s[n - 1] == top
    requires Digits(s, n) && 0 < d && q == top / d
    ensures 0 <= q && 0 <= top - d * q < d && top - d * q <= top
    ensures Val(t, n) * P(e) == Val(s, n) * P(e) - q * (d * P(n + e - 1))
    ensures 0 <= Val(t, n) * P(e) < d * P(n + e - 1)
  {
    ValFrame(s, t, n - 1);
    assert Val(s, n) == Val(s, n - 1) + top * P(n - 1);
    assert Val(t, n) == Val(s, n - 1) + (top - d * q) * P(n - 1);
    hide Val;
    hide P;
    RemainderBounds(top, d, q);
    ValBound(s, n - 1);
    PAdd(n - 1, e);
    ReplaceTop(Val(s, n - 1), top, d, q, P(n - 1), P(e));
    ReplacedBound(Val(s, n - 1), top - d * q, d, P(n - 1), P(e));
  }

  lemma RemainderBounds(top: int, d: int, q: int)
    requires 0 <= top && 0 < d && q == top / d
    ensures 0 <= q && 0 <= top - d * q < d && top - d * q <= top
  {
    MulMono(1, d, top + 1);
    QuotientBelow(top, d, top + 1);
    MulMono(0, q, d);
  }

  lemma ReplacedBound(low: int, r: int, d: int, p: int, e: int)
    requires 0 <= low < p && 0 <= r < d && 0 < e
    ensures 0 <= (low + r * p) * e < d * (p * e)
  {
    MulMono(r + 1, d, p);
    MulMono(0, r, p);
    MulLess(low + r * p, d * p, e);
    MulAssoc(d, p, e);
    MulMono(0, low + r * p, e);
  }

  lemma ReplaceTop(low: int, top: int, d: int, q: int, p: int, e: int)
    ensures (low + (top - d * q) * p) * e == (low + top * p) * e - q * (d * (p * e))
  {
    assert (top - d * q) * p == top * p - (d * q) * p;
    assert ((d * q) * p) * e == q * (d * (p * e));
  }

  function Sign(x: int): int {
    if x < 0 then -1 else if x > 0 then 1 else 0
  }

  lemma DigitOrder(low1: int, x: int, low2: int, y: int, p: int)
    requires 0 < p && low1 < p && 0 <= low2 && x < y
    ensures low1 + x * p < low2 + y * p
  {
    MulMono(x + 1, y, p);
  }

  lemma NextLead(lead: int, c: int, a: int, b: int, p: int)
    ensures (c + lead * BASE - a - b) * p == lead * (BASE * p) + c * p - a * p - b * p
  {
  }

  lemma FactorsFit(m: nat, p: nat, t: nat, five: nat, two: nat, room: nat)
    requires p > 0 && two > 0 && m * p < t && t * (five * two) <= room && five > 0
    ensures m * five < room && m * p * (five * two) < room
  {
    var ten := five * two;
    MulMono(1, two, five);
    MulLess(m * p, t, ten);
    MulMono(1, p, m);
    MulMono(m, m * p, ten);
    MulMono(five, ten, m);
  }

  /** It happens: 2^56 has three digits and 2^56 - 1 has two, and one digit is left. */
  lemma LengthsMayDiffer()
    ensures var v, w := 0x100_0000_0000_0000, 0xFF_FFFF_FFFF_FFFF;
      P(2) <= v < P(3) && P(1) <= w < P(2) && v < 0x1_0000 * w && EndsShorter(v, w, 2)
  {
    assert P(1) == BASE && P(2) == BASE * BASE && P(3) == BASE * BASE * BASE;
    DivModUnique(0x100_0000_0000_0000, 0xFF_FFFF_FFFF_FFFF, 1, 1);
  }

  /** The digits from `from` to i make r. */
  ghost predicate Chunk(value: seq<char>, from: nat, i: nat, r: nat) {
    from <= i <= |value| && r < Pow(10, i - from) && Number(value, i) == Number(value, from) * Pow(10, i - from) + r
  }

  lemma ChunkStart(value: seq<char>, from: nat)
    requires from <= |value|
    ensures Chunk(value, from, from, 0)
  {
  }

  lemma ChunkStep(value: seq<char>, from: nat, i: nat, r: nat)
    requires Chunk(value, from, i, r) && i < |value| && IsDigit(value[i])
    ensures Chunk(value, from, i + 1, r * 10 + DigitOf(value[i]))
  {
    var length := i + 1;
    assert Number(value, length) == 10 * Number(value, i) + DigitOf(value[i]);
    MulSwap(10, 1, Number(value, from), Pow(10, i - from));
    assert Pow(10, length - from) == 10 * Pow(10, i - from);
    assert Number(value, from) * (10 * Pow(10, i - from)) == 10 * (Number(value, from) * Pow(10, i - from));
  }

  lemma ChunkFits(value: seq<char>, from: nat, i: nat, r: nat)
    requires Chunk(value, from, i, r) && i - from <= 19
    ensures r < TWO64
  {
    PowMono(10, i - from, 19);
    Ten19();
  }

  /** A chunk of up to 19 digits. */
  method ReadUInt64(value: seq<char>, from: nat, digitsToRead: nat) returns (result: uint64)
    requires from + digitsToRead <= |value| && AllDigits(value, |value|) && digitsToRead <= 19
    ensures Number(value, from + digitsToRead) == Number(value, from) * Pow(10, digitsToRead) + result
  {
    hide Number, Pow, Chunk;
    result := 0;
    ChunkStart(value, from);
    for i := from to from + digitsToRead
      invariant Chunk(value, from, i, result)
    {
      var digit: nat := DigitOf(value[i]);
      ChunkStep(value, from, i, result);
      ChunkFits(value, from, i + 1, result * 10 + digit);
      result := result * 10 + digit;
    }
    ChunkNumber(value, from, from + digitsToRead, result);
  }

  lemma ChunkNumber(value: seq<char>, from: nat, i: nat, r: nat)
    requires Chunk(value, from, i, r)
    ensures i <= |value| && from <= i && Number(value, i) == Number(value, from) * Pow(10, i - from) + r
  {
  }

  lemma Ten19()
    ensures Pow(10, 19) == 10000000000000000000
  {
    assert Pow(10, 5) == 100000 && Pow(10, 4) == 10000;
    hide Pow;
    PowAdd(10, 5, 5);
    assert Pow(10, 10) == 10000000000;
    PowAdd(10, 10, 5);
    assert Pow(10, 15) == 1000000000000000;
    PowAdd(10, 15, 4);
  }

  // kFive27, kFive13 and kFive1_to_12 of MultiplyByPowerOfTen
  const FIVE27: uint64 := 0x6765_c793_fa10_079d
  const FIVE13: uint32 := 1220703125
  const FIVE1_TO_12: seq<uint32> :=
    [5, 25, 125, 625, 3125, 15625, 78125, 390625, 1953125, 9765625, 48828125, 244140625]

  lemma FiveTable(n: nat)
    requires 1 <= n <= 12
    ensures FIVE1_TO_12[n - 1] == Pow(5, n)
  {
    assert Pow(5, 1) == 5;
    assert Pow(5, 2) == 25;
    assert Pow(5, 3) == 125;
    assert Pow(5, 4) == 625;
    assert Pow(5, 5) == 3125;
    assert Pow(5, 6) == 15625;
    assert Pow(5, 7) == 78125;
    assert Pow(5, 8) == 390625;
    assert Pow(5, 9) == 1953125;
    assert Pow(5, 10) == 9765625;
    assert Pow(5, 11) == 48828125;
    assert Pow(5, 12) == 244140625;
  }

  lemma FiveConstants()
    ensures FIVE13 == Pow(5, 13) && FIVE27 == Pow(5, 27)
  {
    FiveTable(12);
    assert Pow(5, 13) == 5 * Pow(5, 12);
    PowAdd(5, 13, 13);
    assert Pow(5, 27) == 5 * Pow(5, 26);
  }

  /** What is left of a multiplication by a power of five. */
  ghost predicate LeftOver(m: int, n: nat, goal: int) {
    m >= 0 && m * Pow(5, n) == goal
  }

  lemma NothingLeft(m: int, goal: int)
    requires LeftOver(m, 0, goal)
    ensures m == goal
  {
    PowZero(5);
  }

  /** Multiplying by part of the power leaves the rest of it to do, and stays in range. */
  lemma PeelPower(m: int, f: int, k: nat, n: nat, goal: int)
    requires k <= n && f == Pow(5, k) && LeftOver(m, n, goal)
    ensures LeftOver(m * f, n - k, goal)
    ensures 0 <= m * f <= goal
  {
    PowAdd(5, k, n - k);
    MulAssoc(m, f, Pow(5, n - k));
    MulMono(0, m, f);
    MulMono(1, Pow(5, n - k), m * f);
  }
}
