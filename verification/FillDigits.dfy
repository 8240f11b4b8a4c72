/** Writing the digits of machine integers into a buffer: the `FillDigits*` functions,
    `RoundUp` and `TrimZeros` of fixed-dtoa.cc.
  */
module FillDigits {
  import opened Powers
  import opened Decimals

  const TEN7: uint32 := 10000000

  /** Digits that were written backwards: the first has the lowest weight. */
  function Backwards(s: seq<char>, from: nat, n: nat): int
    requires from + n <= |s|
    decreases n
  {
    if n == 0 then 0 else DigitOf(s[from]) + 10 * Backwards(s, from + 1, n - 1)
  }

  lemma {:induction false} BackwardsAppend(s: seq<char>, t: seq<char>, from: nat, n: nat)
    requires from + n < |s| && |t| == |s|
    requires forall i :: from <= i < from + n ==> s[i] == t[i]
    ensures Backwards(t, from, n + 1) == Backwards(s, from, n) + DigitOf(t[from + n]) * Pow(10, n)
    decreases n
  {
    hide DigitOf;
    if n == 0 {
      assert Backwards(t, from + 1, 0) == 0;
    } else {
      BackwardsAppend(s, t, from + 1, n - 1);
      TenDeeper(DigitOf(t[from + n]), n);
      hide Pow;
    }
  }

  lemma TenDeeper(d: int, n: nat)
    requires n > 0
    ensures d * Pow(10, n) == 10 * (d * Pow(10, n - 1))
  {
    assert Pow(10, n) == 10 * Pow(10, n - 1);
    hide Pow;
    assert d * (10 * Pow(10, n - 1)) == 10 * (d * Pow(10, n - 1));
  }

  /** Exchanging them makes the number. */
  lemma {:induction false} BackwardsReversed(s: seq<char>, t: seq<char>, at: nat, from: nat, n: nat)
    requires at + n <= |t| && from + n <= |s|
    requires forall i :: at <= i < at + n ==> t[i] == s[from + at + n - 1 - i]
    ensures Number(t, at + n) == Number(t, at) * Pow(10, n) + Backwards(s, from, n)
    decreases n
  {
    if n > 0 {
      BackwardsReversed(s, t, at, from + 1, n - 1);
      assert t[at + n - 1] == s[from];
      assert Number(t, at + n) == 10 * Number(t, at + n - 1) + DigitOf(t[at + n - 1]);
      TenOut(Number(t, at), Pow(10, n - 1));
    }
  }

  /** Writes exactly requestedLength digits, from the last to the first. */
  method FillDigits32FixedLength(number: uint32, requestedLength: nat, buffer: array<char>, length: nat)
    returns (newLength: nat)
    requires length + requestedLength <= buffer.Length && AllDigits(buffer[..], length)
    modifies buffer
    ensures newLength == length + requestedLength && AllDigits(buffer[..], newLength)
    ensures Number(buffer[..], newLength)
         == Number(old(buffer[..]), length) * Pow(10, requestedLength) + number % Pow(10, requestedLength)
  {
    hide Number, Pow;
    var n: uint32 := number;
    var i: int := requestedLength - 1;
    ghost var s := buffer[..];
    LowerStart(s, number, length, requestedLength);
    while i >= 0
      invariant -1 <= i < requestedLength
      invariant forall j :: 0 <= j < length ==> buffer[j] == s[j]
      invariant forall j :: length + i < j < length + requestedLength ==> IsDigit(buffer[j])
      invariant Lower(buffer[..], number, n, length, i + 1, requestedLength - 1 - i)
      decreases i + 1
    {
      ghost var t := buffer[..];
      buffer[length + i] := CharOf(n % 10);
      LowerStep(t, buffer[..], number, n, length, i + 1, requestedLength - 1 - i);
      n := n / 10;
      i := i - 1;
    }
    newLength := length + requestedLength;
    NumberFrame(s, buffer[..], length);
    LowerNumber(buffer[..], number, n, length, requestedLength);
  }

  /** The number written in s[from..from + k]. */
  function Part(s: seq<char>, from: nat, k: nat): int
    requires from + k <= |s|
  {
    if k == 0 then 0 else 10 * Part(s, from, k - 1) + DigitOf(s[from + k - 1])
  }

  /** The k digits from place length + i on are the lowest digits of number. */
  ghost predicate Lower(s: seq<char>, number: int, n: int, length: nat, i: nat, k: nat) {
    length + i + k <= |s| && n >= 0 && number == n * Pow(10, k) + Part(s, length + i, k) &&
    0 <= Part(s, length + i, k) < Pow(10, k)
  }

  lemma {:induction false} PartPrepend(s: seq<char>, t: seq<char>, from: nat, k: nat)
    requires from + 1 + k <= |s| == |t|
    requires forall j :: from < j < from + 1 + k ==> s[j] == t[j]
    ensures Part(t, from, k + 1) == DigitOf(t[from]) * Pow(10, k) + Part(s, from + 1, k)
  {
    if k == 0 {
      assert Part(t, from, 0) == 0;
    } else {
      PartPrepend(s, t, from, k - 1);
      assert t[from + 1 + k - 1] == s[from + 1 + k - 1];
      MulAssoc(10, Pow(10, k - 1), DigitOf(t[from]));
    }
  }

  lemma LowerStart(s: seq<char>, number: nat, length: nat, i: nat)
    requires length + i <= |s|
    ensures Lower(s, number, number, length, i, 0)
  {
  }

  lemma LowerStep(s: seq<char>, t: seq<char>, number: int, n: int, length: nat, i: nat, k: nat)
    requires i > 0 && Lower(s, number, n, length, i, k) && length + i + k <= |s|
    requires t == s[length + i - 1 := CharOf(n % 10)]
    ensures Lower(t, number, n / 10, length, i - 1, k + 1)
  {
    var from := length + i - 1;
    PartPrepend(s, t, from, k);
    MoveDigit(n, Pow(10, k));
  }

  lemma MoveDigit(n: nat, p: nat)
    requires p > 0
    ensures n * p == n / 10 * (10 * p) + n % 10 * p
    ensures 0 <= n % 10 * p <= 9 * p && (n > 0 ==> n * p >= p)
  {
    assert n == n / 10 * 10 + n % 10;
    assert (n / 10 * 10 + n % 10) * p == n / 10 * (10 * p) + n % 10 * p;
    MulMono(n % 10, 9, p);
    MulMono(0, n % 10, p);
    MulMono(if n > 0 then 1 else 0, n, p);
  }

  lemma {:induction false} NumberPart(s: seq<char>, length: nat, k: nat)
    requires length + k <= |s|
    ensures Number(s, length + k) == Number(s, length) * Pow(10, k) + Part(s, length, k)
  {
    if k > 0 {
      NumberPart(s, length, k - 1);
      TenOut(Number(s, length), Pow(10, k - 1));
    }
  }

  lemma LowerNumber(s: seq<char>, number: int, n: int, length: nat, k: nat)
    requires Lower(s, number, n, length, 0, k)
    ensures Number(s, length + k) == Number(s, length) * Pow(10, k) + number % Pow(10, k)
  {
    NumberPart(s, length, k);
    DivModUnique(number, Pow(10, k), n, Part(s, length, k));
  }

  /** The digits of number, without leading zeros, were appended. */
  ghost predicate Appended(s: seq<char>, t: seq<char>, length: nat, newLength: nat, number: nat) {
    length <= newLength <= |t| && length <= |s| && AllDigits(t, newLength) &&
    Number(t, newLength) == Number(s, length) * Pow(10, newLength - length) + number &&
    number < Pow(10, newLength - length) && (newLength > length ==> number >= Pow(10, newLength - length - 1))
  }

  /** Writes the digits in reverse order and exchanges them. */
  method FillDigits32(number: uint32, buffer: array<char>, length: nat) returns (newLength: nat)
    requires length <= buffer.Length && AllDigits(buffer[..], length)
    requires number < Pow(10, buffer.Length - length)
    modifies buffer
    ensures Appended(old(buffer[..]), buffer[..], length, newLength, number)
  {
    hide Number, Pow;
    ghost var s := buffer[..];
    var n: uint32 := number;
    var numberLength: nat := 0;
    BackwardsStart(s, length, number);
    while n != 0
      invariant length + numberLength <= buffer.Length
      invariant forall j :: 0 <= j < length ==> buffer[j] == s[j]
      invariant forall j :: length <= j < length + numberLength ==> IsDigit(buffer[j])
      invariant Reversed(buffer[..], length, numberLength, n, number)
      decreases n
    {
      ReversedRoom(buffer[..], length, numberLength, n, number, buffer.Length - length);
      ghost var t := buffer[..];
      var digit: nat := n % 10;
      buffer[length + numberLength] := CharOf(digit);
      ReversedStep(t, buffer[..], length, numberLength, n, number);
      n := n / 10;
      numberLength := numberLength + 1;
    }
    ghost var t := buffer[..];
    Exchange(buffer, length, numberLength);
    newLength := length + numberLength;
    NumberFrame(s, buffer[..], length);
    BackwardsReversed(t, buffer[..], length, length, numberLength);
    ReversedDone(t, length, numberLength, number);
  }

  /** Reverses part of the buffer. */
  method Exchange(buffer: array<char>, from: nat, n: nat)
    requires from + n <= buffer.Length
    modifies buffer
    ensures forall k :: from <= k < from + n ==> buffer[k] == old(buffer[from + from + n - 1 - k])
    ensures forall k :: 0 <= k < buffer.Length && !(from <= k < from + n) ==> buffer[k] == old(buffer[k])
  {
    var i: nat := from;
    var j: int := from + n - 1;
    while i < j
      invariant from <= i && j < from + n && i + j == 2 * from + n - 1 && i <= j + 1
      invariant forall k :: 0 <= k < buffer.Length && !(from <= k < i || j < k < from + n) ==> buffer[k] == old(buffer[k])
      invariant forall k :: from <= k < i || j < k < from + n ==> buffer[k] == old(buffer[from + from + n - 1 - k])
    {
      buffer[i], buffer[j] := buffer[j], buffer[i];
      i := i + 1;
      j := j - 1;
    }
  }

  /** n is what is left of number above the digits written backwards. */
  ghost predicate Reversed(s: seq<char>, from: nat, k: nat, n: int, number: nat) {
    from + k <= |s| && n >= 0 && number == n * Pow(10, k) + Backwards(s, from, k) &&
    0 <= Backwards(s, from, k) < Pow(10, k) && (n == 0 && k > 0 ==> number >= Pow(10, k - 1))
  }

  lemma BackwardsStart(s: seq<char>, from: nat, number: nat)
    requires from <= |s|
    ensures Reversed(s, from, 0, number, number)
  {
  }

  lemma ReversedRoom(s: seq<char>, from: nat, k: nat, n: nat, number: nat, room: nat)
    requires Reversed(s, from, k, n, number) && n > 0 && number < Pow(10, room)
    ensures k < room
  {
    MulMono(1, n, Pow(10, k));
    PowOrder(10, k, room);
  }

  lemma ReversedStep(s: seq<char>, t: seq<char>, from: nat, k: nat, n: nat, number: nat)
    requires Reversed(s, from, k, n, number) && n > 0 && from + k < |s| && t == s[from + k := CharOf(n % 10)]
    ensures Reversed(t, from, k + 1, n / 10, number)
  {
    BackwardsAppend(s, t, from, k);
    MoveDigit(n, Pow(10, k));
  }

  lemma ReversedDone(s: seq<char>, from: nat, k: nat, number: nat)
    requires Reversed(s, from, k, 0, number)
    ensures number == Backwards(s, from, k) < Pow(10, k) && (k > 0 ==> number >= Pow(10, k - 1))
  {
  }

  lemma Ten7()
    ensures Pow(10, 7) == TEN7 && Pow(10, 14) == TEN7 * TEN7 && Pow(10, 3) == 1000 && Pow(10, 0) == 1
  {
    assert Pow(10, 3) == 1000;
    assert Pow(10, 5) == 100000;
    assert Pow(10, 7) == 10000000;
    PowAdd(10, 7, 7);
  }

  /** Writes 3 + 7 + 7 digits. */
  method FillDigits64FixedLength(number: uint64, buffer: array<char>, length: nat) returns (newLength: nat)
    requires length + 17 <= buffer.Length && AllDigits(buffer[..], length)
    requires number < 1000 * TEN7 * TEN7
    modifies buffer
    ensures newLength == length + 17 && AllDigits(buffer[..], newLength)
    ensures Number(buffer[..], newLength) == Number(old(buffer[..]), length) * Pow(10, 17) + number
  {
    hide Number, Pow;
    ghost var x := Number(buffer[..], length);
    var n: uint64 := number;
    var part2: uint32 := n % TEN7;
    n := n / TEN7;
    var part1: uint32 := n % TEN7;
    var part0: uint32 := n / TEN7;
    Ten7();
    newLength := FillDigits32FixedLength(part0, 3, buffer, length);
    newLength := FillDigits32FixedLength(part1, 7, buffer, newLength);
    newLength := FillDigits32FixedLength(part2, 7, buffer, newLength);
    PowAdd(10, 3, 14);
  }

  lemma AppendMore(s: seq<char>, t: seq<char>, u: seq<char>, length: nat, newLength: nat, number: nat, part: nat)
    requires Appended(s, t, length, newLength, number) && number > 0 && part < TEN7
    requires newLength + 7 <= |u| && AllDigits(u, newLength + 7)
    requires Number(u, newLength + 7) == Number(t, newLength) * TEN7 + part
    ensures Appended(s, u, length, newLength + 7, number * TEN7 + part)
  {
    hide Number;
    var k := newLength - length;
    Ten7();
    PowAdd(10, k, 7);
    MulAssoc(Number(s, length), Pow(10, k), TEN7);
    if k > 0 {
      PowAdd(10, k - 1, 7);
    }
  }

  /** Seven more digits behind those of a number. */
  method FillSeven(part: uint32, buffer: array<char>, length: nat, ghost s: seq<char>, ghost start: nat, ghost number: nat)
    returns (newLength: nat)
    requires Appended(s, buffer[..], start, length, number) && number > 0 && part < TEN7 && length + 7 <= buffer.Length
    modifies buffer
    ensures newLength == length + 7 && Appended(s, buffer[..], start, newLength, number * TEN7 + part)
  {
    hide Number, Pow, Appended;
    Ten7();
    ghost var t := buffer[..];
    AppendedLength(s, t, start, length, number);
    newLength := FillDigits32FixedLength(part, 7, buffer, length);
    AppendMore(s, t, buffer[..], start, length, number, part);
  }

  /** There is room for seven more digits if there is room for the number. */
  lemma RoomForMore(s: seq<char>, t: seq<char>, length: nat, newLength: nat, upper: nat, number: nat, more: nat, room: nat)
    requires Appended(s, t, length, newLength, upper) && upper > 0
    requires upper * Pow(10, more) <= number < Pow(10, room)
    ensures newLength - length + more <= room
  {
    var k := newLength - length;
    if k > 0 {
      MulMono(Pow(10, k - 1), upper, Pow(10, more));
      PowAdd(10, k - 1, more);
      PowOrder(10, k - 1 + more, room);
    }
  }

  /** A number below 10^k has at most k digits. */
  lemma AppendedBound(s: seq<char>, t: seq<char>, length: nat, newLength: nat, number: nat, k: nat)
    requires Appended(s, t, length, newLength, number) && number < Pow(10, k)
    ensures newLength - length <= k
  {
    if newLength > length {
      PowOrder(10, newLength - length - 1, k);
    }
  }

  method FillDigits64(number: uint64, buffer: array<char>, length: nat) returns (newLength: nat)
    requires length <= buffer.Length && AllDigits(buffer[..], length)
    requires number < Pow(10, buffer.Length - length)
    modifies buffer
    ensures Appended(old(buffer[..]), buffer[..], length, newLength, number)
  {
    hide Number, Pow, Appended;
    ghost var s, room := buffer[..], buffer.Length - length;
    var n: uint64 := number;
    var part2: uint32 := n % TEN7;
    n := n / TEN7;
    var part1: uint32 := n % TEN7;
    var part0: uint32 := n / TEN7;
    Ten7();
    if part0 != 0 {
      newLength := FillDigits32(part0, buffer, length);
      ghost var t := buffer[..];
      AppendedLength(s, t, length, newLength, part0);
      RoomForMore(s, t, length, newLength, part0, number, 14, room);
      newLength := FillSeven(part1, buffer, newLength, s, length, part0);
      newLength := FillSeven(part2, buffer, newLength, s, length, part0 * TEN7 + part1);
    } else if part1 != 0 {
      newLength := FillDigits32(part1, buffer, length);
      ghost var t := buffer[..];
      AppendedLength(s, t, length, newLength, part1);
      RoomForMore(s, t, length, newLength, part1, number, 7, room);
      newLength := FillSeven(part2, buffer, newLength, s, length, part1);
    } else {
      newLength := FillDigits32(part2, buffer, length);
    }
  }

  lemma AppendedLength(s: seq<char>, t: seq<char>, length: nat, newLength: nat, number: nat)
    requires Appended(s, t, length, newLength, number)
    ensures length <= newLength <= |t| && AllDigits(t, newLength)
  {
  }

  /** Adds one unit in the last place; an empty buffer stands for zero. A carry past the
      first digit moves the decimal point instead of growing the buffer. */
  method RoundUp(buffer: array<char>, length: nat, decimalPoint: int) returns (newLength: nat, newPoint: int)
    requires length <= buffer.Length && AllDigits(buffer[..], length)
    requires length == 0 ==> decimalPoint == 0 < buffer.Length
    modifies buffer
    ensures newLength <= buffer.Length && AllDigits(buffer[..], newLength)
    ensures newLength == if length == 0 then 1 else length
    ensures var up := (newPoint - newLength) - (decimalPoint - length);
      0 <= up <= 1 && Number(buffer[..], newLength) * Pow(10, up) == Number(old(buffer[..]), length) + 1
  {
    hide Number;
    ghost var s := buffer[..];
    TenTo01();
    EmptyNumber(s);
    if length == 0 {
      buffer[0] := '1';
      NumberAppend(s, buffer[..], 0, '1');
      return 1, 1;
    }
    buffer[length - 1] := (buffer[length - 1] as int + 1) as char;
    LastDigit(s, buffer[..], length);
    newLength, newPoint := length, decimalPoint;
    var pastTop := PropagateCarry(buffer, length);
    if pastTop {
      newPoint := newPoint + 1;
    }
  }

  lemma TenTo01()
    ensures Pow(10, 0) == 1 && Pow(10, 1) == 10
  {
  }

  lemma LastDigit(s: seq<char>, t: seq<char>, n: nat)
    requires 0 < n <= |s| == |t|
    requires forall i :: 0 <= i < n - 1 ==> s[i] == t[i]
    ensures Number(t, n) - Number(s, n) == DigitOf(t[n - 1]) - DigitOf(s[n - 1])
  {
    NumberFrame(s, t, n - 1);
  }

  /** Removes zeros from both ends. */
  method TrimZeros(buffer: array<char>, length: nat, decimalPoint: int) returns (newLength: nat, newPoint: int)
    requires length <= buffer.Length && AllDigits(buffer[..], length)
    modifies buffer
    ensures newLength <= length && AllDigits(buffer[..], newLength)
    ensures newLength > 0 ==> buffer[0] != '0' && buffer[newLength - 1] != '0'
    ensures var trailing := (newPoint - newLength) - (decimalPoint - length);
      trailing >= 0 && Number(buffer[..], newLength) * Pow(10, trailing) == Number(old(buffer[..]), length)
  {
    hide Number, Pow;
    ghost var s := buffer[..];
    newLength := length;
    PowZero(10);
    while newLength > 0 && buffer[newLength - 1] == '0'
      invariant buffer[..] == s
      invariant newLength <= length && Number(s, newLength) * Pow(10, length - newLength) == Number(s, length)
    {
      OneZeroLess(s, newLength, length - newLength);
      newLength := newLength - 1;
    }
    var firstNonZero: nat := 0;
    while firstNonZero < newLength && buffer[firstNonZero] == '0'
      invariant buffer[..] == s
      invariant firstNonZero <= newLength && forall i :: 0 <= i < firstNonZero ==> s[i] == '0'
    {
      firstNonZero := firstNonZero + 1;
    }
    newPoint := decimalPoint;
    if firstNonZero != 0 {
      var i: nat := firstNonZero;
      while i < newLength
        invariant firstNonZero <= i <= newLength
        invariant forall j :: 0 <= j < i - firstNonZero ==> buffer[j] == s[j + firstNonZero]
        invariant forall j :: i - firstNonZero <= j < buffer.Length ==> buffer[j] == s[j]
      {
        buffer[i - firstNonZero] := buffer[i];
        i := i + 1;
      }
      LeadingZeros(s, buffer[..], firstNonZero, newLength - firstNonZero);
      newLength := newLength - firstNonZero;
      newPoint := newPoint - firstNonZero;
    }
  }

}
