/** Decimal digits held in character buffers. */
module Decimals {
  import opened Powers

  predicate IsDigit(c: char) {
    '0' <= c <= '9'
  }

  /** The number a character stands for; ':', which follows '9', counts as ten. */
  function DigitOf(c: char): int {
    c as int - '0' as int
  }

  function CharOf(d: nat): (c: char)
    requires d <= 10
    ensures DigitOf(c) == d && (d <= 9 ==> IsDigit(c))
  {
    ('0' as int + d) as char
  }

  /** The decimal number spelled by the first n characters. */
  function Number(s: seq<char>, n: nat): int
    requires n <= |s|
  {
    if n == 0 then 0 else 10 * Number(s, n - 1) + DigitOf(s[n - 1])
  }

  ghost predicate AllDigits(s: seq<char>, n: nat)
    requires n <= |s|
  {
    forall i :: 0 <= i < n ==> IsDigit(s[i])
  }

  lemma {:induction false} NumberFrame(s: seq<char>, t: seq<char>, n: nat)
    requires n <= |s| && n <= |t|
    requires forall i :: 0 <= i < n ==> s[i] == t[i]
    ensures Number(s, n) == Number(t, n)
  {
    if n > 0 {
      NumberFrame(s, t, n - 1);
    }
  }

  lemma {:induction false} NumberBound(s: seq<char>, n: nat)
    requires n <= |s| && AllDigits(s, n)
    ensures 0 <= Number(s, n) < Pow(10, n)
  {
    if n > 0 {
      NumberBound(s, n - 1);
    }
  }

  /** Writing a digit behind the first n characters. */
  lemma NumberAppend(s: seq<char>, t: seq<char>, n: nat, c: char)
    requires n < |s| && t == s[n := c]
    ensures Number(t, n + 1) == 10 * Number(s, n) + DigitOf(c)
  {
    NumberFrame(s, t, n);
  }

  lemma EmptyNumber(s: seq<char>)
    ensures Number(s, 0) == 0
  {
  }

  /** Leaving out a zero at the end, ... */
  lemma OneZeroLess(s: seq<char>, n: nat, k: nat)
    requires 0 < n <= |s| && s[n - 1] == '0'
    ensures Number(s, n) * Pow(10, k) == Number(s, n - 1) * Pow(10, k + 1)
  {
    assert Number(s, n) == 10 * Number(s, n - 1);
    MulRight(Number(s, n - 1), 10, Pow(10, k));
  }

  /** ... or zeros at the front. */
  lemma {:induction false} LeadingZeros(s: seq<char>, t: seq<char>, zeros: nat, n: nat)
    requires zeros + n <= |s| && n <= |t|
    requires forall i :: 0 <= i < zeros ==> s[i] == '0'
    requires forall j :: 0 <= j < n ==> t[j] == s[j + zeros]
    ensures Number(t, n) == Number(s, zeros + n)
  {
    if n > 0 {
      LeadingZeros(s, t, zeros, n - 1);
      assert t[n - 1] == s[zeros + n - 1];
    } else if zeros > 0 {
      LeadingZeros(s, t, zeros - 1, 0);
    }
  }

  /** Writes one digit behind the first n. */
  method PutDigit(buffer: array<char>, n: nat, digit: nat)
    requires n < buffer.Length && digit <= 10
    modifies buffer
    ensures Number(buffer[..], n + 1) == 10 * Number(old(buffer[..]), n) + digit
    ensures Number(buffer[..], n) == Number(old(buffer[..]), n)
    ensures DigitOf(buffer[n]) == digit && (digit <= 9 ==> IsDigit(buffer[n]))
    ensures forall i :: 0 <= i < n ==> buffer[i] == old(buffer[i])
  {
    ghost var s := buffer[..];
    buffer[n] := CharOf(digit);
    NumberAppend(s, buffer[..], n, CharOf(digit));
    NumberFrame(s, buffer[..], n);
  }

  /** A leading digit followed by zeros. */
  lemma {:induction false} NumberZeros(s: seq<char>, n: nat)
    requires 0 < n <= |s|
    requires forall i :: 1 <= i < n ==> s[i] == '0'
    ensures Number(s, n) == DigitOf(s[0]) * Pow(10, n - 1)
  {
    if n == 1 {
      assert Number(s, 1) == 10 * Number(s, 0) + DigitOf(s[0]);
    } else {
      NumberZeros(s, n - 1);
    }
  }

  /** Moving a ten from place i to a one at place i - 1 does not change the number. */
  lemma {:induction false} CarryKeepsNumber(s: seq<char>, t: seq<char>, i: nat, n: nat)
    requires 0 < i < n <= |s| && |t| == |s|
    requires DigitOf(s[i]) == 10 && DigitOf(t[i]) == 0 && DigitOf(t[i - 1]) == DigitOf(s[i - 1]) + 1
    requires forall j :: 0 <= j < n && j != i && j != i - 1 ==> s[j] == t[j]
    ensures Number(t, n) == Number(s, n)
  {
    if n == i + 1 {
      NumberFrame(s, t, i - 1);
      assert Number(s, i) == 10 * Number(s, i - 1) + DigitOf(s[i - 1]);
      assert Number(t, i) == 10 * Number(t, i - 1) + DigitOf(t[i - 1]);
    } else {
      CarryKeepsNumber(s, t, i, n - 1);
    }
  }

  /** The last digit may be a ':' standing for ten: carries it upwards. If the carry goes
      past the first digit, the digits become 1000..., ten times too small, which the
      caller makes up for by moving the decimal point. */
  method PropagateCarry(buffer: array<char>, length: nat) returns (pastTop: bool)
    requires 0 < length <= buffer.Length
    requires AllDigits(buffer[..], length - 1) && '0' <= buffer[length - 1] <= ':'
    modifies buffer
    ensures AllDigits(buffer[..], length)
    ensures Number(old(buffer[..]), length) == Number(buffer[..], length) * (if pastTop then 10 else 1)
    ensures pastTop ==> Number(buffer[..], length) == Pow(10, length - 1)
  {
    ghost var s := buffer[..];
    var i: nat := length - 1;
    while i > 0 && buffer[i] == ':'
      invariant i < length && '0' <= buffer[i] <= ':'
      invariant forall j :: 0 <= j < length && j != i ==> IsDigit(buffer[j])
      invariant forall j :: i < j < length ==> buffer[j] == '0'
      invariant Number(buffer[..], length) == Number(s, length)
    {
      ghost var t := buffer[..];
      buffer[i] := '0';
      buffer[i - 1] := (buffer[i - 1] as int + 1) as char;
      CarryKeepsNumber(t, buffer[..], i, length);
      i := i - 1;
    }
    pastTop := false;
    if buffer[0] == ':' {
      NumberZeros(buffer[..], length);
      buffer[0] := '1';
      NumberZeros(buffer[..], length);
      pastTop := true;
    }
  }
}
