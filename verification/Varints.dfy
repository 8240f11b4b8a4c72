/** Variable-length integers of the key-value log (CodedOutputData.cpp, CodedInputData.cpp,
    PBUtility.cpp): seven bits a byte, lowest first, the top bit set on all but the last.
  */
module Varints {
  import opened Powers

  const TWO31: int := 0x8000_0000

  type int32 = x: int | -TWO31 <= x < TWO31

  type Bytes = seq<uint8>

  /** A result of reading at a position: the value and the position behind it, or one of the
      exceptions that reading throws. */
  datatype Parsed<T> = Ok(value: T, next: nat) | Failed

  // pbRawVarint32Size
  function VarintSize(value: uint32): (size: nat)
    ensures 1 <= size <= 5
  {
    if value < 0x80 then 1
    else if value < 0x4000 then 2
    else if value < 0x20_0000 then 3
    else if value < 0x1000_0000 then 4
    else 5
  }

  /** The bytes written for a 32-bit value. */
  function VarintBytes(value: nat): (s: Bytes)
    ensures |s| > 0
  {
    if value < 0x80 then [value] else [value % 0x80 + 0x80] + VarintBytes(value / 0x80)
  }

  /** The size function predicts the bytes written. */
  lemma VarintBytesSize(value: uint32)
    ensures |VarintBytes(value)| == VarintSize(value)
  {
    var v1, v2 := value / 0x80, value / 0x80 / 0x80;
    var v3, v4 := v2 / 0x80, v2 / 0x80 / 0x80;
    assert value >= 0x80 ==> |VarintBytes(value)| == 1 + |VarintBytes(v1)|;
    assert v1 >= 0x80 ==> |VarintBytes(v1)| == 1 + |VarintBytes(v2)|;
    assert v2 >= 0x80 ==> |VarintBytes(v2)| == 1 + |VarintBytes(v3)|;
    assert v3 >= 0x80 ==> |VarintBytes(v3)| == 1 + |VarintBytes(v4)|;
    assert v4 < 0x80;
  }

  /** The number in the low seven bits of n bytes. */
  function LowGroups(s: Bytes, pos: nat, n: nat): (v: nat)
    requires pos + n <= |s|
    decreases n
  {
    if n == 0 then 0 else s[pos] % 0x80 + 0x80 * LowGroups(s, pos + 1, n - 1)
  }

  /** How many bytes there are up to the first with a clear top bit, of at most `limit`; 0
      if there is none. */
  function VarintLength(s: Bytes, pos: nat, limit: nat): (n: nat)
    ensures n <= limit && (n > 0 ==> pos + n <= |s| && s[pos + n - 1] < 0x80)
    ensures n > 0 ==> forall i :: pos <= i < pos + n - 1 ==> s[i] >= 0x80
    decreases limit
  {
    if limit == 0 || pos >= |s| then 0
    else if s[pos] < 0x80 then 1
    else
      var n := VarintLength(s, pos + 1, limit - 1);
      if n == 0 then 0 else n + 1
  }

  function ToInt32(x: nat): int32 {
    var y := x % TWO32;
    if y >= TWO31 then y - TWO32 else y
  }

  /** What a reader makes of the bytes at a position: up to ten bytes, of whose number only
      32 bits are kept, as a signed integer. */
  function VarintAt(s: Bytes, pos: nat): Parsed<int32> {
    var n := VarintLength(s, pos, 10);
    if n == 0 then Failed else Ok(ToInt32(LowGroups(s, pos, n)), pos + n)
  }

  /** Reading what was written. */
  lemma {:induction false} VarintReads(s: Bytes, pos: nat, value: nat, limit: nat)
    requires pos + |VarintBytes(value)| <= |s| && s[pos..pos + |VarintBytes(value)|] == VarintBytes(value)
    requires |VarintBytes(value)| <= limit
    ensures VarintLength(s, pos, limit) == |VarintBytes(value)|
    ensures LowGroups(s, pos, |VarintBytes(value)|) == value
    decreases limit
  {
    var b := VarintBytes(value);
    assert s[pos] == s[pos..pos + |b|][0] == b[0];
    if value >= 0x80 {
      var rest := VarintBytes(value / 0x80);
      assert b[1..] == rest;
      assert s[pos + 1..pos + 1 + |rest|] == s[pos..pos + |b|][1..];
      VarintReads(s, pos + 1, value / 0x80, limit - 1);
    } else {
      assert LowGroups(s, pos + 1, 0) == 0;
    }
  }

  /** The round trip, for the sizes that are written. */
  lemma VarintRoundTrip(s: Bytes, pos: nat, value: nat)
    requires value < TWO31
    requires pos + |VarintBytes(value)| <= |s| && s[pos..pos + |VarintBytes(value)|] == VarintBytes(value)
    ensures VarintAt(s, pos) == Ok(value, pos + VarintSize(value))
  {
    hide VarintBytes, VarintLength, LowGroups;
    VarintBytesSize(value);
    VarintReads(s, pos, value, 10);
  }
}
