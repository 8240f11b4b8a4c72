/** CodedInputData.cpp: reading variable-length integers, keys and values from a buffer.
    Every method reports failure where the source throws an exception.
  */
module CodedInput {
  import opened Powers
  import opened Varints
  import opened KeyValueHolders

  /** Reading from a buffer; every read reports failure where the source throws. */
  class CodedInputData {
    const bytes: Bytes
    var position: nat

    ghost predicate Valid()
      reads this
    {
      position <= |bytes|
    }

    constructor (bytes: Bytes)
      ensures Valid() && this.bytes == bytes && position == 0
    {
      this.bytes, position := bytes, 0;
    }

    predicate IsAtEnd()
      reads this
    {
      position == |bytes|
    }

    method Seek(addedSize: nat) returns (ok: bool)
      requires Valid()
      modifies this
      ensures Valid() && ok == (old(position) + addedSize <= |bytes|)
      ensures position == old(position) + if ok then addedSize else 0
    {
      ok := position + addedSize <= |bytes|;
      if ok {
        position := position + addedSize;
      }
    }

    method ReadRawByte() returns (ok: bool, b: uint8)
      requires Valid()
      modifies this
      ensures Valid() && ok == (old(position) < |bytes|)
      ensures ok ==> b == bytes[old(position)] && position == old(position) + 1
      ensures !ok ==> position == old(position)
    {
      if position == |bytes| {
        return false, 0;
      }
      b := bytes[position];
      position := position + 1;
      ok := true;
    }

    /** Reads a key and notes in the holder where it begins. */
    method ReadString(kvHolder: KeyValueHolder) returns (ok: bool, key: Bytes, holder: KeyValueHolder)
      requires Valid()
      modifies this
      ensures Valid()
      ensures match BlockAt(bytes, old(position))
        case Ok(k, next) => ok && key == k && position == next &&
          holder == kvHolder.(offset := ToUInt32(old(position)), keySize := ToUInt16(|k|))
        case Failed => !ok
    {
      key, holder := [], kvHolder.(offset := ToUInt32(position));
      var size: int32;
      ok, size := ReadRawVarint32();
      if !ok { return; }
      if size < 0 {
        return false, [], holder;
      }
      if size <= |bytes| - position {
        holder := holder.(keySize := ToUInt16(size));
        key := bytes[position..position + size];
        position := position + size;
      } else {
        ok := false;
      }
    }

    /** Skips a value and notes its place in the holder. */
    method ReadData(kvHolder: KeyValueHolder) returns (ok: bool, holder: KeyValueHolder)
      requires Valid() && kvHolder.offset <= position
      modifies this
      ensures Valid()
      ensures match BlockAt(bytes, old(position))
        case Ok(v, next) => ok && position == next && next >= |v| &&
          (next - |v| >= kvHolder.offset ==>
            holder == kvHolder.(computedKVSize := ToUInt16(next - |v| - kvHolder.offset), valueSize := ToUInt32(|v|)))
        case Failed => !ok
    {
      holder := kvHolder;
      var size: int32;
      ok, size := ReadRawVarint32();
      if !ok { return; }
      if size < 0 {
        return false, holder;
      }
      if size <= |bytes| - position {
        holder := holder.(computedKVSize := ToUInt16(position - kvHolder.offset), valueSize := size);
        position := position + size;
      } else {
        ok := false;
      }
    }

    /** Reads up to ten bytes, dropping what exceeds 32 bits. */
    method ReadRawVarint32() returns (ok: bool, value: int32)
      requires Valid()
      modifies this
      ensures Valid()
      ensures match VarintAt(bytes, old(position))
        case Ok(v, next) => ok && value == v && position == next
        case Failed => !ok
    {
      hide VarintAt, Collected, ToInt32, Pow, LowGroups, VarintLength;
      ghost var start := position;
      value := 0;
      var tmp: uint8;
      Weights();
      Collect(bytes, start, 0, 0, 1);
      ok, tmp := ReadRawByte();
      if !ok { return; }
      if tmp < 0x80 {
        SmallInt32(tmp);
        return true, tmp;
      }
      var result: uint32 := tmp % 0x80;
      Collect(bytes, start, 1, result, 0x80);
      ok, tmp := ReadRawByte();
      if !ok { return; }
      if tmp < 0x80 {
        result := result + tmp * 0x80;
      } else {
        result := result + tmp % 0x80 * 0x80;
        Collect(bytes, start, 2, result, 0x4000);
        ok, tmp := ReadRawByte();
        if !ok { return; }
        if tmp < 0x80 {
          result := result + tmp * 0x4000;
        } else {
          result := result + tmp % 0x80 * 0x4000;
          Collect(bytes, start, 3, result, 0x20_0000);
          ok, tmp := ReadRawByte();
          if !ok { return; }
          if tmp < 0x80 {
            result := result + tmp * 0x20_0000;
          } else {
            result := result + tmp % 0x80 * 0x20_0000;
            ok, value := ReadUpper(result);
            return;
          }
        }
      }
      ok, value := true, ToInt32(result);
    }

    /** Of the fifth byte four bits are kept; the bytes of a longer encoding are dropped. */
    method ReadUpper(result: uint32) returns (ok: bool, value: int32)
      requires Valid() && position >= 4 && Collected(bytes, position - 4, 4, result)
      modifies this
      ensures Valid()
      ensures match VarintAt(bytes, old(position) - 4)
        case Ok(v, next) => ok && value == v && position == next
        case Failed => !ok
    {
      hide VarintAt, Collected, ToInt32, Pow, LowGroups, VarintLength;
      ghost var start: nat := position - 4;
      value := 0;
      var tmp: uint8;
      Weights();
      CollectedBound(bytes, start, result);
      Collect(bytes, start, 4, result, 0x1000_0000);
      ok, tmp := ReadRawByte();
      if !ok { return; }
      CollectFifth(bytes, start, result, tmp);
      var kept: uint32 := result + tmp * 0x1000_0000 % TWO32;
      if tmp < 0x80 {
        value := ToInt32(kept);
        return;
      }
      for i := 0 to 5
        invariant Valid() && position == start + 5 + i
        invariant Collected(bytes, start, 5 + i, kept)
      {
        CollectUpper(bytes, start, 5 + i, kept);
        ok, tmp := ReadRawByte();
        if !ok { return; }
        if tmp < 0x80 {
          value := ToInt32(kept);
          return;
        }
      }
      CollectedTooLong(bytes, start, kept);
      return false, 0;
    }
  }

  lemma CollectedBound(s: Bytes, start: nat, r: nat)
    requires Collected(s, start, 4, r)
    ensures r < Pow(0x80, 4) && start + 4 <= |s|
  {
    BoundGroups(s, start, 4);
    Weights();
  }

  function ToUInt32(x: nat): uint32 {
    x % TWO32
  }

  /** A length and that many bytes. */
  function BlockAt(s: Bytes, pos: nat): Parsed<Bytes> {
    match VarintAt(s, pos)
    case Failed => Failed
    case Ok(size, next) =>
      if size < 0 || next + size > |s| then Failed else Ok(s[next..next + size], next + size)
  }

  lemma BlockMoves(s: Bytes, pos: nat)
    ensures match BlockAt(s, pos) case Ok(b, next) => pos + |b| < next <= |s| case Failed => true
  {
  }

  /** k bytes with a set top bit were read; r is their number, as far as 32 bits go. */
  ghost predicate Collected(s: Bytes, start: nat, k: nat, r: nat) {
    start + k <= |s| && k <= 10 && r == LowGroups(s, start, k) % TWO32 &&
    forall j :: start <= j < start + k ==> s[j] >= 0x80
  }

  lemma {:induction false} LengthIs(s: Bytes, pos: nat, n: nat, limit: nat)
    requires 0 < n <= limit && pos + n <= |s| && s[pos + n - 1] < 0x80
    requires forall j :: pos <= j < pos + n - 1 ==> s[j] >= 0x80
    ensures VarintLength(s, pos, limit) == n
    decreases n
  {
    if n > 1 {
      LengthIs(s, pos + 1, n - 1, limit - 1);
    }
  }

  lemma {:induction false} NoLength(s: Bytes, pos: nat, n: nat, limit: nat)
    requires pos + n <= |s| && n <= limit && (n == limit || pos + n == |s|)
    requires forall j :: pos <= j < pos + n ==> s[j] >= 0x80
    ensures VarintLength(s, pos, limit) == 0
    decreases n
  {
    if n > 0 {
      NoLength(s, pos + 1, n - 1, limit - 1);
    }
  }

  lemma {:induction false} GroupsAppend(s: Bytes, pos: nat, n: nat)
    requires pos + n < |s|
    ensures LowGroups(s, pos, n + 1) == LowGroups(s, pos, n) + Pow(0x80, n) * (s[pos + n] % 0x80)
    decreases n
  {
    if n == 0 {
      assert LowGroups(s, pos + 1, 0) == 0;
    } else {
      GroupsAppend(s, pos + 1, n - 1);
      MulAssoc(0x80, Pow(0x80, n - 1), s[pos + n] % 0x80);
    }
  }

  lemma Weights()
    ensures Pow(0x80, 0) == 1 && Pow(0x80, 1) == 0x80 && Pow(0x80, 2) == 0x4000
    ensures Pow(0x80, 3) == 0x20_0000 && Pow(0x80, 4) == 0x1000_0000
  {
  }

  /** What the next byte means, for the first four; w is its weight. */
  lemma Collect(s: Bytes, start: nat, k: nat, r: nat, w: nat)
    requires start <= |s| && k < 5 && w == Pow(0x80, k)
    requires if k == 0 then r == 0 else Collected(s, start, k, r) && r < w
    ensures start + k >= |s| ==> VarintAt(s, start) == Failed
    ensures start + k < |s| && k < 4 ==>
      var b := s[start + k];
      (b < 0x80 ==> VarintAt(s, start) == Ok(ToInt32(r + w * b), start + k + 1)) &&
      (b >= 0x80 ==> Collected(s, start, k + 1, r + w * (b % 0x80)))
  {
    if start + k >= |s| {
      NoLength(s, start, k, 10);
    } else if k < 4 {
      CollectByte(s, start, k, r, w);
    }
  }

  lemma CollectByte(s: Bytes, start: nat, k: nat, r: nat, w: nat)
    requires start + k < |s| && k < 4 && w == Pow(0x80, k)
    requires if k == 0 then r == 0 else Collected(s, start, k, r) && r < w
    ensures var b := s[start + k];
      (b < 0x80 ==> VarintAt(s, start) == Ok(ToInt32(r + w * b), start + k + 1)) &&
      (b >= 0x80 ==> Collected(s, start, k + 1, r + w * (b % 0x80)))
  {
    ExactGroups(s, start, k, r, w);
    GroupsAppend(s, start, k);
    hide LowGroups, Pow, VarintAt, ToInt32;
    var x := LowGroups(s, start, k + 1);
    NextGroup(r, w, s[start + k], x);
    if s[start + k] < 0x80 {
      EndsAt(s, start, k, x);
    }
  }

  lemma ExactGroups(s: Bytes, start: nat, k: nat, r: nat, w: nat)
    requires start + k < |s| && k < 4 && w == Pow(0x80, k)
    requires if k == 0 then r == 0 else Collected(s, start, k, r) && r < w
    ensures r == LowGroups(s, start, k) && w <= 0x20_0000 && (forall j :: start <= j < start + k ==> s[j] >= 0x80)
    ensures r < w
  {
    BoundGroups(s, start, k);
    PowMono(0x80, k, 3);
    Weights();
    if k == 0 {
      assert LowGroups(s, start, k) == 0;
    }
  }

  lemma NextGroup(r: nat, w: nat, b: uint8, x: nat)
    requires r < w <= 0x20_0000 && x == r + w * (b % 0x80)
    ensures x % TWO32 == x && (b < 0x80 ==> x == r + w * b)
  {
    MulMono(b % 0x80, 0x7F, w);
  }

  lemma {:induction false} BoundGroups(s: Bytes, start: nat, k: nat)
    requires start + k <= |s|
    ensures LowGroups(s, start, k) < Pow(0x80, k)
    decreases k
  {
    if k > 0 {
      BoundGroups(s, start + 1, k - 1);
    }
  }

  /** Of the fifth byte four bits are kept. */
  lemma CollectFifth(s: Bytes, start: nat, r: nat, b: uint8)
    requires Collected(s, start, 4, r) && start + 4 < |s| && b == s[start + 4]
    ensures r + b * 0x1000_0000 % TWO32 < TWO32
    ensures b < 0x80 ==> VarintAt(s, start) == Ok(ToInt32(r + b * 0x1000_0000 % TWO32), start + 5)
    ensures b >= 0x80 ==> Collected(s, start, 5, r + b * 0x1000_0000 % TWO32)
  {
    hide LowGroups, Pow, VarintAt, ToInt32;
    Weights();
    BoundGroups(s, start, 4);
    GroupsAppend(s, start, 4);
    KeepLow(r, b, LowGroups(s, start, 5));
    if b < 0x80 {
      EndsAt(s, start, 4, r + b * 0x1000_0000 % TWO32);
    }
  }

  lemma KeepLow(low: nat, b: uint8, x: nat)
    requires x == low + 0x1000_0000 * (b % 0x80) && low < 0x1000_0000
    ensures x % TWO32 == low + b * 0x1000_0000 % TWO32 < TWO32
  {
    var top, kept := b / 0x10, b % 0x10;
    assert b % 0x80 == top % 8 * 0x10 + kept;
    DivModUnique(b * 0x1000_0000, TWO32, top, kept * 0x1000_0000);
    DivModUnique(x, TWO32, top % 8, low + kept * 0x1000_0000);
  }

  /** The bytes after the fifth do not matter. */
  lemma CollectUpper(s: Bytes, start: nat, k: nat, r: nat)
    requires Collected(s, start, k, r) && 5 <= k < 10
    ensures start + k >= |s| ==> VarintAt(s, start) == Failed
    ensures start + k < |s| ==>
      (s[start + k] < 0x80 ==> VarintAt(s, start) == Ok(ToInt32(r), start + k + 1)) &&
      (s[start + k] >= 0x80 ==> Collected(s, start, k + 1, r))
  {
    if start + k >= |s| {
      NoLength(s, start, k, 10);
    } else {
      UpperGroups(s, start, k);
      hide LowGroups, VarintAt, ToInt32;
      if s[start + k] < 0x80 {
        EndsAt(s, start, k, r);
      }
    }
  }

  lemma UpperGroups(s: Bytes, start: nat, k: nat)
    requires 5 <= k && start + k < |s|
    ensures LowGroups(s, start, k + 1) % TWO32 == LowGroups(s, start, k) % TWO32
  {
    hide LowGroups, Pow;
    GroupsAppend(s, start, k);
    PowAdd(0x80, k - 5, 5);
    DropMultiple(LowGroups(s, start, k), Pow(0x80, k - 5), s[start + k] % 0x80, LowGroups(s, start, k + 1));
  }

  /** The first byte without the top bit ends the number. */
  lemma EndsAt(s: Bytes, start: nat, k: nat, r: nat)
    requires k < 10 && start + k < |s| && s[start + k] < 0x80 && LowGroups(s, start, k + 1) % TWO32 == r
    requires forall j :: start <= j < start + k ==> s[j] >= 0x80
    ensures VarintAt(s, start) == Ok(ToInt32(r), start + k + 1)
  {
    hide LowGroups, VarintLength, ToInt32;
    LengthIs(s, start, k + 1, 10);
    SameInt32(LowGroups(s, start, k + 1));
  }

  lemma SameInt32(x: nat)
    ensures ToInt32(x) == ToInt32(x % TWO32)
  {
  }

  lemma DropMultiple(x: nat, p: nat, b: nat, y: nat)
    requires y == x + (p * Pow(0x80, 5)) * b
    ensures y % TWO32 == x % TWO32
  {
    assert Pow(0x80, 5) == 8 * TWO32;
    assert (p * (8 * TWO32)) * b == (8 * p * b) * TWO32;
    QuotientAndRemainder(x, TWO32);
    MulMono(0, p, b);
    DivModUnique(y, TWO32, x / TWO32 + 8 * p * b, x % TWO32);
  }

  lemma CollectedTooLong(s: Bytes, start: nat, r: nat)
    requires Collected(s, start, 10, r)
    ensures VarintAt(s, start) == Failed
  {
    NoLength(s, start, 10, 10);
  }

  lemma SmallInt32(b: uint8)
    ensures ToInt32(b) == b && 0 + 1 * b == b
  {
  }
}
