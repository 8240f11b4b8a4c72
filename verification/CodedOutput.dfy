/** CodedOutputData.cpp: writing bytes, variable-length integers and data into mapped
    memory, as far as its space goes.
  */
module CodedOutput {
  import opened Powers
  import opened Varints

  /** Memory with `data` stored from p on. */
  function Overwrite(m: Bytes, p: nat, data: Bytes): (r: Bytes)
    requires p + |data| <= |m|
    ensures |r| == |m|
  {
    m[..p] + data + m[p + |data|..]
  }

  lemma OverwriteNothing(m: Bytes, p: nat)
    requires p <= |m|
    ensures Overwrite(m, p, []) == m
  {
  }

  /** Two adjacent stores are one. */
  lemma OverwriteMore(m: Bytes, p: nat, a: Bytes, b: Bytes)
    requires p + |a| <= |m|
    ensures p + |a| + |b| <= |m| ==> Overwrite(Overwrite(m, p, a), p + |a|, b) == Overwrite(m, p, a + b)
  {
    if p + |a| + |b| <= |m| {
      var n := Overwrite(m, p, a);
      assert n[..p + |a|] == m[..p] + a;
      assert n[p + |a| + |b|..] == m[p + |a| + |b|..];
    }
  }

  /** Writing into mapped memory. Data is stored from `start` on; positions are relative. */
  class CodedOutputData {
    const memory: array<uint8>
    const start: nat
    const size: nat
    var position: nat

    ghost predicate Valid()
      reads this
    {
      start + size <= memory.Length && position <= size
    }

    constructor (memory: array<uint8>, start: nat, size: nat)
      requires start + size <= memory.Length
      ensures Valid() && this.memory == memory && this.start == start && this.size == size && position == 0
    {
      this.memory, this.start, this.size, position := memory, start, size, 0;
    }

    function SpaceLeft(): nat
      reads this
    {
      if size <= position then 0 else size - position
    }

    /** Beyond the end this fails; the position has moved all the same. */
    method Seek(addedSize: nat) returns (ok: bool)
      requires Valid()
      modifies this
      ensures position == old(position) + addedSize && ok == (position <= size) && (ok ==> Valid())
    {
      position := position + addedSize;
      ok := position <= size;
    }

    /** Unchecked; beyond the end no space is left. */
    method SetPosition(newPosition: nat)
      requires Valid()
      modifies this
      ensures position == newPosition && (newPosition <= size ==> Valid())
      ensures newPosition > size ==> SpaceLeft() == 0
    {
      position := newPosition;
    }

    /** `data` was stored at the position, which has moved behind it, or nothing was. */
    twostate predicate Wrote(data: Bytes)
      requires old(Valid())
      reads this, memory
    {
      memory[..] == Overwrite(old(memory[..]), start + old(position), if old(position) + |data| <= size then data else []) &&
      position == if old(position) + |data| <= size then old(position) + |data| else old(position)
    }

    /** Nothing is written if there is no space. */
    method WriteRawByte(value: uint8) returns (ok: bool)
      requires Valid()
      modifies this, memory
      ensures Valid() && ok == (old(position) + 1 <= size) && Wrote([value])
    {
      OverwriteNothing(memory[..], start + position);
      ok := position != size;
      if ok {
        memory[start + position] := value;
        position := position + 1;
      }
    }

    method WriteRawData(data: Bytes) returns (ok: bool)
      requires Valid()
      modifies this, memory
      ensures Valid() && ok == (old(position) + |data| <= size) && Wrote(data)
    {
      OverwriteNothing(memory[..], start + position);
      ok := position + |data| <= size;
      if ok {
        forall i | 0 <= i < |data| {
          memory[start + position + i] := data[i];
        }
        position := position + |data|;
      }
    }

    method WriteRawVarint32(value: uint32) returns (ok: bool)
      requires Valid()
      modifies this, memory
      ensures Valid() && ok == (old(position) + |VarintBytes(value)| <= size)
      ensures ok ==> Wrote(VarintBytes(value))
    {
      hide Overwrite;
      ghost var m, p := memory[..], start + position;
      var v: uint32 := value;
      ghost var done: Bytes := [];
      OverwriteNothing(m, p);
      while true
        invariant Valid() && start + position == p + |done| && done + VarintBytes(v) == VarintBytes(value)
        invariant memory[..] == Overwrite(m, p, done)
        decreases v
      {
        OverwriteNothing(memory[..], start + position);
        if v < 0x80 {
          OverwriteMore(m, p, done, [v]);
          ok := WriteRawByte(v);
          return;
        }
        var b: uint8 := v % 0x80 + 0x80;
        OverwriteMore(m, p, done, [b]);
        ok := WriteRawByte(b);
        if !ok {
          return;
        }
        done := done + [b];
        v := v / 0x80;
      }
    }

    /** The length and then the data. */
    method WriteData(data: Bytes) returns (ok: bool)
      requires Valid() && |data| < TWO32
      modifies this, memory
      ensures Valid() && ok == (old(position) + |VarintBytes(|data|)| + |data| <= size)
      ensures ok ==> Wrote(VarintBytes(|data|) + data)
    {
      hide Overwrite;
      ghost var m, p := memory[..], start + position;
      ok := WriteRawVarint32(|data|);
      if ok {
        OverwriteMore(m, p, VarintBytes(|data|), data);
        ok := WriteRawData(data);
      }
    }
  }
}
