/** The checksum kept with the log: the cyclic redundancy check of 32 bits with the reversed
    polynomial EDB88320, which can be continued where it stopped.
  */
module Checksums {
  import opened Powers
  import opened Varints

  function CrcBits(c: bv32, n: nat): bv32
    decreases n
  {
    if n == 0 then c else CrcBits(if c & 1 == 1 then (c >> 1) ^ 0xEDB8_8320 else c >> 1, n - 1)
  }

  function CrcByte(c: uint32, b: uint8): uint32 {
    CrcBits((c as bv32) ^ (b as bv32), 8) as int
  }

  function Complement(c: uint32): uint32 {
    TWO32 - 1 - c
  }

  function Fold(c: uint32, data: Bytes): uint32 {
    if data == [] then c else CrcByte(Fold(c, data[..|data| - 1]), data[|data| - 1])
  }

  function CRC32(crc: uint32, data: Bytes): uint32 {
    Complement(Fold(Complement(crc), data))
  }

  lemma {:induction false} FoldConcat(c: uint32, a: Bytes, b: Bytes)
    ensures Fold(c, a + b) == Fold(Fold(c, a), b)
  {
    hide CrcByte;
    if b == [] {
      assert a + b == a;
    } else {
      var n := |b| - 1;
      FoldConcat(c, a, b[..n]);
      assert (a + b)[..|a + b| - 1] == a + b[..n];
    }
  }

  /** Going on with more data is the same as checking all of it. */
  lemma CrcContinues(crc: uint32, a: Bytes, b: Bytes)
    ensures CRC32(CRC32(crc, a), b) == CRC32(crc, a + b)
  {
    hide Fold, CrcByte;
    FoldConcat(Complement(crc), a, b);
  }

  lemma CrcOfNothing(crc: uint32)
    ensures CRC32(crc, []) == crc
  {
    hide CrcByte;
  }
}
