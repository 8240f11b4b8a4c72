/** MMKVMetaInfo.hpp: what is kept beside the log about its extent and its checksum. */
module MetaInfos {
  import opened Powers

  // MMKVVersion
  const VERSION_ACTUAL_SIZE: nat := 3
  const VERSION_FLAG: nat := 4

  datatype MetaInfo = MetaInfo(
    crcDigest: uint32,
    version: nat,
    sequence: uint32,
    actualSize: uint32,
    lastActualSize: uint32,
    lastCRCDigest: uint32
  )
  {
    /** The whole record is written to the shared memory, or only checksum and size. */
    function Written(shared: MetaInfo, whole: bool): MetaInfo {
      if whole then this else shared.(crcDigest := crcDigest, actualSize := actualSize)
    }

    /** `writeActualSize`: the new record, and whether all of it has to be written. A larger
        sequence number also confirms size and checksum. */
    function WithActualSize(size: uint32, crc: uint32, increaseSequence: bool): (MetaInfo, bool) {
      var m := this.(actualSize := size, crcDigest := crc);
      var full := m.version < VERSION_FLAG || increaseSequence;
      var n := if increaseSequence
        then m.(sequence := (m.sequence + 1) % TWO32, lastActualSize := size, lastCRCDigest := crc)
        else m;
      (n.(version := if n.version < VERSION_FLAG then VERSION_FLAG else n.version), full)
    }
  }

  function LittleEndian32(x: uint32): (s: seq<uint8>)
    ensures |s| == 4
  {
    var b1: nat := x / 0x100;
    var b2: nat := b1 / 0x100;
    var b3: nat := b2 / 0x100;
    [x % 0x100, b1 % 0x100, b2 % 0x100, b3]
  }

  function FromLittleEndian32(s: seq<uint8>): uint32
    requires |s| == 4
  {
    var b1: nat, b2: nat, b3: nat := s[1], s[2], s[3];
    s[0] + 0x100 * b1 + 0x1_0000 * b2 + 0x100_0000 * b3
  }

  lemma BytesRoundTrip(s: seq<uint8>)
    requires |s| == 4
    ensures LittleEndian32(FromLittleEndian32(s)) == s
  {
    var b3: nat := s[3];
    var b2: nat := s[2] + 0x100 * b3;
    var b1: nat := s[1] + 0x100 * b2;
    var x: nat := s[0] + 0x100 * b1;
    assert x == FromLittleEndian32(s);
    DivModUnique(x, 0x100, b1, s[0]);
    DivModUnique(b1, 0x100, b2, s[1]);
    DivModUnique(b2, 0x100, b3, s[2]);
  }

  lemma LittleEndianRoundTrip(x: uint32)
    ensures FromLittleEndian32(LittleEndian32(x)) == x
  {
  }
}
