/** KeyValueHolder.cpp: where in the log the record of a key is. */
module KeyValueHolders {
  import opened Powers
  import opened Varints

  datatype KeyValueHolder = KeyValueHolder(computedKVSize: uint16, keySize: uint16, valueSize: uint32, offset: uint32)

  function ToUInt16(x: nat): uint16 {
    x % 0x1_0000
  }

  /** The constructor: sizes are cut to 16 bits. */
  function MakeHolder(keyLength: uint32, valueLength: uint32, offset: uint32): KeyValueHolder {
    var keySize := ToUInt16(keyLength);
    var kvSize := ToUInt16(keySize + VarintSize(keySize));
    KeyValueHolder(ToUInt16(kvSize + VarintSize(valueLength)), keySize, valueLength, offset)
  }

  /** The bytes before the value in a record. */
  function HeadSize(keyLength: uint32, valueLength: uint32): nat {
    VarintSize(keyLength) + keyLength + VarintSize(valueLength)
  }

  /** The holder knows the right place of the value exactly for keys that fit 16 bits
      together with the two lengths. */
  lemma HolderFits(keyLength: uint32, valueLength: uint32, offset: uint32)
    ensures MakeHolder(keyLength, valueLength, offset).computedKVSize == HeadSize(keyLength, valueLength)
        <==> HeadSize(keyLength, valueLength) < 0x1_0000
  {
  }

  /** The size of the whole record. */
  function RecordSize(h: KeyValueHolder): (size: nat) {
    h.computedKVSize + h.valueSize
  }

  /** The value's bytes. */
  function ToMMBuffer(h: KeyValueHolder, log: Bytes): Bytes
    requires h.offset + RecordSize(h) <= |log|
  {
    log[h.offset + h.computedKVSize..h.offset + RecordSize(h)]
  }
}
