/** Which part of a file that may be damaged is loaded (`checkDataValid` of MMKV_IO.cpp). What
    the application decides when nothing fits is passed in.
  */
module DataChoice {
  import opened Powers
  import opened Varints
  import opened CodedOutput
  import opened Checksums
  import opened MetaInfos

  // Fixed32Size
  const HEADER_SIZE: nat := 4

  /** The first `size` bytes behind the size field have this checksum. */
  predicate Checked(file: Bytes, size: nat, crc: uint32) {
    HEADER_SIZE + size <= |file| && CRC32(0, file[HEADER_SIZE..HEADER_SIZE + size]) == crc
  }

  /** The part that was confirmed last is still there. */
  predicate Confirmed(file: Bytes, meta: MetaInfo) {
    meta.version >= VERSION_ACTUAL_SIZE && Checked(file, meta.lastActualSize, meta.lastCRCDigest)
  }

  /** What to load: a part with a recorded checksum, everything as far as it can be read, or
      nothing. */
  datatype Choice = Recorded(size: nat, crc: uint32) | Everything(size: nat) | Nothing

  /** The recorded size, or the size field of an old version. */
  function SizeOf(file: Bytes, meta: MetaInfo): uint32
    requires HEADER_SIZE <= |file|
  {
    if meta.version >= VERSION_ACTUAL_SIZE then meta.actualSize else FromLittleEndian32(file[..HEADER_SIZE])
  }

  /** What an old version may have written, or else what was confirmed last. */
  function SecondChoice(file: Bytes, meta: MetaInfo): Choice
    requires HEADER_SIZE <= |file|
  {
    if meta.version >= VERSION_ACTUAL_SIZE && Checked(file, FromLittleEndian32(file[..HEADER_SIZE]), meta.crcDigest) then
      Recorded(FromLittleEndian32(file[..HEADER_SIZE]), meta.crcDigest)
    else if Confirmed(file, meta) then Recorded(meta.lastActualSize, meta.lastCRCDigest)
    else Nothing
  }

  function FirstChoice(file: Bytes, meta: MetaInfo, recoverOnCRCFail: bool, recoverOnLengthError: bool): Choice
    requires HEADER_SIZE <= |file|
  {
    var size := SizeOf(file, meta);
    if Checked(file, size, meta.crcDigest) then Recorded(size, meta.crcDigest)
    else if SecondChoice(file, meta) != Nothing then SecondChoice(file, meta)
    else if HEADER_SIZE + size <= |file| then
      if recoverOnCRCFail then Everything(size) else Nothing
    else
      if recoverOnLengthError then Everything(|file| - HEADER_SIZE) else Nothing
  }

  /** If the confirmed part is intact, a part with a recorded checksum is loaded, and never
      is anything discarded. */
  lemma ConfirmedIsLoaded(file: Bytes, meta: MetaInfo, recoverOnCRCFail: bool, recoverOnLengthError: bool)
    requires HEADER_SIZE <= |file| && Confirmed(file, meta)
    ensures var choice := FirstChoice(file, meta, recoverOnCRCFail, recoverOnLengthError);
      choice.Recorded? && Checked(file, choice.size, choice.crc) &&
      (choice.crc == meta.crcDigest || (choice.crc == meta.lastCRCDigest && choice.size == meta.lastActualSize))
  {
    hide CRC32, FromLittleEndian32;
  }

  /** Whatever version is recorded, the size that was stored last is the one that is read:
      it is in the file as well as in the shared information. */
  lemma ReadsWhatWasStored(file: Bytes, meta: MetaInfo, size: uint32, crc: uint32, increaseSequence: bool, version: nat)
    requires HEADER_SIZE <= |file|
    ensures var stored := meta.WithActualSize(size, crc, increaseSequence).0;
      SizeOf(Overwrite(file, 0, LittleEndian32(size)), stored.(version := version)) == size
  {
    hide LittleEndian32, FromLittleEndian32;
    LittleEndianRoundTrip(size);
    assert Overwrite(file, 0, LittleEndian32(size))[..HEADER_SIZE] == LittleEndian32(size);
  }
}
