/** What is left of the shared log when the file or the recorded size and checksum are damaged. */
module Recovery {
  import opened Powers
  import opened Varints
  import opened LogRecords
  import opened MiniPBCoder
  import opened Compaction
  import opened Checksums
  import opened MetaInfos
  import opened DataChoice
  import opened Mmkv
  import opened SharedLog

  /** A damaged copy of the shared file: only the confirmed bytes are still right, and of the
      shared information the recorded size and checksum may be wrong. */
  ghost predicate Damaged(shared: Shared, file: Bytes, meta: MetaInfo) {
    shared.meta.lastActualSize <= |shared.log| && HEADER_SIZE + shared.meta.lastActualSize <= |file| &&
    file[HEADER_SIZE..HEADER_SIZE + shared.meta.lastActualSize] == shared.log[..shared.meta.lastActualSize] &&
    meta == shared.meta.(actualSize := meta.actualSize, crcDigest := meta.crcDigest)
  }

  /** In every state that a run reaches, the confirmed part survives such damage, and it
      consists of whole records: loading it gives the index of the first of them. */
  lemma ConfirmedPrefixSurvives(states: seq<System>, actions: seq<Action>, n: nat, file: Bytes, meta: MetaInfo)
    requires Run(states, actions) && n < |states| && Damaged(states[n].shared, file, meta)
    ensures Confirmed(file, meta)
    ensures var s, last := states[n], meta.lastActualSize;
      exists k: nat :: WholeRecords(last, s.sizeHolder, s.records, k) &&
        (last > 0 ==> Decoded(file[HEADER_SIZE..HEADER_SIZE + last], 0, map[]) == (Index(map[], s.records[..k], HOLDER_SIZE), true))
  {
    hide Run, CRC32, Decoded, Index, ProcessOk, EncodeAll, VarintBytes;
    RunKeepsInv(states, actions, n);
    var s, last := states[n], meta.lastActualSize;
    var k: nat :| WholeRecords(last, s.sizeHolder, s.records, k);
    if last > 0 {
      ConfirmedBytes(s.shared, s.records, s.sizeHolder, k);
      LogDecodes(file[HEADER_SIZE..HEADER_SIZE + last], last, s.sizeHolder, s.records[..k]);
    }
  }

  lemma ConfirmedBytes(shared: Shared, records: seq<Record>, sizeHolder: uint32, k: nat)
    requires SharedOk(shared, records, sizeHolder) && WholeRecords(shared.meta.lastActualSize, sizeHolder, records, k)
    requires shared.meta.lastActualSize > 0
    ensures shared.log[..shared.meta.lastActualSize] == LogBytes(shared.meta.lastActualSize, sizeHolder, records[..k])
    ensures AllValid(records[..k]) && GoodHolder(sizeHolder)
  {
    hide CRC32, EncodeAll, VarintBytes, ValidRecord;
    HolderBytes(sizeHolder);
    EncodeAllBegins(records, k);
    var size, last := shared.meta.actualSize, shared.meta.lastActualSize;
    assert shared.log[..last] == shared.log[..size][..last];
    assert LogBytes(size, sizeHolder, records)[..last] == VarintBytes(sizeHolder) + EncodeAll(records)[..last - HOLDER_SIZE];
  }

  /** The damage is noticed: no size that is recorded agrees with the recorded checksum. */
  predicate Noticed(file: Bytes, meta: MetaInfo)
    requires HEADER_SIZE <= |file|
  {
    !Checked(file, SizeOf(file, meta), meta.crcDigest) &&
    !Checked(file, FromLittleEndian32(file[..HEADER_SIZE]), meta.crcDigest)
  }

  /** Then the confirmed part is what is chosen, and it is a log of the first records. */
  lemma DamageLoads(states: seq<System>, actions: seq<Action>, n: nat, file: Bytes, meta: MetaInfo,
                    recoverOnCRCFail: bool, recoverOnLengthError: bool) returns (k: nat)
    requires Run(states, actions) && n < |states| && Damaged(states[n].shared, file, meta) && Noticed(file, meta)
    ensures FirstChoice(file, meta, recoverOnCRCFail, recoverOnLengthError) == Recorded(meta.lastActualSize, meta.lastCRCDigest)
    ensures k <= |states[n].records| && WholeRecords(meta.lastActualSize, states[n].sizeHolder, states[n].records, k)
    ensures Loads(Recorded(meta.lastActualSize, meta.lastCRCDigest), file, meta, states[n].sizeHolder, states[n].records[..k])
  {
    hide Run, CRC32, Decoded, Index, ProcessOk, EncodeAll, VarintBytes, FromLittleEndian32, LittleEndian32, AllValid;
    ConfirmedPrefixSurvives(states, actions, n, file, meta);
    RunKeepsInv(states, actions, n);
    var s, last := states[n], meta.lastActualSize;
    k :| WholeRecords(last, s.sizeHolder, s.records, k);
    if last > 0 {
      ConfirmedBytes(s.shared, s.records, s.sizeHolder, k);
    } else {
      EmptyLog(file, s.sizeHolder);
    }
  }

  /** Loading after such damage gives a valid store with the records that were confirmed. */
  method LoadDamaged(store: MMKV, recoverOnCRCFail: bool, recoverOnLengthError: bool,
                     ghost states: seq<System>, ghost actions: seq<Action>, ghost n: nat)
    requires 8 <= store.page <= store.expectedCapacity <= store.maxFileSize < TWO32 && store.dic == map[]
    requires HEADER_SIZE + HOLDER_SIZE <= store.file.Length <= store.maxFileSize
    requires Run(states, actions) && n < |states| && Damaged(states[n].shared, store.file[..], store.metaFile)
    requires Noticed(store.file[..], store.metaFile) && !store.hasFullWriteback
    modifies store, store.file
    ensures store.Valid() && store.actualSize == old(store.metaFile.lastActualSize)
    ensures exists k: nat ::
      WholeRecords(store.actualSize, states[n].sizeHolder, states[n].records, k) && store.records == states[n].records[..k]
  {
    hide Run, Damaged, Noticed, Loads, FirstChoice, WholeRecords;
    ghost var k := DamageLoads(states, actions, n, store.file[..], store.metaFile, recoverOnCRCFail, recoverOnLengthError);
    store.LoadFromFile(recoverOnCRCFail, recoverOnLengthError, LEAST_HOLDER, false, states[n].sizeHolder, states[n].records[..k]);
  }
}
