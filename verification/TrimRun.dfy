/** A run of the store after which a file gets smaller although the sequence number, by which
    other processes are told to look at the size again, stays as it is.
  */
module TrimRun {
  import opened Varints
  import opened LogRecords
  import opened Compaction
  import opened Checksums
  import opened DataChoice
  import opened Mmkv

  const ANY_HOLDER: nat := 0x20_0000

  /** Clearing keeps the space; the first trim rewrites the log but cannot resize the file;
      the second does so without rewriting. The results are size and sequence number. */
  method ShrinkUnnoticed() returns (before: (nat, nat), after: (nat, nat))
    ensures after.0 < before.0 && after.1 == before.1
  {
    hide Contents, Index, CRC32, Holds, Grew, RewrittenTo, ClearedTo, SizeOf, LogBytes, SumSizes, CompactSize;
    var store := new MMKV(8, 8, 0x1_0000, true, false);
    var key: Bytes, large: Bytes, small: Bytes := [1], seq(100, i => 0), [7];
    ShortRecords(key, large, small);
    FirstFits(store, |Encoded(Record(key, large))|);
    var ok := store.SetDataForKey(large, key, false, ANY_HOLDER, true);
    ValueInFile(store, key);
    store.ClearAll(true, true);
    Cleared(store, |Encoded(Record(key, small))|);
    ok := store.SetDataForKey(small, key, false, ANY_HOLDER, true);
    LiveSizeOf(store, key, small);
    store.Trim(ANY_HOLDER, false);
    before := (store.file.Length, store.metaInfo.sequence);
    store.Trim(ANY_HOLDER, true);
    after := (store.file.Length, store.metaInfo.sequence);
  }

  lemma ShortRecords(key: Bytes, large: Bytes, small: Bytes)
    requires |key| == 1 && |large| == 100 && |small| == 1
    ensures ValidRecord(Record(key, large)) && |Encoded(Record(key, large))| == 103
    ensures ValidRecord(Record(key, small)) && |Encoded(Record(key, small))| == 4
  {
    EncodedSize(Record(key, large));
    EncodedSize(Record(key, small));
  }

  lemma NothingStored(store: MMKV)
    requires store.Valid() && store.records == []
    ensures store.dic == map[] && |store.dic| == 0 && SumSizes(store.dic.Keys, store.dic) == 0 && Contents(store.records) == map[]
  {
    hide CRC32, Holds;
    NoSum(store.dic);
    NoContents(Contents(store.records));
  }

  lemma {:induction false} GrownBound(fileSize: nat, wanted: nat)
    requires fileSize > 0
    ensures Grown(fileSize, wanted) <= 2 * if fileSize > wanted then fileSize else wanted
    decreases wanted - fileSize
  {
    if wanted >= 2 * fileSize {
      GrownBound(2 * fileSize, wanted);
    }
  }

  /** In a new store there is room to be had. */
  lemma FirstFits(store: MMKV, size: nat)
    requires store.Valid() && store.records == [] && store.page == 8 && store.file.Length == 8
    requires store.maxFileSize == 0x1_0000 && size == 103
    ensures !store.NoRoom(size, true) && Contents(store.records) == map[]
  {
    hide SumSizes, CRC32, Holds, Index;
    NothingStored(store);
    var lenNeeded := HOLDER_SIZE + 0 + HEADER_SIZE + size;
    assert FutureUsage(lenNeeded, 0) == lenNeeded * 8;
    GrownBound(8, lenNeeded + FutureUsage(lenNeeded, 0));
    hide Grown, FutureUsage;
  }

  /** A value that is stored is part of the file. */
  lemma ValueInFile(store: MMKV, key: Bytes)
    requires store.Valid() && key in Contents(store.records)
    ensures HEADER_SIZE + |Contents(store.records)[key]| <= store.file.Length
  {
    hide CRC32, Holds, Index, Contents;
    SameKeys(store.file[..], store.actualSize, store.sizeHolder, store.records);
    KeyInLog(store.file[..], store.actualSize, store.sizeHolder, store.records, key);
  }

  /** In a cleared store that kept its space there is room. */
  lemma Cleared(store: MMKV, size: nat)
    requires store.Valid() && store.records == [] && store.file.Length > HOLDER_SIZE + HEADER_SIZE + size
    ensures !store.NoRoom(size, true) && Contents(store.records) == map[]
  {
    hide SumSizes, CRC32, Holds, Index;
    NothingStored(store);
  }

  /** With a single key the live size is that of its record. */
  lemma LiveSizeOf(store: MMKV, key: Bytes, value: Bytes)
    requires store.Valid() && Contents(store.records) == map[key := value]
    ensures |store.dic| == 1 && SumSizes(store.dic.Keys, store.dic) == |Encoded(Record(key, value))|
  {
    hide CRC32, Holds, Index, Contents, Encoded, AllApart;
    var file, dic := store.file[..], store.dic;
    FileBounds(file, store.actualSize, store.sizeHolder, store.records);
    SameKeys(file, store.actualSize, store.sizeHolder, store.records);
    StillIndexed(file, file, store.actualSize, store.sizeHolder, store.records);
    assert dic.Keys == {key} && key in dic;
    assert PointsTo(file[HEADER_SIZE..], dic[key], Record(key, value));
    PointsToRecord(file[HEADER_SIZE..], dic[key], Record(key, value));
    SumWithout(dic.Keys, dic, key);
    assert dic.Keys - {key} == {};
    NoSum(dic);
  }
}
