/** Several processes sharing one log (`checkLoadData` and `partialLoadFromFile` of
    MMKV_IO.cpp). Every operation done under the lock of the file is one step. A rewrite
    increases the sequence number, an append does not.
  */
module SharedLog {
  import opened Powers
  import opened Varints
  import opened CodedInput
  import opened LogRecords
  import opened MiniPBCoder
  import opened Compaction
  import opened Checksums
  import opened MetaInfos
  import opened Mmkv

  /** The shared file behind its size field, and the shared information. */
  datatype Shared = Shared(log: Bytes, meta: MetaInfo)

  /** What one process has in its memory. */
  datatype Process = Process(loaded: bool, dic: Dictionary, meta: MetaInfo, actualSize: nat, crcDigest: uint32, position: nat)

  /** Loads everything. */
  function FullLoad(shared: Shared): Process
    requires shared.meta.actualSize <= |shared.log|
  {
    var log := shared.log[..shared.meta.actualSize];
    Process(true, if log == [] then map[] else Decoded(log, 0, map[]).0, shared.meta, |log|, CRC32(0, log), |log|)
  }

  /** Reads on from where the process stopped, if the checksum agrees. */
  function PartialLoad(shared: Shared, p: Process): Process
    requires shared.meta.actualSize <= |shared.log|
  {
    var size := shared.meta.actualSize;
    if p.actualSize < size then
      var crc := CRC32(p.crcDigest, shared.log[p.actualSize..size]);
      if crc == shared.meta.crcDigest then
        Process(true, Decoded(shared.log[..size], p.actualSize, p.dic).0, shared.meta, size, crc,
                p.position + (size - p.actualSize))
      else
        FullLoad(shared)
    else
      FullLoad(shared)
  }

  /** `checkLoadData`: looks only at the shared information. */
  function Refresh(shared: Shared, p: Process): Process
    requires shared.meta.actualSize <= |shared.log|
  {
    if !p.loaded then FullLoad(shared)
    else if p.meta.sequence != shared.meta.sequence then FullLoad(shared)
    else if p.meta.crcDigest != shared.meta.crcDigest || p.meta.actualSize != shared.meta.actualSize then
      PartialLoad(shared, p)
    else p
  }

  /** The size is that of the first k records. */
  ghost predicate WholeRecords(size: nat, sizeHolder: uint32, records: seq<Record>, k: nat) {
    k <= |records| && size == |LogBytes(size, sizeHolder, records[..k])| && (size == 0 ==> k == 0)
  }

  /** The shared log holds these records, with the right checksum, and a confirmed prefix. */
  ghost predicate SharedOk(shared: Shared, records: seq<Record>, sizeHolder: uint32) {
    var size := shared.meta.actualSize;
    size <= |shared.log| && GoodHolder(sizeHolder) && AllValid(records) && (size == 0 ==> records == []) &&
    size == |LogBytes(size, sizeHolder, records)| && shared.log[..size] == LogBytes(size, sizeHolder, records) &&
    shared.meta.crcDigest == CRC32(0, shared.log[..size]) && shared.meta.version >= VERSION_FLAG &&
    shared.meta.lastActualSize <= size && shared.meta.lastCRCDigest == CRC32(0, shared.log[..shared.meta.lastActualSize]) &&
    exists k: nat :: WholeRecords(shared.meta.lastActualSize, sizeHolder, records, k)
  }

  /** The process knows the first k records. */
  ghost predicate Knows(p: Process, shared: Shared, records: seq<Record>, sizeHolder: uint32, k: nat) {
    WholeRecords(p.actualSize, sizeHolder, records, k) && p.dic == Index(map[], records[..k], HOLDER_SIZE) &&
    p.actualSize == p.meta.actualSize == p.position <= shared.meta.actualSize <= |shared.log| &&
    p.crcDigest == p.meta.crcDigest == CRC32(0, shared.log[..p.actualSize]) &&
    p.meta == shared.meta.(actualSize := p.meta.actualSize, crcDigest := p.meta.crcDigest)
  }

  /** A process with the current sequence number knows a prefix of the log; others have an
      older number. */
  ghost predicate ProcessOk(p: Process, shared: Shared, records: seq<Record>, sizeHolder: uint32) {
    p.loaded ==>
      p.meta.sequence <= shared.meta.sequence &&
      (p.meta.sequence == shared.meta.sequence ==> exists k: nat :: Knows(p, shared, records, sizeHolder, k))
  }

  /** All processes, and the records that the shared log stands for. */
  datatype System = System(shared: Shared, records: seq<Record>, sizeHolder: uint32, processes: map<nat, Process>)

  ghost predicate Inv(s: System) {
    SharedOk(s.shared, s.records, s.sizeHolder) &&
    forall i | i in s.processes :: ProcessOk(s.processes[i], s.shared, s.records, s.sizeHolder)
  }

  /** The process is up to date with the whole log. */
  ghost predicate UpToDate(p: Process, shared: Shared, records: seq<Record>) {
    p.loaded && p.dic == Index(map[], records, HOLDER_SIZE) && p.meta == shared.meta &&
    p.actualSize == shared.meta.actualSize == p.position && p.crcDigest == shared.meta.crcDigest
  }

  /** What process i does in one step. */
  datatype Action =
    | Start(i: nat)
    | Check(i: nat)
    | Append(i: nat, record: Record)
    | Rewrite(i: nat, vec: seq<Bytes>, holder: uint32)
    | Clear(i: nat)

  /** An append needs a dictionary that is not empty and space; a rewrite takes the keys that
      the process knows, by offset; the sequence number does not wrap around. */
  ghost predicate Enabled(s: System, a: Action) {
    s.shared.meta.actualSize <= |s.shared.log| &&
    match a
    case Start(_) => true
    case Check(i) => i in s.processes
    case Append(i, r) =>
      i in s.processes && ValidRecord(r) && s.shared.meta.actualSize > 0 &&
      s.shared.meta.actualSize + |Encoded(r)| < TWO32
    case Rewrite(i, vec, holder) =>
      i in s.processes && GoodHolder(holder) && s.shared.meta.sequence + 1 < TWO32 &&
      Ordered(vec, Refresh(s.shared, s.processes[i]).dic)
    case Clear(i) => i in s.processes && s.shared.meta.sequence + 1 < TWO32
  }

  /** The bytes at the places that the process knows; they are always inside the log. */
  ghost function MovedBytes(vec: seq<Bytes>, dic: Dictionary, log: Bytes): Bytes
    requires forall k | k in vec :: k in dic
  {
    if Ascending(Places(vec, dic), |log|) then SectionBytes(Places(vec, dic), log) else []
  }

  /** The records that these bytes are, told from the meaning of all records. */
  ghost function LiveRecords(vec: seq<Bytes>, contents: map<Bytes, Bytes>): seq<Record> {
    if forall k | k in vec :: k in contents then Live(vec, contents) else []
  }

  /** The step: the process refreshes itself first, then works with what it knows. */
  ghost function Next(s: System, a: Action): System
    requires Enabled(s, a)
  {
    match a
    case Start(i) => s.(processes := s.processes[i := Process(false, map[], MetaInfo(0, 0, 0, 0, 0, 0), 0, 0, 0)])
    case Check(i) => s.(processes := s.processes[i := Refresh(s.shared, s.processes[i])])
    case Append(i, r) =>
      var p := Refresh(s.shared, s.processes[i]);
      var size := ToUInt32(p.actualSize + |Encoded(r)|);
      var crc := CRC32(p.crcDigest, Encoded(r));
      var meta := p.meta.WithActualSize(size, crc, false).0;
      System(Shared(s.shared.log[..s.shared.meta.actualSize] + Encoded(r), meta), s.records + [r], s.sizeHolder,
             s.processes[i := Process(true, Update(p.dic, r.key, HolderOf(r, p.actualSize)), meta, size, crc,
                                      p.position + |Encoded(r)|)])
    case Rewrite(i, vec, holder) =>
      var p := Refresh(s.shared, s.processes[i]);
      var log := VarintBytes(holder) + MovedBytes(vec, p.dic, s.shared.log);
      var size := ToUInt32(|log|);
      var crc := CRC32(0, log);
      var meta := p.meta.WithActualSize(size, crc, true).0;
      System(Shared(log, meta), LiveRecords(vec, Contents(s.records)), holder,
             s.processes[i := Process(true, Relocated(p.dic, vec, |vec|), meta, size, crc, size)])
    case Clear(i) =>
      var meta := Refresh(s.shared, s.processes[i]).meta.WithActualSize(0, 0, true).0;
      System(Shared([], meta), [], s.sizeHolder, s.processes[i := Process(true, map[], meta, 0, 0, 0)])
  }

  ghost predicate Leads(s: System, a: Action, t: System) {
    Enabled(s, a) && t == Next(s, a)
  }

  /** Loading everything gives the index of all records. */
  lemma FullLoadIsUpToDate(shared: Shared, records: seq<Record>, sizeHolder: uint32)
    requires SharedOk(shared, records, sizeHolder)
    ensures UpToDate(FullLoad(shared), shared, records)
  {
    hide Index, EncodeAll, CRC32, AllValid, Decoded, VarintBytes;
    if shared.meta.actualSize > 0 {
      LogDecodes(shared.log[..shared.meta.actualSize], shared.meta.actualSize, sizeHolder, records);
    } else {
      EmptyLog([0, 0, 0, 0], sizeHolder);
    }
  }

  /** Reading on from a known prefix gives the same. */
  lemma PartialLoadIsUpToDate(p: Process, shared: Shared, records: seq<Record>, sizeHolder: uint32, k: nat)
    requires SharedOk(shared, records, sizeHolder) && Knows(p, shared, records, sizeHolder, k)
    ensures UpToDate(PartialLoad(shared, p), shared, records)
  {
    hide Index, EncodeAll, CRC32, AllValid, Decoded, VarintBytes, LogBytes;
    FullLoadIsUpToDate(shared, records, sizeHolder);
    var size, log := shared.meta.actualSize, shared.log;
    if p.actualSize < size {
      assert log[..p.actualSize] + log[p.actualSize..size] == log[..size];
      CrcContinues(0, log[..p.actualSize], log[p.actualSize..size]);
      PrefixDecodes(log[..size], size, sizeHolder, records, k, p.actualSize);
    }
  }

  lemma PrefixDecodes(log: Bytes, size: nat, sizeHolder: uint32, records: seq<Record>, k: nat, position: nat)
    requires 0 < size == |log| < TWO32 && GoodHolder(sizeHolder) && AllValid(records) && k <= |records|
    requires log == LogBytes(size, sizeHolder, records)
    requires position == |LogBytes(position, sizeHolder, records[..k])| && (position == 0 ==> k == 0)
    ensures Decoded(log, position, Index(map[], records[..k], HOLDER_SIZE)) == (Index(map[], records, HOLDER_SIZE), true)
  {
    hide EncodeAll, Index, Replay, VarintBytes, VarintAt;
    if position == 0 {
      LogDecodes(log, size, sizeHolder, records);
      NoRecords(map[], records, HOLDER_SIZE);
    } else {
      HolderBytes(sizeHolder);
      EncodeAllBegins(records, k);
      ReplayIsIndex(log, HOLDER_SIZE, map[], records);
      ReplayPrefix(log, HOLDER_SIZE, map[], records, k);
    }
  }

  /** A process that knows a prefix as long as the log knows all of it. */
  lemma SameSizeIsUpToDate(p: Process, shared: Shared, records: seq<Record>, sizeHolder: uint32, k: nat)
    requires SharedOk(shared, records, sizeHolder) && Knows(p, shared, records, sizeHolder, k)
    requires p.actualSize == shared.meta.actualSize
    ensures p.dic == Index(map[], records, HOLDER_SIZE)
  {
    hide Index, CRC32, VarintBytes, AllValid, EncodeAll;
    if k < |records| {
      EncodeAllPrefix(records, k);
      EncodeAllBegins(records, k + 1);
      ValidAt(records, k);
      EncodedSize(records[k]);
    } else {
      assert records[..k] == records;
    }
  }

  lemma ValidAt(records: seq<Record>, k: nat)
    requires AllValid(records) && k < |records|
    ensures ValidRecord(records[k])
  {
    hide ValidRecord;
  }

  /** Every process is up to date after refreshing, whichever way it took. */
  lemma RefreshIsUpToDate(p: Process, shared: Shared, records: seq<Record>, sizeHolder: uint32)
    requires SharedOk(shared, records, sizeHolder) && ProcessOk(p, shared, records, sizeHolder)
    ensures UpToDate(Refresh(shared, p), shared, records)
  {
    hide SharedOk, Knows, Index, FullLoad, PartialLoad, CRC32;
    assert shared.meta.actualSize <= |shared.log| by { LogInside(shared, records, sizeHolder); }
    FullLoadIsUpToDate(shared, records, sizeHolder);
    if p.loaded && p.meta.sequence == shared.meta.sequence {
      var k: nat :| Knows(p, shared, records, sizeHolder, k);
      PartialLoadIsUpToDate(p, shared, records, sizeHolder, k);
      if p.meta.crcDigest == shared.meta.crcDigest && p.meta.actualSize == shared.meta.actualSize {
        KnownIsCurrent(p, shared, records, sizeHolder, k);
      }
    }
  }

  lemma LogInside(shared: Shared, records: seq<Record>, sizeHolder: uint32)
    requires SharedOk(shared, records, sizeHolder)
    ensures shared.meta.actualSize <= |shared.log|
  {
  }

  lemma KnownIsCurrent(p: Process, shared: Shared, records: seq<Record>, sizeHolder: uint32, k: nat)
    requires SharedOk(shared, records, sizeHolder) && Knows(p, shared, records, sizeHolder, k) && p.loaded
    requires p.meta.crcDigest == shared.meta.crcDigest && p.meta.actualSize == shared.meta.actualSize
    ensures UpToDate(p, shared, records)
  {
    SameSizeIsUpToDate(p, shared, records, sizeHolder, k);
  }

  /** A process that is up to date knows all records. */
  lemma UpToDateIsOk(p: Process, shared: Shared, records: seq<Record>, sizeHolder: uint32)
    requires SharedOk(shared, records, sizeHolder) && UpToDate(p, shared, records)
    ensures ProcessOk(p, shared, records, sizeHolder)
  {
    hide Index, CRC32, EncodeAll, VarintBytes, AllValid;
    assert records[..|records|] == records;
    assert Knows(p, shared, records, sizeHolder, |records|);
  }

  /** The bytes of a log with one more record. */
  lemma AppendedLog(shared: Shared, records: seq<Record>, sizeHolder: uint32, r: Record)
    requires SharedOk(shared, records, sizeHolder) && ValidRecord(r) && shared.meta.actualSize > 0
    requires shared.meta.actualSize + |Encoded(r)| < TWO32
    ensures var size, log := shared.meta.actualSize + |Encoded(r)|, shared.log[..shared.meta.actualSize] + Encoded(r);
      |log| == size && log[..size] == log == LogBytes(size, sizeHolder, records + [r]) && AllValid(records + [r]) &&
      CRC32(shared.meta.crcDigest, Encoded(r)) == CRC32(0, log) &&
      log[..shared.meta.lastActualSize] == shared.log[..shared.meta.lastActualSize]
    ensures shared.meta.actualSize == HOLDER_SIZE + |EncodeAll(records)|
  {
    hide CRC32, EncodeAll, VarintBytes, Encoded, ValidRecord, WholeRecords;
    HolderBytes(sizeHolder);
    EncodeAllMore(records, r);
    CrcContinues(0, shared.log[..shared.meta.actualSize], Encoded(r));
  }

  /** After an append the shared log is right, ... */
  lemma AppendShared(s: System, i: nat, r: Record, t: System)
    requires Inv(s) && Leads(s, Append(i, r), t)
    ensures SharedOk(t.shared, t.records, t.sizeHolder)
    ensures i in t.processes && UpToDate(t.processes[i], t.shared, t.records)
    ensures t.shared.meta == s.shared.meta.(actualSize := t.shared.meta.actualSize, crcDigest := t.shared.meta.crcDigest)
  {
    hide Index, CRC32, EncodeAll, VarintBytes, Encoded, ValidRecord, HolderOf, Update, Refresh, ProcessOk, LogBytes, AllValid,
         WholeRecords;
    RefreshIsUpToDate(s.processes[i], s.shared, s.records, s.sizeHolder);
    AppendedLog(s.shared, s.records, s.sizeHolder, r);
    LastRecord(map[], s.records + [r], HOLDER_SIZE);
    assert (s.records + [r])[..|s.records|] == s.records;
    ConfirmedRemains(s.shared, s.records, s.sizeHolder, r);
  }

  lemma ConfirmedRemains(shared: Shared, records: seq<Record>, sizeHolder: uint32, r: Record)
    requires SharedOk(shared, records, sizeHolder)
    ensures exists k: nat :: WholeRecords(shared.meta.lastActualSize, sizeHolder, records + [r], k)
  {
    hide CRC32, EncodeAll, VarintBytes, AllValid, LogBytes;
    var k: nat :| WholeRecords(shared.meta.lastActualSize, sizeHolder, records, k);
    assert (records + [r])[..k] == records[..k];
    assert WholeRecords(shared.meta.lastActualSize, sizeHolder, records + [r], k);
  }

  /** ... and the other processes still know a prefix. */
  lemma AppendOthers(p: Process, shared: Shared, records: seq<Record>, sizeHolder: uint32, shared': Shared, r: Record)
    requires SharedOk(shared, records, sizeHolder) && ProcessOk(p, shared, records, sizeHolder)
    requires shared.meta.actualSize <= shared'.meta.actualSize <= |shared'.log|
    requires shared'.log[..shared.meta.actualSize] == shared.log[..shared.meta.actualSize]
    requires shared'.meta == shared.meta.(actualSize := shared'.meta.actualSize, crcDigest := shared'.meta.crcDigest)
    ensures ProcessOk(p, shared', records + [r], sizeHolder)
  {
    hide Index, CRC32, EncodeAll, VarintBytes, Encoded, ValidRecord;
    if p.loaded && p.meta.sequence == shared.meta.sequence {
      var k: nat :| Knows(p, shared, records, sizeHolder, k);
      assert (records + [r])[..k] == records[..k];
      assert shared'.log[..p.actualSize] == shared'.log[..shared.meta.actualSize][..p.actualSize];
      assert shared.log[..p.actualSize] == shared.log[..shared.meta.actualSize][..p.actualSize];
      assert Knows(p, shared', records + [r], sizeHolder, k);
    }
  }

  /** With a larger sequence number the others know that they have to load everything. */
  lemma OthersAreOlder(p: Process, shared: Shared, records: seq<Record>, sizeHolder: uint32,
                       shared': Shared, records': seq<Record>, sizeHolder': uint32)
    requires ProcessOk(p, shared, records, sizeHolder) && shared.meta.sequence < shared'.meta.sequence
    ensures ProcessOk(p, shared', records', sizeHolder')
  {
  }

  /** What the index of the shared log points at are exactly the records that mean something. */
  lemma IndexOfShared(shared: Shared, records: seq<Record>, sizeHolder: uint32)
    requires SharedOk(shared, records, sizeHolder)
    ensures var dic := Index(map[], records, HOLDER_SIZE);
      Indexes(dic, Contents(records), shared.log, HOLDER_SIZE) && AllApart(dic)
    ensures HOLDER_SIZE + |EncodeAll(records)| < TWO32
  {
    hide Indexes, AllApart, Index, Contents, EncodeAll, AllValid, VarintBytes, CRC32, WholeRecords;
    HolderBytes(sizeHolder);
    var size := shared.meta.actualSize;
    if size == 0 {
      NothingToIndex(shared.log);
      NothingEncoded();
    } else {
      IndexIndexes(VarintBytes(sizeHolder), records);
      var log := VarintBytes(sizeHolder) + EncodeAll(records);
      assert shared.log == log + shared.log[size..];
      IndexesLonger(Index(map[], records, HOLDER_SIZE), Contents(records), log, shared.log[size..]);
    }
  }

  lemma NothingEncoded()
    ensures |EncodeAll([])| == 0
  {
  }

  /** The bytes at the places that an up-to-date process knows are live records with the
      meaning of the whole log, and with the new offsets the process knows their places. */
  lemma RewriteKeepsMeaning(dic: Dictionary, vec: seq<Bytes>, shared: Shared, records: seq<Record>, sizeHolder: uint32)
    requires SharedOk(shared, records, sizeHolder) && dic == Index(map[], records, HOLDER_SIZE) && Ordered(vec, dic)
    ensures var live := LiveRecords(vec, Contents(records));
      MovedBytes(vec, dic, shared.log) == EncodeAll(live) && AllValid(live) && Contents(live) == Contents(records) &&
      HOLDER_SIZE + |EncodeAll(live)| < TWO32 && Relocated(dic, vec, |vec|) == Index(map[], live, HOLDER_SIZE)
  {
    hide Indexes, AllApart, Index, Contents, EncodeAll, AllValid, CRC32, WholeRecords, Ascending, SectionBytes, SumSizes,
         Relocated, PointsTo, VarintBytes;
    var contents := Contents(records);
    IndexOfShared(shared, records, sizeHolder);
    IndexKeys(dic, contents, shared.log);
    SortedPlaces(vec, dic, contents, shared.log);
    LiveBytes(vec, dic, contents, shared.log);
    LiveContents(vec, dic, contents, shared.log);
    LiveSize(vec, dic, contents, shared.log, dic.Keys);
    LiveNoLarger(records);
    RelocatedIsIndex(dic, vec, contents, shared.log);
    assert Contents(Live(vec, contents)) == contents;
  }

  /** A rewrite makes the new log from what the process knows. */
  lemma RewriteShared(s: System, i: nat, vec: seq<Bytes>, holder: uint32, t: System)
    requires Inv(s) && Leads(s, Rewrite(i, vec, holder), t)
    ensures SharedOk(t.shared, t.records, t.sizeHolder)
    ensures i in t.processes && UpToDate(t.processes[i], t.shared, t.records)
    ensures s.shared.meta.sequence < t.shared.meta.sequence && Contents(t.records) == Contents(s.records)
  {
    hide Index, CRC32, EncodeAll, VarintBytes, Refresh, ProcessOk, AllValid, Contents, MovedBytes, LiveRecords, Relocated,
         Ordered;
    RefreshIsUpToDate(s.processes[i], s.shared, s.records, s.sizeHolder);
    RewriteKeepsMeaning(Refresh(s.shared, s.processes[i]).dic, vec, s.shared, s.records, s.sizeHolder);
    HolderBytes(holder);
    var live := t.records;
    var log := VarintBytes(holder) + EncodeAll(live);
    assert log[..|log|] == log;
    assert live[..|live|] == live;
    assert WholeRecords(|log|, holder, live, |live|);
  }

  lemma ClearShared(s: System, i: nat, t: System)
    requires Inv(s) && Leads(s, Clear(i), t)
    ensures SharedOk(t.shared, t.records, t.sizeHolder)
    ensures i in t.processes && UpToDate(t.processes[i], t.shared, t.records)
    ensures s.shared.meta.sequence < t.shared.meta.sequence
  {
    hide CRC32, VarintBytes, Refresh, ProcessOk;
    RefreshIsUpToDate(s.processes[i], s.shared, s.records, s.sizeHolder);
    EmptyLog([0, 0, 0, 0], s.sizeHolder);
    assert WholeRecords(0, s.sizeHolder, [], 0);
  }

  /** The invariant is kept by every step of every process. */
  lemma StepKeepsInv(s: System, a: Action)
    requires Inv(s) && Enabled(s, a)
    ensures Inv(Next(s, a))
  {
    hide SharedOk, UpToDate, CRC32, Index, EncodeAll, Refresh, ValidRecord, AllValid, Contents, Encoded, ProcessOk;
    LogInside(s.shared, s.records, s.sizeHolder);
    var t := Next(s, a);
    match a
    case Start(i) =>
      NotLoaded(t.processes[i], s.shared, s.records, s.sizeHolder);
    case Check(i) =>
      RefreshIsUpToDate(s.processes[i], s.shared, s.records, s.sizeHolder);
      UpToDateIsOk(t.processes[i], s.shared, s.records, s.sizeHolder);
    case Append(i, r) =>
      AppendShared(s, i, r, t);
      UpToDateIsOk(t.processes[i], t.shared, t.records, t.sizeHolder);
      AppendKeepsPrefix(s, i, r, t);
      forall j | j in s.processes && j != i
        ensures ProcessOk(s.processes[j], t.shared, t.records, t.sizeHolder)
      {
        AppendOthers(s.processes[j], s.shared, s.records, s.sizeHolder, t.shared, r);
      }
    case Rewrite(i, vec, holder) =>
      RewriteShared(s, i, vec, holder, t);
      UpToDateIsOk(t.processes[i], t.shared, t.records, t.sizeHolder);
      forall j | j in s.processes && j != i
        ensures ProcessOk(s.processes[j], t.shared, t.records, t.sizeHolder)
      {
        OthersAreOlder(s.processes[j], s.shared, s.records, s.sizeHolder, t.shared, t.records, t.sizeHolder);
      }
    case Clear(i) =>
      ClearShared(s, i, t);
      UpToDateIsOk(t.processes[i], t.shared, t.records, t.sizeHolder);
      forall j | j in s.processes && j != i
        ensures ProcessOk(s.processes[j], t.shared, t.records, t.sizeHolder)
      {
        OthersAreOlder(s.processes[j], s.shared, s.records, s.sizeHolder, t.shared, t.records, t.sizeHolder);
      }
  }

  lemma NotLoaded(p: Process, shared: Shared, records: seq<Record>, sizeHolder: uint32)
    requires !p.loaded
    ensures ProcessOk(p, shared, records, sizeHolder)
  {
  }

  lemma AppendKeepsPrefix(s: System, i: nat, r: Record, t: System)
    requires Inv(s) && Leads(s, Append(i, r), t)
    ensures s.shared.meta.actualSize <= t.shared.meta.actualSize <= |t.shared.log|
    ensures t.shared.log[..s.shared.meta.actualSize] == s.shared.log[..s.shared.meta.actualSize]
  {
    hide CRC32, Refresh, ProcessOk, UpToDate, Encoded, Index, EncodeAll, SharedOk;
    RefreshIsUpToDate(s.processes[i], s.shared, s.records, s.sizeHolder);
    SizeOfUpToDate(Refresh(s.shared, s.processes[i]), s.shared, s.records);
  }

  lemma SizeOfUpToDate(p: Process, shared: Shared, records: seq<Record>)
    requires UpToDate(p, shared, records)
    ensures p.actualSize == shared.meta.actualSize
  {
    hide Index;
  }

  /** A run of the system: every step is enabled where it is taken. */
  ghost predicate Run(states: seq<System>, actions: seq<Action>) {
    |states| == |actions| + 1 && Inv(states[0]) &&
    forall n | 0 <= n < |actions| ::
      Enabled(states[n], actions[n]) && states[n + 1] == Next(states[n], actions[n])
  }

  lemma {:induction false} RunKeepsInv(states: seq<System>, actions: seq<Action>, n: nat)
    requires Run(states, actions) && n < |states|
    ensures Inv(states[n])
  {
    hide Inv, Enabled, Next;
    if n > 0 {
      RunKeepsInv(states, actions, n - 1);
      StepKeepsInv(states[n - 1], actions[n - 1]);
    }
  }

  /** What a step does to the meaning of the log: only an append and clearing change it. */
  ghost function Effect(contents: map<Bytes, Bytes>, a: Action): map<Bytes, Bytes> {
    match a
    case Append(_, r) => Meaning(contents, r)
    case Clear(_) => map[]
    case _ => contents
  }

  lemma StepEffect(s: System, a: Action)
    requires Inv(s) && Enabled(s, a)
    ensures Contents(Next(s, a).records) == Effect(Contents(s.records), a)
  {
    hide SharedOk, UpToDate, CRC32, Index, EncodeAll, Refresh, ValidRecord, AllValid, Encoded, ProcessOk, Meaning;
    match a
    case Append(_, r) =>
      assert (s.records + [r])[..|s.records|] == s.records;
    case Rewrite(i, vec, holder) =>
      RewriteShared(s, i, vec, holder, Next(s, a));
    case _ =>
  }

  ghost function Effects(contents: map<Bytes, Bytes>, actions: seq<Action>): map<Bytes, Bytes> {
    if actions == [] then contents
    else Effect(Effects(contents, actions[..|actions| - 1]), actions[|actions| - 1])
  }

  /** Whatever the processes do, the log means what the appends and clearings made of it, in
      their order: nothing that any process appended is lost. */
  lemma {:induction false} NothingIsLost(states: seq<System>, actions: seq<Action>, n: nat)
    requires Run(states, actions) && n < |states|
    ensures Contents(states[n].records) == Effects(Contents(states[0].records), actions[..n])
  {
    hide Inv, Enabled, Next, Effect, Contents;
    if n > 0 {
      NothingIsLost(states, actions, n - 1);
      RunKeepsInv(states, actions, n - 1);
      StepEffect(states[n - 1], actions[n - 1]);
      assert actions[..n][..n - 1] == actions[..n - 1];
    }
  }

  /** In every state that any run reaches, every process that checks finds exactly the
      dictionary that replaying the whole log gives. */
  lemma EveryRunStaysInStep(states: seq<System>, actions: seq<Action>, n: nat, i: nat)
    requires Run(states, actions) && n < |states| && i in states[n].processes
    ensures states[n].shared.meta.actualSize <= |states[n].shared.log|
    ensures UpToDate(Refresh(states[n].shared, states[n].processes[i]), states[n].shared, states[n].records)
    ensures var s := states[n].shared;
      Refresh(s, states[n].processes[i]).dic == FullLoad(s).dic
  {
    hide SharedOk, ProcessOk, Refresh, Run, FullLoad;
    RunKeepsInv(states, actions, n);
    var s := states[n];
    LogInside(s.shared, s.records, s.sizeHolder);
    RefreshIsUpToDate(s.processes[i], s.shared, s.records, s.sizeHolder);
    FullLoadIsUpToDate(s.shared, s.records, s.sizeHolder);
  }

  /** A new file starts a run. */
  lemma FreshIsInv(sizeHolder: uint32)
    requires GoodHolder(sizeHolder)
    ensures Inv(System(Shared([], MetaInfo(0, VERSION_FLAG, 0, 0, 0, 0)), [], sizeHolder, map[]))
  {
    hide CRC32;
    EmptyLog([0, 0, 0, 0], sizeHolder);
    assert WholeRecords(0, sizeHolder, [], 0);
  }
}
