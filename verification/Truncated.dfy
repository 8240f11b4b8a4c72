/** A log that was cut off: what a greedy reader still finds are the records that are whole, and
    from them the store makes a new log.
  */
module Truncated {
  import opened Powers
  import opened Varints
  import opened CodedInput
  import opened KeyValueHolders
  import opened LogRecords
  import opened MiniPBCoder
  import opened Compaction
  import opened Checksums
  import opened MetaInfos
  import opened DataChoice
  import opened Mmkv
  import opened SharedLog

  /** A number whose last bytes are missing is not read. */
  lemma {:induction false} VarintCut(s: Bytes, pos: nat, value: nat, limit: nat)
    requires pos <= |s| && |s| - pos < |VarintBytes(value)| && s[pos..] == VarintBytes(value)[..|s| - pos]
    ensures VarintLength(s, pos, limit) == 0
    decreases limit
  {
    if pos < |s| && limit > 0 {
      var b := VarintBytes(value);
      assert s[pos] == s[pos..][0] == b[0];
      if value >= 0x80 {
        assert b[1..] == VarintBytes(value / 0x80);
        assert s[pos + 1..] == s[pos..][1..] == b[..|s| - pos][1..];
        VarintCut(s, pos + 1, value / 0x80, limit - 1);
      }
    }
  }

  /** Nor is data whose last bytes are missing. */
  lemma BlockCut(s: Bytes, pos: nat, data: Bytes)
    requires |data| < TWO31 && pos <= |s| && |s| - pos < |Block(data)| && s[pos..] == Block(data)[..|s| - pos]
    ensures BlockAt(s, pos) == Failed
  {
    hide VarintBytes;
    var b, m := VarintBytes(|data|), |s| - pos;
    if m < |b| {
      assert s[pos..] == b[..m];
      VarintCut(s, pos, |data|, 10);
    } else {
      assert s[pos..pos + |b|] == s[pos..][..|b|] == b;
      VarintRoundTrip(s, pos, |data|);
      VarintBytesSize(|data|);
    }
  }

  /** Nor is a record whose last bytes are missing. */
  lemma RecordCut(s: Bytes, pos: nat, r: Record)
    requires ValidRecord(r) && pos < |s| && |s| - pos < |Encoded(r)| && s[pos..] == Encoded(r)[..|s| - pos]
    ensures ItemAt(s, pos) == Bad
  {
    hide Block, BlockAt;
    var key, m := Block(r.key), |s| - pos;
    if m < |key| {
      assert s[pos..] == key[..m];
      BlockCut(s, pos, r.key);
    } else {
      assert s[pos..pos + |key|] == s[pos..][..|key|] == key;
      ReadsBlock(s, pos, r.key);
      assert s[pos + |key|..] == s[pos..][|key|..] == Block(r.value)[..m - |key|];
      BlockCut(s, pos + |key|, r.value);
    }
  }

  /** So many of the records are whole in the first bytes of their log, and no more. */
  ghost predicate WholeIn(records: seq<Record>, k: nat, size: nat) {
    k <= |records| && (k == 0 || HOLDER_SIZE + |EncodeAll(records[..k])| <= size) &&
    (k < |records| ==> size < HOLDER_SIZE + |EncodeAll(records[..k + 1])|)
  }

  lemma {:induction false} CountWhole(records: seq<Record>, size: nat, j: nat) returns (k: nat)
    requires j <= |records| && (j == 0 || HOLDER_SIZE + |EncodeAll(records[..j])| <= size)
    ensures j <= k && WholeIn(records, k, size)
    decreases |records| - j
  {
    hide EncodeAll;
    k := j;
    if j < |records| && HOLDER_SIZE + |EncodeAll(records[..j + 1])| <= size {
      k := CountWhole(records, size, j + 1);
    }
  }

  /** Wherever a log is cut off, it begins with its whole records and no more can be read. */
  lemma CutBegins(log: Bytes, sizeHolder: uint32, records: seq<Record>, size: nat, k: nat)
    requires GoodHolder(sizeHolder) && AllValid(records) && log == VarintBytes(sizeHolder) + EncodeAll(records)
    requires size <= |log| && WholeIn(records, k, size)
    ensures BeginsWith(log[..size], records[..k])
  {
    hide EncodeAll, VarintBytes, ValidRecord, ItemAt, NoMore, VarintAt;
    var s := log[..size];
    HolderBytes(sizeHolder);
    EncodeAllBegins(records, k);
    if size < HOLDER_SIZE {
      HolderCut(s, sizeHolder);
      assert k == 0;
    } else {
      assert s[0..HOLDER_SIZE] == VarintBytes(sizeHolder);
      VarintBytesSize(sizeHolder);
      VarintRoundTrip(s, 0, sizeHolder);
      NoRecords(map[], records, 0);
      var at := HOLDER_SIZE + |EncodeAll(records[..k])|;
      assert s[HOLDER_SIZE..at] == log[HOLDER_SIZE..][..at - HOLDER_SIZE] == EncodeAll(records[..k]);
      CutEnds(s, log, records, k, at);
    }
  }

  lemma HolderCut(s: Bytes, sizeHolder: uint32)
    requires |s| < |VarintBytes(sizeHolder)| && s == VarintBytes(sizeHolder)[..|s|]
    ensures FirstPosition(s, 0) == Failed
  {
    hide VarintBytes;
    assert s[0..] == s;
    VarintCut(s, 0, sizeHolder, 10);
  }

  lemma CutEnds(s: Bytes, log: Bytes, records: seq<Record>, k: nat, at: nat)
    requires AllValid(records) && k <= |records| && at == HOLDER_SIZE + |EncodeAll(records[..k])| <= |s| <= |log|
    requires HOLDER_SIZE <= |log| && log[HOLDER_SIZE..] == EncodeAll(records) && s == log[..|s|]
    requires k < |records| ==> |s| < HOLDER_SIZE + |EncodeAll(records[..k + 1])|
    ensures NoMore(s, at)
  {
    hide EncodeAll, ValidRecord, ItemAt, Encoded;
    if k == |records| {
      assert records[..k] == records;
    } else if at < |s| {
      EncodeAllPrefix(records, k);
      EncodeAllBegins(records, k + 1);
      SliceOfLog(log, HOLDER_SIZE, EncodeAll(records), EncodeAll(records[..k]), Encoded(records[k]));
      assert s[at..] == log[at..at + |Encoded(records[k])|][..|s| - at];
      ValidAt(records, k);
      RecordCut(s, at, records[k]);
    }
  }

  /** The file ends before the log does, and no part of it has a recorded checksum. */
  ghost predicate CutOff(shared: Shared, file: Bytes) {
    HEADER_SIZE <= |file| && |file| - HEADER_SIZE < shared.meta.actualSize <= |shared.log| &&
    file[HEADER_SIZE..] == shared.log[..|file| - HEADER_SIZE] && SecondChoice(file, shared.meta) == Nothing
  }

  /** In every state that a run reaches: if the application asks for recovery then, everything is
      chosen, and reading it gives the records that are whole. */
  lemma CutOffLoads(states: seq<System>, actions: seq<Action>, n: nat, file: Bytes, recoverOnCRCFail: bool) returns (k: nat)
    requires Run(states, actions) && n < |states| && CutOff(states[n].shared, file)
    ensures k <= |states[n].records| && WholeIn(states[n].records, k, |file| - HEADER_SIZE)
    ensures var s := states[n]; var choice := FirstChoice(file, s.shared.meta, recoverOnCRCFail, true);
      choice == Everything(|file| - HEADER_SIZE) &&
      Loads(choice, file, s.shared.meta, s.sizeHolder, s.records[..k])
  {
    hide Run, CRC32, ProcessOk, EncodeAll, VarintBytes, FromLittleEndian32, BeginsWith, ValidRecord, WholeRecords,
         SecondChoice;
    RunKeepsInv(states, actions, n);
    var s, size := states[n], |file| - HEADER_SIZE;
    k := CountWhole(s.records, size, 0);
    var log := s.shared.log[..s.shared.meta.actualSize];
    CutBegins(log, s.sizeHolder, s.records, size, k);
    assert log[..size] == s.shared.log[..size] == file[HEADER_SIZE..HEADER_SIZE + size];
    if size == 0 {
      assert k == 0;
    }
  }

  /** Loading such a file gives a valid store whose contents are those of the whole records. */
  method LoadCutOff(store: MMKV, recoverOnCRCFail: bool, newHolder: uint32, possible: bool,
                    ghost states: seq<System>, ghost actions: seq<Action>, ghost n: nat)
    returns (ghost k: nat)
    requires 8 <= store.page <= store.expectedCapacity <= store.maxFileSize < TWO32
    requires HEADER_SIZE + HOLDER_SIZE <= store.file.Length <= store.maxFileSize
    requires store.dic == map[] && !store.hasFullWriteback && GoodHolder(newHolder)
    requires Run(states, actions) && n < |states| && CutOff(states[n].shared, store.file[..])
    requires store.metaFile == states[n].shared.meta
    modifies store, store.file
    ensures store.Valid()
    ensures k <= |states[n].records| && WholeIn(states[n].records, k, old(store.file.Length) - HEADER_SIZE)
    ensures Contents(store.records) == Contents(states[n].records[..k])
  {
    hide *;
    k := CutOffLoads(states, actions, n, store.file[..], recoverOnCRCFail);
    store.LoadFromFile(recoverOnCRCFail, true, newHolder, possible, states[n].sizeHolder, states[n].records[..k]);
  }
}
