/** What the methods of the store do to the shared log are steps of the state machine, so that
    what is proved of its runs is proved of the methods.
  */
module SharedSteps {
  import opened Powers
  import opened Varints
  import opened CodedInput
  import opened LogRecords
  import opened Compaction
  import opened Checksums
  import opened MetaInfos
  import opened DataChoice
  import opened Mmkv
  import opened SharedLog

  /** Process i has refreshed itself, and the log is what the store makes known. */
  ghost predicate Shows(s: System, i: nat, v: LogView) {
    Inv(s) && i in s.processes && UpToDate(s.processes[i], s.shared, s.records) &&
    s.records == v.records && s.sizeHolder == v.sizeHolder && s.shared.meta == v.meta &&
    v.actualSize == v.meta.actualSize
  }

  /** A process that checks shows the shared log. */
  lemma CheckShows(s: System, i: nat)
    requires Inv(s) && i in s.processes
    ensures Enabled(s, Check(i))
    ensures Shows(Next(s, Check(i)), i, LogView(s.records, s.sizeHolder, s.shared.meta.actualSize, s.shared.meta))
  {
    hide Refresh, SharedOk, ProcessOk, UpToDate;
    LogInside(s.shared, s.records, s.sizeHolder);
    StepKeepsInv(s, Check(i));
    RefreshIsUpToDate(s.processes[i], s.shared, s.records, s.sizeHolder);
  }

  /** A store that shows the shared log has the fields of its process and the bytes of the log. */
  lemma StoreIsProcess(store: MMKV, s: System, i: nat)
    requires store.Valid() && Shows(s, i, store.View())
    ensures s.processes[i] ==
      Process(true, store.dic, store.metaInfo, store.actualSize, store.crcDigest, store.output.position)
    ensures store.actualSize <= |s.shared.log| && HEADER_SIZE + store.actualSize <= store.file.Length
    ensures s.shared.log[..store.actualSize] == store.file[HEADER_SIZE..HEADER_SIZE + store.actualSize]
  {
    hide Index, CRC32, LogBytes, AllValid, ProcessOk, WholeRecords;
    StoredLog(store.file[..], store.actualSize, store.sizeHolder, store.records);
  }

  /** To append is one step. */
  lemma AppendIsStep(s: System, i: nat, v: LogView, r: Record, v': LogView)
    requires Shows(s, i, v) && AppendedTo(v, r, v')
    ensures Enabled(s, Append(i, r)) && Shows(Next(s, Append(i, r)), i, v')
  {
    hide Index, CRC32, EncodeAll, VarintBytes, Encoded, ValidRecord, HolderOf, Update, Refresh, ProcessOk, AllValid,
         WholeRecords;
    AppendedSize(s.shared, v, r, v');
    RefreshIsUpToDate(s.processes[i], s.shared, s.records, s.sizeHolder);
    AppendedLog(s.shared, s.records, s.sizeHolder, r);
    StepKeepsInv(s, Append(i, r));
    AppendShared(s, i, r, Next(s, Append(i, r)));
  }

  lemma AppendedSize(shared: Shared, v: LogView, r: Record, v': LogView)
    requires SharedOk(shared, v.records, v.sizeHolder) && shared.meta == v.meta && AppendedTo(v, r, v')
    requires v.actualSize == v.meta.actualSize
    ensures v'.meta.actualSize == v.meta.actualSize + |Encoded(r)| < TWO32
  {
    hide CRC32, EncodeAll, VarintBytes, Encoded, ValidRecord, AllValid, WholeRecords;
    EncodeAllMore(v.records, r);
  }

  /** To rewrite is one step with the order in which the records were moved. */
  lemma RewriteIsStep(s: System, i: nat, v: LogView, v': LogView) returns (order: seq<Bytes>)
    requires Shows(s, i, v) && RewrittenTo(v, v') && v.meta.sequence + 1 < TWO32
    ensures Enabled(s, Rewrite(i, order, v'.sizeHolder)) && Shows(Next(s, Rewrite(i, order, v'.sizeHolder)), i, v')
  {
    hide Index, CRC32, EncodeAll, VarintBytes, Refresh, ProcessOk, AllValid, Contents, MovedBytes, Live, Relocated,
         Ordered, WholeRecords;
    order :| LiveBy(v.records, order, v'.records);
    RefreshIsUpToDate(s.processes[i], s.shared, s.records, s.sizeHolder);
    RewriteKeepsMeaning(Refresh(s.shared, s.processes[i]).dic, order, s.shared, s.records, s.sizeHolder);
    HolderBytes(v'.sizeHolder);
    StepKeepsInv(s, Rewrite(i, order, v'.sizeHolder));
    RewriteShared(s, i, order, v'.sizeHolder, Next(s, Rewrite(i, order, v'.sizeHolder)));
  }

  /** To clear is one step. */
  lemma ClearIsStep(s: System, i: nat, v: LogView, v': LogView)
    requires Shows(s, i, v) && ClearedTo(v, v') && v.meta.sequence + 1 < TWO32
    ensures Enabled(s, Clear(i)) && Shows(Next(s, Clear(i)), i, v')
  {
    hide Index, CRC32, Refresh, ProcessOk, LogBytes, AllValid, WholeRecords;
    RefreshIsUpToDate(s.processes[i], s.shared, s.records, s.sizeHolder);
    StepKeepsInv(s, Clear(i));
    ClearShared(s, i, Next(s, Clear(i)));
  }

  /** These states are a run from s to a system that shows the log of the store. */
  ghost predicate RunTo(states: seq<System>, actions: seq<Action>, s: System, i: nat, v: LogView) {
    Run(states, actions) && states[0] == s && Shows(states[|actions|], i, v)
  }

  /** Setting and removing (`Grew`) are a run of the process alone: at most one rewrite, and then
      the append of the record. */
  lemma GrewIsRun(s: System, i: nat, v: LogView, r: Record, v': LogView) returns (states: seq<System>, actions: seq<Action>)
    requires Shows(s, i, v) && Grew(v, r, v') && v.meta.sequence + 1 < TWO32
    ensures RunTo(states, actions, s, i, v')
    ensures actions == [Append(i, r)] ||
      (|actions| == 2 && actions[0].Rewrite? && actions[0].i == i && actions[1] == Append(i, r))
  {
    hide Shows, RewrittenTo, AppendedTo, Next, Enabled, Inv;
    var u: LogView :| (u == v || RewrittenTo(v, u)) && AppendedTo(u, r, v');
    ShowsInv(s, i, v);
    if u == v {
      AppendIsStep(s, i, v, r, v');
      states, actions := [s, Next(s, Append(i, r))], [Append(i, r)];
    } else {
      var order := RewriteIsStep(s, i, v, u);
      var t := Next(s, Rewrite(i, order, u.sizeHolder));
      AppendIsStep(t, i, u, r, v');
      states := [s, t, Next(t, Append(i, r))];
      actions := [Rewrite(i, order, u.sizeHolder), Append(i, r)];
    }
  }

  lemma ShowsInv(s: System, i: nat, v: LogView)
    requires Shows(s, i, v)
    ensures Inv(s)
  {
  }

  /** Rewriting, trimming and clearing are a run of at most one step. */
  lemma KeptIsRun(s: System, i: nat, v: LogView, v': LogView) returns (states: seq<System>, actions: seq<Action>)
    requires Shows(s, i, v) && (v' == v || RewrittenTo(v, v') || ClearedTo(v, v')) && v.meta.sequence + 1 < TWO32
    ensures RunTo(states, actions, s, i, v')
    ensures actions == [] || actions == [Clear(i)] || (|actions| == 1 && actions[0].Rewrite? && actions[0].i == i)
    ensures actions == [Clear(i)] ==> ClearedTo(v, v')
  {
    hide Shows, RewrittenTo, ClearedTo, Next, Enabled, Inv;
    ShowsInv(s, i, v);
    if v' == v {
      states, actions := [s], [];
    } else if RewrittenTo(v, v') {
      var order := RewriteIsStep(s, i, v, v');
      states, actions := [s, Next(s, Rewrite(i, order, v'.sizeHolder))], [Rewrite(i, order, v'.sizeHolder)];
    } else {
      ClearIsStep(s, i, v, v');
      states, actions := [s, Next(s, Clear(i))], [Clear(i)];
    }
  }
}
