/** The log of the key-value store: records of key and value one after the other, the last
    one of a key decides, an empty value deletes it. `Index` is the dictionary of places
    that reading the log must give, `Contents` what it means.
  */
module LogRecords {
  import opened Powers
  import opened Varints
  import opened KeyValueHolders
  import opened CodedInput

  datatype Record = Record(key: Bytes, value: Bytes)

  type Dictionary = map<Bytes, KeyValueHolder>

  /** Keys fit 16 bits together with both lengths; lengths are not negative as 32-bit numbers. */
  ghost predicate ValidRecord(r: Record) {
    0 < |r.key| < TWO31 && |r.value| < TWO31 && HeadSize(|r.key|, |r.value|) < 0x1_0000
  }

  /** The length of some data, and the data. */
  function Block(data: Bytes): (s: Bytes) {
    VarintBytes(|data|) + data
  }

  /** The bytes of a record. */
  function Encoded(r: Record): (s: Bytes) {
    Block(r.key) + Block(r.value)
  }

  lemma BlockSize(data: Bytes)
    requires |data| < TWO31
    ensures |Block(data)| == VarintSize(|data|) + |data|
  {
    VarintBytesSize(|data|);
  }

  lemma EncodedSize(r: Record)
    requires ValidRecord(r)
    ensures |Encoded(r)| == |Block(r.key)| + |Block(r.value)| == HeadSize(|r.key|, |r.value|) + |r.value|
    ensures |Encoded(r)| > 1
  {
    BlockSize(r.key);
    BlockSize(r.value);
  }

  function EncodeAll(rs: seq<Record>): (s: Bytes) {
    if rs == [] then [] else EncodeAll(rs[..|rs| - 1]) + Encoded(rs[|rs| - 1])
  }

  /** The place of a record at an offset. */
  function HolderOf(r: Record, offset: nat): KeyValueHolder {
    MakeHolder(ToUInt32(|r.key|), ToUInt32(|r.value|), ToUInt32(offset))
  }

  function Update(dic: Dictionary, key: Bytes, holder: KeyValueHolder): Dictionary {
    if holder.valueSize > 0 then dic[key := holder] else dic - {key}
  }

  /** The dictionary after reading the records from an offset on. */
  function Index(dic: Dictionary, rs: seq<Record>, offset: nat): Dictionary {
    if rs == [] then dic
    else
      var n := |rs| - 1;
      Update(Index(dic, rs[..n], offset), rs[n].key, HolderOf(rs[n], offset + |EncodeAll(rs[..n])|))
  }

  /** An empty value deletes. */
  function Meaning(contents: map<Bytes, Bytes>, r: Record): map<Bytes, Bytes> {
    if r.value == [] then contents - {r.key} else contents[r.key := r.value]
  }

  /** The value of every key that has one. */
  function Contents(rs: seq<Record>): map<Bytes, Bytes> {
    if rs == [] then map[] else Meaning(Contents(rs[..|rs| - 1]), rs[|rs| - 1])
  }

  /** One step of reading: a key alone if it is empty, otherwise a key and a value. */
  datatype Item = Bad | NoKey(next: nat) | Entry(key: Bytes, holder: KeyValueHolder, next: nat)

  function ItemAt(s: Bytes, pos: nat): Item {
    match BlockAt(s, pos)
    case Failed => Bad
    case Ok(key, next) =>
      if key == [] then NoKey(next)
      else
        match BlockAt(s, next)
        case Failed => Bad
        case Ok(value, end) =>
          BlockMoves(s, pos);
          BlockMoves(s, next);
          Entry(key, KeyValueHolder(ToUInt16(end - |value| - ToUInt32(pos)), ToUInt16(|key|), ToUInt32(|value|), ToUInt32(pos)), end)
  }

  /** Reading all records from a position on, and whether that came to the end. */
  function Replay(s: Bytes, pos: nat, dic: Dictionary): (r: (Dictionary, bool))
    decreases |s| - pos
  {
    if pos >= |s| then (dic, true)
    else
      match ItemAt(s, pos)
      case Bad => (dic, false)
      case NoKey(next) => BlockMoves(s, pos); Replay(s, next, dic)
      case Entry(key, holder, next) =>
        ItemMoves(s, pos);
        Replay(s, next, Update(dic, key, holder))
  }

  lemma ItemMoves(s: Bytes, pos: nat)
    ensures match ItemAt(s, pos) case Entry(_, _, next) => pos < next <= |s| case NoKey(next) => pos < next <= |s| case Bad => true
  {
    BlockMoves(s, pos);
    match BlockAt(s, pos)
    case Failed =>
    case Ok(key, next) => BlockMoves(s, next);
  }

  /** Reading data that was written with its length. */
  lemma ReadsBlock(s: Bytes, pos: nat, data: Bytes)
    requires |data| < TWO31 && pos + |Block(data)| <= |s| && s[pos..pos + |Block(data)|] == Block(data)
    ensures BlockAt(s, pos) == Ok(data, pos + |Block(data)|)
  {
    var b := VarintBytes(|data|);
    assert Block(data)[..|b|] == b && Block(data)[|b|..] == data;
    Part(s, pos, Block(data), 0, b);
    Part(s, pos, Block(data), |b|, data);
    VarintBytesSize(|data|);
    hide VarintBytes, VarintAt;
    VarintRoundTrip(s, pos, |data|);
  }

  /** A part of a part. */
  lemma Part(s: Bytes, i: nat, x: Bytes, j: nat, y: Bytes)
    requires i + |x| <= |s| && s[i..i + |x|] == x && j + |y| <= |x| && x[j..j + |y|] == y
    ensures s[i + j..i + j + |y|] == y
  {
    forall k | 0 <= k < |y|
      ensures s[i + j + k] == y[k]
    {
      assert x[j + k] == x[j..j + |y|][k];
      assert s[i..i + |x|][j + k] == s[i + j + k];
    }
  }

  lemma RecordParts(s: Bytes, pos: nat, r: Record)
    requires pos + |Encoded(r)| <= |s| && s[pos..pos + |Encoded(r)|] == Encoded(r)
    ensures |Encoded(r)| == |Block(r.key)| + |Block(r.value)|
    ensures s[pos..pos + |Block(r.key)|] == Block(r.key)
    ensures s[pos + |Block(r.key)|..pos + |Encoded(r)|] == Block(r.value)
  {
    hide Block;
    var x, y := Block(r.key), Block(r.value);
    assert Encoded(r)[..|x|] == x && Encoded(r)[|x|..] == y;
    Part(s, pos, Encoded(r), 0, x);
    Part(s, pos, Encoded(r), |x|, y);
  }

  /** Reading one record that was written. */
  lemma ReadsRecord(s: Bytes, pos: nat, r: Record)
    requires ValidRecord(r) && pos + |Encoded(r)| <= |s| < TWO32 && s[pos..pos + |Encoded(r)|] == Encoded(r)
    ensures ItemAt(s, pos) == Entry(r.key, HolderOf(r, pos), pos + |Encoded(r)|)
  {
    hide Block, BlockAt, Encoded, HolderOf, HeadSize, VarintSize, ItemAt, ToUInt16, ToUInt32;
    RecordParts(s, pos, r);
    EncodedSize(r);
    BlockSize(r.key);
    BlockSize(r.value);
    ReadsBlock(s, pos, r.key);
    ReadsBlock(s, pos + |Block(r.key)|, r.value);
    HolderAgrees(r, pos);
    EntryIs(s, pos, r.key, pos + |Block(r.key)|, r.value, pos + |Encoded(r)|, HeadSize(|r.key|, |r.value|));
  }

  lemma EntryIs(s: Bytes, pos: nat, key: Bytes, next: nat, value: Bytes, end: nat, headSize: nat)
    requires BlockAt(s, pos) == Ok(key, next) && key != [] && BlockAt(s, next) == Ok(value, end)
    requires pos < TWO32 && end == pos + headSize + |value|
    ensures ItemAt(s, pos)
         == Entry(key, KeyValueHolder(ToUInt16(headSize), ToUInt16(|key|), ToUInt32(|value|), ToUInt32(pos)), end)
  {
    hide BlockAt, ToUInt16;
    BlockMoves(s, pos);
    BlockMoves(s, next);
  }

  lemma HolderAgrees(r: Record, pos: nat)
    requires ValidRecord(r) && pos < TWO32
    ensures HolderOf(r, pos)
         == KeyValueHolder(ToUInt16(HeadSize(|r.key|, |r.value|)), ToUInt16(|r.key|), ToUInt32(|r.value|), ToUInt32(pos))
  {
  }

  ghost predicate AllValid(rs: seq<Record>) {
    forall r | r in rs :: ValidRecord(r)
  }

  lemma EncodeAllPrefix(rs: seq<Record>, k: nat)
    requires k < |rs|
    ensures EncodeAll(rs[..k + 1]) == EncodeAll(rs[..k]) + Encoded(rs[k])
  {
    assert rs[..k + 1][..k] == rs[..k];
  }

  lemma {:induction false} EncodeAllBegins(rs: seq<Record>, k: nat)
    requires k <= |rs|
    ensures |EncodeAll(rs[..k])| <= |EncodeAll(rs)| && EncodeAll(rs)[..|EncodeAll(rs[..k])|] == EncodeAll(rs[..k])
  {
    if k == |rs| {
      assert rs[..k] == rs;
    } else {
      var n := |rs| - 1;
      EncodeAllBegins(rs[..n], k);
      assert rs[..n][..k] == rs[..k];
    }
  }

  /** Reading the first k records. */
  lemma {:induction false} ReplayPrefix(s: Bytes, pos: nat, dic: Dictionary, rs: seq<Record>, k: nat)
    requires AllValid(rs) && k <= |rs| && |s| < TWO32
    requires pos + |EncodeAll(rs)| <= |s| && s[pos..pos + |EncodeAll(rs)|] == EncodeAll(rs)
    ensures pos + |EncodeAll(rs[..k])| <= |s|
    ensures Replay(s, pos, dic) == Replay(s, pos + |EncodeAll(rs[..k])|, Index(dic, rs[..k], pos))
  {
    hide Encoded, EncodeAll, Replay, Index, Update, HolderOf, ItemAt, ValidRecord;
    EncodeAllBegins(rs, k);
    if k == 0 {
      NoRecords(dic, rs, pos);
    } else {
      var j := k - 1;
      ReplayPrefix(s, pos, dic, rs, j);
      EncodeAllPrefix(rs, j);
      SliceOfLog(s, pos, EncodeAll(rs), EncodeAll(rs[..j]), Encoded(rs[j]));
      ReplayRecord(s, pos + |EncodeAll(rs[..j])|, Index(dic, rs[..j], pos), rs[j]);
      IndexPrefix(dic, rs, j, pos);
    }
  }

  lemma NoRecords(dic: Dictionary, rs: seq<Record>, pos: nat)
    ensures EncodeAll(rs[..0]) == [] && Index(dic, rs[..0], pos) == dic
  {
  }

  lemma IndexPrefix(dic: Dictionary, rs: seq<Record>, j: nat, pos: nat)
    requires j < |rs|
    ensures Index(dic, rs[..j + 1], pos)
         == Update(Index(dic, rs[..j], pos), rs[j].key, HolderOf(rs[j], pos + |EncodeAll(rs[..j])|))
  {
    assert rs[..j + 1][..j] == rs[..j];
  }

  lemma ReplayRecord(s: Bytes, pos: nat, dic: Dictionary, r: Record)
    requires ValidRecord(r) && pos + |Encoded(r)| <= |s| < TWO32 && s[pos..pos + |Encoded(r)|] == Encoded(r)
    ensures Replay(s, pos, dic) == Replay(s, pos + |Encoded(r)|, Update(dic, r.key, HolderOf(r, pos)))
  {
    hide Encoded, ItemAt, HolderOf, Update, BlockAt, Replay, HeadSize, VarintSize, Block, ValidRecord;
    EncodedSize(r);
    ReadsRecord(s, pos, r);
    ReplayEntry(s, pos, dic, r.key, HolderOf(r, pos), pos + |Encoded(r)|);
  }

  lemma ReplayEntry(s: Bytes, pos: nat, dic: Dictionary, key: Bytes, holder: KeyValueHolder, next: nat)
    requires pos < |s| && ItemAt(s, pos) == Entry(key, holder, next)
    ensures Replay(s, pos, dic) == Replay(s, next, Update(dic, key, holder))
  {
    hide ItemAt, Update;
  }

  lemma SliceOfLog(s: Bytes, pos: nat, all: Bytes, before: Bytes, r: Bytes)
    requires pos + |all| <= |s| && s[pos..pos + |all|] == all && |before + r| <= |all| && all[..|before + r|] == before + r
    ensures s[pos + |before|..pos + |before| + |r|] == r
  {
    assert all[|before|..|before| + |r|] == all[..|before + r|][|before|..] == r;
    Part(s, pos, all, |before|, r);
  }

  /** Index equals log: reading the bytes of any records gives exactly their index. */
  lemma ReplayIsIndex(s: Bytes, pos: nat, dic: Dictionary, rs: seq<Record>)
    requires AllValid(rs) && |s| < TWO32
    requires pos + |EncodeAll(rs)| == |s| && s[pos..] == EncodeAll(rs)
    ensures Replay(s, pos, dic) == (Index(dic, rs, pos), true)
  {
    hide EncodeAll, Index;
    assert s[pos..] == s[pos..|s|];
    ReplayPrefix(s, pos, dic, rs, |rs|);
    assert rs[..|rs|] == rs;
    ReplayEnd(s, |s|, Index(dic, rs, pos));
  }

  lemma ReplayEnd(s: Bytes, pos: nat, dic: Dictionary)
    requires pos >= |s|
    ensures Replay(s, pos, dic) == (dic, true)
  {
  }

  /** From here on there are no more records: empty keys at most, up to the end or to bytes that
      cannot be read. */
  ghost predicate NoMore(s: Bytes, pos: nat)
    decreases |s| - pos
  {
    pos < |s| ==>
      match ItemAt(s, pos)
      case Bad => true
      case NoKey(next) => BlockMoves(s, pos); NoMore(s, next)
      case Entry(_, _, _) => false
  }

  lemma {:induction false} ReplayNoMore(s: Bytes, pos: nat, dic: Dictionary)
    requires NoMore(s, pos)
    ensures Replay(s, pos, dic).0 == dic
    decreases |s| - pos
  {
    if pos < |s| && ItemAt(s, pos).NoKey? {
      ItemMoves(s, pos);
      ReplayNoMore(s, ItemAt(s, pos).next, dic);
    }
  }

  /** A greedy reader finds the records that come first. */
  lemma ReplayFirst(s: Bytes, pos: nat, dic: Dictionary, rs: seq<Record>)
    requires AllValid(rs) && |s| < TWO32
    requires pos + |EncodeAll(rs)| <= |s| && s[pos..pos + |EncodeAll(rs)|] == EncodeAll(rs)
    requires NoMore(s, pos + |EncodeAll(rs)|)
    ensures Replay(s, pos, dic).0 == Index(dic, rs, pos)
  {
    hide EncodeAll, Index, Replay, NoMore, AllValid;
    ReplayPrefix(s, pos, dic, rs, |rs|);
    assert rs[..|rs|] == rs;
    ReplayNoMore(s, pos + |EncodeAll(rs)|, Index(dic, rs, pos));
  }

  /** A holder is right about where a record is and how long its parts are. */
  ghost predicate PointsTo(log: Bytes, h: KeyValueHolder, r: Record) {
    ValidRecord(r) && r.value != [] && h == HolderOf(r, h.offset) && h.offset + |Encoded(r)| <= |log| &&
    log[h.offset..h.offset + |Encoded(r)|] == Encoded(r)
  }

  lemma PointsToRecord(log: Bytes, h: KeyValueHolder, r: Record)
    requires PointsTo(log, h, r)
    ensures RecordSize(h) == |Encoded(r)| && h.keySize == |r.key| && h.valueSize == |r.value|
    ensures h.computedKVSize == HeadSize(|r.key|, |r.value|)
    ensures h.offset + RecordSize(h) <= |log| && ToMMBuffer(h, log) == r.value
    ensures h.offset + |Block(r.key)| <= |log| && log[h.offset..h.offset + |Block(r.key)|] == Block(r.key)
  {
    hide Encoded, HolderOf, Block, VarintSize;
    EncodedSize(r);
    BlockSize(r.value);
    RecordParts(log, h.offset, r);
    HolderAgrees(r, h.offset);
    ValuePart(log, h.offset + |Block(r.key)|, r.value);
  }

  lemma ValuePart(log: Bytes, at: nat, value: Bytes)
    requires |value| < TWO31 && at + |Block(value)| <= |log| && log[at..at + |Block(value)|] == Block(value)
    ensures log[at + |Block(value)| - |value|..at + |Block(value)|] == value
  {
    var b := VarintBytes(|value|);
    assert Block(value)[|b|..] == value;
    Part(log, at, Block(value), |b|, value);
  }

  /** The dictionary has the right place for every value, from `base` on. */
  ghost predicate Indexes(dic: Dictionary, contents: map<Bytes, Bytes>, log: Bytes, base: nat) {
    dic.Keys == contents.Keys &&
    forall k | k in dic :: dic[k].offset >= base && PointsTo(log, dic[k], Record(k, contents[k]))
  }

  ghost predicate Apart(h: KeyValueHolder, h': KeyValueHolder) {
    h.offset + RecordSize(h) <= h'.offset || h'.offset + RecordSize(h') <= h.offset
  }

  ghost predicate AllApart(dic: Dictionary) {
    forall k, k' | k in dic && k' in dic && k != k' :: Apart(dic[k], dic[k'])
  }

  lemma PointsLonger(log: Bytes, more: Bytes, h: KeyValueHolder, r: Record)
    requires PointsTo(log, h, r)
    ensures PointsTo(log + more, h, r)
  {
    assert (log + more)[h.offset..h.offset + |Encoded(r)|] == log[h.offset..h.offset + |Encoded(r)|];
  }

  /** Appending a record to a well-indexed log. */
  lemma AppendIndexes(dic: Dictionary, contents: map<Bytes, Bytes>, log: Bytes, base: nat, r: Record)
    requires Indexes(dic, contents, log, base) && AllApart(dic) && ValidRecord(r)
    requires base <= |log| && |log| + |Encoded(r)| < TWO32
    ensures Indexes(Update(dic, r.key, HolderOf(r, |log|)), Meaning(contents, r), log + Encoded(r), base)
    ensures AllApart(Update(dic, r.key, HolderOf(r, |log|)))
  {
    hide Encoded, HolderOf, ValidRecord, PointsTo, RecordSize;
    var h := HolderOf(r, |log|);
    var dic' := Update(dic, r.key, h);
    var contents' := Meaning(contents, r);
    var log' := log + Encoded(r);
    HolderShape(r, |log|);
    forall k | k in dic
      ensures PointsTo(log', dic[k], Record(k, contents[k])) && dic[k].offset + RecordSize(dic[k]) <= |log|
    {
      PointsLonger(log, Encoded(r), dic[k], Record(k, contents[k]));
      PointsToRecord(log, dic[k], Record(k, contents[k]));
    }
    if r.value != [] {
      PointsLast(log, r);
    }
    assert dic'.Keys == contents'.Keys;
  }

  lemma HolderShape(r: Record, offset: nat)
    requires ValidRecord(r) && offset < TWO32
    ensures HolderOf(r, offset).valueSize == |r.value| && HolderOf(r, offset).offset == offset
  {
  }

  lemma PointsLast(log: Bytes, r: Record)
    requires ValidRecord(r) && r.value != [] && |log| + |Encoded(r)| < TWO32
    ensures PointsTo(log + Encoded(r), HolderOf(r, |log|), r)
  {
    HolderShape(r, |log|);
    hide Encoded, HolderOf;
    assert (log + Encoded(r))[|log|..|log| + |Encoded(r)|] == Encoded(r);
  }

  /** The index of any records is right. */
  lemma {:induction false} IndexIndexes(head: Bytes, rs: seq<Record>)
    requires AllValid(rs) && |head| + |EncodeAll(rs)| < TWO32
    ensures Indexes(Index(map[], rs, |head|), Contents(rs), head + EncodeAll(rs), |head|)
    ensures AllApart(Index(map[], rs, |head|))
  {
    hide Encoded, HolderOf, Update, Indexes, AllApart, ValidRecord, Index, Contents, EncodeAll, Meaning, AllValid;
    if rs == [] {
      EmptyIndexes(head);
    } else {
      var n := |rs| - 1;
      ValidParts(rs);
      LastRecord(map[], rs, |head|);
      IndexIndexes(head, rs[..n]);
      var log := head + EncodeAll(rs[..n]);
      AppendIndexes(Index(map[], rs[..n], |head|), Contents(rs[..n]), log, |head|, rs[n]);
      assert head + EncodeAll(rs) == log + Encoded(rs[n]);
    }
  }

  lemma EmptyIndexes(head: Bytes)
    ensures Indexes(Index(map[], [], |head|), Contents([]), head + EncodeAll([]), |head|)
    ensures AllApart(Index(map[], [], |head|))
  {
  }

  lemma ValidParts(rs: seq<Record>)
    requires AllValid(rs) && rs != []
    ensures AllValid(rs[..|rs| - 1]) && ValidRecord(rs[|rs| - 1])
  {
    hide ValidRecord;
  }

  lemma LastRecord(dic: Dictionary, rs: seq<Record>, offset: nat)
    requires rs != []
    ensures var n := |rs| - 1;
      Index(dic, rs, offset) == Update(Index(dic, rs[..n], offset), rs[n].key, HolderOf(rs[n], offset + |EncodeAll(rs[..n])|)) &&
      EncodeAll(rs) == EncodeAll(rs[..n]) + Encoded(rs[n]) &&
      Contents(rs) == Meaning(Contents(rs[..n]), rs[n])
  {
  }
}
