/** Rewriting the log with the live records only, in place (`prepareEncode` and the plain
    `memmoveDictionary` of MMKV_IO.cpp).
  */
module Compaction {
  import opened Powers
  import opened Varints
  import opened CodedOutput
  import opened KeyValueHolders
  import opened CodedInput
  import opened LogRecords

  // ItemSizeHolderSize
  const HOLDER_SIZE: nat := 4

  /** The size of all live records. */
  ghost function SumSizes(keys: set<Bytes>, dic: Dictionary): nat
    requires keys <= dic.Keys
    decreases |keys|
  {
    if keys == {} then 0
    else
      var k :| k in keys;
      SumSizes(keys - {k}, dic) + RecordSize(dic[k])
  }

  /** In whatever order they are added. */
  lemma {:induction false} SumWithout(keys: set<Bytes>, dic: Dictionary, key: Bytes)
    requires keys <= dic.Keys && key in keys
    ensures SumSizes(keys, dic) == SumSizes(keys - {key}, dic) + RecordSize(dic[key])
    decreases |keys|
  {
    hide RecordSize;
    var k :| k in keys && SumSizes(keys, dic) == SumSizes(keys - {k}, dic) + RecordSize(dic[k]);
    if k != key {
      SumWithout(keys - {k}, dic, key);
      SumWithout(keys - {key}, dic, k);
      assert keys - {k} - {key} == keys - {key} - {k};
    }
  }

  /** Predicts the size of the rewritten log. */
  method PrepareEncode(dic: Dictionary) returns (totalSize: nat)
    ensures totalSize == HOLDER_SIZE + SumSizes(dic.Keys, dic)
  {
    hide RecordSize;
    totalSize := HOLDER_SIZE;
    var rest := dic.Keys;
    while rest != {}
      invariant rest <= dic.Keys
      invariant totalSize + SumSizes(rest, dic) == HOLDER_SIZE + SumSizes(dic.Keys, dic)
      decreases |rest|
    {
      var k :| k in rest;
      SumWithout(rest, dic, k);
      totalSize := totalSize + RecordSize(dic[k]);
      rest := rest - {k};
    }
  }

  /** Keys once each, by offset. */
  ghost predicate Sorted(vec: seq<Bytes>, dic: Dictionary) {
    (forall k | k in vec :: k in dic) &&
    (forall i, j | 0 <= i < j < |vec| :: vec[i] != vec[j] && dic[vec[i]].offset <= dic[vec[j]].offset)
  }

  /** All keys of the dictionary, once each, by offset. */
  ghost predicate Ordered(vec: seq<Bytes>, dic: Dictionary) {
    Sorted(vec, dic) && forall k | k in dic :: k in vec
  }

  method SortByOffset(dic: Dictionary) returns (vec: seq<Bytes>)
    ensures Ordered(vec, dic)
  {
    vec := [];
    var rest := dic.Keys;
    while rest != {}
      invariant rest <= dic.Keys && Sorted(vec, dic)
      invariant forall k | k in dic :: k in vec <==> k !in rest
      decreases |rest|
    {
      var k :| k in rest;
      vec := Insert(vec, dic, k);
      rest := rest - {k};
    }
  }

  method Insert(vec: seq<Bytes>, dic: Dictionary, key: Bytes) returns (r: seq<Bytes>)
    requires Sorted(vec, dic) && key in dic && key !in vec
    ensures Sorted(r, dic) && forall k :: k in r <==> k == key || k in vec
  {
    var i: nat := |vec|;
    while i > 0 && dic[vec[i - 1]].offset > dic[key].offset
      invariant i <= |vec|
      invariant forall j | i <= j < |vec| :: dic[key].offset <= dic[vec[j]].offset
    {
      i := i - 1;
    }
    r := vec[..i] + [key] + vec[i..];
    InsertedAt(vec, key, i);
    InsertedSorted(vec, dic, key, i, r);
  }

  /** r is vec with a key inserted at place i. */
  ghost predicate Inserted(vec: seq<Bytes>, key: Bytes, i: nat, r: seq<Bytes>) {
    i <= |vec| && |r| == |vec| + 1 && r[i] == key &&
    (forall j | 0 <= j < i :: r[j] == vec[j]) && (forall j | i < j < |r| :: r[j] == vec[j - 1])
  }

  lemma InsertedAt(vec: seq<Bytes>, key: Bytes, i: nat)
    requires i <= |vec|
    ensures var r := vec[..i] + [key] + vec[i..];
      Inserted(vec, key, i, r) && (forall k :: k in r <==> k == key || k in vec)
  {
    assert vec == vec[..i] + vec[i..];
  }

  lemma InsertedSorted(vec: seq<Bytes>, dic: Dictionary, key: Bytes, i: nat, r: seq<Bytes>)
    requires Sorted(vec, dic) && key in dic && key !in vec && Inserted(vec, key, i, r)
    requires i > 0 ==> dic[vec[i - 1]].offset <= dic[key].offset
    requires forall j | i <= j < |vec| :: dic[key].offset <= dic[vec[j]].offset
    ensures Sorted(r, dic)
  {
    forall k | k in r
      ensures k in dic
    {
      var j :| 0 <= j < |r| && r[j] == k;
      if j < i {
        assert vec[j] in vec;
      } else if j > i {
        assert vec[j - 1] in vec;
      }
    }
    forall m, n | 0 <= m < n < |r|
      ensures r[m] != r[n] && dic[r[m]].offset <= dic[r[n]].offset
    {
      if m == i {
        assert vec[n - 1] in vec;
      } else if n == i {
        assert vec[m] in vec;
        assert m == i - 1 || dic[vec[m]].offset <= dic[vec[i - 1]].offset;
      }
    }
  }

  datatype Section = Section(offset: nat, size: nat)

  function SectionOf(h: KeyValueHolder): Section {
    Section(h.offset, RecordSize(h))
  }

  function End(s: Section): nat {
    s.offset + s.size
  }

  /** The places of the records that the vector names. */
  ghost function Places(vec: seq<Bytes>, dic: Dictionary): (r: seq<Section>)
    requires forall k | k in vec :: k in dic
    ensures |r| == |vec|
  {
    seq(|vec|, i requires 0 <= i < |vec| => SectionOf(dic[vec[i]]))
  }

  /** In the log behind the size holder, ascending and without overlap. */
  ghost predicate Ascending(sections: seq<Section>, limit: nat) {
    (forall i | 0 <= i < |sections| :: HOLDER_SIZE <= sections[i].offset && End(sections[i]) <= limit) &&
    (forall i, j | 0 <= i < j < |sections| :: End(sections[i]) <= sections[j].offset)
  }

  /** Their bytes, one after the other. */
  ghost function SectionBytes(sections: seq<Section>, log: Bytes): Bytes
    requires Ascending(sections, |log|)
  {
    if sections == [] then []
    else
      var s := sections[|sections| - 1];
      SectionBytes(sections[..|sections| - 1], log) + log[s.offset..End(s)]
  }

  lemma AscendingPrefix(sections: seq<Section>, k: nat, limit: nat)
    requires Ascending(sections, limit) && k <= |sections|
    ensures Ascending(sections[..k], limit)
  {
  }

  lemma SectionAppend(sections: seq<Section>, s: Section, log: Bytes)
    requires Ascending(sections, |log|) && HOLDER_SIZE <= s.offset && End(s) <= |log|
    requires sections != [] ==> End(sections[|sections| - 1]) <= s.offset
    ensures Ascending(sections + [s], |log|)
    ensures SectionBytes(sections + [s], log) == SectionBytes(sections, log) + log[s.offset..End(s)]
  {
    AscendingAppend(sections, s, |log|);
    hide Ascending;
    var all := sections + [s];
    assert all[..|all| - 1] == sections;
  }

  lemma AscendingAppend(sections: seq<Section>, s: Section, limit: nat)
    requires Ascending(sections, limit) && HOLDER_SIZE <= s.offset && End(s) <= limit
    requires sections != [] ==> End(sections[|sections| - 1]) <= s.offset
    ensures Ascending(sections + [s], limit)
  {
    var all := sections + [s];
    forall i, j | 0 <= i < j < |all|
      ensures End(all[i]) <= all[j].offset
    {
      if j == |sections| && i < |sections| - 1 {
        assert End(sections[i]) <= sections[|sections| - 1].offset;
      }
    }
  }

  /** A section that touches the last one. */
  lemma SectionExtend(sections: seq<Section>, s: Section, log: Bytes)
    requires Ascending(sections, |log|) && sections != [] && End(s) <= |log|
    requires End(sections[|sections| - 1]) == s.offset
    ensures var last := sections[|sections| - 1];
      var merged := sections[..|sections| - 1] + [Section(last.offset, last.size + s.size)];
      Ascending(merged, |log|) && SectionBytes(merged, log) == SectionBytes(sections, log) + log[s.offset..End(s)]
  {
    hide SectionBytes, Ascending;
    var last := sections[|sections| - 1];
    LastSection(sections, log);
    SectionAppend(sections[..|sections| - 1], Section(last.offset, last.size + s.size), log);
    Adjacent(log, last.offset, s.offset, End(s));
  }

  lemma Adjacent(log: Bytes, a: nat, b: nat, c: nat)
    requires a <= b <= c <= |log|
    ensures log[a..b] + log[b..c] == log[a..c]
  {
  }

  lemma LastSection(sections: seq<Section>, log: Bytes)
    requires Ascending(sections, |log|) && sections != []
    ensures var last, before := sections[|sections| - 1], sections[..|sections| - 1];
      Ascending(before, |log|) && HOLDER_SIZE <= last.offset && End(last) <= |log| &&
      (before != [] ==> End(before[|before| - 1]) <= last.offset) &&
      SectionBytes(sections, log) == SectionBytes(before, log) + log[last.offset..End(last)]
  {
    AscendingPrefix(sections, |sections| - 1, |log|);
  }

  /** Merges records that touch; their bytes are the same. */
  method MergeSections(vec: seq<Bytes>, dic: Dictionary, ghost log: Bytes) returns (sections: seq<Section>)
    requires (forall k | k in vec :: k in dic) && Ascending(Places(vec, dic), |log|)
    ensures Ascending(sections, |log|)
    ensures SectionBytes(sections, log) == SectionBytes(Places(vec, dic), log)
  {
    hide RecordSize, SectionBytes, Ascending;
    ghost var places := Places(vec, dic);
    NoSections(places, log);
    sections := [];
    for i := 0 to |vec|
      invariant Ascending(sections, |log|) && Ascending(places[..i], |log|)
      invariant SectionBytes(sections, log) == SectionBytes(places[..i], log)
      invariant if i == 0 then sections == [] else sections != [] && End(sections[|sections| - 1]) == End(places[i - 1])
    {
      var h := dic[vec[i]];
      NextPlace(places, i, log);
      if sections == [] {
        SectionAppend(sections, SectionOf(h), log);
        sections := sections + [SectionOf(h)];
      } else {
        var last := sections[|sections| - 1];
        if h.offset == last.offset + last.size {
          SectionExtend(sections, SectionOf(h), log);
          sections := sections[..|sections| - 1] + [Section(last.offset, last.size + RecordSize(h))];
        } else {
          SectionAppend(sections, SectionOf(h), log);
          sections := sections + [SectionOf(h)];
        }
      }
    }
    assert places[..|vec|] == places;
  }

  lemma NoSections(places: seq<Section>, log: Bytes)
    ensures Ascending([], |log|) && SectionBytes([], log) == [] && places[..0] == []
  {
  }

  lemma NextPlace(places: seq<Section>, i: nat, log: Bytes)
    requires i < |places| && Ascending(places, |log|)
    ensures HOLDER_SIZE <= places[i].offset && End(places[i]) <= |log|
    ensures i > 0 ==> End(places[i - 1]) <= places[i].offset
    ensures Ascending(places[..i], |log|) && Ascending(places[..i + 1], |log|)
    ensures SectionBytes(places[..i + 1], log) == SectionBytes(places[..i], log) + log[places[i].offset..End(places[i])]
  {
    hide SectionBytes, Ascending;
    AscendingPrefix(places, i, |log|);
    AscendingPrefix(places, i + 1, |log|);
    LastSection(places[..i + 1], log);
    TakeTake(places, i);
    if i > 0 {
      LastOfTake(places, i);
    }
  }

  lemma TakeTake(places: seq<Section>, i: nat)
    requires i < |places|
    ensures places[..i + 1][..i] == places[..i] && places[..i + 1][i] == places[i]
  {
  }

  lemma LastOfTake(places: seq<Section>, i: nat)
    requires 0 < i <= |places|
    ensures places[..i] != [] && places[..i][i - 1] == places[i - 1]
  {
  }

  /** memmove: the target gets what the source was, even if they overlap. */
  method Memmove(memory: array<uint8>, target: nat, source: nat, n: nat)
    requires target + n <= memory.Length && source + n <= memory.Length
    modifies memory
    ensures memory[..] == Overwrite(old(memory[..]), target, old(memory[source..source + n]))
  {
    forall k | 0 <= k < n {
      memory[target + k] := memory[source + k];
    }
  }

  /** The first i sections have been moved to the front, up to w. */
  ghost predicate Moving(m: Bytes, log: Bytes, sections: seq<Section>, i: nat, w: nat)
    requires Ascending(sections, |log|) && i <= |sections|
  {
    AscendingPrefix(sections, i, |log|);
    var from := if i == 0 then HOLDER_SIZE else End(sections[i - 1]);
    |m| == |log| && w == HOLDER_SIZE + |SectionBytes(sections[..i], log)| && w <= from <= |log| &&
    m[..w] == log[..HOLDER_SIZE] + SectionBytes(sections[..i], log) && m[from..] == log[from..]
  }

  lemma StartMoving(log: Bytes, sections: seq<Section>)
    requires Ascending(sections, |log|) && |log| >= HOLDER_SIZE
    ensures Moving(log, log, sections, 0, HOLDER_SIZE)
  {
  }

  /** A section is moved down, onto bytes that are no longer needed. */
  lemma MoveOne(m: Bytes, log: Bytes, sections: seq<Section>, i: nat, w: nat)
    requires Ascending(sections, |log|) && i < |sections| && Moving(m, log, sections, i, w)
    ensures var s := sections[i];
      w <= s.offset && End(s) <= |m| && m[s.offset..End(s)] == log[s.offset..End(s)] &&
      Moving(Overwrite(m, w, m[s.offset..End(s)]), log, sections, i + 1, w + s.size)
  {
    hide SectionBytes;
    var s := sections[i];
    NextPlace(sections, i, log);
    var from := if i == 0 then HOLDER_SIZE else End(sections[i - 1]);
    MoveBytes(m, log, w, from, s, log[..HOLDER_SIZE] + SectionBytes(sections[..i], log));
    Concat(log[..HOLDER_SIZE], SectionBytes(sections[..i], log), log[s.offset..End(s)]);
  }

  lemma Concat(a: Bytes, b: Bytes, c: Bytes)
    ensures (a + b) + c == a + (b + c)
  {
  }

  lemma MoveBytes(m: Bytes, log: Bytes, w: nat, from: nat, s: Section, front: Bytes)
    requires |m| == |log| && w <= from <= s.offset && End(s) <= |log|
    requires m[..w] == front && m[from..] == log[from..]
    ensures var moved := m[s.offset..End(s)]; var m' := Overwrite(m, w, moved);
      moved == log[s.offset..End(s)] && m'[..w + s.size] == front + moved && m'[End(s)..] == log[End(s)..]
  {
    forall k | from <= k < |m|
      ensures m[k] == log[k]
    {
      assert m[k] == m[from..][k - from] && log[k] == log[from..][k - from];
    }
  }

  /** Moves all sections to the front of the log, one after the other. */
  method MoveSections(memory: array<uint8>, start: nat, sections: seq<Section>, ghost log: Bytes) returns (writtenSize: nat)
    requires start <= memory.Length && log == memory[start..] && |log| >= HOLDER_SIZE && Ascending(sections, |log|)
    modifies memory
    ensures writtenSize == HOLDER_SIZE + |SectionBytes(sections, log)| && start + writtenSize <= memory.Length
    ensures memory[..start] == old(memory[..start])
    ensures memory[start..start + writtenSize] == log[..HOLDER_SIZE] + SectionBytes(sections, log)
  {
    hide SectionBytes, Ascending, Moving, Overwrite;
    writtenSize := HOLDER_SIZE;
    ghost var m, front := log, memory[..start];
    StartMoving(log, sections);
    for i := 0 to |sections|
      invariant Moving(m, log, sections, i, writtenSize)
      invariant memory[start..] == m && memory[..start] == front
    {
      ghost var before := memory[..];
      MoveOne(m, log, sections, i, writtenSize);
      SectionInside(before, start, m, sections[i]);
      Memmove(memory, start + writtenSize, start + sections[i].offset, sections[i].size);
      OverwriteSuffix(before, start, writtenSize, sections[i], memory[..]);
      m := memory[start..];
      writtenSize := writtenSize + sections[i].size;
    }
    AllMoved(m, log, sections, writtenSize);
    TakeOfDrop(memory[..], start, writtenSize);
  }

  lemma SectionInside(memory: Bytes, start: nat, m: Bytes, s: Section)
    requires start <= |memory| && m == memory[start..] && End(s) <= |m|
    ensures start + s.offset + s.size <= |memory|
  {
  }

  lemma TakeOfDrop(memory: Bytes, start: nat, n: nat)
    requires start + n <= |memory|
    ensures memory[start..][..n] == memory[start..start + n]
  {
  }

  lemma AllMoved(m: Bytes, log: Bytes, sections: seq<Section>, w: nat)
    requires Ascending(sections, |log|) && Moving(m, log, sections, |sections|, w)
    ensures w == HOLDER_SIZE + |SectionBytes(sections, log)| && w <= |m| == |log|
    ensures m[..w] == log[..HOLDER_SIZE] + SectionBytes(sections, log)
  {
    assert sections[..|sections|] == sections;
  }

  lemma OverwriteSuffix(before: Bytes, start: nat, w: nat, s: Section, after: Bytes)
    requires start <= |before| && w + s.size <= |before| - start && start + End(s) <= |before|
    requires after == Overwrite(before, start + w, before[start + s.offset..start + s.offset + s.size])
    ensures after[..start] == before[..start]
    ensures after[start..] == Overwrite(before[start..], w, before[start..][s.offset..End(s)])
  {
    assert before[start + s.offset..start + s.offset + s.size] == before[start..][s.offset..End(s)];
  }

  /** The live records in the order of the vector: what is left after rewriting. */
  ghost function Live(vec: seq<Bytes>, contents: map<Bytes, Bytes>): (rs: seq<Record>)
    requires forall k | k in vec :: k in contents
    ensures |rs| == |vec| && forall i | 0 <= i < |vec| :: rs[i] == Record(vec[i], contents[vec[i]])
  {
    seq(|vec|, i requires 0 <= i < |vec| => Record(vec[i], contents[vec[i]]))
  }

  /** Distinct keys in any order, each with its record in the log. */
  ghost predicate Lists(vec: seq<Bytes>, dic: Dictionary, contents: map<Bytes, Bytes>, log: Bytes) {
    (forall i, j | 0 <= i < j < |vec| :: vec[i] != vec[j]) &&
    (forall k | k in vec :: k in dic && k in contents && PointsTo(log, dic[k], Record(k, contents[k])))
  }

  lemma ListsPrefix(vec: seq<Bytes>, dic: Dictionary, contents: map<Bytes, Bytes>, log: Bytes)
    requires vec != [] && Lists(vec, dic, contents, log)
    ensures var n := |vec| - 1;
      Lists(vec[..n], dic, contents, log) && vec[n] !in vec[..n] && vec[n] in dic && vec[n] in contents &&
      PointsTo(log, dic[vec[n]], Record(vec[n], contents[vec[n]])) &&
      Live(vec, contents)[..n] == Live(vec[..n], contents) && Places(vec, dic)[..n] == Places(vec[..n], dic)
  {
    hide PointsTo;
    assert vec[|vec| - 1] in vec;
  }

  /** The bytes that are moved are those of the live records. */
  lemma {:induction false} LiveBytes(vec: seq<Bytes>, dic: Dictionary, contents: map<Bytes, Bytes>, log: Bytes)
    requires Lists(vec, dic, contents, log) && Ascending(Places(vec, dic), |log|)
    ensures SectionBytes(Places(vec, dic), log) == EncodeAll(Live(vec, contents))
  {
    hide PointsTo, Ascending, Encoded, RecordSize;
    if vec == [] {
    } else {
      var n := |vec| - 1;
      ListsPrefix(vec, dic, contents, log);
      LastSection(Places(vec, dic), log);
      LiveBytes(vec[..n], dic, contents, log);
      PointsToBytes(log, dic[vec[n]], Record(vec[n], contents[vec[n]]));
    }
  }

  lemma PointsToBytes(log: Bytes, h: KeyValueHolder, r: Record)
    requires PointsTo(log, h, r)
    ensures h.offset + RecordSize(h) <= |log| && log[h.offset..h.offset + RecordSize(h)] == Encoded(r)
    ensures RecordSize(h) == |Encoded(r)|
  {
    PointsToRecord(log, h, r);
  }

  /** Their size is the one predicted. */
  lemma {:induction false} LiveSize(vec: seq<Bytes>, dic: Dictionary, contents: map<Bytes, Bytes>, log: Bytes, keys: set<Bytes>)
    requires Lists(vec, dic, contents, log) && keys <= dic.Keys && forall k :: k in keys <==> k in vec
    ensures |EncodeAll(Live(vec, contents))| == SumSizes(keys, dic)
  {
    hide PointsTo, Encoded, RecordSize;
    if vec == [] {
      assert keys == {};
    } else {
      var n := |vec| - 1;
      ListsPrefix(vec, dic, contents, log);
      hide Lists, SumSizes;
      KeysOfPrefix(vec, keys, vec[..n], keys - {vec[n]});
      LiveSize(vec[..n], dic, contents, log, keys - {vec[n]});
      SumWithout(keys, dic, vec[n]);
      PointsToBytes(log, dic[vec[n]], Record(vec[n], contents[vec[n]]));
    }
  }

  lemma KeysOfPrefix(vec: seq<Bytes>, keys: set<Bytes>, front: seq<Bytes>, rest: set<Bytes>)
    requires vec != [] && (forall k :: k in keys <==> k in vec) && vec[|vec| - 1] !in front
    requires front == vec[..|vec| - 1] && rest == keys - {vec[|vec| - 1]}
    ensures (forall k :: k in rest <==> k in front) && vec[|vec| - 1] in keys
  {
    assert vec == front + [vec[|vec| - 1]];
  }

  /** They mean the same, ... */
  lemma {:induction false} LiveContents(vec: seq<Bytes>, dic: Dictionary, contents: map<Bytes, Bytes>, log: Bytes)
    requires Lists(vec, dic, contents, log)
    ensures forall k :: k in Contents(Live(vec, contents)) <==> k in vec
    ensures forall k | k in vec :: Contents(Live(vec, contents))[k] == contents[k]
    ensures AllValid(Live(vec, contents))
  {
    hide Encoded, RecordSize, HolderOf, ValidRecord;
    if vec == [] {
    } else {
      var n := |vec| - 1;
      ListsPrefix(vec, dic, contents, log);
      LiveContents(vec[..n], dic, contents, log);
      assert vec == vec[..n] + [vec[n]];
      var rs, r := Live(vec, contents), Record(vec[n], contents[vec[n]]);
      assert ValidRecord(r) && r.value != [];
      hide Live, Contents, PointsTo, Lists;
      OneMoreRecord(Live(vec[..n], contents), r, rs);
    }
  }

  lemma OneMoreRecord(front: seq<Record>, r: Record, rs: seq<Record>)
    requires rs != [] && rs[..|rs| - 1] == front && rs[|rs| - 1] == r && r.value != []
    ensures Contents(rs) == Contents(front)[r.key := r.value]
    ensures AllValid(front) && ValidRecord(r) ==> AllValid(rs)
  {
    hide ValidRecord;
    assert rs == front + [r];
  }

  /** Every listed key has the place that its record has among the records. */
  ghost predicate IndexedAs(index: Dictionary, vec: seq<Bytes>, rs: seq<Record>) {
    |rs| == |vec| && (forall k :: k in index <==> k in vec) &&
    forall i | 0 <= i < |vec| :: index[vec[i]] == HolderOf(rs[i], HOLDER_SIZE + |EncodeAll(rs[..i])|)
  }

  /** ... and their index is the old one with new offsets. */
  lemma {:induction false} LiveIndex(vec: seq<Bytes>, dic: Dictionary, contents: map<Bytes, Bytes>, log: Bytes)
    requires Lists(vec, dic, contents, log)
    ensures IndexedAs(Index(map[], Live(vec, contents), HOLDER_SIZE), vec, Live(vec, contents))
  {
    hide Encoded, RecordSize, HolderOf, ValidRecord, PointsTo, EncodeAll, IndexedAs, Index;
    if vec == [] {
      NothingIndexed();
    } else {
      var n := |vec| - 1;
      ListsPrefix(vec, dic, contents, log);
      LiveIndex(vec[..n], dic, contents, log);
      var rs := Live(vec, contents);
      LastRecord(map[], rs, HOLDER_SIZE);
      LiveHolder(log, dic[vec[n]], rs[n], HOLDER_SIZE + |EncodeAll(rs[..n])|);
      IndexGrows(Index(map[], rs[..n], HOLDER_SIZE), vec, rs, n);
    }
  }

  lemma NothingIndexed()
    ensures IndexedAs(Index(map[], [], HOLDER_SIZE), [], [])
  {
  }

  lemma IndexGrows(index: Dictionary, vec: seq<Bytes>, rs: seq<Record>, n: nat)
    requires |vec| == |rs| == n + 1 && IndexedAs(index, vec[..n], rs[..n]) && vec[n] !in vec[..n] && rs[n].key == vec[n]
    requires HolderOf(rs[n], HOLDER_SIZE + |EncodeAll(rs[..n])|).valueSize > 0
    ensures IndexedAs(Update(index, rs[n].key, HolderOf(rs[n], HOLDER_SIZE + |EncodeAll(rs[..n])|)), vec, rs)
  {
    hide HolderOf, EncodeAll;
    var index' := Update(index, rs[n].key, HolderOf(rs[n], HOLDER_SIZE + |EncodeAll(rs[..n])|));
    assert vec == vec[..n] + [vec[n]];
    forall i | 0 <= i < |vec|
      ensures index'[vec[i]] == HolderOf(rs[i], HOLDER_SIZE + |EncodeAll(rs[..i])|)
    {
      if i < n {
        assert vec[..n][i] == vec[i] && vec[i] in vec[..n] && rs[..n][i] == rs[i];
        assert rs[..n][..i] == rs[..i];
      }
    }
  }

  lemma LiveHolder(log: Bytes, h: KeyValueHolder, r: Record, offset: nat)
    requires PointsTo(log, h, r)
    ensures HolderOf(r, offset).valueSize > 0
    ensures offset < TWO32 ==> HolderOf(r, offset) == h.(offset := offset)
  {
  }

  /** Sorting by offset puts records that are apart in ascending places. */
  lemma SortedPlaces(vec: seq<Bytes>, dic: Dictionary, contents: map<Bytes, Bytes>, log: Bytes)
    requires Ordered(vec, dic) && Indexes(dic, contents, log, HOLDER_SIZE) && AllApart(dic)
    ensures Lists(vec, dic, contents, log) && Ascending(Places(vec, dic), |log|)
  {
    hide PointsTo, RecordSize, ValidRecord;
    var places := Places(vec, dic);
    forall i | 0 <= i < |vec|
      ensures HOLDER_SIZE <= places[i].offset && End(places[i]) <= |log| && places[i].size > 0
    {
      assert vec[i] in vec;
      PlaceInside(log, dic[vec[i]], Record(vec[i], contents[vec[i]]));
    }
    forall i, j | 0 <= i < j < |vec|
      ensures End(places[i]) <= places[j].offset
    {
      assert vec[i] in vec && vec[j] in vec;
      assert Apart(dic[vec[i]], dic[vec[j]]);
    }
  }

  lemma PlaceInside(log: Bytes, h: KeyValueHolder, r: Record)
    requires PointsTo(log, h, r)
    ensures h.offset + RecordSize(h) <= |log| && RecordSize(h) > 0
  {
    PointsToRecord(log, h, r);
    EncodedSize(r);
  }

  /** The bytes that the first i records of the vector take. */
  ghost function Taken(vec: seq<Bytes>, dic: Dictionary, i: nat): nat
    requires i <= |vec| && forall k | k in vec :: k in dic
  {
    if i == 0 then 0 else Taken(vec, dic, i - 1) + RecordSize(dic[vec[i - 1]])
  }

  /** The dictionary after the first i holders got their new offsets. */
  ghost function Relocated(dic: Dictionary, vec: seq<Bytes>, i: nat): (r: Dictionary)
    requires i <= |vec| && forall k | k in vec :: k in dic
    ensures r.Keys == dic.Keys
  {
    if i == 0 then dic
    else
      var h := dic[vec[i - 1]];
      Relocated(dic, vec, i - 1)[vec[i - 1] := h.(offset := ToUInt32(HOLDER_SIZE + Taken(vec, dic, i - 1)))]
  }

  /** Gives the holders, in the order of the records, their new offsets. */
  method UpdateOffsets(dic: Dictionary, vec: seq<Bytes>) returns (r: Dictionary)
    requires Ordered(vec, dic) && HOLDER_SIZE + Taken(vec, dic, |vec|) < TWO32
    ensures r == Relocated(dic, vec, |vec|)
  {
    hide RecordSize, Relocated, Taken, Ordered;
    AllListed(vec, dic);
    NoneRelocated(dic, vec);
    r := dic;
    var offset: uint32 := HOLDER_SIZE;
    for i := 0 to |vec|
      invariant r == Relocated(dic, vec, i) && offset == HOLDER_SIZE + Taken(vec, dic, i)
    {
      RelocateNext(dic, vec, i, offset);
      TakenGrows(vec, dic, i + 1);
      r := r[vec[i] := r[vec[i]].(offset := offset)];
      offset := offset + RecordSize(dic[vec[i]]);
    }
  }

  lemma AllListed(vec: seq<Bytes>, dic: Dictionary)
    requires Ordered(vec, dic)
    ensures forall k | k in vec :: k in dic
  {
  }

  lemma NoneRelocated(dic: Dictionary, vec: seq<Bytes>)
    requires forall k | k in vec :: k in dic
    ensures Relocated(dic, vec, 0) == dic && Taken(vec, dic, 0) == 0
  {
  }

  lemma RelocateNext(dic: Dictionary, vec: seq<Bytes>, i: nat, offset: uint32)
    requires Ordered(vec, dic) && (forall k | k in vec :: k in dic) && i < |vec|
    requires offset == HOLDER_SIZE + Taken(vec, dic, i)
    ensures vec[i] in dic && Taken(vec, dic, i + 1) == Taken(vec, dic, i) + RecordSize(dic[vec[i]])
    ensures var r := Relocated(dic, vec, i);
      Relocated(dic, vec, i + 1) == r[vec[i] := r[vec[i]].(offset := offset)]
  {
    hide RecordSize;
    assert vec[i] in vec;
    RelocatedAt(dic, vec, i, i);
  }

  lemma {:induction false} TakenGrows(vec: seq<Bytes>, dic: Dictionary, i: nat)
    requires i <= |vec| && forall k | k in vec :: k in dic
    ensures Taken(vec, dic, i) <= Taken(vec, dic, |vec|)
    decreases |vec| - i
  {
    hide RecordSize;
    if i < |vec| {
      TakenGrows(vec, dic, i + 1);
    }
  }

  lemma AllSorted(vec: seq<Bytes>, dic: Dictionary)
    requires Sorted(vec, dic)
    ensures forall k | k in vec :: k in dic
  {
  }

  lemma Different(vec: seq<Bytes>, dic: Dictionary, i: nat, j: nat)
    requires Sorted(vec, dic) && i <= |vec| && j < |vec|
    ensures i > 0 && i - 1 != j ==> vec[i - 1] != vec[j]
  {
  }

  lemma {:induction false} RelocatedAt(dic: Dictionary, vec: seq<Bytes>, i: nat, j: nat)
    requires Sorted(vec, dic) && i <= |vec| && j < |vec|
    ensures Relocated(dic, vec, i)[vec[j]]
         == if j < i then dic[vec[j]].(offset := ToUInt32(HOLDER_SIZE + Taken(vec, dic, j))) else dic[vec[j]]
    decreases i
  {
    hide RecordSize, Taken;
    AllSorted(vec, dic);
    Different(vec, dic, i, j);
    hide Sorted;
    if i > 0 {
      RelocatedAt(dic, vec, i - 1, j);
    }
  }

  lemma {:induction false} TakenSize(vec: seq<Bytes>, dic: Dictionary, contents: map<Bytes, Bytes>, log: Bytes, i: nat)
    requires Lists(vec, dic, contents, log) && i <= |vec|
    ensures Taken(vec, dic, i) == |EncodeAll(Live(vec, contents)[..i])|
  {
    hide RecordSize, PointsTo, Encoded;
    if i > 0 {
      TakenSize(vec, dic, contents, log, i - 1);
      EncodeAllPrefix(Live(vec, contents), i - 1);
      assert vec[i - 1] in vec;
      PointsToBytes(log, dic[vec[i - 1]], Live(vec, contents)[i - 1]);
    }
  }

  /** The new offsets are the places of the live records. */
  lemma RelocatedIsIndex(dic: Dictionary, vec: seq<Bytes>, contents: map<Bytes, Bytes>, log: Bytes)
    requires Ordered(vec, dic) && Lists(vec, dic, contents, log)
    requires HOLDER_SIZE + |EncodeAll(Live(vec, contents))| < TWO32
    ensures Relocated(dic, vec, |vec|) == Index(map[], Live(vec, contents), HOLDER_SIZE)
  {
    hide RecordSize, HolderOf, PointsTo, EncodeAll, Index, Relocated, Taken, Live, Ordered, IndexedAs;
    var rs := Live(vec, contents);
    hide Lists;
    AllListed(vec, dic);
    LiveIndex(vec, dic, contents, log);
    var r, index := Relocated(dic, vec, |vec|), Index(map[], rs, HOLDER_SIZE);
    ListedKeys(dic, vec, rs, index);
    forall k | k in dic
      ensures r[k] == index[k]
    {
      PlaceOfKey(dic, vec, contents, log, rs, index, k);
    }
  }

  lemma ListedKeys(dic: Dictionary, vec: seq<Bytes>, rs: seq<Record>, index: Dictionary)
    requires Ordered(vec, dic) && IndexedAs(index, vec, rs)
    ensures index.Keys == dic.Keys
  {
    hide HolderOf, EncodeAll;
  }

  lemma PlaceOfKey(dic: Dictionary, vec: seq<Bytes>, contents: map<Bytes, Bytes>, log: Bytes, rs: seq<Record>,
                   index: Dictionary, key: Bytes)
    requires Ordered(vec, dic) && Lists(vec, dic, contents, log) && rs == Live(vec, contents) && IndexedAs(index, vec, rs)
    requires HOLDER_SIZE + |EncodeAll(rs)| < TWO32 && key in dic && (forall k | k in vec :: k in dic)
    ensures key in index && Relocated(dic, vec, |vec|)[key] == index[key]
  {
    hide RecordSize, HolderOf, PointsTo, EncodeAll, Relocated, Taken, Live, Lists;
    var i :| 0 <= i < |vec| && vec[i] == key;
    SamePlace(dic, vec, contents, log, rs, i);
  }

  lemma SamePlace(dic: Dictionary, vec: seq<Bytes>, contents: map<Bytes, Bytes>, log: Bytes, rs: seq<Record>, i: nat)
    requires Sorted(vec, dic) && Lists(vec, dic, contents, log) && i < |vec| && rs == Live(vec, contents)
    requires HOLDER_SIZE + |EncodeAll(rs)| < TWO32
    ensures Relocated(dic, vec, |vec|)[vec[i]] == HolderOf(rs[i], HOLDER_SIZE + |EncodeAll(rs[..i])|)
  {
    hide RecordSize, HolderOf, PointsTo, EncodeAll, Relocated, Taken;
    assert vec[i] in vec;
    RelocatedAt(dic, vec, |vec|, i);
    TakenSize(vec, dic, contents, log, i);
    EncodeAllBegins(rs, i);
    LiveHolder(log, dic[vec[i]], rs[i], HOLDER_SIZE + |EncodeAll(rs[..i])|);
  }

  lemma AllTaken(dic: Dictionary, vec: seq<Bytes>, contents: map<Bytes, Bytes>, log: Bytes)
    requires Lists(vec, dic, contents, log)
    ensures Taken(vec, dic, |vec|) == |EncodeAll(Live(vec, contents))|
  {
    hide PointsTo, EncodeAll, Taken;
    TakenSize(vec, dic, contents, log, |vec|);
    assert Live(vec, contents)[..|vec|] == Live(vec, contents);
  }

  /** Moves the live records to the front of the log and writes the size holder, whose
      value does not matter as long as it has four bytes. Nothing is lost: the dictionary
      is the index of the records that are left, and they mean what the old ones meant. */
  method MemmoveDictionary(dic: Dictionary, output: CodedOutputData, sizeHolder: uint32,
                           ghost contents: map<Bytes, Bytes>)
    returns (r: Dictionary, ghost rs: seq<Record>, ghost order: seq<Bytes>)
    requires output.Valid() && output.position == 0 && output.start + output.size == output.memory.Length
    requires HOLDER_SIZE <= output.size < TWO32 && 0x20_0000 <= sizeHolder < 0x1000_0000
    requires Indexes(dic, contents, output.memory[output.start..], HOLDER_SIZE) && AllApart(dic)
    modifies output, output.memory
    ensures output.Valid() && AllValid(rs)
    ensures Ordered(order, dic) && (forall k | k in order :: k in contents) && rs == Live(order, contents)
    ensures r == Index(map[], rs, HOLDER_SIZE) && Contents(rs) == contents
    ensures output.position == HOLDER_SIZE + |EncodeAll(rs)| == HOLDER_SIZE + SumSizes(dic.Keys, dic) <= output.size
    ensures output.memory[..output.start] == old(output.memory[..output.start])
    ensures output.memory[output.start..output.start + output.position] == VarintBytes(sizeHolder) + EncodeAll(rs)
  {
    hide PointsTo, Indexes, AllApart, Ascending, SectionBytes, EncodeAll, Index, Contents, Overwrite, AllValid,
         SumSizes, VarintBytes, Taken, Relocated, Live;
    ghost var log := output.memory[output.start..];
    var vec := SortByOffset(dic);
    SortedPlaces(vec, dic, contents, log);
    IndexKeys(dic, contents, log);
    var sections := MergeSections(vec, dic, log);
    var writtenSize := MoveSections(output.memory, output.start, sections, log);
    LiveBytes(vec, dic, contents, log);
    LiveSize(vec, dic, contents, log, dic.Keys);
    LiveContents(vec, dic, contents, log);
    rs, order := Live(vec, contents), vec;
    AllTaken(dic, vec, contents, log);
    RelocatedIsIndex(dic, vec, contents, log);
    r := UpdateOffsets(dic, vec);
    ghost var moved := output.memory[..];
    HolderBytes(sizeHolder);
    var ok := output.WriteRawVarint32(sizeHolder);
    HolderWritten(moved, output.start, writtenSize, log[..HOLDER_SIZE], EncodeAll(rs), VarintBytes(sizeHolder), output.memory[..]);
    ok := output.Seek(writtenSize - HOLDER_SIZE);
    assert Contents(rs) == contents;
  }

  lemma IndexKeys(dic: Dictionary, contents: map<Bytes, Bytes>, log: Bytes)
    requires Indexes(dic, contents, log, HOLDER_SIZE)
    ensures dic.Keys == contents.Keys
  {
  }

  lemma HolderBytes(sizeHolder: uint32)
    requires 0x20_0000 <= sizeHolder < 0x1000_0000
    ensures |VarintBytes(sizeHolder)| == HOLDER_SIZE
  {
    VarintBytesSize(sizeHolder);
  }

  lemma HolderWritten(m: Bytes, start: nat, end: nat, head: Bytes, body: Bytes, holder: Bytes, m': Bytes)
    requires |head| == |holder| && start + end <= |m| && end == |holder| + |body|
    requires m[start..start + end] == head + body && m' == Overwrite(m, start, holder)
    ensures m'[..start] == m[..start] && m'[start..start + end] == holder + body
  {
    forall k | 0 <= k < |body|
      ensures m'[start + |holder| + k] == body[k]
    {
      assert m[start..start + end][|head| + k] == body[k];
    }
  }
}
