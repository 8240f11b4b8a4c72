/** The key-value store of MMKV_IO.cpp for one process, unencrypted and without expiry: a
    dictionary of places in an append-only log in a mapped file. What randomness and the
    operating system decide is passed in: the value of the size holder, and whether a file
    can be made larger.
  */
module Mmkv {
  import opened Powers
  import opened Varints
  import opened CodedOutput
  import opened KeyValueHolders
  import opened CodedInput
  import opened LogRecords
  import opened MiniPBCoder
  import opened Compaction
  import opened Checksums
  import opened MetaInfos
  import opened DataChoice

  /** Up to whole pages. */
  function PageAligned(size: nat, page: nat): (r: nat)
    requires page > 0
    ensures size <= r <= size + page && r % page == 0
  {
    RoundedUp(size, page);
    if size < page || size % page != 0 then (size / page + 1) * page else size
  }

  lemma AlignedBelow(size: nat, page: nat, limit: nat)
    requires page > 0 && limit % page == 0 && size <= limit
    ensures PageAligned(size, page) <= limit || size == limit == 0
  {
    QuotientAndRemainder(size, page);
    QuotientAndRemainder(limit, page);
    NextMultiple(size, page, limit, size / page, size % page, limit / page);
  }

  /** The next multiple is not above a multiple that is at least as large. */
  lemma NextMultiple(size: nat, page: nat, limit: nat, q: int, r: nat, l: int)
    requires size == q * page + r && r < page && limit == l * page && size <= limit
    ensures r > 0 || size < page ==> (q + 1) * page <= limit || size == limit == 0
  {
    if l <= q {
      MulMono(l, q, page);
      assert size == limit && r == 0;
    } else {
      MulMono(q + 1, l, page);
    }
  }

  /** The space that at least eight more items like these would take. */
  function FutureUsage(lenNeeded: nat, count: nat): nat {
    var later: nat := count + 1;
    var items: nat := if later / 2 > 8 then later / 2 else 8;
    UsageIsNatural(lenNeeded + later - 1, later, items);
    (lenNeeded + later - 1) / later * items
  }

  /** Doubled until there is more space than wanted. */
  ghost function Grown(fileSize: nat, wanted: nat): (r: nat)
    requires fileSize > 0
    ensures wanted < r && 2 * fileSize <= r
    decreases wanted - fileSize
  {
    if wanted >= 2 * fileSize then Grown(2 * fileSize, wanted) else 2 * fileSize
  }

  /** Doubles at least once. */
  method Doubled(size: nat, wanted: nat) returns (fileSize: nat)
    requires size > 0
    ensures fileSize == Grown(size, wanted)
  {
    fileSize := size * 2;
    while wanted >= fileSize
      invariant fileSize > 0 && Grown(size, wanted) == if wanted >= fileSize then Grown(fileSize, wanted) else fileSize
      decreases wanted - fileSize
    {
      fileSize := fileSize * 2;
    }
  }

  // the least that randomItemSizeHolder gives for four bytes
  const LEAST_HOLDER: nat := 0x20_0000

  ghost predicate GoodHolder(sizeHolder: uint32) {
    LEAST_HOLDER <= sizeHolder < 0x1000_0000
  }

  /** The bytes of the log: nothing, or the size holder and the records. */
  ghost function LogBytes(actualSize: nat, sizeHolder: uint32, records: seq<Record>): Bytes {
    if actualSize == 0 then [] else VarintBytes(sizeHolder) + EncodeAll(records)
  }

  /** The content of the file: its size field, the log, and anything behind it. */
  ghost predicate Holds(file: Bytes, actualSize: nat, sizeHolder: uint32, records: seq<Record>) {
    HEADER_SIZE + actualSize <= |file| < TWO32 && GoodHolder(sizeHolder) && AllValid(records) &&
    (actualSize == 0 ==> records == []) &&
    actualSize == |LogBytes(actualSize, sizeHolder, records)| &&
    file[..HEADER_SIZE] == LittleEndian32(actualSize) &&
    file[HEADER_SIZE..HEADER_SIZE + actualSize] == LogBytes(actualSize, sizeHolder, records)
  }

  /** The first `size` bytes behind the size field are a log of these records. */
  ghost predicate IsLog(file: Bytes, size: nat, sizeHolder: uint32, records: seq<Record>) {
    HEADER_SIZE + size <= |file| && GoodHolder(sizeHolder) && AllValid(records) && (size == 0 ==> records == []) &&
    size == |LogBytes(size, sizeHolder, records)| && file[HEADER_SIZE..HEADER_SIZE + size] == LogBytes(size, sizeHolder, records)
  }

  /** The bytes behind the size holder begin with these records, and no more can be read. */
  ghost predicate BeginsWith(log: Bytes, records: seq<Record>) {
    match FirstPosition(log, 0)
    case Failed => records == []
    case Ok(_, next) =>
      next == HOLDER_SIZE && HOLDER_SIZE + |EncodeAll(records)| <= |log| &&
      log[HOLDER_SIZE..HOLDER_SIZE + |EncodeAll(records)|] == EncodeAll(records) &&
      NoMore(log, HOLDER_SIZE + |EncodeAll(records)|)
  }

  /** Loading what was chosen gives these records. If the recorded size is right, so is the
      size field. */
  ghost predicate Loads(choice: Choice, file: Bytes, meta: MetaInfo, sizeHolder: uint32, records: seq<Record>)
    requires HEADER_SIZE <= |file|
  {
    GoodHolder(sizeHolder) &&
    match choice
    case Recorded(size, crc) =>
      IsLog(file, size, sizeHolder, records) &&
      (meta.version >= VERSION_ACTUAL_SIZE && Checked(file, meta.actualSize, meta.crcDigest) ==>
        file[..HEADER_SIZE] == LittleEndian32(meta.actualSize))
    case Everything(size) =>
      AllValid(records) && HEADER_SIZE + size <= |file| &&
      if size == 0 then records == [] else BeginsWith(file[HEADER_SIZE..HEADER_SIZE + size], records)
    case Nothing => records == []
  }

  /** What a store makes known to others: its records, their extent, and the shared information. */
  datatype LogView = LogView(records: seq<Record>, sizeHolder: uint32, actualSize: nat, meta: MetaInfo)

  /** Extent and checksum are those of the records. */
  ghost predicate Sized(v: LogView) {
    GoodHolder(v.sizeHolder) && AllValid(v.records) && (v.actualSize == 0 ==> v.records == []) &&
    v.actualSize == |LogBytes(v.actualSize, v.sizeHolder, v.records)| &&
    v.meta.crcDigest == CRC32(0, LogBytes(v.actualSize, v.sizeHolder, v.records))
  }

  /** The records that have a meaning, in the order of the keys. */
  ghost predicate LiveBy(records: seq<Record>, order: seq<Bytes>, live: seq<Record>) {
    Ordered(order, Index(map[], records, HOLDER_SIZE)) && (forall k | k in order :: k in Contents(records)) &&
    live == Live(order, Contents(records))
  }

  /** The log was rewritten with the live records, under a new sequence number. */
  ghost predicate RewrittenTo(v: LogView, v': LogView) {
    Sized(v') && v'.actualSize > 0 && v'.actualSize == v'.meta.actualSize &&
    (exists order: seq<Bytes> :: LiveBy(v.records, order, v'.records)) &&
    v'.meta == v.meta.WithActualSize(v'.meta.actualSize, v'.meta.crcDigest, true).0
  }

  /** A record was appended. */
  ghost predicate AppendedTo(v: LogView, r: Record, v': LogView) {
    Sized(v') && v.actualSize > 0 && v'.actualSize == v'.meta.actualSize && ValidRecord(r) &&
    v'.records == v.records + [r] && v'.sizeHolder == v.sizeHolder &&
    v'.meta == v.meta.WithActualSize(v'.meta.actualSize, v'.meta.crcDigest, false).0
  }

  /** A record was appended, perhaps after making room for it. */
  ghost predicate Grew(v: LogView, r: Record, v': LogView) {
    exists u: LogView :: (u == v || RewrittenTo(v, u)) && AppendedTo(u, r, v')
  }

  /** Nothing is left, under a new sequence number. */
  ghost predicate ClearedTo(v: LogView, v': LogView) {
    v'.records == [] && v'.actualSize == 0 && v'.sizeHolder == v.sizeHolder &&
    v'.meta == v.meta.WithActualSize(0, 0, true).0
  }

  class MMKV {
    var file: array<uint8>
    var output: CodedOutputData
    var dic: Dictionary
    var actualSize: nat
    var crcDigest: uint32
    var metaInfo: MetaInfo
    var metaFile: MetaInfo
    var hasFullWriteback: bool

    const page: nat
    const expectedCapacity: nat
    const maxFileSize: nat
    const multiProcess: bool
    const compareBeforeSet: bool

    ghost var records: seq<Record>
    ghost var sizeHolder: uint32

    /** File, checksum and shared information agree with the records. */
    ghost predicate Stored()
      reads this`file, this`output, this`actualSize, this`crcDigest, this`metaInfo, this`metaFile, this`records,
            this`sizeHolder, file, output
    {
      8 <= page <= expectedCapacity <= maxFileSize < TWO32 && HEADER_SIZE + HOLDER_SIZE <= file.Length <= maxFileSize &&
      output.memory == file && output.start == HEADER_SIZE && output.size == file.Length - HEADER_SIZE &&
      output.Valid() && output.position == actualSize &&
      Holds(file[..], actualSize, sizeHolder, records) &&
      crcDigest == CRC32(0, LogBytes(actualSize, sizeHolder, records)) &&
      metaInfo == metaFile && metaInfo.crcDigest == crcDigest && SizeOf(file[..], metaInfo) == actualSize
    }

    /** Index equals log: the dictionary is what replaying the records gives. */
    ghost predicate Valid()
      reads this, file, output
    {
      Stored() && dic == Index(map[], records, HOLDER_SIZE)
    }

    /** Records were read from a damaged file; it still holds them, but size and checksum are not
        theirs. */
    ghost predicate Salvaged()
      reads this, file
    {
      8 <= page <= expectedCapacity <= maxFileSize < TWO32 &&
      HEADER_SIZE + HOLDER_SIZE <= file.Length <= maxFileSize &&
      metaInfo == metaFile && actualSize > 0 && !hasFullWriteback &&
      GoodHolder(sizeHolder) && AllValid(records) && dic == Index(map[], records, HOLDER_SIZE) &&
      HEADER_SIZE + HOLDER_SIZE + |EncodeAll(records)| <= file.Length &&
      file[HEADER_SIZE + HOLDER_SIZE..HEADER_SIZE + HOLDER_SIZE + |EncodeAll(records)|] == EncodeAll(records)
    }

    ghost function View(): LogView
      reads this
    {
      LogView(records, sizeHolder, actualSize, metaInfo)
    }

    lemma ViewIsSized()
      requires Stored()
      ensures Sized(View())
    {
      hide CRC32, LogBytes, AllValid;
    }

    lemma ValidIsSized()
      requires Valid()
      ensures Sized(View())
    {
      hide CRC32, LogBytes, AllValid, Index;
    }

    /** A new store over a file of zeros. */
    constructor (page: nat, expectedCapacity: nat, maxFileSize: nat, multiProcess: bool, compareBeforeSet: bool)
      requires 8 <= page <= expectedCapacity <= maxFileSize < TWO32
      ensures Valid() && records == [] && fresh(file) && fresh(output) && file.Length == expectedCapacity
      ensures this.page == page && this.expectedCapacity == expectedCapacity && this.maxFileSize == maxFileSize
      ensures this.multiProcess == multiProcess && this.compareBeforeSet == compareBeforeSet
    {
      this.page, this.expectedCapacity, this.maxFileSize := page, expectedCapacity, maxFileSize;
      this.multiProcess, this.compareBeforeSet := multiProcess, compareBeforeSet;
      var memory := new uint8[expectedCapacity](i => 0);
      file := memory;
      output := new CodedOutputData(memory, HEADER_SIZE, expectedCapacity - HEADER_SIZE);
      dic, actualSize, crcDigest, hasFullWriteback := map[], 0, 0, false;
      metaInfo := MetaInfo(0, VERSION_FLAG, 0, 0, 0, 0);
      metaFile := MetaInfo(0, VERSION_FLAG, 0, 0, 0, 0);
      records, sizeHolder := [], 0x20_0000;
      new;
      CrcOfNothing(0);
    }

    /** `truncate`: rounds up to whole pages; new space is filled with zeros. */
    method Truncate(size: nat, possible: bool) returns (ok: bool)
      requires page > 0
      modifies this`file
      ensures if ok then size <= file.Length && (file == old(file) || (fresh(file) && file.Length <= maxFileSize))
              else file == old(file)
      ensures file == old(file) || file.Length <= size + page
      ensures forall i | 0 <= i < file.Length && i < old(file.Length) :: file[i] == old(file[i])
      ensures ok <==> size == old(file.Length) || (possible && PageAligned(size, page) <= maxFileSize)
      ensures if size == old(file.Length) then file == old(file) else ok ==> file.Length == PageAligned(size, page)
    {
      if size == file.Length {
        return true;
      }
      var rounded := PageAligned(size, page);
      if !possible || rounded > maxFileSize {
        return false;
      }
      var was := file;
      file := new uint8[rounded](i requires 0 <= i reads was => if i < was.Length then was[i] else 0);
      ok := true;
    }

    /** Stores the extent and the checksum in the file and in the shared information. */
    method WriteActualSize(size: uint32, crc: uint32, increaseSequence: bool)
      requires HEADER_SIZE <= file.Length && metaInfo == metaFile
      modifies this`actualSize, this`crcDigest, this`metaInfo, this`metaFile, file
      ensures file[..] == Overwrite(old(file[..]), 0, LittleEndian32(size))
      ensures actualSize == size && crcDigest == crc && metaInfo == metaFile
      ensures metaInfo == old(metaInfo).WithActualSize(size, crc, increaseSequence).0
      ensures metaInfo.version >= VERSION_ACTUAL_SIZE
    {
      var bytes := LittleEndian32(size);
      forall i | 0 <= i < HEADER_SIZE {
        file[i] := bytes[i];
      }
      actualSize, crcDigest := size, crc;
      var changed := metaInfo.WithActualSize(size, crc, increaseSequence);
      metaInfo := changed.0;
      metaFile := metaInfo.Written(metaFile, changed.1);
    }

    /** `doFullWriteBack`: writes the live records to the front and a new sequence number. */
    method DoFullWriteBack(totalSize: nat, sizeHolder: uint32)
      returns (ghost order: seq<Bytes>)
      requires HEADER_SIZE + HOLDER_SIZE <= file.Length < TWO32 && GoodHolder(sizeHolder)
      requires 8 <= page <= expectedCapacity <= maxFileSize < TWO32 && metaInfo == metaFile && file.Length <= maxFileSize
      requires Indexes(dic, Contents(records), file[HEADER_SIZE..], HOLDER_SIZE) && AllApart(dic)
      requires totalSize == HOLDER_SIZE + SumSizes(dic.Keys, dic)
      modifies this, file
      ensures Valid() && file == old(file) && fresh(output) && hasFullWriteback && this.sizeHolder == sizeHolder
      ensures Contents(records) == old(Contents(records)) && actualSize == totalSize
      ensures metaInfo.sequence == (old(metaInfo.sequence) + 1) % TWO32
      ensures metaInfo.lastActualSize == actualSize && metaInfo.lastCRCDigest == crcDigest
      ensures metaInfo == old(metaInfo).WithActualSize(metaInfo.actualSize, metaInfo.crcDigest, true).0
      ensures Ordered(order, old(dic)) && (forall k | k in order :: k in old(Contents(records)))
      ensures records == Live(order, old(Contents(records)))
    {
      hide Ordered, Live, Indexes, AllApart, Index, Contents, EncodeAll, SumSizes, CRC32, Overwrite, VarintBytes,
           AllValid, LittleEndian32;
      var front := new CodedOutputData(file, HEADER_SIZE, file.Length - HEADER_SIZE);
      output := front;
      ghost var rs;
      dic, rs, order := MemmoveDictionary(dic, output, sizeHolder, Contents(records));
      records, this.sizeHolder := rs, sizeHolder;
      HolderBytes(sizeHolder);
      ghost var moved := file[..];
      var crc := CRC32(0, file[HEADER_SIZE..HEADER_SIZE + totalSize]);
      WriteActualSize(totalSize, crc, true);
      HeaderWritten(moved, totalSize, VarintBytes(sizeHolder) + EncodeAll(records), file[..]);
      hasFullWriteback := true;
    }

    /** The file is too small for a rewrite and cannot be made larger. */
    ghost predicate CannotGrow(newSize: nat, totalSize: nat, possible: bool)
      requires page > 0 && file.Length > 0
      reads this`file, this`dic
    {
      var lenNeeded := totalSize + HEADER_SIZE + newSize;
      var wanted := lenNeeded + FutureUsage(lenNeeded, |dic|);
      (lenNeeded >= file.Length || (|dic| > 0 && wanted >= file.Length)) &&
      !(possible && PageAligned(Grown(file.Length, wanted), page) <= maxFileSize)
    }

    /** There is no space for so many more bytes, and none can be had. */
    ghost predicate NoRoom(newSize: nat, possible: bool)
      requires Valid()
      reads this, file, output
    {
      (newSize >= output.SpaceLeft() || |dic| == 0) &&
      CannotGrow(newSize, HOLDER_SIZE + SumSizes(dic.Keys, dic), possible)
    }

    /** Enlarges the file if there is no space for the live records and `newSize` more bytes,
        or too little for the future; then rewrites the log. */
    method ExpandAndWriteBack(newSize: nat, totalSize: nat, needSync: bool, sizeHolder: uint32, possible: bool)
      returns (ok: bool)
      requires Valid() && GoodHolder(sizeHolder) && totalSize == HOLDER_SIZE + SumSizes(dic.Keys, dic)
      requires needSync == (|dic| > 0)
      modifies this, file
      ensures Valid() && Contents(records) == old(Contents(records))
      ensures file == old(file) || fresh(file)
      ensures output == old(output) || fresh(output)
      ensures ok <==> !old(CannotGrow(newSize, totalSize, possible))
      ensures ok ==> newSize < output.SpaceLeft() && actualSize > 0
      ensures hasFullWriteback == (ok || old(hasFullWriteback)) && old(file.Length) <= file.Length
      ensures file == old(file) || metaInfo.sequence == (old(metaInfo.sequence) + 1) % TWO32
      ensures !ok ==> file == old(file) && file[..] == old(file[..]) && records == old(records) && output == old(output)
      ensures !ok ==> dic == old(dic)
      ensures if ok then RewrittenTo(old(View()), View()) else View() == old(View())
    {
      hide Indexes, AllApart, Index, Contents, EncodeAll, SumSizes, CRC32, Holds, CannotGrow, LiveBy, Ordered, Live,
           Sized;
      ghost var before := file[..];
      FileBounds(file[..], actualSize, this.sizeHolder, records);
      ok := Enlarge(newSize, totalSize, needSync, possible);
      if !ok {
        return;
      }
      StillIndexed(before, file[..], actualSize, this.sizeHolder, records);
      ghost var was := records;
      ghost var order := DoFullWriteBack(totalSize, sizeHolder);
      LiveByOrder(was, order, records);
      ViewIsSized();
    }

    /** The first half of `expandAndWriteBack`. */
    method Enlarge(newSize: nat, totalSize: nat, needSync: bool, possible: bool) returns (ok: bool)
      requires page > 0 && 0 < file.Length && needSync == (|dic| > 0)
      modifies this`file
      ensures ok <==> !old(CannotGrow(newSize, totalSize, possible))
      ensures ok ==> totalSize + HEADER_SIZE + newSize < file.Length
      ensures file == old(file) || (ok && fresh(file) && file.Length <= maxFileSize)
      ensures old(file.Length) <= file.Length && forall i | 0 <= i < old(file.Length) :: file[i] == old(file[i])
    {
      hide PageAligned, FutureUsage, Grown;
      var fileSize := file.Length;
      var lenNeeded := totalSize + HEADER_SIZE + newSize;
      var futureUsage := FutureUsage(lenNeeded, |dic|);
      if lenNeeded >= fileSize || (needSync && lenNeeded + futureUsage >= fileSize) {
        fileSize := Doubled(fileSize, lenNeeded + futureUsage);
        ok := Truncate(fileSize, possible);
        return;
      }
      ok := true;
    }

    /** Makes sure that `newSize` more bytes can be appended. The first call may rewrite the
        log; with a dictionary that is not empty a second one does nothing. */
    method EnsureMemorySize(newSize: nat, sizeHolder: uint32, possible: bool) returns (ok: bool)
      requires Valid() && GoodHolder(sizeHolder)
      modifies this, file
      ensures Valid() && Contents(records) == old(Contents(records))
      ensures file == old(file) || fresh(file)
      ensures output == old(output) || fresh(output)
      ensures ok <==> !old(NoRoom(newSize, possible))
      ensures ok ==> newSize < output.SpaceLeft() && actualSize > 0
      ensures old(file.Length) <= file.Length
      ensures hasFullWriteback == (old(hasFullWriteback) || (ok && old(newSize >= output.SpaceLeft() || |dic| == 0)))
      ensures file == old(file) || metaInfo.sequence == (old(metaInfo.sequence) + 1) % TWO32
      ensures !ok ==> file == old(file) && file[..] == old(file[..]) && records == old(records) && output == old(output)
      ensures !ok ==> dic == old(dic)
      ensures old(dic) != map[] && newSize < old(output.SpaceLeft()) ==>
        ok && file == old(file) && file[..] == old(file[..]) && records == old(records) && output == old(output) &&
        dic == old(dic) && actualSize == old(actualSize)
      ensures View() == old(View()) ||
        (ok && old(newSize >= output.SpaceLeft() || |dic| == 0) && RewrittenTo(old(View()), View()))
    {
      hide Valid, NoRoom, CannotGrow, Contents, SumSizes, RewrittenTo;
      Parts();
      RoomIs(newSize, possible);
      if newSize >= output.SpaceLeft() || |dic| == 0 {
        var totalSize := PrepareEncode(dic);
        ok := ExpandAndWriteBack(newSize, totalSize, |dic| > 0, sizeHolder, possible);
        return;
      }
      ok := true;
    }

    lemma Parts()
      requires Valid()
      ensures page > 0 && file.Length > 0 && (|dic| > 0 ==> actualSize > 0)
    {
      hide Index, Contents, EncodeAll, CRC32, Holds, LogBytes;
      FileBounds(file[..], actualSize, sizeHolder, records);
      if |dic| > 0 {
        NotEmpty(file[..], actualSize, sizeHolder, records);
      }
    }

    lemma RoomIs(newSize: nat, possible: bool)
      requires Valid() && page > 0 && file.Length > 0
      ensures var totalSize := HOLDER_SIZE + SumSizes(dic.Keys, dic);
        NoRoom(newSize, possible) == ((newSize >= output.SpaceLeft() || |dic| == 0) && CannotGrow(newSize, totalSize, possible))
    {
      hide Valid, CannotGrow, SumSizes;
    }

    /** Appends a record, whose key may come with or without its length. The caller still has
        to enter the holder into the dictionary. */
    method DoAppendDataWithKey(data: Bytes, keyData: Bytes, isDataHolder: bool, originKeyLength: uint32,
                               sizeHolder: uint32, possible: bool, ghost record: Record)
      returns (ok: bool, holder: KeyValueHolder)
      requires Valid() && GoodHolder(sizeHolder) && ValidRecord(record)
      requires (keyData == record.key || keyData == Block(record.key)) && originKeyLength == |record.key|
      requires record.value == if isDataHolder then Block(data) else data
      modifies this, file, output
      ensures Stored() && (file == old(file) || fresh(file)) && (output == old(output) || fresh(output))
      ensures ok ==> Update(dic, record.key, holder) == Index(map[], records, HOLDER_SIZE)
      ensures ok ==> Contents(records) == Meaning(old(Contents(records)), record) && holder.valueSize == |record.value|
      ensures !ok ==> Valid() && Contents(records) == old(Contents(records))
      ensures ok <==> !old(NoRoom(|Encoded(record)|, possible))
      ensures old(file.Length) <= file.Length
      ensures hasFullWriteback ==
        (old(hasFullWriteback) || (ok && old(|Encoded(record)| >= output.SpaceLeft() || |dic| == 0)))
      ensures if ok then Grew(old(View()), record, View()) else View() == old(View())
      ensures ok && old(|Encoded(record)| < output.SpaceLeft() && |dic| > 0) ==> AppendedTo(old(View()), record, View())
    {
      hide Grew, AppendedTo, RewrittenTo, Sized, NoRoom, CannotGrow, Index, Contents, EncodeAll, CRC32, Holds, Encoded,
           Block, ValidRecord, VarintSize, HolderOf, Overwrite, Update, Meaning;
      holder := KeyValueHolder(0, 0, 0, 0);
      RecordSizes(record, data, isDataHolder);
      var isKeyEncoded := originKeyLength < |keyData|;
      var keyLength: uint32 := |keyData|;
      var valueLength: uint32 := |data|;
      if isDataHolder {
        valueLength := valueLength + VarintSize(valueLength);
      }
      var size := if isKeyEncoded then keyLength else keyLength + VarintSize(keyLength);
      size := size + valueLength + VarintSize(valueLength);
      ok := EnsureMemorySize(size, sizeHolder, possible);
      if !ok {
        return;
      }
      ghost var was, view := records, View();
      FileBounds(file[..], actualSize, this.sizeHolder, records);
      ghost var before := file[..];
      WriteKeyValue(output, keyData, isKeyEncoded, data, isDataHolder, valueLength, record);
      var offset: uint32 := actualSize;
      UpdateCRCDigest(size, before, record);
      holder := MakeHolder(originKeyLength, valueLength, offset);
      PlaceOfLast(was, record, holder);
      ViewIsSized();
      NowAppended(view, record, View());
      GrewBy(old(View()), view, record, View());
    }

    /** Counts the bytes that were written behind the log as part of it. */
    method UpdateCRCDigest(size: nat, ghost before: Bytes, ghost record: Record)
      requires Holds(before, actualSize, sizeHolder, records) && actualSize > 0 && ValidRecord(record)
      requires size == |Encoded(record)| && HEADER_SIZE + actualSize + size <= |before|
      requires file[..] == Overwrite(before, HEADER_SIZE + actualSize, Encoded(record))
      requires crcDigest == CRC32(0, LogBytes(actualSize, sizeHolder, records)) && metaInfo == metaFile
      modifies this`actualSize, this`crcDigest, this`metaInfo, this`metaFile, this`records, file
      ensures actualSize == old(actualSize) + size && records == old(records) + [record]
      ensures Holds(file[..], actualSize, sizeHolder, records)
      ensures crcDigest == CRC32(0, LogBytes(actualSize, sizeHolder, records))
      ensures metaInfo == metaFile && metaInfo.crcDigest == crcDigest && metaInfo.actualSize == actualSize
      ensures metaInfo.sequence == old(metaInfo.sequence) && metaInfo.version >= VERSION_ACTUAL_SIZE
      ensures metaInfo == old(metaInfo).WithActualSize(metaInfo.actualSize, metaInfo.crcDigest, false).0
      ensures old(actualSize) == HOLDER_SIZE + |EncodeAll(old(records))| < TWO32
    {
      hide Index, Contents, EncodeAll, CRC32, Holds, Encoded, Block, ValidRecord, Overwrite, LogBytes;
      ghost var written := file[..];
      Appended(before, written, actualSize, sizeHolder, records, record, crcDigest);
      var offset := actualSize;
      actualSize := actualSize + size;
      records := records + [record];
      var crc := CRC32(crcDigest, file[HEADER_SIZE + offset..HEADER_SIZE + actualSize]);
      WriteActualSize(actualSize, crc, false);
      HeaderKept(written, file[..], actualSize, sizeHolder, records);
    }

    predicate CheckSizeForOverride(size: nat)
      reads this
    {
      size <= file.Length && size + HEADER_SIZE + HOLDER_SIZE <= file.Length
    }

    /** Starts the log again with a single record, if that needs no larger file. Only for a
        dictionary without other keys. */
    method DoOverrideDataWithKey(data: Bytes, keyData: Bytes, isDataHolder: bool, originKeyLength: uint32,
                                 sizeHolder: uint32, possible: bool, ghost record: Record)
      returns (ok: bool, holder: KeyValueHolder)
      requires Valid() && GoodHolder(sizeHolder) && ValidRecord(record) && dic.Keys <= {record.key}
      requires (keyData == record.key || keyData == Block(record.key)) && originKeyLength == |record.key|
      requires record.value == if isDataHolder then Block(data) else data
      modifies this, file, output
      ensures Stored() && (file == old(file) || fresh(file)) && (output == old(output) || fresh(output))
      ensures ok ==> Update(dic, record.key, holder) == Index(map[], records, HOLDER_SIZE)
      ensures ok ==> Contents(records) == Meaning(old(Contents(records)), record) && holder.valueSize == |record.value|
      ensures !ok ==> Valid() && Contents(records) == old(Contents(records))
      ensures ok <==> old(CheckSizeForOverride(|Encoded(record)|)) || !old(NoRoom(|Encoded(record)|, possible))
      ensures old(file.Length) <= file.Length
    {
      hide NoRoom, CannotGrow, Index, Contents, EncodeAll, CRC32, Holds, Encoded, Block, ValidRecord, VarintSize,
           Overwrite, Update, Meaning, VarintBytes, LogBytes;
      RecordSizes(record, data, isDataHolder);
      var isKeyEncoded := originKeyLength < |keyData|;
      var keyLength: uint32 := |keyData|;
      var valueLength: uint32 := |data|;
      if isDataHolder {
        valueLength := valueLength + VarintSize(valueLength);
      }
      var size := if isKeyEncoded then keyLength else keyLength + VarintSize(keyLength);
      size := size + valueLength + VarintSize(valueLength);
      if !CheckSizeForOverride(size) {
        ok, holder := DoAppendDataWithKey(data, keyData, isDataHolder, originKeyLength, sizeHolder, possible, record);
        return;
      }
      SameKeys(file[..], actualSize, this.sizeHolder, records);
      FileBounds(file[..], actualSize, this.sizeHolder, records);
      SingleRecord(dic, Contents(records), record, sizeHolder);
      HolderBytes(sizeHolder);
      ghost var before := file[..];
      output.SetPosition(0);
      ok := output.WriteRawVarint32(sizeHolder);
      actualSize := HOLDER_SIZE;
      OverwriteMore(before, HEADER_SIZE, VarintBytes(sizeHolder), Encoded(record));
      WriteKeyValue(output, keyData, isKeyEncoded, data, isDataHolder, valueLength, record);
      var offset: uint32 := actualSize;
      RecalculateCRCDigestOnly(size, before, sizeHolder, record);
      holder := MakeHolder(originKeyLength, valueLength, offset);
    }

    /** Takes the size holder and the record that were written for the whole log. */
    method RecalculateCRCDigestOnly(size: nat, ghost before: Bytes, ghost sizeHolder: uint32, ghost record: Record)
      requires actualSize == HOLDER_SIZE && size == |Encoded(record)| && HEADER_SIZE + HOLDER_SIZE + size <= |before| < TWO32
      requires GoodHolder(sizeHolder) && ValidRecord(record) && metaInfo == metaFile
      requires VarintBytes(sizeHolder) + Encoded(record) == LogBytes(HOLDER_SIZE + size, sizeHolder, [record])
      requires HOLDER_SIZE + size == |LogBytes(HOLDER_SIZE + size, sizeHolder, [record])|
      requires file[..] == Overwrite(before, HEADER_SIZE, VarintBytes(sizeHolder) + Encoded(record))
      modifies this`actualSize, this`crcDigest, this`metaInfo, this`metaFile, this`records, this`sizeHolder, file
      ensures actualSize == HOLDER_SIZE + size && records == [record] && this.sizeHolder == sizeHolder
      ensures Holds(file[..], actualSize, sizeHolder, records)
      ensures crcDigest == CRC32(0, LogBytes(actualSize, sizeHolder, records))
      ensures metaInfo == metaFile && metaInfo.crcDigest == crcDigest && metaInfo.actualSize == actualSize
      ensures metaInfo.sequence == old(metaInfo.sequence) && metaInfo.version >= VERSION_ACTUAL_SIZE
    {
      hide EncodeAll, CRC32, Holds, Encoded, ValidRecord, Overwrite, LogBytes, VarintBytes;
      actualSize := actualSize + size;
      ghost var written := file[..];
      WrittenLog(before, written, HEADER_SIZE, LogBytes(actualSize, sizeHolder, [record]));
      records, this.sizeHolder := [record], sizeHolder;
      var crc := CRC32(0, file[HEADER_SIZE..HEADER_SIZE + actualSize]);
      WriteActualSize(actualSize, crc, false);
      HeaderKept(written, file[..], actualSize, sizeHolder, records);
    }

    /** Appends with the key's bytes taken from the log, where the holder says. Making space
        may move them, so that comes first. */
    method AppendDataWithHolder(data: Bytes, isDataHolder: bool, key: Bytes, sizeHolder: uint32, possible: bool,
                                ghost record: Record)
      returns (ok: bool, holder: KeyValueHolder)
      requires Valid() && GoodHolder(sizeHolder) && ValidRecord(record) && key in dic && record.key == key
      requires record.value == if isDataHolder then Block(data) else data
      modifies this, file, output
      ensures Stored() && (file == old(file) || fresh(file)) && (output == old(output) || fresh(output))
      ensures ok ==> Update(dic, record.key, holder) == Index(map[], records, HOLDER_SIZE)
      ensures ok ==> Contents(records) == Meaning(old(Contents(records)), record) && holder.valueSize == |record.value|
      ensures !ok ==> Valid() && Contents(records) == old(Contents(records))
      ensures ok <==> !old(NoRoom(|Encoded(record)|, possible))
      ensures old(file.Length) <= file.Length
      ensures hasFullWriteback ==
        (old(hasFullWriteback) || (ok && old(|Encoded(record)| >= output.SpaceLeft() || |dic| == 0)))
      ensures if ok then Grew(old(View()), record, View()) else View() == old(View())
    {
      hide Grew, AppendedTo, RewrittenTo, Sized, CannotGrow, Index, Contents, EncodeAll, CRC32, Holds, Encoded, Block,
           ValidRecord, VarintSize, Update, Meaning, LogBytes, PointsTo;
      RecordSizes(record, data, isDataHolder);
      KeyInLog(file[..], actualSize, this.sizeHolder, records, key);
      var keyLength: uint32 := dic[key].keySize;
      var rawKeySize := keyLength + VarintSize(keyLength);
      var valueLength: uint32 := |data|;
      if isDataHolder {
        valueLength := valueLength + VarintSize(valueLength);
      }
      var size := rawKeySize + valueLength + VarintSize(valueLength);
      ok := EnsureMemorySize(size, sizeHolder, possible);
      if !ok {
        return false, KeyValueHolder(0, 0, 0, 0);
      }
      SameKeys(file[..], actualSize, this.sizeHolder, records);
      KeyInLog(file[..], actualSize, this.sizeHolder, records, key);
      var kvHolder := dic[key];
      var keyData := file[HEADER_SIZE + kvHolder.offset..HEADER_SIZE + kvHolder.offset + rawKeySize];
      ghost var view := View();
      ok, holder := DoAppendDataWithKey(data, keyData, isDataHolder, keyLength, sizeHolder, possible, record);
      assert ok;
      GrewBy(old(View()), view, record, View());
    }

    /** Overwrites the log with the record of its only key. The key's bytes are taken from
        the log before they are overwritten. */
    method OverrideDataWithHolder(data: Bytes, isDataHolder: bool, key: Bytes, sizeHolder: uint32, possible: bool,
                                  ghost record: Record)
      returns (ok: bool, holder: KeyValueHolder)
      requires Valid() && GoodHolder(sizeHolder) && ValidRecord(record) && dic.Keys == {key} && record.key == key
      requires record.value == if isDataHolder then Block(data) else data
      modifies this, file, output
      ensures Stored() && (file == old(file) || fresh(file)) && (output == old(output) || fresh(output))
      ensures ok ==> Update(dic, record.key, holder) == Index(map[], records, HOLDER_SIZE)
      ensures ok ==> Contents(records) == Meaning(old(Contents(records)), record) && holder.valueSize == |record.value|
      ensures !ok ==> Valid() && Contents(records) == old(Contents(records))
      ensures ok <==> old(CheckSizeForOverride(|Encoded(record)|)) || !old(NoRoom(|Encoded(record)|, possible))
      ensures old(file.Length) <= file.Length
    {
      hide NoRoom, CannotGrow, Index, Contents, EncodeAll, CRC32, Holds, Encoded, Block, ValidRecord, VarintSize,
           Update, Meaning, LogBytes, PointsTo;
      RecordSizes(record, data, isDataHolder);
      assert key in dic;
      KeyInLog(file[..], actualSize, this.sizeHolder, records, key);
      var keyLength: uint32 := dic[key].keySize;
      var rawKeySize := keyLength + VarintSize(keyLength);
      var valueLength: uint32 := |data|;
      if isDataHolder {
        valueLength := valueLength + VarintSize(valueLength);
      }
      var size := rawKeySize + valueLength + VarintSize(valueLength);
      if !CheckSizeForOverride(size) {
        ok, holder := AppendDataWithHolder(data, isDataHolder, key, sizeHolder, possible, record);
        return;
      }
      var kvHolder := dic[key];
      var keyData := file[HEADER_SIZE + kvHolder.offset..HEADER_SIZE + kvHolder.offset + rawKeySize];
      ok, holder := DoOverrideDataWithKey(data, keyData, isDataHolder, keyLength, sizeHolder, possible, record);
    }

    /** The value last set, if the key has one. */
    method GetDataForKey(key: Bytes) returns (found: bool, data: Bytes)
      requires Valid()
      ensures found <==> key in Contents(records)
      ensures found ==> data == Contents(records)[key]
    {
      hide Index, Contents, EncodeAll, CRC32, Holds, Block, LogBytes, RecordSize;
      SameKeys(file[..], actualSize, sizeHolder, records);
      found, data := key in dic, [];
      if found {
        KeyInLog(file[..], actualSize, sizeHolder, records, key);
        data := ToMMBuffer(dic[key], file[HEADER_SIZE..]);
      }
    }

    /** The dictionary knows the keys that have a value, and where it is. */
    lemma Known(key: Bytes)
      requires Valid()
      ensures key in dic <==> key in Contents(records)
      ensures HEADER_SIZE <= file.Length
      ensures key in dic ==>
        dic[key].offset + RecordSize(dic[key]) <= file.Length - HEADER_SIZE &&
        ToMMBuffer(dic[key], file[HEADER_SIZE..]) == Contents(records)[key]
    {
      hide Index, Contents, EncodeAll, CRC32, Holds, Block, LogBytes, RecordSize;
      SameKeys(file[..], actualSize, sizeHolder, records);
      if key in dic {
        KeyInLog(file[..], actualSize, sizeHolder, records, key);
      }
    }

    lemma Entered(before: Dictionary, key: Bytes, holder: KeyValueHolder)
      requires Stored() && Update(before, key, holder) == Index(map[], records, HOLDER_SIZE)
      requires holder.valueSize > 0 && dic == before[key := holder]
      ensures Valid()
    {
      hide Stored, Index;
    }

    /** Sets a value. With the option to compare first, an equal value is not written again. */
    method SetDataForKey(data: Bytes, key: Bytes, isDataHolder: bool, sizeHolder: uint32, possible: bool) returns (ok: bool)
      requires Valid() && GoodHolder(sizeHolder)
      requires key != [] ==> ValidRecord(Record(key, StoredValue(data, isDataHolder)))
      modifies this, file, output
      ensures Valid() && (file == old(file) || fresh(file)) && (output == old(output) || fresh(output))
      ensures key == [] || (!isDataHolder && data == []) ==> !ok
      ensures !ok ==> Contents(records) == old(Contents(records))
      ensures ok ==> key in Contents(records) && Means(Contents(records)[key], data, isDataHolder)
      ensures ok ==> Contents(records) == old(Contents(records))[key := Contents(records)[key]]
      ensures ok && !compareBeforeSet ==> Contents(records)[key] == StoredValue(data, isDataHolder)
      ensures ok || key == [] || (!isDataHolder && data == []) ||
        old(NoRoom(|Encoded(Record(key, StoredValue(data, isDataHolder)))|, possible))
      ensures old(file.Length) <= file.Length
      ensures ok && key !in old(Contents(records)) ==> !hasFullWriteback
      ensures multiProcess && ok ==>
        (compareBeforeSet && View() == old(View())) ||
        Grew(old(View()), Record(key, StoredValue(data, isDataHolder)), View())
      ensures multiProcess && !ok ==> View() == old(View())
    {
      hide Grew, Valid, Stored, Update, NoRoom, Index, Contents, Block, RecordSize, ValidRecord, BlockAt, Meaning;
      if (!isDataHolder && |data| == 0) || |key| == 0 {
        return false;
      }
      ghost var record := Record(key, StoredValue(data, isDataHolder));
      StoredMeans(data, key, isDataHolder);
      Known(key);
      MeaningOf(Contents(records), record);
      var holder: KeyValueHolder;
      if key in dic {
        if compareBeforeSet {
          var oldValue := ToMMBuffer(dic[key], file[HEADER_SIZE..]);
          if isDataHolder {
            var realData := RealData(oldValue);
            if realData.Ok? && realData.value == data {
              return true;
            }
          } else if oldValue == data {
            return true;
          }
        }
        var onlyOneKey := !multiProcess && |dic| == 1;
        if onlyOneKey {
          OnlyKey(dic, key);
          ok, holder := OverrideDataWithHolder(data, isDataHolder, key, sizeHolder, possible, record);
        } else {
          ok, holder := AppendDataWithHolder(data, isDataHolder, key, sizeHolder, possible, record);
        }
      } else {
        var needOverride := !multiProcess && |dic| == 0 && actualSize > 0;
        if needOverride {
          ok, holder := DoOverrideDataWithKey(data, key, isDataHolder, |key|, sizeHolder, possible, record);
        } else {
          ok, holder := DoAppendDataWithKey(data, key, isDataHolder, |key|, sizeHolder, possible, record);
        }
      }
      if !ok {
        return;
      }
      ghost var before := dic;
      dic := dic[key := holder];
      hasFullWriteback := false;
      Entered(before, key, holder);
    }

    /** Removes a key by appending a record without value. */
    method RemoveDataForKey(key: Bytes, sizeHolder: uint32, possible: bool) returns (ok: bool)
      requires Valid() && GoodHolder(sizeHolder)
      modifies this, file, output
      ensures Valid() && (file == old(file) || fresh(file)) && (output == old(output) || fresh(output))
      ensures ok <==> key in old(Contents(records)) && !old(NoRoom(|Encoded(Record(key, []))|, possible))
      ensures Contents(records) == old(Contents(records)) - if ok then {key} else {}
      ensures hasFullWriteback == if key !in old(Contents(records)) then old(hasFullWriteback)
                                  else ok && old(|Encoded(Record(key, []))| >= output.SpaceLeft())
      ensures old(file.Length) <= file.Length
      ensures if ok then Grew(old(View()), Record(key, []), View()) else View() == old(View())
    {
      hide Grew, AppendedTo, RewrittenTo, Sized, CannotGrow, Index, Contents, EncodeAll, CRC32, Holds, Block, LogBytes,
           RecordSize, ValidRecord;
      ok := false;
      SameKeys(file[..], actualSize, this.sizeHolder, records);
      if key in dic {
        Tombstone(file[..], actualSize, this.sizeHolder, records, key);
      }
      if |key| == 0 {
        return;
      }
      if key in dic {
        hasFullWriteback := false;
        var holder: KeyValueHolder;
        ok, holder := AppendDataWithHolder([], false, key, sizeHolder, possible, Record(key, []));
        if ok {
          dic := dic - {key};
        }
      }
    }

    method ClearMemoryCache()
      modifies this`dic, this`hasFullWriteback, this`actualSize, this`metaInfo
      ensures dic == map[] && !hasFullWriteback && actualSize == 0 && metaInfo == old(metaInfo).(crcDigest := 0)
    {
      dic, hasFullWriteback, actualSize := map[], false, 0;
      metaInfo := metaInfo.(crcDigest := 0);
    }

    /** The size in the file is used only for files of old versions. */
    method ReadActualSize() returns (size: uint32)
      requires HEADER_SIZE <= file.Length
      ensures size == SizeOf(file[..], metaInfo)
    {
      size := FromLittleEndian32(file[..HEADER_SIZE]);
      assert file[..HEADER_SIZE] == file[..][..HEADER_SIZE];
      if metaInfo.version >= VERSION_ACTUAL_SIZE {
        return metaInfo.actualSize;
      }
    }

    method CheckFileCRCValid(size: nat, crc: uint32) returns (ok: bool)
      requires HEADER_SIZE + size <= file.Length
      modifies this`crcDigest
      ensures ok <==> Checked(file[..], size, crc)
      ensures ok ==> crcDigest == crc
    {
      assert file[..][HEADER_SIZE..HEADER_SIZE + size] == file[HEADER_SIZE..HEADER_SIZE + size];
      crcDigest := CRC32(0, file[HEADER_SIZE..HEADER_SIZE + size]);
      ok := crcDigest == crc;
    }

    /** Tries the size in the file, which an older version may have written, and then the
        part that was confirmed last. */
    method CheckLastConfirmedInfo() returns (loadFromFile: bool)
      requires HEADER_SIZE <= file.Length < TWO32 && metaInfo == metaFile
      requires actualSize == SizeOf(file[..], metaInfo) && !Checked(file[..], actualSize, metaInfo.crcDigest)
      modifies this`actualSize, this`crcDigest, this`metaInfo, this`metaFile, file
      ensures metaInfo == metaFile && metaInfo.sequence == old(metaInfo.sequence)
      ensures match SecondChoice(old(file[..]), old(metaInfo))
        case Recorded(size, crc) => loadFromFile && actualSize == size && crcDigest == crc && size < TWO32 &&
          metaInfo == old(metaInfo).WithActualSize(size, crc, false).0 &&
          file[..] == Overwrite(old(file[..]), 0, LittleEndian32(size))
        case _ => !loadFromFile && metaInfo == old(metaInfo) && actualSize == old(actualSize) && file[..] == old(file[..])
    {
      hide CRC32, LittleEndian32, Overwrite;
      loadFromFile := false;
      if metaInfo.version >= VERSION_ACTUAL_SIZE {
        assert file[..HEADER_SIZE] == file[..][..HEADER_SIZE];
        var oldStyleActualSize: uint32 := FromLittleEndian32(file[..HEADER_SIZE]);
        if oldStyleActualSize != actualSize {
          if oldStyleActualSize < file.Length && oldStyleActualSize + HEADER_SIZE <= file.Length {
            var valid := CheckFileCRCValid(oldStyleActualSize, metaInfo.crcDigest);
            if valid {
              loadFromFile := true;
              WriteActualSize(oldStyleActualSize, metaInfo.crcDigest, false);
              return;
            }
          }
        }
        var lastActualSize: uint32 := metaInfo.lastActualSize;
        if lastActualSize < file.Length && lastActualSize + HEADER_SIZE <= file.Length {
          var lastCRCDigest := metaInfo.lastCRCDigest;
          var valid := CheckFileCRCValid(lastActualSize, lastCRCDigest);
          if valid {
            loadFromFile := true;
            WriteActualSize(lastActualSize, lastCRCDigest, false);
          }
        }
      }
    }

    /** Decides what to load; a size that was not the recorded one is then recorded. */
    method CheckDataValid(recoverOnCRCFail: bool, recoverOnLengthError: bool)
      returns (loadFromFile: bool, needFullWriteback: bool)
      requires HEADER_SIZE <= file.Length < TWO32 && metaInfo == metaFile
      modifies this`actualSize, this`crcDigest, this`metaInfo, this`metaFile, file
      ensures metaInfo == metaFile && metaInfo.sequence == old(metaInfo.sequence)
      ensures match FirstChoice(old(file[..]), old(metaInfo), recoverOnCRCFail, recoverOnLengthError)
        case Recorded(size, crc) => loadFromFile && !needFullWriteback && actualSize == size && crcDigest == crc && size < TWO32 &&
          (if Checked(old(file[..]), SizeOf(old(file[..]), old(metaInfo)), old(metaInfo.crcDigest))
           then metaInfo == old(metaInfo) && file[..] == old(file[..])
           else metaInfo == old(metaInfo).WithActualSize(size, crc, false).0 &&
                file[..] == Overwrite(old(file[..]), 0, LittleEndian32(size)))
        case Everything(size) => loadFromFile && needFullWriteback && actualSize == size && file[..] == old(file[..]) &&
          metaInfo == old(metaInfo)
        case Nothing => !loadFromFile && metaInfo == old(metaInfo) && file[..] == old(file[..])
    {
      hide CRC32, LittleEndian32, Overwrite, FromLittleEndian32;
      loadFromFile, needFullWriteback := false, false;
      actualSize := ReadActualSize();
      if actualSize < file.Length && actualSize + HEADER_SIZE <= file.Length {
        loadFromFile := CheckFileCRCValid(actualSize, metaInfo.crcDigest);
        if !loadFromFile {
          loadFromFile := CheckLastConfirmedInfo();
          if !loadFromFile && recoverOnCRCFail {
            loadFromFile, needFullWriteback := true, true;
          }
        }
      } else {
        loadFromFile := CheckLastConfirmedInfo();
        if !loadFromFile && recoverOnLengthError {
          actualSize := file.Length - HEADER_SIZE;
          loadFromFile, needFullWriteback := true, true;
        }
      }
    }

    /** Loads the dictionary by replaying the part of the file that was chosen, or discards
        everything. What was read greedily from a damaged file is written back at once. */
    method LoadFromFile(recoverOnCRCFail: bool, recoverOnLengthError: bool, newHolder: uint32, possible: bool,
                        ghost holder: uint32, ghost rs: seq<Record>)
      requires 8 <= page <= expectedCapacity <= maxFileSize < TWO32 && HEADER_SIZE + HOLDER_SIZE <= file.Length <= maxFileSize
      requires Loads(FirstChoice(file[..], metaFile, recoverOnCRCFail, recoverOnLengthError), file[..], metaFile, holder, rs)
      requires dic == map[] && !hasFullWriteback && GoodHolder(newHolder)
      modifies this, file
      ensures Valid() && Contents(records) == Contents(rs) && fresh(output)
      ensures match old(FirstChoice(file[..], metaFile, recoverOnCRCFail, recoverOnLengthError))
        case Recorded(size, _) => records == rs && sizeHolder == holder && file == old(file) &&
          actualSize == size && metaInfo.sequence == old(metaFile.sequence)
        case Everything(size) =>
          (size > 0 ==> metaInfo.sequence == (old(metaFile.sequence) + 1) % TWO32) &&
          actualSize == CompactSize(rs) && (file == old(file) || (fresh(file) && actualSize == 0))
        case Nothing => records == [] && actualSize == 0 && file == old(file) && sizeHolder == holder
      ensures var meta, size := old(metaFile), old(SizeOf(file[..], metaFile));
        old(Checked(file[..], SizeOf(file[..], metaFile), metaFile.crcDigest)) ==>
          metaInfo == if size > 0 then meta else meta.WithActualSize(0, 0, false).0
      decreases if recoverOnCRCFail || recoverOnLengthError then 3 else 0
    {
      hide Index, Contents, EncodeAll, CRC32, LogBytes, AllValid, Decoded, FirstChoice, Overwrite, LittleEndian32,
           BeginsWith, CompactSize, FromLittleEndian32, Valid, Salvaged, Holds, RewrittenTo, ClearedTo, Checked,
           NoMore;
      metaInfo := metaFile;
      ghost var before := file[..];
      records, sizeHolder := rs, holder;
      FirstIs(before, metaFile, recoverOnCRCFail, recoverOnLengthError);
      var loadFromFile, needFullWriteback := CheckDataValid(recoverOnCRCFail, recoverOnLengthError);
      if loadFromFile && !needFullWriteback {
        ChosenHolds(before, file[..], old(metaFile), recoverOnCRCFail, recoverOnLengthError, holder, rs);
      }
      if loadFromFile && actualSize > 0 {
        var inputBuffer := file[HEADER_SIZE..HEADER_SIZE + actualSize];
        if needFullWriteback {
          BeginsDecoded(inputBuffer, records);
          dic := DecodeOneMap(inputBuffer, map[], 0, true);
        } else {
          StoredLog(file[..], actualSize, sizeHolder, records);
          LogDecodes(inputBuffer, actualSize, sizeHolder, records);
          dic := DecodeOneMap(inputBuffer, map[], 0, false);
        }
        output := new CodedOutputData(file, HEADER_SIZE, file.Length - HEADER_SIZE);
        var inside := output.Seek(actualSize);
        if !needFullWriteback {
          NowLoaded();
        } else {
          StillThere(file[..], actualSize, records);
          NowSalvaged();
          var written := FullWriteback(newHolder, possible);
        }
      } else {
        NoneCompact();
        LoadNothing();
      }
    }

    lemma NowLoaded()
      requires 8 <= page <= expectedCapacity <= maxFileSize < TWO32 && HEADER_SIZE + HOLDER_SIZE <= file.Length <= maxFileSize
      requires output.memory == file && output.start == HEADER_SIZE && output.size == file.Length - HEADER_SIZE
      requires output.Valid() && output.position == actualSize && Holds(file[..], actualSize, sizeHolder, records)
      requires crcDigest == CRC32(0, LogBytes(actualSize, sizeHolder, records)) && metaInfo == metaFile
      requires metaInfo.crcDigest == crcDigest && SizeOf(file[..], metaInfo) == actualSize
      requires dic == Index(map[], records, HOLDER_SIZE)
      ensures Valid()
    {
      hide Holds, CRC32, LogBytes, Index, FromLittleEndian32;
    }

    lemma NowSalvaged()
      requires 8 <= page <= expectedCapacity <= maxFileSize < TWO32 && HEADER_SIZE + HOLDER_SIZE <= file.Length <= maxFileSize
      requires metaInfo == metaFile && actualSize > 0 && !hasFullWriteback
      requires GoodHolder(sizeHolder) && AllValid(records) && dic == Index(map[], records, HOLDER_SIZE)
      requires HEADER_SIZE + HOLDER_SIZE + |EncodeAll(records)| <= file.Length
      requires file[..][HEADER_SIZE + HOLDER_SIZE..HEADER_SIZE + HOLDER_SIZE + |EncodeAll(records)|] == EncodeAll(records)
      ensures Salvaged()
    {
      hide AllValid, Index, EncodeAll;
    }

    /** The file is empty or not valid: discards everything. */
    method LoadNothing()
      requires 8 <= page <= expectedCapacity <= maxFileSize < TWO32 && HEADER_SIZE + HOLDER_SIZE <= file.Length <= maxFileSize
      requires GoodHolder(sizeHolder) && metaInfo == metaFile && dic == map[]
      modifies this, file
      ensures Valid() && file == old(file) && fresh(output) && records == [] && actualSize == 0
      ensures metaInfo.sequence == (old(metaInfo.sequence) + if old(actualSize) > 0 then 1 else 0) % TWO32
      ensures metaInfo == old(metaInfo).WithActualSize(0, 0, old(actualSize) > 0).0 && sizeHolder == old(sizeHolder)
    {
      hide CRC32, Overwrite, VarintBytes, LittleEndian32, AllValid;
      output := new CodedOutputData(file, HEADER_SIZE, file.Length - HEADER_SIZE);
      ghost var before := file[..];
      EmptyLog(before, sizeHolder);
      if actualSize > 0 {
        WriteActualSize(0, 0, true);
      } else {
        WriteActualSize(0, 0, false);
      }
      HeaderWritten(before, 0, [], file[..]);
      records := [];
    }

    /** Forgets the dictionary and loads it again. */
    method Reload()
      requires Valid()
      modifies this, file
      ensures Valid() && records == old(records) && dic == old(dic) && file == old(file) && fresh(output)
    {
      hide Index, Contents, EncodeAll, CRC32, Holds, LogBytes;
      ghost var size := actualSize;
      ClearMemoryCache();
      IntactLoads(file[..], metaFile, size, sizeHolder, records);
      LoadFromFile(false, false, LEAST_HOLDER, false, sizeHolder, records);
    }

    lemma Extents()
      requires Valid() || Salvaged()
      ensures 8 <= page <= expectedCapacity <= maxFileSize < TWO32 && metaInfo == metaFile && GoodHolder(sizeHolder)
      ensures HEADER_SIZE + HOLDER_SIZE <= file.Length <= maxFileSize
      ensures actualSize == 0 ==> Valid() && records == []
    {
      hide Index, EncodeAll, CRC32, AllValid, LogBytes;
    }

    /** Starts again with an empty log. */
    method ClearAll(keepSpace: bool, possible: bool)
      requires Valid() || Salvaged()
      modifies this, file
      ensures Valid() && records == [] && actualSize == 0
      ensures !keepSpace && possible && PageAligned(expectedCapacity, page) <= maxFileSize ==>
        file.Length == expectedCapacity || file.Length == PageAligned(expectedCapacity, page)
      ensures keepSpace || !possible ==> file == old(file)
      ensures old(actualSize) > 0 ==> metaInfo.sequence == (old(metaInfo.sequence) + 1) % TWO32
      ensures (file == old(file) || fresh(file)) && (output == old(output) || fresh(output))
      ensures file == old(file) || metaInfo.sequence == (old(metaInfo.sequence) + 1) % TWO32
      ensures View() == old(View()) || ClearedTo(old(View()), View())
      ensures !old(Valid()) ==> ClearedTo(old(View()), View())
      decreases 1
    {
      hide Valid, Salvaged, Holds, Loads, FirstChoice, Checked, SizeOf, Index, Contents, CRC32, Overwrite,
           LittleEndian32, LogBytes, PageAligned;
      Extents();
      if file.Length == expectedCapacity && actualSize == 0 {
        return;
      }
      if !keepSpace {
        var ok := Truncate(expectedCapacity, possible);
      }
      ghost var before := file[..];
      WriteActualSize(0, 0, true);
      records := [];
      EmptyHolds(before, file[..], metaFile, sizeHolder);
      ClearMemoryCache();
      IntactLoads(file[..], metaFile, 0, sizeHolder, records);
      LoadFromFile(false, false, LEAST_HOLDER, possible, sizeHolder, records);
    }

    /** The dictionary has the places right, and the live records fit the file as it is. */
    lemma Located()
      requires Valid() || Salvaged()
      ensures 8 <= page <= expectedCapacity <= maxFileSize < TWO32 && metaInfo == metaFile
      ensures HEADER_SIZE + HOLDER_SIZE <= file.Length <= maxFileSize
      ensures dic.Keys == Contents(records).Keys && dic == Index(map[], records, HOLDER_SIZE)
      ensures Indexes(dic, Contents(records), file[HEADER_SIZE..], HOLDER_SIZE) && AllApart(dic)
      ensures |dic| > 0 ==> HEADER_SIZE + HOLDER_SIZE + SumSizes(dic.Keys, dic) <= file.Length
      ensures CompactSize(records) == if |dic| == 0 then 0 else HOLDER_SIZE + SumSizes(dic.Keys, dic)
    {
      hide Index, Contents, EncodeAll, CRC32, Holds, LogBytes, SumSizes, Indexes, AllApart, AllValid;
      if Valid() {
        FileBounds(file[..], actualSize, sizeHolder, records);
        SameKeys(file[..], actualSize, sizeHolder, records);
        StillIndexed(file[..], file[..], actualSize, sizeHolder, records);
        if |dic| > 0 {
          LiveFits(actualSize, sizeHolder, file[..], records);
        }
      } else {
        PlacesRight(file[..], records);
        LiveNoLarger(records);
      }
    }

    /** Rewrites the log without what was overwritten and removed. The live records always
        fit the file as it is. */
    method FullWriteback(sizeHolder: uint32, possible: bool) returns (ok: bool)
      requires (Valid() || Salvaged()) && GoodHolder(sizeHolder)
      modifies this, file
      ensures Valid() && ok && Contents(records) == old(Contents(records))
      ensures old(hasFullWriteback) ==> file == old(file) && metaInfo.sequence == old(metaInfo.sequence)
      ensures !old(hasFullWriteback) && old(actualSize) > 0 ==> metaInfo.sequence == (old(metaInfo.sequence) + 1) % TWO32
      ensures old(hasFullWriteback) ==> actualSize == old(actualSize)
      ensures actualSize > 0 ==> hasFullWriteback
      ensures !possible ==> file == old(file)
      ensures !old(hasFullWriteback) ==> actualSize == old(CompactSize(records))
      ensures file == old(file) || (actualSize == 0 && metaInfo.sequence == (old(metaInfo.sequence) + 1) % TWO32)
      ensures (file == old(file) || fresh(file)) && (output == old(output) || fresh(output))
      ensures View() == old(View()) || RewrittenTo(old(View()), View()) || ClearedTo(old(View()), View())
      decreases 2
    {
      hide Valid, Salvaged, Stored, CompactSize, ClearedTo, LiveBy, Ordered, Live, Sized, Index, Contents, SumSizes,
           Indexes, AllApart;
      if hasFullWriteback {
        NotSalvaged();
        return true;
      }
      Located();
      if |dic| == 0 {
        NoContents(Contents(records));
        ClearAll(false, possible);
        NoContents(Contents(records));
        return true;
      }
      var sizeOfDic := PrepareEncode(dic);
      if sizeOfDic > 0 {
        var fileSize := file.Length;
        if sizeOfDic + HEADER_SIZE <= fileSize {
          ghost var was := records;
          ghost var order := DoFullWriteBack(sizeOfDic, sizeHolder);
          LiveByOrder(was, order, records);
          ValidIsSized();
          return true;
        } else {
          assert false;
        }
      }
      ok := false;
    }

    lemma NotSalvaged()
      requires (Valid() || Salvaged()) && hasFullWriteback
      ensures Valid()
    {
    }

    lemma Fits()
      requires Valid()
      ensures HEADER_SIZE + actualSize <= file.Length
    {
      hide Index, LogBytes, CRC32, AllValid;
    }

    /** Halves as long as at most half is used; not below the expected capacity. */
    method TrimmedSize(oldSize: nat) returns (fileSize: nat)
      requires HEADER_SIZE + actualSize <= oldSize
      ensures HEADER_SIZE + actualSize <= fileSize && expectedCapacity <= fileSize
      ensures fileSize <= oldSize || fileSize == expectedCapacity
      ensures fileSize == expectedCapacity || fileSize <= (actualSize + HEADER_SIZE) * 2
    {
      fileSize := oldSize;
      while fileSize > (actualSize + HEADER_SIZE) * 2
        invariant HEADER_SIZE + actualSize <= fileSize <= oldSize
      {
        fileSize := fileSize / 2;
      }
      fileSize := if fileSize > expectedCapacity then fileSize else expectedCapacity;
    }

    /** The second half of `trim`. */
    method Shrink(fileSize: nat, possible: bool)
      requires Valid() && HEADER_SIZE + actualSize <= fileSize && HEADER_SIZE + HOLDER_SIZE <= fileSize
      modifies this`file, this`output
      ensures Valid() && (file == old(file) || fresh(file)) && (output == old(output) || fresh(output))
      ensures possible && maxFileSize % page == 0 && fileSize <= maxFileSize ==> file.Length <= fileSize + page
      ensures !possible ==> file == old(file)
    {
      hide Index, CRC32, Holds, LogBytes, SizeOf, PageAligned;
      Fits();
      if maxFileSize % page == 0 && fileSize <= maxFileSize {
        AlignedBelow(fileSize, page, maxFileSize);
      }
      ghost var before := file[..];
      var ok := Truncate(fileSize, possible);
      if !ok {
        return;
      }
      StillHolds(before, file[..], metaInfo, actualSize, sizeHolder, records);
      output := new CodedOutputData(file, HEADER_SIZE, file.Length - HEADER_SIZE);
      var inside := output.Seek(actualSize);
      NowLoaded();
    }

    /** Gives space back. Other processes learn of the smaller file by the sequence number,
        unless the flag of a full rewrite is set: then the number stays as it is. */
    method Trim(sizeHolder: uint32, possible: bool)
      requires Valid() && GoodHolder(sizeHolder)
      modifies this, file, output
      ensures Valid() && Contents(records) == old(Contents(records))
      ensures file != old(file) ==>
        (metaInfo.sequence == old(metaInfo.sequence) <==> old(hasFullWriteback) && old(actualSize) > 0)
      ensures old(hasFullWriteback) && old(actualSize) > 0 ==>
        metaInfo.sequence == old(metaInfo.sequence) && actualSize == old(actualSize) && hasFullWriteback
      ensures !old(hasFullWriteback) && old(|dic| > 0 && file.Length > expectedCapacity) ==>
        hasFullWriteback && actualSize == old(HOLDER_SIZE + SumSizes(dic.Keys, dic))
      ensures !possible ==> file == old(file)
      ensures (file == old(file) || fresh(file)) && (output == old(output) || fresh(output))
      ensures actualSize > 0 && possible && maxFileSize % page == 0 ==>
        file.Length <= expectedCapacity + page || file.Length <= (actualSize + HEADER_SIZE) * 2 + page
      ensures View() == old(View()) || RewrittenTo(old(View()), View()) || ClearedTo(old(View()), View())
    {
      hide Valid, Salvaged, RewrittenTo, ClearedTo, Contents, PageAligned, SumSizes, CompactSize;
      Parts();
      Located();
      Extents();
      NumberChanges(metaInfo.sequence);
      if actualSize == 0 {
        ClearAll(false, possible);
        return;
      } else if file.Length <= expectedCapacity {
        return;
      }
      var written := FullWriteback(sizeHolder, possible);
      Fits();
      var oldSize := file.Length;
      var fileSize := TrimmedSize(oldSize);
      if oldSize == fileSize {
        return;
      }
      Shrink(fileSize, possible);
    }

    /** Replaying the bytes of the log gives exactly the dictionary. */
    lemma IndexEqualsLog()
      requires Valid() && actualSize > 0
      ensures Decoded(file[HEADER_SIZE..HEADER_SIZE + actualSize], 0, map[]) == (dic, true)
    {
      hide Index, EncodeAll, CRC32, Holds, LogBytes, AllValid, Decoded;
      StoredLog(file[..], actualSize, sizeHolder, records);
      LogDecodes(file[HEADER_SIZE..HEADER_SIZE + actualSize], actualSize, sizeHolder, records);
    }
  }

  lemma NumberChanges(sequence: uint32)
    ensures (sequence + 1) % TWO32 != sequence
  {
  }

  lemma LiveByOrder(was: seq<Record>, order: seq<Bytes>, live: seq<Record>)
    requires Ordered(order, Index(map[], was, HOLDER_SIZE)) && forall k | k in order :: k in Contents(was)
    requires live == Live(order, Contents(was))
    ensures exists order: seq<Bytes> :: LiveBy(was, order, live)
  {
    hide Ordered, Index, Contents;
    assert LiveBy(was, order, live);
  }

  lemma NowAppended(v: LogView, r: Record, v': LogView)
    requires Sized(v') && v.actualSize > 0 && v'.actualSize == v'.meta.actualSize && ValidRecord(r)
    requires v'.records == v.records + [r] && v'.sizeHolder == v.sizeHolder
    requires v'.meta == v.meta.WithActualSize(v'.meta.actualSize, v'.meta.crcDigest, false).0
    ensures AppendedTo(v, r, v')
  {
    hide Sized, ValidRecord;
  }

  lemma GrewBy(v: LogView, u: LogView, r: Record, v': LogView)
    requires (u == v || RewrittenTo(v, u)) && AppendedTo(u, r, v')
    ensures Grew(v, r, v')
  {
    hide RewrittenTo, AppendedTo;
  }

  lemma StoredLog(file: Bytes, actualSize: nat, sizeHolder: uint32, records: seq<Record>)
    requires Holds(file, actualSize, sizeHolder, records)
    ensures HEADER_SIZE + actualSize <= |file| < TWO32 && GoodHolder(sizeHolder) && AllValid(records)
    ensures file[HEADER_SIZE..HEADER_SIZE + actualSize] == LogBytes(actualSize, sizeHolder, records)
    ensures actualSize == |LogBytes(actualSize, sizeHolder, records)| && (actualSize == 0 ==> records == [])
  {
  }

  lemma SamePrefix(a: Bytes, b: Bytes, n: nat)
    requires n <= |a| && n <= |b| && forall i | 0 <= i < |a| && i < |b| :: b[i] == a[i]
    ensures n >= HEADER_SIZE ==> b[..HEADER_SIZE] == a[..HEADER_SIZE] && b[HEADER_SIZE..n] == a[HEADER_SIZE..n]
  {
  }

  /** A log that fits stays where it is. */
  lemma StillHolds(file: Bytes, file': Bytes, meta: MetaInfo, actualSize: nat, sizeHolder: uint32, records: seq<Record>)
    requires Holds(file, actualSize, sizeHolder, records) && HEADER_SIZE + actualSize <= |file'| < TWO32
    requires forall i | 0 <= i < |file| && i < |file'| :: file'[i] == file[i]
    ensures Holds(file', actualSize, sizeHolder, records) && SizeOf(file', meta) == SizeOf(file, meta)
  {
    hide LogBytes, AllValid, LittleEndian32, FromLittleEndian32;
    SamePrefix(file, file', HEADER_SIZE + actualSize);
  }

  /** What was chosen is a stored log once its size is recorded. */
  lemma ChosenHolds(before: Bytes, after: Bytes, meta: MetaInfo, recoverOnCRCFail: bool, recoverOnLengthError: bool,
                    sizeHolder: uint32, records: seq<Record>)
    requires HEADER_SIZE <= |before| < TWO32 && FirstChoice(before, meta, recoverOnCRCFail, recoverOnLengthError).Recorded?
    requires Loads(FirstChoice(before, meta, recoverOnCRCFail, recoverOnLengthError), before, meta, sizeHolder, records)
    requires var choice := FirstChoice(before, meta, recoverOnCRCFail, recoverOnLengthError);
      choice.size < TWO32 &&
      after == if Checked(before, SizeOf(before, meta), meta.crcDigest) then before
               else Overwrite(before, 0, LittleEndian32(choice.size))
    ensures var choice := FirstChoice(before, meta, recoverOnCRCFail, recoverOnLengthError);
      Holds(after, choice.size, sizeHolder, records) && choice.crc == CRC32(0, LogBytes(choice.size, sizeHolder, records))
  {
    hide LogBytes, AllValid, CRC32, LittleEndian32, FromLittleEndian32, Overwrite;
    var choice := FirstChoice(before, meta, recoverOnCRCFail, recoverOnLengthError);
    if !Checked(before, SizeOf(before, meta), meta.crcDigest) {
      HeaderWritten(before, choice.size, LogBytes(choice.size, sizeHolder, records), after);
    } else if meta.version < VERSION_ACTUAL_SIZE {
      BytesRoundTrip(before[..HEADER_SIZE]);
    }
  }

  /** An intact file is the first choice; everything is chosen only on request. */
  lemma FirstIs(file: Bytes, meta: MetaInfo, recoverOnCRCFail: bool, recoverOnLengthError: bool)
    requires HEADER_SIZE <= |file|
    ensures Checked(file, SizeOf(file, meta), meta.crcDigest) ==>
      FirstChoice(file, meta, recoverOnCRCFail, recoverOnLengthError) == Recorded(SizeOf(file, meta), meta.crcDigest)
    ensures FirstChoice(file, meta, recoverOnCRCFail, recoverOnLengthError).Everything? ==>
      recoverOnCRCFail || recoverOnLengthError
  {
    hide Checked, FromLittleEndian32;
  }

  /** An intact file is loaded as a whole. */
  lemma IntactLoads(file: Bytes, meta: MetaInfo, size: nat, sizeHolder: uint32, records: seq<Record>)
    requires Holds(file, size, sizeHolder, records) && SizeOf(file, meta) == size
    requires meta.crcDigest == CRC32(0, LogBytes(size, sizeHolder, records))
    ensures FirstChoice(file, meta, false, false) == Recorded(size, meta.crcDigest)
    ensures Checked(file, size, meta.crcDigest)
    ensures Loads(FirstChoice(file, meta, false, false), file, meta, sizeHolder, records)
  {
    hide LogBytes, AllValid, CRC32, LittleEndian32, FromLittleEndian32;
  }

  /** Reading greedily finds the records that come first. */
  lemma BeginsDecoded(log: Bytes, records: seq<Record>)
    requires BeginsWith(log, records) && AllValid(records) && |log| < TWO32
    ensures Decoded(log, 0, map[]).0 == Index(map[], records, HOLDER_SIZE)
  {
    hide EncodeAll, Index, Replay, NoMore, FirstPosition, AllValid;
    if FirstPosition(log, 0).Ok? {
      ReplayFirst(log, HOLDER_SIZE, map[], records);
    } else {
      EmptyLog([0, 0, 0, 0], 0);
    }
  }

  /** Records that were read are in the file. */
  lemma StillThere(file: Bytes, size: nat, records: seq<Record>)
    requires 0 < size && HEADER_SIZE + size <= |file| && HEADER_SIZE + HOLDER_SIZE <= |file|
    requires BeginsWith(file[HEADER_SIZE..HEADER_SIZE + size], records)
    ensures HEADER_SIZE + HOLDER_SIZE + |EncodeAll(records)| <= |file|
    ensures file[HEADER_SIZE + HOLDER_SIZE..HEADER_SIZE + HOLDER_SIZE + |EncodeAll(records)|] == EncodeAll(records)
  {
    hide NoMore, FirstPosition, EncodeAll;
    if FirstPosition(file[HEADER_SIZE..HEADER_SIZE + size], 0).Ok? {
      Part(file, HEADER_SIZE, file[HEADER_SIZE..HEADER_SIZE + size], HOLDER_SIZE, EncodeAll(records));
    } else {
      NothingLive();
    }
  }

  /** The index of records that are in the file has the places right. */
  lemma PlacesRight(file: Bytes, records: seq<Record>)
    requires AllValid(records) && HEADER_SIZE + HOLDER_SIZE + |EncodeAll(records)| <= |file| < TWO32
    requires file[HEADER_SIZE + HOLDER_SIZE..HEADER_SIZE + HOLDER_SIZE + |EncodeAll(records)|] == EncodeAll(records)
    ensures var dic := Index(map[], records, HOLDER_SIZE);
      Indexes(dic, Contents(records), file[HEADER_SIZE..], HOLDER_SIZE) && AllApart(dic) && dic.Keys == Contents(records).Keys
  {
    hide Indexes, AllApart, Index, Contents, EncodeAll, AllValid;
    var head := file[HEADER_SIZE..HEADER_SIZE + HOLDER_SIZE];
    IndexIndexes(head, records);
    var more := file[HEADER_SIZE + HOLDER_SIZE + |EncodeAll(records)|..];
    assert file[HEADER_SIZE..] == head + EncodeAll(records) + more;
    IndexesLonger(Index(map[], records, HOLDER_SIZE), Contents(records), head + EncodeAll(records), more);
    IndexKeys(Index(map[], records, HOLDER_SIZE), Contents(records), file[HEADER_SIZE..]);
  }

  /** An empty log is stored in any file. */
  lemma EmptyLog(file: Bytes, sizeHolder: uint32)
    requires HEADER_SIZE <= |file|
    ensures LogBytes(0, sizeHolder, []) == [] && AllValid([]) && CRC32(0, []) == 0
    ensures file[HEADER_SIZE..HEADER_SIZE] == [] && Index(map[], [], HOLDER_SIZE) == map[]
  {
    CrcOfNothing(0);
  }

  /** The file with the size field of an empty log. */
  lemma EmptyHolds(file: Bytes, file': Bytes, meta: MetaInfo, sizeHolder: uint32)
    requires HEADER_SIZE <= |file| < TWO32 && GoodHolder(sizeHolder) && file' == Overwrite(file, 0, LittleEndian32(0))
    requires meta.version >= VERSION_ACTUAL_SIZE && meta.actualSize == 0 == meta.crcDigest
    ensures Holds(file', 0, sizeHolder, []) && SizeOf(file', meta) == 0
    ensures meta.crcDigest == CRC32(0, LogBytes(0, sizeHolder, []))
  {
    hide CRC32, LittleEndian32, VarintBytes;
    EmptyLog(file, sizeHolder);
    HeaderWritten(file, 0, [], file');
  }

  lemma NoContents(contents: map<Bytes, Bytes>)
    ensures contents.Keys == {} ==> contents == map[]
    ensures Contents([]) == map[]
  {
  }

  /** Reading a stored log gives its index. */
  lemma LogDecodes(log: Bytes, actualSize: nat, sizeHolder: uint32, records: seq<Record>)
    requires 0 < actualSize == |log| < TWO32 && GoodHolder(sizeHolder) && AllValid(records)
    requires log == LogBytes(actualSize, sizeHolder, records)
    ensures Decoded(log, 0, map[]) == (Index(map[], records, HOLDER_SIZE), true)
  {
    hide EncodeAll, Index, VarintAt, Replay, VarintBytes;
    HolderBytes(sizeHolder);
    assert log[0..HOLDER_SIZE] == VarintBytes(sizeHolder);
    VarintBytesSize(sizeHolder);
    VarintRoundTrip(log, 0, sizeHolder);
    ReplayIsIndex(log, HOLDER_SIZE, map[], records);
  }

  /** The size of a log with the live records only. */
  ghost function CompactSize(records: seq<Record>): nat {
    var index := Index(map[], records, HOLDER_SIZE);
    if |index| == 0 then 0 else HOLDER_SIZE + SumSizes(index.Keys, index)
  }

  lemma NoneCompact()
    ensures CompactSize([]) == 0 && Contents([]) == map[]
  {
  }

  /** Live records are records. */
  lemma {:induction false} LiveNoLarger(records: seq<Record>)
    requires AllValid(records) && HOLDER_SIZE + |EncodeAll(records)| < TWO32
    ensures var index := Index(map[], records, HOLDER_SIZE); SumSizes(index.Keys, index) <= |EncodeAll(records)|
  {
    hide Encoded, HolderOf, ValidRecord, EncodeAll, SumSizes, Update, Index;
    if records == [] {
      NothingLive();
    } else {
      var n := |records| - 1;
      ValidParts(records);
      LastRecord(map[], records, HOLDER_SIZE);
      LiveNoLarger(records[..n]);
      var offset := HOLDER_SIZE + |EncodeAll(records[..n])|;
      HolderSize(records[n], offset);
      SumUpdate(Index(map[], records[..n], HOLDER_SIZE), records[n].key, HolderOf(records[n], offset));
    }
  }

  lemma NothingLive()
    ensures SumSizes(Index(map[], [], HOLDER_SIZE).Keys, Index(map[], [], HOLDER_SIZE)) == 0
    ensures EncodeAll([]) == []
  {
  }

  lemma HolderSize(r: Record, offset: nat)
    requires ValidRecord(r) && offset < TWO32
    ensures RecordSize(HolderOf(r, offset)) == |Encoded(r)|
  {
    hide Encoded, HolderOf, VarintSize;
    EncodedSize(r);
    HolderAgrees(r, offset);
  }

  lemma {:induction false} SumFrame(keys: set<Bytes>, dic: Dictionary, dic': Dictionary)
    requires keys <= dic.Keys && keys <= dic'.Keys && forall k | k in keys :: dic[k] == dic'[k]
    ensures SumSizes(keys, dic) == SumSizes(keys, dic')
    decreases |keys|
  {
    hide RecordSize;
    if keys == {} {
      NoSum(dic);
      NoSum(dic');
    } else {
      hide SumSizes;
      var k :| k in keys;
      SumWithout(keys, dic, k);
      SumWithout(keys, dic', k);
      SumFrame(keys - {k}, dic, dic');
    }
  }

  lemma NoSum(dic: Dictionary)
    ensures SumSizes({}, dic) == 0
  {
  }

  /** An update adds at most the size of its record. */
  lemma SumUpdate(dic: Dictionary, key: Bytes, holder: KeyValueHolder)
    ensures var dic' := Update(dic, key, holder);
      SumSizes(dic'.Keys, dic') <= SumSizes(dic.Keys, dic) + RecordSize(holder)
  {
    hide SumSizes, RecordSize;
    var dic' := Update(dic, key, holder);
    var rest := dic.Keys - {key};
    if key in dic {
      SumWithout(dic.Keys, dic, key);
    } else {
      assert rest == dic.Keys;
    }
    SumFrame(rest, dic, dic');
    if key in dic' {
      SumWithout(dic'.Keys, dic', key);
      assert dic'.Keys - {key} == rest;
    } else {
      assert dic'.Keys == rest;
    }
  }

  lemma LiveFits(actualSize: nat, sizeHolder: uint32, file: Bytes, records: seq<Record>)
    requires Holds(file, actualSize, sizeHolder, records) && Index(map[], records, HOLDER_SIZE) != map[]
    ensures var index := Index(map[], records, HOLDER_SIZE);
      0 < HOLDER_SIZE + SumSizes(index.Keys, index) <= actualSize
  {
    hide EncodeAll, SumSizes, AllValid, LittleEndian32, VarintBytes;
    NotEmpty(file, actualSize, sizeHolder, records);
    HolderBytes(sizeHolder);
    LiveNoLarger(records);
  }

  /** What is stored for some data. A holder keeps the data with its length. */
  function StoredValue(data: Bytes, isDataHolder: bool): Bytes {
    if isDataHolder then Block(data) else data
  }

  /** The data that a holder keeps, if its length is right. */
  function RealData(value: Bytes): Parsed<Bytes> {
    match BlockAt(value, 0)
    case Ok(data, next) => if next == |value| then Ok(data, next) else Failed
    case Failed => Failed
  }

  /** The value stands for the data. */
  ghost predicate Means(value: Bytes, data: Bytes, isDataHolder: bool) {
    if isDataHolder then RealData(value).Ok? && RealData(value).value == data else value == data
  }

  lemma StoredMeans(data: Bytes, key: Bytes, isDataHolder: bool)
    requires ValidRecord(Record(key, StoredValue(data, isDataHolder)))
    ensures Means(StoredValue(data, isDataHolder), data, isDataHolder)
    ensures StoredValue(data, isDataHolder) == [] ==> !isDataHolder && data == []
    ensures |key| < TWO31
  {
    if isDataHolder {
      assert Block(data)[0..|Block(data)|] == Block(data);
      ReadsBlock(Block(data), 0, data);
    }
  }

  lemma MeaningOf(contents: map<Bytes, Bytes>, record: Record)
    requires record.value != []
    ensures Meaning(contents, record) == contents[record.key := record.value]
  {
  }

  lemma OnlyKey(dic: Dictionary, key: Bytes)
    requires |dic| == 1 && key in dic
    ensures dic.Keys == {key}
  {
    assert dic.Keys == {key} + (dic.Keys - {key});
    assert |dic.Keys| == 1 + |dic.Keys - {key}|;
  }

  /** A key that has a record can have a record without value. */
  lemma Tombstone(file: Bytes, actualSize: nat, sizeHolder: uint32, records: seq<Record>, key: Bytes)
    requires Holds(file, actualSize, sizeHolder, records) && key in Index(map[], records, HOLDER_SIZE)
    ensures ValidRecord(Record(key, [])) && key != []
  {
    hide Holds, AllApart, Block, RecordSize;
    FileBounds(file, actualSize, sizeHolder, records);
    StillIndexed(file, file, actualSize, sizeHolder, records);
    assert PointsTo(file[HEADER_SIZE..], Index(map[], records, HOLDER_SIZE)[key], Record(key, Contents(records)[key]));
  }

  /** The log that was written is the file's. */
  lemma WrittenLog(before: Bytes, written: Bytes, start: nat, log: Bytes)
    requires start + |log| <= |before| && written == Overwrite(before, start, log)
    ensures written[start..start + |log|] == log
  {
  }

  lemma SameKeys(file: Bytes, actualSize: nat, sizeHolder: uint32, records: seq<Record>)
    requires Holds(file, actualSize, sizeHolder, records)
    ensures Index(map[], records, HOLDER_SIZE).Keys == Contents(records).Keys
  {
    hide Holds, PointsTo, AllApart;
    FileBounds(file, actualSize, sizeHolder, records);
    StillIndexed(file, file, actualSize, sizeHolder, records);
  }

  /** The log with one record only. */
  lemma SingleRecord(dic: Dictionary, contents: map<Bytes, Bytes>, record: Record, sizeHolder: uint32)
    requires ValidRecord(record) && dic.Keys <= {record.key} && contents.Keys <= {record.key} && GoodHolder(sizeHolder)
    ensures var size := HOLDER_SIZE + |Encoded(record)|;
      LogBytes(size, sizeHolder, [record]) == VarintBytes(sizeHolder) + Encoded(record) &&
      size == |LogBytes(size, sizeHolder, [record])| && AllValid([record])
    ensures var holder := MakeHolder(|record.key|, |record.value|, HOLDER_SIZE);
      Update(dic, record.key, holder) == Index(map[], [record], HOLDER_SIZE) && holder.valueSize == |record.value|
    ensures Contents([record]) == Meaning(contents, record)
  {
    hide HolderOf, MakeHolder, Encoded, VarintBytes, ValidRecord;
    HolderBytes(sizeHolder);
    HolderMade(record, HOLDER_SIZE);
    HolderShape(record, HOLDER_SIZE);
    assert [record][..0] == [];
    assert EncodeAll([record]) == EncodeAll([record][..0]) + Encoded(record);
    assert Index(map[], [record], HOLDER_SIZE) == Update(map[], record.key, HolderOf(record, HOLDER_SIZE));
  }

  /** Where the dictionary says, there is the key with its length. */
  lemma KeyInLog(file: Bytes, actualSize: nat, sizeHolder: uint32, records: seq<Record>, key: Bytes)
    requires Holds(file, actualSize, sizeHolder, records) && key in Index(map[], records, HOLDER_SIZE)
    ensures var h := Index(map[], records, HOLDER_SIZE)[key];
      h.keySize == |key| && |Block(key)| == |key| + VarintSize(|key|) &&
      HEADER_SIZE + h.offset + |Block(key)| <= |file| &&
      file[HEADER_SIZE + h.offset..HEADER_SIZE + h.offset + |Block(key)|] == Block(key)
    ensures key in Contents(records)
    ensures var h := Index(map[], records, HOLDER_SIZE)[key];
      h.offset + RecordSize(h) <= |file| - HEADER_SIZE && ToMMBuffer(h, file[HEADER_SIZE..]) == Contents(records)[key]
  {
    hide Holds, PointsTo, AllApart, Block, RecordSize;
    FileBounds(file, actualSize, sizeHolder, records);
    StillIndexed(file, file, actualSize, sizeHolder, records);
    var h, r := Index(map[], records, HOLDER_SIZE)[key], Record(key, Contents(records)[key]);
    var log := file[HEADER_SIZE..];
    PointsToRecord(log, h, r);
    ValidKey(log, h, r);
    assert file[HEADER_SIZE + h.offset..HEADER_SIZE + h.offset + |Block(key)|] == log[h.offset..h.offset + |Block(key)|];
  }

  lemma ValidKey(log: Bytes, h: KeyValueHolder, r: Record)
    requires PointsTo(log, h, r)
    ensures 0 < |r.key| < TWO31 && |Block(r.key)| == |r.key| + VarintSize(|r.key|)
  {
    BlockSize(r.key);
  }

  /** Writes a record at the end of the output. */
  method WriteKeyValue(output: CodedOutputData, keyData: Bytes, isKeyEncoded: bool, data: Bytes, isDataHolder: bool,
                       valueLength: uint32, ghost record: Record)
    requires output.Valid() && ValidRecord(record) && output.position + |Encoded(record)| <= output.size
    requires keyData == if isKeyEncoded then Block(record.key) else record.key
    requires record.value == if isDataHolder then Block(data) else data
    requires valueLength == |record.value|
    modifies output, output.memory
    ensures output.Valid() && output.position == old(output.position) + |Encoded(record)|
    ensures output.memory[..] == Overwrite(old(output.memory[..]), output.start + old(output.position), Encoded(record))
  {
    hide Overwrite, VarintBytes, ValidRecord;
    ghost var m, p := output.memory[..], output.start + output.position;
    ShortData(record, data, isDataHolder);
    var ok: bool;
    if isKeyEncoded {
      ok := output.WriteRawData(keyData);
    } else {
      ok := output.WriteData(keyData);
    }
    ghost var done := Block(record.key);
    assert output.memory[..] == Overwrite(m, p, done);
    if isDataHolder {
      OverwriteMore(m, p, done, VarintBytes(valueLength));
      ok := output.WriteRawVarint32(valueLength);
      done := done + VarintBytes(valueLength);
    }
    OverwriteMore(m, p, done, Block(data));
    ok := output.WriteData(data);
    assert done + Block(data) == Encoded(record);
  }

  lemma ShortData(record: Record, data: Bytes, isDataHolder: bool)
    requires ValidRecord(record) && record.value == if isDataHolder then Block(data) else data
    ensures |data| < TWO31 && |record.key| < TWO31
  {
  }

  /** The sizes computed from the parts are those of the record. */
  lemma RecordSizes(record: Record, data: Bytes, isDataHolder: bool)
    requires ValidRecord(record) && record.value == if isDataHolder then Block(data) else data
    ensures |data| < TWO31 && |Block(record.key)| == VarintSize(|record.key|) + |record.key| < TWO32
    ensures |record.value| < TWO31 && |Block(record.key)| > |record.key|
    ensures |record.value| == |data| + if isDataHolder then VarintSize(|data|) else 0
    ensures |Encoded(record)| == |Block(record.key)| + |record.value| + VarintSize(|record.value|)
  {
    hide VarintBytes;
    BlockSize(record.key);
    BlockSize(record.value);
    VarintBytesSize(|data|);
  }

  /** The log with one more record. */
  lemma Appended(file: Bytes, file': Bytes, actualSize: nat, sizeHolder: uint32, records: seq<Record>, record: Record, crc: uint32)
    requires Holds(file, actualSize, sizeHolder, records) && actualSize > 0 && ValidRecord(record)
    requires HEADER_SIZE + actualSize + |Encoded(record)| <= |file|
    requires file' == Overwrite(file, HEADER_SIZE + actualSize, Encoded(record))
    requires crc == CRC32(0, LogBytes(actualSize, sizeHolder, records))
    ensures var size := actualSize + |Encoded(record)|; var log := LogBytes(size, sizeHolder, records + [record]);
      HEADER_SIZE + size <= |file'| < TWO32 && GoodHolder(sizeHolder) && AllValid(records + [record]) && size == |log| &&
      file'[HEADER_SIZE..HEADER_SIZE + size] == log &&
      CRC32(crc, file'[HEADER_SIZE + actualSize..HEADER_SIZE + size]) == CRC32(0, log)
    ensures actualSize == HOLDER_SIZE + |EncodeAll(records)| < TWO32
  {
    hide Encoded, CRC32, VarintBytes, LittleEndian32, ValidRecord, EncodeAll, Overwrite;
    HolderBytes(sizeHolder);
    var log := LogBytes(actualSize, sizeHolder, records);
    EncodeAllMore(records, record);
    assert LogBytes(actualSize + |Encoded(record)|, sizeHolder, records + [record]) == log + Encoded(record) by {
      Concat(VarintBytes(sizeHolder), EncodeAll(records), Encoded(record));
    }
    hide LogBytes;
    AppendedBytes(file, HEADER_SIZE, actualSize, log, Encoded(record), file');
    CrcContinues(0, log, Encoded(record));
  }

  lemma EncodeAllMore(records: seq<Record>, record: Record)
    ensures EncodeAll(records + [record]) == EncodeAll(records) + Encoded(record)
  {
    assert (records + [record])[..|records|] == records;
  }

  lemma AppendedBytes(file: Bytes, start: nat, size: nat, log: Bytes, more: Bytes, file': Bytes)
    requires start + size + |more| <= |file| && file[start..start + size] == log
    requires file' == Overwrite(file, start + size, more)
    ensures file'[start..start + size + |more|] == log + more && file'[start + size..start + size + |more|] == more
  {
  }

  /** Writing the size field completes the file. */
  lemma HeaderKept(file: Bytes, file': Bytes, actualSize: uint32, sizeHolder: uint32, records: seq<Record>)
    requires HEADER_SIZE + actualSize <= |file| < TWO32 && GoodHolder(sizeHolder) && AllValid(records)
    requires actualSize == |LogBytes(actualSize, sizeHolder, records)| > 0
    requires file[HEADER_SIZE..HEADER_SIZE + actualSize] == LogBytes(actualSize, sizeHolder, records)
    requires file' == Overwrite(file, 0, LittleEndian32(actualSize))
    ensures Holds(file', actualSize, sizeHolder, records)
  {
    hide LogBytes, LittleEndian32;
    HeaderWritten(file, actualSize, LogBytes(actualSize, sizeHolder, records), file');
  }

  /** The holder made for an appended record is its place in the index. */
  lemma PlaceOfLast(records: seq<Record>, record: Record, holder: KeyValueHolder)
    requires ValidRecord(record) && HOLDER_SIZE + |EncodeAll(records)| < TWO32
    requires holder == MakeHolder(|record.key|, |record.value|, HOLDER_SIZE + |EncodeAll(records)|)
    ensures Index(map[], records + [record], HOLDER_SIZE) == Update(Index(map[], records, HOLDER_SIZE), record.key, holder)
    ensures Contents(records + [record]) == Meaning(Contents(records), record)
    ensures holder.valueSize == |record.value|
  {
    hide EncodeAll, Index, Update, HolderOf, ValidRecord, Contents, Meaning, MakeHolder;
    HolderMade(record, HOLDER_SIZE + |EncodeAll(records)|);
    HolderShape(record, HOLDER_SIZE + |EncodeAll(records)|);
    LastRecord(map[], records + [record], HOLDER_SIZE);
    assert (records + [record])[..|records|] == records;
  }

  lemma HolderMade(record: Record, offset: nat)
    requires ValidRecord(record) && offset < TWO32
    ensures HolderOf(record, offset) == MakeHolder(|record.key|, |record.value|, offset)
  {
    hide MakeHolder, HeadSize;
  }

  lemma NotEmpty(file: Bytes, actualSize: nat, sizeHolder: uint32, records: seq<Record>)
    requires Holds(file, actualSize, sizeHolder, records) && Index(map[], records, HOLDER_SIZE) != map[]
    ensures actualSize > 0
  {
  }

  lemma FileBounds(file: Bytes, actualSize: nat, sizeHolder: uint32, records: seq<Record>)
    requires Holds(file, actualSize, sizeHolder, records)
    ensures HEADER_SIZE + actualSize <= |file| < TWO32
  {
  }

  lemma UsageIsNatural(x: nat, count: nat, factor: nat)
    requires count > 0
    ensures x / count >= 0 && x / count * factor >= 0
  {
    QuotientAndRemainder(x, count);
    if x / count < 0 {
      MulMono(x / count, -1, count);
    }
    MulMono(0, if x / count < 0 then 0 else x / count, factor);
  }

  /** The dictionary of a stored log has the places right, and they are apart; what comes
      behind the log does not matter. */
  lemma StillIndexed(file: Bytes, file': Bytes, actualSize: nat, sizeHolder: uint32, records: seq<Record>)
    requires Holds(file, actualSize, sizeHolder, records) && |file| <= |file'|
    requires forall i | 0 <= i < |file| :: file'[i] == file[i]
    ensures var dic := Index(map[], records, HOLDER_SIZE);
      Indexes(dic, Contents(records), file'[HEADER_SIZE..], HOLDER_SIZE) && AllApart(dic)
  {
    hide Indexes, AllApart, Index, Contents, EncodeAll, AllValid, VarintBytes;
    if actualSize == 0 {
      NothingToIndex(file'[HEADER_SIZE..]);
    } else {
      HolderBytes(sizeHolder);
      IndexIndexes(VarintBytes(sizeHolder), records);
      var log := VarintBytes(sizeHolder) + EncodeAll(records);
      assert file'[HEADER_SIZE..] == log + file'[HEADER_SIZE + actualSize..] by {
        assert file'[HEADER_SIZE..HEADER_SIZE + actualSize] == file[HEADER_SIZE..HEADER_SIZE + actualSize];
      }
      IndexesLonger(Index(map[], records, HOLDER_SIZE), Contents(records), log, file'[HEADER_SIZE + actualSize..]);
    }
  }

  lemma NothingToIndex(log: Bytes)
    ensures Indexes(Index(map[], [], HOLDER_SIZE), Contents([]), log, HOLDER_SIZE) && AllApart(Index(map[], [], HOLDER_SIZE))
  {
  }

  lemma IndexesLonger(dic: Dictionary, contents: map<Bytes, Bytes>, log: Bytes, more: Bytes)
    requires Indexes(dic, contents, log, HOLDER_SIZE)
    ensures Indexes(dic, contents, log + more, HOLDER_SIZE)
  {
    hide PointsTo;
    forall k | k in dic
      ensures PointsTo(log + more, dic[k], Record(k, contents[k]))
    {
      PointsLonger(log, more, dic[k], Record(k, contents[k]));
    }
  }

  /** Writing the size field leaves the log alone. */
  lemma HeaderWritten(file: Bytes, size: uint32, log: Bytes, file': Bytes)
    requires HEADER_SIZE + size <= |file| && |log| == size && file[HEADER_SIZE..HEADER_SIZE + size] == log
    requires file' == Overwrite(file, 0, LittleEndian32(size))
    ensures file'[..HEADER_SIZE] == LittleEndian32(size) && file'[HEADER_SIZE..HEADER_SIZE + size] == log
  {
  }

  lemma RoundedUp(size: nat, page: nat)
    requires page > 0
    ensures size < (size / page + 1) * page <= size + page && size / page >= 0
    ensures (size / page + 1) * page % page == 0
  {
    QuotientAndRemainder(size, page);
    DivModUnique((size / page + 1) * page, page, size / page + 1, 0);
  }
}