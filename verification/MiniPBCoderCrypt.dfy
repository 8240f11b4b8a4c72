/** `decodeOneMap` of MiniPBCoder_OSX.cpp for an encrypted log, read through the decrypt
    window. Short values are kept in the dictionary, of long ones the place.
  */
module MiniPBCoderCrypt {
  import opened Powers
  import opened Varints
  import opened KeyValueHolders
  import opened CodedInput
  import opened LogRecords
  import opened DecryptWindow
  import MiniPBCoder

  type CryptDictionary = map<Bytes, KeyValueHolderCrypt>

  function CryptUpdate(dic: CryptDictionary, key: Bytes, holder: KeyValueHolderCrypt): CryptDictionary {
    if holder.RealValueSize() > 0 then dic[key := holder] else dic - {key}
  }

  /** Reading all records of the plain text, and whether that came to the end. */
  function ReplayCrypt(s: Bytes, pos: nat, dic: CryptDictionary): (r: (CryptDictionary, bool))
    decreases |s| - pos
  {
    if pos >= |s| then (dic, true)
    else
      BlockMoves(s, pos);
      match BlockAt(s, pos)
      case Failed => (dic, false)
      case Ok(key, next) =>
        if key == [] then ReplayCrypt(s, next, dic)
        else
          BlockMoves(s, next);
          match BlockAt(s, next)
          case Failed => (dic, false)
          case Ok(value, end) =>
            ReplayCrypt(s, end, CryptUpdate(dic, key, CryptHolder(ToUInt32(pos), ToUInt16(|key|), value)))
  }

  function DecodedCrypt(s: Bytes, position: nat, dic: CryptDictionary): (CryptDictionary, bool) {
    match MiniPBCoder.FirstPosition(s, position)
    case Ok(_, next) => ReplayCrypt(s, next, dic)
    case Failed => (dic, false)
  }

  /** Decrypting has to begin where reading does. */
  method DecodeBlock(input: CodedInputDataCrypt, dictionary: CryptDictionary, position: nat)
      returns (dic: CryptDictionary, complete: bool)
    requires input.Empty() && input.position == 0 && input.decrypter.at == position
    modifies input, input.buffer, input.decrypter
    ensures (dic, complete) == DecodedCrypt(input.decrypter.plain, position, dictionary)
  {
    hide BlockAt, CryptHolder;
    ghost var plain := input.decrypter.plain;
    dic := dictionary;
    if position != 0 {
      complete := input.Seek(position);
    } else {
      var size: int32;
      complete, size := input.ReadRawVarint32(false);
    }
    if !complete {
      return;
    }
    while !input.IsAtEnd()
      invariant input.Window() && (input.Aligned() || input.position == input.decryptPosition)
      invariant input.buffer == old(input.buffer) || fresh(input.buffer)
      invariant DecodedCrypt(plain, position, dictionary) == ReplayCrypt(plain, input.position, dic)
      decreases |plain| - input.position
    {
      BlockMoves(plain, input.position);
      var ok: bool, key: Bytes, offset: uint32, keySize: uint16;
      ok, key, offset, keySize := input.ReadString();
      if !ok {
        return dic, false;
      }
      if |key| > 0 {
        BlockMoves(plain, input.position);
        var holder: KeyValueHolderCrypt;
        ok, holder := input.ReadData(offset, keySize);
        if !ok {
          return dic, false;
        }
        ghost var before := dic;
        if key in dic {
          if holder.RealValueSize() > 0 {
            dic := dic[key := holder];
          } else {
            dic := dic - {key};
          }
        } else {
          if holder.RealValueSize() > 0 {
            dic := dic[key := holder];
          }
        }
        assert dic == CryptUpdate(before, key, holder);
      }
    }
    complete := true;
  }

  /** The two kinds of holder describe the same value. Where the head of the record did not
      fit 16 bits, the plain holder is wrong about the value's place. */
  ghost predicate SameValue(s: Bytes, key: Bytes, h: KeyValueHolder, c: KeyValueHolderCrypt) {
    match c
    case AtOffset(pbKeyValueSize, keySize, valueSize, offset) =>
      IsValueStoredAsOffset(valueSize) && pbKeyValueSize == VarintSize(valueSize) + VarintSize(keySize) &&
      h.keySize == keySize && h.valueSize == valueSize && h.offset == offset
    case Inline(value) =>
      !IsValueStoredAsOffset(|value|) && h.valueSize == |value| &&
      (|key| < h.computedKVSize ==> h.offset + RecordSize(h) <= |s| && value == ToMMBuffer(h, s))
  }

  ghost predicate SameDictionary(s: Bytes, dic: Dictionary, crypt: CryptDictionary) {
    dic.Keys == crypt.Keys && forall k | k in dic :: SameValue(s, k, dic[k], crypt[k])
  }

  /** One record, read both ways. */
  lemma SameRecord(s: Bytes, pos: nat, key: Bytes, next: nat, value: Bytes, end: nat)
    requires |s| < TWO32 && pos <= |s|
    requires BlockAt(s, pos) == Ok(key, next) && key != [] && BlockAt(s, next) == Ok(value, end)
    ensures ItemAt(s, pos).Entry? && ItemAt(s, pos).key == key && ItemAt(s, pos).next == end
    ensures SameValue(s, key, ItemAt(s, pos).holder, CryptHolder(ToUInt32(pos), ToUInt16(|key|), value))
  {
    BlockPlace(s, pos);
    BlockPlace(s, next);
    hide BlockAt;
    assert pos % TWO32 == pos && |value| % TWO32 == |value|;
    HeadFits(end - |value| - pos, |key|);
  }

  lemma BlockPlace(s: Bytes, pos: nat)
    ensures match BlockAt(s, pos)
      case Ok(b, next) => pos + |b| < next <= pos + |b| + 10 && next <= |s| && s[next - |b|..next] == b
      case Failed => true
  {
  }

  /** A head that was cut to 16 bits is seen to be too short for the key. */
  lemma HeadFits(head: nat, keyLength: nat)
    requires keyLength + 1 < head <= keyLength + 20
    ensures keyLength < ToUInt16(head) ==> ToUInt16(head) == head
  {
  }

  /** Reading an encrypted log through the window gives the dictionary of its plain text. */
  lemma {:induction false} CryptReplayAgrees(s: Bytes, pos: nat, dic: Dictionary, crypt: CryptDictionary)
    requires |s| < TWO32 && SameDictionary(s, dic, crypt)
    ensures SameDictionary(s, Replay(s, pos, dic).0, ReplayCrypt(s, pos, crypt).0)
    ensures Replay(s, pos, dic).1 == ReplayCrypt(s, pos, crypt).1
    decreases |s| - pos
  {
    hide BlockAt, CryptHolder, SameValue;
    if pos < |s| {
      BlockMoves(s, pos);
      match BlockAt(s, pos) {
        case Failed =>
        case Ok(key, next) =>
          if key == [] {
            CryptReplayAgrees(s, next, dic, crypt);
          } else {
            BlockMoves(s, next);
            match BlockAt(s, next) {
              case Failed =>
              case Ok(value, end) =>
                SameRecord(s, pos, key, next, value, end);
                var h, c := ItemAt(s, pos).holder, CryptHolder(ToUInt32(pos), ToUInt16(|key|), value);
                SameUpdate(s, dic, crypt, key, h, c);
                CryptReplayAgrees(s, end, Update(dic, key, h), CryptUpdate(crypt, key, c));
            }
          }
      }
    }
  }

  lemma SameUpdate(s: Bytes, dic: Dictionary, crypt: CryptDictionary, key: Bytes, h: KeyValueHolder, c: KeyValueHolderCrypt)
    requires SameDictionary(s, dic, crypt) && SameValue(s, key, h, c)
    ensures SameDictionary(s, Update(dic, key, h), CryptUpdate(crypt, key, c))
  {
    assert h.valueSize == c.RealValueSize();
    hide SameValue;
    assert Update(dic, key, h).Keys == CryptUpdate(crypt, key, c).Keys;
  }

  /** What the dictionary of an encrypted log must hold. */
  ghost predicate CryptIndexes(crypt: CryptDictionary, contents: map<Bytes, Bytes>, s: Bytes) {
    crypt.Keys == contents.Keys && forall k | k in crypt :: Holds(crypt[k], Record(k, contents[k]), s)
  }

  /** The value itself, or the place of the record that ends with it. */
  ghost predicate Holds(c: KeyValueHolderCrypt, r: Record, s: Bytes) {
    match c
    case Inline(value) => value == r.value
    case AtOffset(pbKeyValueSize, keySize, valueSize, offset) =>
      valueSize == |r.value| && offset + pbKeyValueSize + keySize + valueSize <= |s| &&
      s[offset..offset + pbKeyValueSize + keySize + valueSize] == Encoded(r)
  }

  lemma SameHolds(s: Bytes, h: KeyValueHolder, c: KeyValueHolderCrypt, r: Record)
    requires PointsTo(s, h, r) && SameValue(s, r.key, h, c)
    ensures Holds(c, r, s)
  {
    hide Encoded, HolderOf, Block;
    PointsToRecord(s, h, r);
    EncodedSize(r);
    BlockSize(r.key);
    BlockSize(r.value);
  }

  /** Whatever records were written and encrypted, decoding gives the last value of every
      key, or the place from which its record can be decrypted. */
  lemma DecodedIsContents(head: Bytes, rs: seq<Record>)
    requires AllValid(rs) && |head| + |EncodeAll(rs)| < TWO32
    ensures var (crypt, complete) := ReplayCrypt(head + EncodeAll(rs), |head|, map[]);
      complete && CryptIndexes(crypt, Contents(rs), head + EncodeAll(rs))
  {
    hide Index, EncodeAll, Contents, ReplayCrypt, Replay, AllValid, SameValue, PointsTo, Holds, AllApart;
    var s := head + EncodeAll(rs);
    assert s[|head|..] == EncodeAll(rs);
    ReplayIsIndex(s, |head|, map[], rs);
    IndexIndexes(head, rs);
    CryptReplayAgrees(s, |head|, map[], map[]);
    var dic, crypt := Index(map[], rs, |head|), ReplayCrypt(s, |head|, map[]).0;
    forall k | k in crypt
      ensures Holds(crypt[k], Record(k, Contents(rs)[k]), s)
    {
      SameHolds(s, dic[k], crypt[k], Record(k, Contents(rs)[k]));
    }
  }
}
