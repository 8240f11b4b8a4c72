/** `decodeOneMap` of MiniPBCoder_OSX.cpp: replaying the log into a dictionary. */
module MiniPBCoder {
  import opened Varints
  import opened KeyValueHolders
  import opened CodedInput
  import opened LogRecords

  /** Where reading begins: behind the size holder, or at a given position. */
  function FirstPosition(s: Bytes, position: nat): Parsed<()> {
    if position > 0 then
      if position <= |s| then Ok((), position) else Failed
    else
      match VarintAt(s, 0)
      case Ok(_, next) => Ok((), next)
      case Failed => Failed
  }

  /** The dictionary after reading as far as possible, and whether that was everything. */
  function Decoded(s: Bytes, position: nat, dic: Dictionary): (Dictionary, bool) {
    match FirstPosition(s, position)
    case Ok(_, next) => Replay(s, next, dic)
    case Failed => (dic, false)
  }

  /** The loop that inserts into and erases from the dictionary; it stops at the first error. */
  method DecodeBlock(input: CodedInputData, dictionary: Dictionary, position: nat) returns (dic: Dictionary, complete: bool)
    requires input.Valid() && input.position == 0
    modifies input
    ensures (dic, complete) == Decoded(input.bytes, position, dictionary)
  {
    hide BlockAt;
    dic := dictionary;
    if position != 0 {
      complete := input.Seek(position);
    } else {
      var size: int32;
      complete, size := input.ReadRawVarint32();
    }
    if !complete {
      return;
    }
    while !input.IsAtEnd()
      invariant input.Valid()
      invariant Decoded(input.bytes, position, dictionary) == Replay(input.bytes, input.position, dic)
      decreases |input.bytes| - input.position
    {
      ghost var at := input.position;
      BlockMoves(input.bytes, at);
      var kvHolder := KeyValueHolder(0, 0, 0, 0);
      var ok: bool, key: Bytes;
      ok, key, kvHolder := input.ReadString(kvHolder);
      if !ok {
        return dic, false;
      }
      if |key| > 0 {
        BlockMoves(input.bytes, input.position);
        ok, kvHolder := input.ReadData(kvHolder);
        if !ok {
          return dic, false;
        }
        ghost var before := dic;
        if key in dic {
          if kvHolder.valueSize > 0 {
            dic := dic[key := kvHolder];
          } else {
            dic := dic - {key};
          }
        } else {
          if kvHolder.valueSize > 0 {
            dic := dic[key := kvHolder];
          }
        }
        assert dic == Update(before, key, kvHolder);
      }
    }
    complete := true;
  }

  /** A greedy reader keeps what was read before an error; the other keeps all or nothing. */
  method DecodeOneMap(bytes: Bytes, dictionary: Dictionary, position: nat, greedy: bool) returns (dic: Dictionary)
    ensures greedy ==> dic == Decoded(bytes, position, dictionary).0
    ensures !greedy ==> dic == if Decoded(bytes, position, map[]).1 then Decoded(bytes, position, map[]).0 else dictionary
  {
    var input := new CodedInputData(bytes);
    var complete: bool;
    if greedy {
      dic, complete := DecodeBlock(input, dictionary, position);
    } else {
      var tmpDic: Dictionary;
      tmpDic, complete := DecodeBlock(input, map[], position);
      dic := if complete then tmpDic else dictionary;
    }
  }
}
