/** CodedInputDataCrypt.cpp: reading an encrypted log through a buffer that holds only a
    window of the decrypted text. The cipher is a stream in blocks of 16 bytes (the cipher
    feedback mode, section 6.3 of NIST SP 800-38A): decrypting goes on where it stopped.
  */
module DecryptWindow {
  import opened Powers
  import opened Varints
  import opened KeyValueHolders
  import opened CodedInput

  const AES_KEY_LEN: nat := 16

  function Min(a: nat, b: nat): nat {
    if a < b then a else b
  }

  /** n bytes of the text, from a place on, were put into the buffer. */
  ghost predicate Decrypted(before: Bytes, after: Bytes, from: nat, plain: Bytes, start: nat, n: nat) {
    from + n <= |before| && start + n <= |plain| &&
    after == before[..from] + plain[start..start + n] + before[from + n..]
  }

  /** The text that the stream decrypts to, and how far it has come. */
  class AESCrypt {
    const plain: Bytes
    var at: nat

    constructor (plain: Bytes, at: nat)
      requires at <= |plain|
      ensures this.plain == plain && this.at == at
    {
      this.plain, this.at := plain, at;
    }

    /** How much of the current block has been used. */
    function Number(): nat
      reads this
    {
      at % AES_KEY_LEN
    }

    method Decrypt(target: array<uint8>, from: nat, length: nat)
      requires at + length <= |plain| && from + length <= target.Length
      modifies this, target
      ensures at == old(at) + length
      ensures Decrypted(old(target[..]), target[..], from, plain, old(at), length)
    {
      forall i | 0 <= i < length {
        target[from + i] := plain[at + i];
      }
      at := at + length;
    }
  }

  class CodedInputDataCrypt {
    const size: nat
    const decrypter: AESCrypt
    var position: nat
    var decryptPosition: nat
    var buffer: array<uint8>
    var bufferPosition: nat
    var decryptLength: nat
    var discardPosition: nat
    ghost var kept: nat

    /** The unread part of the buffer is the plain text from the position to where decrypting
        has come. */
    ghost predicate Window()
      reads this, buffer, decrypter
    {
      size == |decrypter.plain| && decrypter.at == decryptPosition <= size && buffer.Length >= AES_KEY_LEN &&
      bufferPosition <= decryptLength <= buffer.Length &&
      position + (decryptLength - bufferPosition) == decryptPosition &&
      buffer[bufferPosition..decryptLength] == decrypter.plain[position..decryptPosition]
    }

    /** Whole blocks were decrypted, or everything. */
    ghost predicate Aligned()
      reads this, decrypter
    {
      decrypter.Number() == 0 || decryptPosition == size
    }

    /** The last `kept` bytes that were read are still in the buffer, behind the discard
        position. */
    ghost predicate Kept()
      reads this, buffer, decrypter
    {
      discardPosition + kept <= bufferPosition <= decryptLength <= buffer.Length &&
      kept <= position <= decryptPosition <= |decrypter.plain| &&
      position + (decryptLength - bufferPosition) == decryptPosition &&
      buffer[bufferPosition - kept..decryptLength] == decrypter.plain[position - kept..decryptPosition]
    }

    /** Nothing is in the buffer. */
    ghost predicate Empty()
      reads this, buffer, decrypter
    {
      size == |decrypter.plain| && position == decryptPosition <= size && AES_KEY_LEN <= buffer.Length &&
      bufferPosition == decryptLength == discardPosition <= buffer.Length && kept == 0
    }

    /** The stream may already be inside a block, at a place that is then sought. */
    constructor (decrypter: AESCrypt)
      requires decrypter.at <= |decrypter.plain|
      ensures Empty() && position == 0 && this.decrypter == decrypter && fresh(buffer)
      ensures decrypter.at == 0 ==> Window() && Kept()
    {
      this.size, this.decrypter := |decrypter.plain|, decrypter;
      position, decryptPosition := 0, 0;
      buffer := new uint8[AES_KEY_LEN * 2];
      var number := decrypter.Number();
      bufferPosition, decryptLength, discardPosition := number, number, number;
      kept := 0;
    }

    /** Goes to where the stream is. */
    method Seek(addedSize: nat) returns (ok: bool)
      requires Empty()
      modifies this`position, this`decryptPosition
      ensures position == old(position) + addedSize && ok == (position <= size)
      ensures ok ==> Empty() && (decrypter.at == position ==> Window() && Kept())
    {
      position := position + addedSize;
      decryptPosition := decryptPosition + addedSize;
      ok := position <= size;
    }

    predicate IsAtEnd()
      reads this
    {
      position == size
    }

    /** Makes sure that `length` bytes, or all that are left, are in the buffer. */
    method ConsumeBytes(length: nat, discardPreData: bool)
      requires Window() && (discardPreData || Kept())
      modifies this, buffer, decrypter
      ensures Window() && Kept() && (buffer == old(buffer) || fresh(buffer))
      ensures position == old(position) && kept == if discardPreData then 0 else old(kept)
      ensures decryptPosition - position >= Min(length, size - position)
      ensures old(Aligned()) || length > old(decryptPosition - position) ==> Aligned()
    {
      hide Window, Kept, RoundedLength;
      if discardPreData {
        Discard();
      }
      Bounds();
      var decryptedBytesLeft := decryptLength - bufferPosition;
      if decryptedBytesLeft >= length {
        return;
      }
      var more := RoundedLength(length - decryptedBytesLeft, decryptPosition, size);
      Rounding(length - decryptedBytesLeft, decryptPosition, size);
      MakeRoom(more);
      DecryptMore(more);
      Bounds();
      AtBlockEnd();
    }

    lemma AtBlockEnd()
      requires Window() && (decryptPosition == size || decryptPosition % AES_KEY_LEN == 0)
      ensures Aligned()
    {
    }

    /** Moves what is needed to the front, and makes the buffer larger if that is not enough. */
    method MakeRoom(length: nat)
      requires Window() && Kept()
      modifies this`buffer, this`bufferPosition, this`decryptLength, this`discardPosition, buffer
      ensures Window() && Kept() && (buffer == old(buffer) || fresh(buffer)) && decryptLength + length <= buffer.Length
    {
      hide Window, Kept;
      if buffer.Length - decryptLength < length && discardPosition > 0 {
        MoveSpace();
      }
      if buffer.Length - decryptLength < length {
        Bounds();
        Grow(length);
      }
    }

    lemma Bounds()
      requires Window()
      ensures size == |decrypter.plain| && decrypter.at == decryptPosition <= size && buffer.Length >= AES_KEY_LEN
      ensures bufferPosition <= decryptLength <= buffer.Length
      ensures position + (decryptLength - bufferPosition) == decryptPosition
    {
    }

    /** What was read so far is no longer needed. */
    method Discard()
      requires Window()
      modifies this`discardPosition, this`kept
      ensures Window() && Kept() && kept == 0
    {
      discardPosition := bufferPosition;
      kept := 0;
    }

    /** Gives up the blocks before the discard position. */
    method MoveSpace()
      requires Window() && Kept()
      modifies this`bufferPosition, this`decryptLength, this`discardPosition, buffer
      ensures Window() && Kept()
    {
      hide WholeBlocks, Window, Kept, Shifted, SameText;
      BlocksBelow(discardPosition);
      var posToMove := WholeBlocks(discardPosition);
      if posToMove > 0 {
        Bounds();
        KeptPart();
        ghost var before := buffer[..];
        ShiftDown(posToMove, decryptLength - posToMove);
        Moved(before, buffer[..], posToMove, bufferPosition, decryptLength, decrypter.plain, position, decryptPosition);
        Moved(before, buffer[..], posToMove, bufferPosition - kept, decryptLength,
              decrypter.plain, position - kept, decryptPosition);
        bufferPosition := bufferPosition - posToMove;
        decryptLength := decryptLength - posToMove;
        discardPosition := 0;
        WindowIs();
        KeptIs();
      }
    }

    lemma KeptPart()
      requires Window() && Kept()
      ensures discardPosition + kept <= bufferPosition && kept <= position
      ensures SameText(buffer[..], bufferPosition, decryptLength, decrypter.plain, position, decryptPosition)
      ensures SameText(buffer[..], bufferPosition - kept, decryptLength, decrypter.plain, position - kept, decryptPosition)
    {
      assert buffer[..][bufferPosition..decryptLength] == buffer[bufferPosition..decryptLength];
      assert buffer[..][bufferPosition - kept..decryptLength] == buffer[bufferPosition - kept..decryptLength];
    }

    lemma KeptIs()
      requires discardPosition + kept <= bufferPosition <= decryptLength <= buffer.Length
      requires kept <= position <= decryptPosition <= |decrypter.plain|
      requires position + (decryptLength - bufferPosition) == decryptPosition
      requires SameText(buffer[..], bufferPosition - kept, decryptLength, decrypter.plain, position - kept, decryptPosition)
      ensures Kept()
    {
      assert buffer[..][bufferPosition - kept..decryptLength] == buffer[bufferPosition - kept..decryptLength];
    }

    /** memmove to the front of the buffer */
    method ShiftDown(from: nat, n: nat)
      requires from + n <= buffer.Length
      modifies buffer
      ensures Shifted(old(buffer[..]), buffer[..], from, n)
    {
      forall i | 0 <= i < n {
        buffer[i] := buffer[from + i];
      }
    }

    /** Makes the buffer larger. */
    method Grow(length: nat)
      requires Window() && Kept()
      modifies this`buffer
      ensures Window() && Kept() && fresh(buffer) && buffer.Length == old(buffer.Length) + length
    {
      hide Window, Kept, SameText;
      Bounds();
      KeptPart();
      var was := buffer;
      var larger := new uint8[buffer.Length + length](i requires 0 <= i reads was => if i < was.Length then was[i] else 0);
      SamePart(was[..], larger[..], bufferPosition, decryptLength, decrypter.plain, position, decryptPosition);
      SamePart(was[..], larger[..], bufferPosition - kept, decryptLength, decrypter.plain, position - kept, decryptPosition);
      buffer := larger;
      WindowIs();
      KeptIs();
    }

    /** Decrypts behind what is in the buffer. */
    method DecryptMore(length: nat)
      requires Window() && Kept() && decryptLength + length <= buffer.Length && decryptPosition + length <= size
      modifies this`decryptPosition, this`decryptLength, buffer, decrypter
      ensures Window() && Kept() && decryptPosition == old(decryptPosition) + length
    {
      hide Window, Kept, SameText, Decrypted;
      Bounds();
      KeptPart();
      ghost var before := buffer[..];
      decrypter.Decrypt(buffer, decryptLength, length);
      Extended(before, buffer[..], bufferPosition, decryptLength, decrypter.plain, position, decryptPosition, length);
      Extended(before, buffer[..], bufferPosition - kept, decryptLength, decrypter.plain, position - kept, decryptPosition, length);
      decryptPosition := decryptPosition + length;
      decryptLength := decryptLength + length;
      WindowIs();
      KeptIs();
    }

    /** Skips bytes of the text without keeping them: blocks that are not in the buffer are
        decrypted over one another at its front. */
    method SkipBytes(length: nat)
      requires Window() && Aligned() && position + length <= size
      modifies this`position, this`decryptPosition, this`bufferPosition, this`decryptLength, this`kept, buffer, decrypter
      ensures Window() && Aligned() && position == old(position) + length
    {
      position := position + length;
      var decryptedBytesLeft: nat := decryptLength - bufferPosition;
      kept := 0;
      if decryptedBytesLeft >= length {
        SkipInBuffer(buffer[..], bufferPosition, decryptLength, decrypter.plain, position - length, decryptPosition, length);
        bufferPosition := bufferPosition + length;
        return;
      }
      SkipPast(length - decryptedBytesLeft);
    }

    /** The bytes to skip reach beyond the buffer by `length`. */
    method SkipPast(length: nat)
      requires length > 0 && decryptPosition + length == position <= size == |decrypter.plain|
      requires decrypter.at == decryptPosition && buffer.Length >= AES_KEY_LEN && Aligned()
      modifies this`decryptPosition, this`bufferPosition, this`decryptLength, buffer, decrypter
      ensures Window() && Aligned()
    {
      hide BlocksFor, Min, Window;
      assert decrypter.Number() == 0;
      var skipped := Min(BlocksFor(length), size - decryptPosition);
      BlocksToSkip(length, size - decryptPosition, skipped);
      var decryptedBytesLeft: nat := skipped - length;
      decryptLength := DecryptToFront(skipped);
      bufferPosition := decryptLength - decryptedBytesLeft;
      EndOf(buffer[..], decryptLength, decrypter.plain, decryptPosition, decryptedBytesLeft);
      WindowIs();
    }

    lemma WindowIs()
      requires size == |decrypter.plain| && decrypter.at == decryptPosition <= size && buffer.Length >= AES_KEY_LEN
      requires bufferPosition <= decryptLength <= buffer.Length
      requires position + (decryptLength - bufferPosition) == decryptPosition
      requires SameText(buffer[..], bufferPosition, decryptLength, decrypter.plain, position, decryptPosition)
      ensures Window()
    {
      assert buffer[..][bufferPosition..decryptLength] == buffer[bufferPosition..decryptLength];
    }

    /** Decrypts `length` bytes, of which the last block, or what there is of it, remains. */
    method DecryptToFront(length: nat) returns (filled: nat)
      requires decrypter.at == decryptPosition && decryptPosition + length <= |decrypter.plain|
      requires length > 0 && buffer.Length >= AES_KEY_LEN
      modifies this`decryptPosition, buffer, decrypter
      ensures decryptPosition == old(decryptPosition) + length == decrypter.at
      ensures filled == if length % AES_KEY_LEN > 0 then length % AES_KEY_LEN else AES_KEY_LEN
      ensures filled <= decryptPosition && buffer[..filled] == decrypter.plain[decryptPosition - filled..decryptPosition]
    {
      var rest := SkipBlocks(length);
      if rest > 0 {
        ghost var before := buffer[..];
        decrypter.Decrypt(buffer, 0, rest);
        FrontOf(before, buffer[..], decrypter.plain[decryptPosition..decryptPosition + rest]);
        decryptPosition := decryptPosition + rest;
        filled := rest;
      } else {
        filled := AES_KEY_LEN;
      }
    }

    /** Decrypts the whole blocks of `length` bytes, each to the front of the buffer. */
    method SkipBlocks(length: nat) returns (rest: nat)
      requires decrypter.at == decryptPosition && decryptPosition + length <= |decrypter.plain|
      requires buffer.Length >= AES_KEY_LEN
      modifies this`decryptPosition, buffer, decrypter
      ensures rest == length % AES_KEY_LEN && decryptPosition == old(decryptPosition) + (length - rest)
      ensures decrypter.at == decryptPosition
      ensures length >= AES_KEY_LEN ==> decryptPosition >= AES_KEY_LEN
      ensures length >= AES_KEY_LEN ==>
        buffer[..AES_KEY_LEN] == decrypter.plain[decryptPosition - AES_KEY_LEN..decryptPosition]
    {
      rest := length;
      var rounds: nat := length / AES_KEY_LEN;
      for index := 0 to rounds
        invariant rest == length - index * AES_KEY_LEN && decryptPosition == old(decryptPosition) + index * AES_KEY_LEN
        invariant decrypter.at == decryptPosition
        invariant index > 0 ==> buffer[..AES_KEY_LEN] == decrypter.plain[decryptPosition - AES_KEY_LEN..decryptPosition]
      {
        SkipBlock();
        rest := rest - AES_KEY_LEN;
      }
    }

    method SkipBlock()
      requires decrypter.at == decryptPosition && decryptPosition + AES_KEY_LEN <= |decrypter.plain|
      requires buffer.Length >= AES_KEY_LEN
      modifies this`decryptPosition, buffer, decrypter
      ensures decrypter.at == decryptPosition == old(decryptPosition) + AES_KEY_LEN
      ensures buffer[..AES_KEY_LEN] == decrypter.plain[decryptPosition - AES_KEY_LEN..decryptPosition]
    {
      ghost var before := buffer[..];
      decrypter.Decrypt(buffer, 0, AES_KEY_LEN);
      decryptPosition := decryptPosition + AES_KEY_LEN;
      FrontOf(before, buffer[..], decrypter.plain[decryptPosition - AES_KEY_LEN..decryptPosition]);
    }

    /** Fails at the end of the text; the byte has to be in the buffer. */
    method ReadRawByte() returns (ok: bool, b: uint8)
      requires Window() && Kept() && (position < decryptPosition || position == size)
      modifies this`position, this`bufferPosition, this`kept
      ensures Window() && Kept() && ok == (old(position) < size)
      ensures ok ==> b == decrypter.plain[old(position)] && position == old(position) + 1
      ensures !ok ==> position == old(position)
      ensures kept == old(kept) + (position - old(position))
    {
      if position == size {
        return false, 0;
      }
      Advance(buffer[..], bufferPosition, kept, decryptLength, decrypter.plain, position, decryptPosition, 1);
      position := position + 1;
      ok, b := true, buffer[bufferPosition];
      bufferPosition := bufferPosition + 1;
      kept := kept + 1;
    }

    /** Ten bytes, or all that are left, are decrypted before the first of them is read. */
    method ReadRawVarint32(discardPreData: bool) returns (ok: bool, value: int32)
      requires Window() && (discardPreData || Kept())
      modifies this, buffer, decrypter
      ensures Window() && Kept() && (buffer == old(buffer) || fresh(buffer))
      ensures old(Aligned()) || old(position == decryptPosition) ==> Aligned()
      ensures match VarintAt(decrypter.plain, old(position))
        case Ok(v, next) => ok && value == v && position == next
        case Failed => !ok
      ensures position >= old(position)
      ensures kept == (if discardPreData then 0 else old(kept)) + (position - old(position))
    {
      hide Window, Kept;
      ConsumeBytes(10, discardPreData);
      Bounds();
      ok, value := CollectVarint();
      Bounds();
    }

    /** One of the first four bytes; the k before it make up r. */
    method NextByte(ghost start: nat, ghost k: nat, ghost r: nat, ghost w: nat) returns (ok: bool, b: uint8)
      requires Window() && Kept() && (decryptPosition >= start + 10 || decryptPosition == size)
      requires position == start + k && k < 4 && w == Pow(0x80, k)
      requires if k == 0 then r == 0 else Collected(decrypter.plain, start, k, r) && r < w
      modifies this`position, this`bufferPosition, this`kept
      ensures Window() && Kept() && kept == old(kept) + (position - old(position))
      ensures ok ==> position == old(position) + 1
      ensures !ok ==> position == old(position) && VarintAt(decrypter.plain, start) == Failed
      ensures ok && b < 0x80 ==> VarintAt(decrypter.plain, start) == Ok(ToInt32(r + w * b), start + k + 1)
      ensures ok && b >= 0x80 ==> Collected(decrypter.plain, start, k + 1, r + w * (b % 0x80))
    {
      hide Window, Kept, VarintAt, Collected, ToInt32, Pow, LowGroups, VarintLength;
      Bounds();
      Collect(decrypter.plain, start, k, r, w);
      ok, b := ReadRawByte();
    }

    /** One of the bytes from the fifth on. */
    method NextUpper(ghost start: nat, ghost k: nat, ghost r: nat) returns (ok: bool, b: uint8)
      requires Window() && Kept() && (decryptPosition >= start + 10 || decryptPosition == size)
      requires position == start + k && 4 <= k < 10 && Collected(decrypter.plain, start, k, r)
      modifies this`position, this`bufferPosition, this`kept
      ensures Window() && Kept() && kept == old(kept) + (position - old(position))
      ensures ok ==> position == old(position) + 1
      ensures !ok ==> position == old(position) && VarintAt(decrypter.plain, start) == Failed
      ensures ok && b < 0x80 ==> VarintAt(decrypter.plain, start) == Ok(ToInt32(Kept32(k, r, b)), start + k + 1)
      ensures ok && b >= 0x80 ==> Collected(decrypter.plain, start, k + 1, Kept32(k, r, b))
    {
      hide Window, Kept, VarintAt, Collected, ToInt32, Pow, LowGroups, VarintLength;
      Bounds();
      if k > 4 {
        CollectUpper(decrypter.plain, start, k, r);
      } else {
        Weights();
        CollectedBound(decrypter.plain, start, r);
        Collect(decrypter.plain, start, 4, r, 0x1000_0000);
        if start + 4 < |decrypter.plain| {
          CollectFifth(decrypter.plain, start, r, decrypter.plain[start + 4]);
        }
      }
      ok, b := ReadRawByte();
    }

    method CollectVarint() returns (ok: bool, value: int32)
      requires Window() && Kept() && (decryptPosition >= position + 10 || decryptPosition == size)
      modifies this`position, this`bufferPosition, this`kept
      ensures Window() && Kept()
      ensures match VarintAt(decrypter.plain, old(position))
        case Ok(v, next) => ok && value == v && position == next
        case Failed => !ok
      ensures position >= old(position) && kept == old(kept) + (position - old(position))
    {
      hide Window, Kept, VarintAt, Collected, ToInt32, Pow, LowGroups, VarintLength;
      ghost var start, plain := position, decrypter.plain;
      value := 0;
      var tmp: uint8;
      Weights();
      ok, tmp := NextByte(start, 0, 0, 1);
      if !ok { return; }
      if tmp < 0x80 {
        SmallInt32(tmp);
        return true, tmp;
      }
      var result: uint32 := tmp % 0x80;
      ok, tmp := NextByte(start, 1, result, 0x80);
      if !ok { return; }
      if tmp < 0x80 {
        result := result + tmp * 0x80;
      } else {
        result := result + tmp % 0x80 * 0x80;
        ok, value := ReadMiddle(result);
        return;
      }
      ok, value := true, ToInt32(result);
    }

    /** The third and the fourth byte. */
    method ReadMiddle(low: uint32) returns (ok: bool, value: int32)
      requires Window() && Kept() && (decryptPosition >= position + 8 || decryptPosition == size)
      requires position >= 2 && Collected(decrypter.plain, position - 2, 2, low) && low < 0x4000
      modifies this`position, this`bufferPosition, this`kept
      ensures Window() && Kept()
      ensures match VarintAt(decrypter.plain, old(position) - 2)
        case Ok(v, next) => ok && value == v && position == next
        case Failed => !ok
      ensures position >= old(position) && kept == old(kept) + (position - old(position))
    {
      hide Window, Kept, VarintAt, Collected, ToInt32, Pow, LowGroups, VarintLength;
      ghost var plain := decrypter.plain;
      ghost var start: nat := position - 2;
      value := 0;
      var tmp: uint8;
      var result: uint32 := low;
      Weights();
      ok, tmp := NextByte(start, 2, result, 0x4000);
      if !ok { return; }
      if tmp < 0x80 {
        result := result + tmp * 0x4000;
      } else {
        result := result + tmp % 0x80 * 0x4000;
        ok, tmp := NextByte(start, 3, result, 0x20_0000);
        if !ok { return; }
        if tmp < 0x80 {
          result := result + tmp * 0x20_0000;
        } else {
          result := result + tmp % 0x80 * 0x20_0000;
          ok, value := ReadUpper(result);
          return;
        }
      }
      ok, value := true, ToInt32(result);
    }

    /** Of the fifth byte four bits are kept; the bytes of a longer encoding are dropped. */
    method ReadUpper(result: uint32) returns (ok: bool, value: int32)
      requires Window() && Kept() && (decryptPosition >= position + 6 || decryptPosition == size)
      requires position >= 4 && Collected(decrypter.plain, position - 4, 4, result)
      modifies this`position, this`bufferPosition, this`kept
      ensures Window() && Kept()
      ensures match VarintAt(decrypter.plain, old(position) - 4)
        case Ok(v, next) => ok && value == v && position == next
        case Failed => !ok
      ensures position >= old(position) && kept == old(kept) + (position - old(position))
    {
      hide Window, Kept, VarintAt, Collected, ToInt32, Pow, LowGroups, VarintLength;
      ghost var plain := decrypter.plain;
      ghost var start: nat := position - 4;
      value := 0;
      var tmp: uint8;
      Weights();
      CollectedBound(plain, start, result);
      ok, tmp := NextUpper(start, 4, result);
      if !ok { return; }
      var low: uint32 := result + tmp * 0x1000_0000 % TWO32;
      if tmp < 0x80 {
        value := ToInt32(low);
        return;
      }
      for i := 0 to 5
        invariant Window() && Kept() && position == start + 5 + i && kept == old(kept) + 1 + i
        invariant Collected(plain, start, 5 + i, low)
      {
        ok, tmp := NextUpper(start, 5 + i, low);
        if !ok { return; }
        if tmp < 0x80 {
          value := ToInt32(low);
          return;
        }
      }
      CollectedTooLong(plain, start, low);
      return false, 0;
    }

    /** Takes bytes from the buffer. */
    method TakeBytes(n: nat) returns (data: Bytes)
      requires Window() && Kept() && position + n <= decryptPosition
      modifies this`position, this`bufferPosition, this`kept
      ensures Window() && Kept() && position == old(position) + n && kept == old(kept) + n
      ensures data == decrypter.plain[old(position)..position]
    {
      hide *;
      Bounds();
      KeptPart();
      AdvanceText(buffer[..], bufferPosition, decryptLength, decrypter.plain, position, decryptPosition, n);
      data := Part(bufferPosition, bufferPosition + n, position, position + n);
      position := position + n;
      bufferPosition := bufferPosition + n;
      kept := kept + n;
      assert bufferPosition - kept == old(bufferPosition - kept) && position - kept == old(position - kept);
      WindowIs();
      KeptIs();
    }

    method Part(from: nat, to: nat, ghost start: nat, ghost end: nat) returns (data: Bytes)
      requires SameText(buffer[..], from, to, decrypter.plain, start, end)
      ensures start <= end <= |decrypter.plain| && data == decrypter.plain[start..end]
    {
      data := buffer[from..to];
    }

    /** Reads a key; all bytes of the record so far are then still in the buffer. */
    method ReadString() returns (ok: bool, key: Bytes, offset: uint32, keySize: uint16)
      requires Window()
      modifies this, buffer, decrypter
      ensures Window() && Kept() && (buffer == old(buffer) || fresh(buffer))
      ensures old(Aligned()) || old(position == decryptPosition) ==> Aligned()
      ensures match BlockAt(decrypter.plain, old(position))
        case Ok(k, next) => ok && key == k && position == next && kept == next - old(position) &&
          offset == ToUInt32(old(position)) && keySize == ToUInt16(|k|)
        case Failed => !ok
    {
      hide Window, Kept, VarintAt;
      offset, keySize, key := ToUInt32(position), 0, [];
      var length: int32;
      ok, length := ReadRawVarint32(true);
      if !ok { return; }
      if length < 0 {
        ok := false;
        return;
      }
      Bounds();
      if length <= size - position {
        ConsumeBytes(length, false);
        Bounds();
        keySize := ToUInt16(length);
        key := TakeBytes(length);
      } else {
        ok := false;
      }
    }

    /** Takes a short value from the buffer; of a long one only the place is kept. */
    method ReadData(offset: uint32, keySize: uint16) returns (ok: bool, holder: KeyValueHolderCrypt)
      requires Window() && Kept() && Aligned()
      modifies this, buffer, decrypter
      ensures Window() && Aligned() && (buffer == old(buffer) || fresh(buffer))
      ensures match BlockAt(decrypter.plain, old(position))
        case Ok(v, next) => ok && position == next && holder == CryptHolder(offset, keySize, v)
        case Failed => !ok
    {
      hide Window, Kept, VarintAt;
      holder := Inline([]);
      var length: int32;
      ok, length := ReadRawVarint32(false);
      if !ok { return; }
      if length < 0 {
        ok := false;
        return;
      }
      Bounds();
      if length <= size - position {
        if IsValueStoredAsOffset(length) {
          holder := AtOffset(VarintSize(length) + VarintSize(keySize), keySize, length, offset);
          SkipBytes(length);
        } else {
          ConsumeBytes(length, false);
          Bounds();
          var value := TakeBytes(length);
          holder := Inline(value);
        }
      } else {
        ok := false;
      }
    }
  }

  /** A fifth byte b adds four bits to r, later bytes none. */
  ghost function Kept32(k: nat, r: nat, b: uint8): nat {
    if k == 4 then r + b * 0x1000_0000 % TWO32 else r
  }

  /** KeyValueHolderCrypt: a value itself, or its place. */
  datatype KeyValueHolderCrypt =
    | Inline(value: Bytes)
    | AtOffset(pbKeyValueSize: uint8, keySize: uint16, valueSize: uint32, offset: uint32)
  {
    function RealValueSize(): nat {
      match this
      case Inline(value) => |value|
      case AtOffset(_, _, valueSize, _) => valueSize
    }
  }

  predicate IsValueStoredAsOffset(valueSize: nat) {
    valueSize > 256
  }

  /** What is kept of a value that was read. */
  function CryptHolder(offset: uint32, keySize: uint16, value: Bytes): KeyValueHolderCrypt {
    if IsValueStoredAsOffset(|value|) then
      AtOffset(VarintSize(ToUInt32(|value|)) + VarintSize(keySize), keySize, ToUInt32(|value|), offset)
    else
      Inline(value)
  }

  /** Reading n bytes shortens what is unread and lengthens what is kept. */
  lemma Advance(buffer: Bytes, at: nat, kept: nat, to: nat, plain: Bytes, position: nat, end: nat, n: nat)
    requires kept <= at && at + n <= to <= |buffer| && kept <= position && position + n <= end <= |plain|
    requires buffer[at..to] == plain[position..end]
    ensures buffer[at..at + n] == plain[position..position + n]
    ensures buffer[at + n..to] == plain[position + n..end]
    ensures n > 0 ==> buffer[at] == plain[position]
  {
    assert buffer[at..at + n] == buffer[at..to][..n];
    assert plain[position..position + n] == plain[position..end][..n];
    SkipInBuffer(buffer, at, to, plain, position, end, n);
    if n > 0 {
      assert buffer[at] == buffer[at..to][0] && plain[position] == plain[position..end][0];
    }
  }

  lemma FrontOf(before: Bytes, after: Bytes, block: Bytes)
    requires |block| <= |before| && after == before[..0] + block + before[|block|..]
    ensures after[..|block|] == block
  {
  }

  /** The end of what was decrypted last. */
  lemma EndOf(buffer: Bytes, length: nat, plain: Bytes, end: nat, n: nat)
    requires n <= length <= |buffer| && length <= end <= |plain| && buffer[..length] == plain[end - length..end]
    ensures buffer[length - n..length] == plain[end - n..end]
  {
    assert buffer[length - n..length] == buffer[..length][length - n..];
    assert plain[end - n..end] == plain[end - length..end][length - n..];
  }

  lemma SkipInBuffer(buffer: Bytes, from: nat, to: nat, plain: Bytes, start: nat, end: nat, n: nat)
    requires from + n <= to <= |buffer| && start + n <= end <= |plain| && buffer[from..to] == plain[start..end]
    ensures buffer[from + n..to] == plain[start + n..end]
  {
    assert buffer[from + n..to] == buffer[from..to][n..];
    assert plain[start + n..end] == plain[start..end][n..];
  }

  function BlocksFor(n: nat): nat {
    (n + AES_KEY_LEN - 1) / AES_KEY_LEN * AES_KEY_LEN
  }

  /** If the last block is cut off by the end of the text, the part of it that is there holds
      all that is not skipped. */
  lemma BlocksToSkip(length: nat, left: nat, skipped: nat)
    requires 0 < length <= left && skipped == Min(BlocksFor(length), left)
    ensures length <= skipped <= left && skipped - length < AES_KEY_LEN
    ensures skipped % AES_KEY_LEN != 0 ==> skipped == left && skipped - length < skipped % AES_KEY_LEN
    ensures skipped % AES_KEY_LEN == 0 ==> skipped >= AES_KEY_LEN
  {
  }

  function WholeBlocks(n: nat): nat {
    n / AES_KEY_LEN * AES_KEY_LEN
  }

  lemma BlocksBelow(n: nat)
    ensures WholeBlocks(n) <= n
  {
  }

  /** The first n bytes are those that were at `shift`. */
  ghost predicate Shifted(before: Bytes, after: Bytes, shift: nat, n: nat) {
    shift + n <= |before| == |after| && forall i | 0 <= i < n :: after[i] == before[shift + i]
  }

  /** A part of the buffer is a part of the plain text. */
  ghost predicate SameText(buffer: Bytes, from: nat, to: nat, plain: Bytes, start: nat, end: nat) {
    from <= to <= |buffer| && start <= end <= |plain| && buffer[from..to] == plain[start..end]
  }

  lemma Moved(before: Bytes, after: Bytes, shift: nat, from: nat, to: nat, plain: Bytes, start: nat, end: nat)
    requires SameText(before, from, to, plain, start, end) && shift <= from && Shifted(before, after, shift, to - shift)
    ensures SameText(after, from - shift, to - shift, plain, start, end)
  {
    assert after[from - shift..to - shift] == before[from..to];
  }

  lemma AdvanceText(buffer: Bytes, at: nat, to: nat, plain: Bytes, position: nat, end: nat, n: nat)
    requires SameText(buffer, at, to, plain, position, end) && at + n <= to
    ensures position + n <= end && SameText(buffer, at + n, to, plain, position + n, end)
    ensures SameText(buffer, at, at + n, plain, position, position + n)
  {
    assert |buffer[at..to]| == |plain[position..end]|;
    Advance(buffer, at, 0, to, plain, position, end, n);
  }

  lemma SamePart(before: Bytes, after: Bytes, from: nat, to: nat, plain: Bytes, start: nat, end: nat)
    requires SameText(before, from, to, plain, start, end) && |before| <= |after|
    requires forall i | 0 <= i < |before| :: after[i] == before[i]
    ensures SameText(after, from, to, plain, start, end)
  {
    assert after[from..to] == before[from..to];
  }

  lemma Extended(before: Bytes, after: Bytes, from: nat, to: nat, plain: Bytes, start: nat, end: nat, more: nat)
    requires SameText(before, from, to, plain, start, end) && Decrypted(before, after, to, plain, end, more)
    ensures SameText(after, from, to + more, plain, start, end + more)
  {
    assert after[from..to + more] == before[from..to] + plain[end..end + more];
  }

  /** Up to the next block. */
  function Align(at: nat): nat {
    AES_KEY_LEN - at % AES_KEY_LEN
  }

  /** How much is decrypted for `length` more bytes: whole blocks, as far as there is text. */
  function RoundedLength(length: nat, at: nat, size: nat): nat
    requires at <= size
  {
    var rounded :=
      if at % AES_KEY_LEN != 0 then
        if length < Align(at) then Align(at)
        else BlocksFor(length - Align(at)) + Align(at)
      else BlocksFor(length);
    Min(size - at, rounded)
  }

  /** The rounded length is enough, and leaves the stream between blocks or at the end. */
  lemma Rounding(length: nat, at: nat, size: nat)
    requires length > 0 && at <= size
    ensures Min(length, size - at) <= RoundedLength(length, at, size) <= size - at
    ensures var end := at + RoundedLength(length, at, size); end == size || end % AES_KEY_LEN == 0
  {
  }
}
