/**
 * CustomInputStream: a forward-only cursor over a file of fixed length, with
 * endian-aware integer reads. The file is its content `data`; the cursor `pos`
 * (the source's `d`) only ever moves forward, and the underlying stream is
 * closed as soon as the cursor reaches the length `len` (the source's `c`).
 */
module InputStreams {
  import opened Wrappers
  import opened JavaTypes
  import opened ByteOrder

  datatype Outcome = Pass | Fail(error: Error)

  /**
   * The guard of `skip` as written: `amount > c + d`. It is meant to reject an
   * amount larger than what remains, but it compares against `c + d`.
   */
  predicate SkipGuardAsWritten(len: int, pos: int, amount: int)
  {
    amount > len + pos
  }

  /** The guard `skip` evidently intends: the amount exceeds the bytes remaining. */
  predicate SkipGuard(len: int, pos: int, amount: int)
  {
    amount > len - pos
  }

  /** From position 5 of a 10-byte file, skipping 6 passes the written guard although it ends past the end. */
  lemma SkipGuardAsWrittenAdmitsPastEnd()
    ensures !SkipGuardAsWritten(10, 5, 6) && 5 + 6 > 10
    ensures SkipGuard(10, 5, 6)
  {
  }

  class InputStream {
    /** The content of the file being read. */
    const data: seq<byte>
    /** The endianness chosen at construction; it cannot change. */
    const littleEndian: bool
    /** The total length of the file. */
    const len: int
    /** The position of the next byte to read. */
    var pos: int
    /** Whether the underlying stream has been closed. */
    var closed: bool

    ghost predicate Valid()
      reads this
    {
      && len == |data|
      && 0 <= pos <= len
      && (closed ==> pos == len)
      && (0 < pos == len ==> closed)
    }

    constructor (file: seq<byte>, littleEndian: bool)
      ensures Valid()
      ensures data == file && this.littleEndian == littleEndian
      ensures pos == 0 && !closed
    {
      data := file;
      this.littleEndian := littleEndian;
      len := |file|;
      pos := 0;
      closed := false;
    }

    /** `getCurrentPosition` */
    function GetCurrentPosition(): (r: int)
      reads this
      requires Valid()
      ensures 0 <= r <= len
    {
      pos
    }

    /** `getLength` */
    function GetLength(): (r: int)
      reads this
      requires Valid()
      ensures r == |data|
    {
      len
    }

    /** `getRemaining`: what is left to read. */
    function GetRemaining(): (r: int)
      reads this
      requires Valid()
      ensures 0 <= r <= len
      ensures r == 0 <==> pos == len
    {
      len - pos
    }

    /** `close`, which the reads call once the end is reached. */
    method Close()
      requires len == |data| && 0 <= pos == len
      modifies this
      ensures Valid() && closed && pos == old(pos)
    {
      closed := true;
    }

    /** `read(byte[])`: fill the whole array with the next bytes, or throw if fewer remain. */
    method ReadInto(bytes: array<byte>) returns (r: Outcome)
      requires Valid()
      modifies this, bytes
      ensures Valid()
      ensures r == if old(pos) + bytes.Length > len then Fail(NotThatLong) else Pass
      ensures r.Fail? ==> pos == old(pos) && closed == old(closed) && bytes[..] == old(bytes[..])
      ensures r.Pass? ==> pos == old(pos) + bytes.Length && bytes[..] == data[old(pos)..pos]
      ensures r.Pass? ==> (closed <==> pos == len)
    {
      if len < pos + bytes.Length {
        return Fail(NotThatLong);
      }
      var start := pos;
      // the retry loop around InputStream.read is one exact step here
      forall k | 0 <= k < bytes.Length {
        bytes[k] := data[start + k];
      }
      pos := start + bytes.Length;
      if pos == len {
        Close();
      }
      r := Pass;
    }

    /** `read(int)`: a new array of `length` bytes, filled from the file. */
    method Read(length: int) returns (r: Result<seq<byte>, Error>)
      requires Valid()
      modifies this
      ensures Valid()
      ensures r == if length < 0 then Failure(NegativeArraySize(length))
                   else if old(pos) + length > len then Failure(NotThatLong)
                   else Success(data[old(pos)..old(pos) + length])
      ensures r.Failure? ==> pos == old(pos) && closed == old(closed)
      ensures r.Success? ==> pos == old(pos) + length && (closed <==> pos == len)
    {
      if length < 0 {
        return Failure(NegativeArraySize(length));
      }
      var e := new byte[length];
      var o := ReadInto(e);
      if o.Fail? {
        return Failure(o.error);
      }
      r := Success(e[..]);
    }

    /** `read()`: one byte, returned as its unsigned value. */
    method ReadByte() returns (b: byte)
      requires Valid() && pos < len
      modifies this
      ensures Valid()
      ensures b == data[old(pos)] && pos == old(pos) + 1
      ensures closed <==> pos == len
    {
      b := data[pos];
      pos := pos + 1;
      if pos == len {
        Close();
      }
    }

    /** `readString`: `length` bytes read one by one, each as one character. */
    method ReadString(length: int) returns (r: Result<string, Error>)
      requires Valid()
      modifies this
      ensures Valid()
      ensures r == if old(pos) + length > len then Failure(NotThatLong)
                   else Success(Latin1(data[old(pos)..old(pos) + Max0(length)]))
      ensures r.Failure? ==> pos == old(pos) && closed == old(closed)
      ensures r.Success? ==> pos == old(pos) + Max0(length)
      ensures r.Success? && length > 0 ==> (closed <==> pos == len)
      ensures r.Success? && length <= 0 ==> closed == old(closed)
    {
      if len < pos + length {
        return Failure(NotThatLong);
      }
      var start := pos;
      var e: string := "";
      var f := 0;
      while f < length
        invariant 0 <= f <= Max0(length)
        invariant Valid() && pos == start + f
        invariant |e| == f
        invariant forall k | 0 <= k < f :: e[k] as int == data[start + k]
        invariant f > 0 ==> (closed <==> pos == len)
        invariant f == 0 ==> closed == old(closed)
      {
        var b := ReadByte();
        e := e + [b as char];
        f := f + 1;
      }
      assert e == Latin1(data[start..start + f]);
      r := Success(e);
    }

    /** `readMagic`: a four-character chunk tag. */
    method ReadMagic() returns (r: Result<string, Error>)
      requires Valid()
      modifies this
      ensures Valid()
      ensures r == if old(pos) + 4 > len then Failure(NotThatLong)
                   else Success(Latin1(data[old(pos)..old(pos) + 4]))
      ensures r.Failure? ==> pos == old(pos) && closed == old(closed)
      ensures r.Success? ==> pos == old(pos) + 4 && (closed <==> pos == len)
    {
      if len < pos + 4 {
        return Failure(NotThatLong);
      }
      r := ReadString(4);
    }

    /** `readInt`: four bytes assembled in the stream's byte order into a signed 32-bit value. */
    method ReadInt() returns (r: Result<i32, Error>)
      requires Valid()
      modifies this
      ensures Valid()
      ensures r == if old(pos) + 4 > len then Failure(NotThatLong)
                   else Success(DecodeInt(littleEndian, data[old(pos)..old(pos) + 4]))
      ensures r.Failure? ==> pos == old(pos) && closed == old(closed)
      ensures r.Success? ==> pos == old(pos) + 4 && (closed <==> pos == len)
    {
      if len < pos + 4 {
        return Failure(NotThatLong);
      }
      // Java evaluates the operands of `+` left to right, so the first byte
      // read is the lowest (little-endian) or the highest (big-endian); the
      // int additions wrap, which is the wrap of the exact sum
      var b0 := ReadByte();
      var b1 := ReadByte();
      var b2 := ReadByte();
      var b3 := ReadByte();
      assert [b0, b1, b2, b3] == data[old(pos)..old(pos) + 4];
      r := Success(DecodeInt(littleEndian, [b0, b1, b2, b3]));
    }

    /** `readShort`: two bytes assembled in the stream's byte order and cast to a signed 16-bit value. */
    method ReadShort() returns (r: Result<i16, Error>)
      requires Valid()
      modifies this
      ensures Valid()
      ensures r == if old(pos) + 2 > len then Failure(NotThatLong)
                   else Success(DecodeShort(littleEndian, data[old(pos)..old(pos) + 2]))
      ensures r.Failure? ==> pos == old(pos) && closed == old(closed)
      ensures r.Success? ==> pos == old(pos) + 2 && (closed <==> pos == len)
    {
      if len < pos + 2 {
        return Failure(NotThatLong);
      }
      var b0 := ReadByte();
      var b1 := ReadByte();
      assert [b0, b1] == data[old(pos)..old(pos) + 2];
      r := Success(DecodeShort(littleEndian, [b0, b1]));
    }

    /**
     * `readLong`, as evidently intended: eight bytes as one 64-bit value. The
     * source's sum overflows in its `int` term; DecodeLongAsWritten records that.
     */
    method ReadLong() returns (r: Result<i64, Error>)
      requires Valid()
      modifies this
      ensures Valid()
      ensures r == if old(pos) + 8 > len then Failure(NotThatLong)
                   else Success(DecodeLong(littleEndian, data[old(pos)..old(pos) + 8]))
      ensures r.Failure? ==> pos == old(pos) && closed == old(closed)
      ensures r.Success? ==> pos == old(pos) + 8 && (closed <==> pos == len)
    {
      if len < pos + 8 {
        return Failure(NotThatLong);
      }
      var b0 := ReadByte();
      var b1 := ReadByte();
      var b2 := ReadByte();
      var b3 := ReadByte();
      var b4 := ReadByte();
      var b5 := ReadByte();
      var b6 := ReadByte();
      var b7 := ReadByte();
      assert [b0, b1, b2, b3, b4, b5, b6, b7] == data[old(pos)..old(pos) + 8];
      r := Success(DecodeLong(littleEndian, [b0, b1, b2, b3, b4, b5, b6, b7]));
    }

    /** `readUntil`: every byte from the cursor up to (not including) `position`. */
    method ReadUntil(position: int) returns (r: Result<seq<byte>, Error>)
      requires Valid()
      modifies this
      ensures Valid()
      ensures r == if position < old(pos) then Failure(AlreadyPassed)
                   else if position - old(pos) > INT_MAX then Failure(TooBig)
                   else if position > len then Failure(NotThatLong)
                   else Success(data[old(pos)..position])
      ensures r.Failure? ==> pos == old(pos) && closed == old(closed)
      ensures r.Success? ==> pos == position && (closed <==> pos == len)
    {
      if position < pos {
        return Failure(AlreadyPassed);
      } else if position - pos > INT_MAX {
        return Failure(TooBig);
      }
      r := Read(position - pos);
    }

    /** `readRest`: everything that is left; afterwards nothing remains. */
    method ReadRest() returns (r: Result<seq<byte>, Error>)
      requires Valid()
      modifies this
      ensures Valid()
      ensures r == if len - old(pos) > INT_MAX then Failure(TooBig) else Success(data[old(pos)..])
      ensures r.Failure? ==> pos == old(pos) && closed == old(closed)
      ensures r.Success? ==> pos == len && closed
    {
      if len - pos > INT_MAX {
        return Failure(TooBig);
      }
      r := ReadUntil(len);
      assert data[old(pos)..len] == data[old(pos)..];
    }

    /**
     * `skip`, with the guard it documents: fail when fewer than `amount` bytes
     * remain; a negative amount does not move the cursor.
     */
    method Skip(amount: int) returns (r: Outcome)
      requires Valid()
      modifies this
      ensures Valid()
      ensures r == if SkipGuard(len, old(pos), amount) then Fail(NotThatLong) else Pass
      ensures r.Fail? ==> pos == old(pos) && closed == old(closed)
      ensures r.Pass? ==> pos == old(pos) + Max0(amount) && (closed <==> pos == len)
    {
      if SkipGuard(len, pos, amount) {
        return Fail(NotThatLong);
      }
      // the retry loop around InputStream.skip is one exact step here
      if amount > 0 {
        pos := pos + amount;
      }
      if pos == len {
        Close();
      }
      r := Pass;
    }

    /** `skipUntil`: move the cursor forward to `position`. */
    method SkipUntil(position: int) returns (r: Outcome)
      requires Valid()
      modifies this
      ensures Valid()
      ensures r == if position < old(pos) then Fail(AlreadyPassed)
                   else if position > len then Fail(NotThatLong) else Pass
      ensures r.Fail? ==> pos == old(pos) && closed == old(closed)
      ensures r.Pass? ==> pos == position && (closed <==> pos == len)
    {
      if position < pos {
        return Fail(AlreadyPassed);
      }
      r := Skip(position - pos);
    }
  }

  function Max0(x: int): nat
  {
    if x < 0 then 0 else x
  }
}
