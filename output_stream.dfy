/**
 * CustomOutputStream: an append-only sink with endian-aware integer writes.
 * `out` is everything written so far; each write appends to it and changes
 * nothing else. Opening, flushing and closing the file are not modelled.
 */
module OutputStreams {
  import opened JavaTypes
  import opened ByteOrder

  class OutputStream {
    /** The endianness chosen at construction; it cannot change. */
    const littleEndian: bool
    /** The bytes written so far. */
    var out: seq<byte>

    constructor (littleEndian: bool)
      ensures this.littleEndian == littleEndian && out == []
    {
      this.littleEndian := littleEndian;
      out := [];
    }

    /** `write(byte[])`: the bytes, in order and unchanged. */
    method Write(bytes: seq<byte>)
      modifies this
      ensures out == old(out) + bytes
    {
      out := out + bytes;
    }

    /** `write(int)`: one byte, the low eight bits of the argument. */
    method WriteByte(b: int)
      modifies this
      ensures out == old(out) + [LowByte(b)]
    {
      out := out + [LowByte(b)];
    }

    /** `writeString`: the string's US-ASCII bytes. */
    method WriteString(s: string)
      modifies this
      ensures out == old(out) + Ascii(s)
      ensures |out| == |old(out)| + |s|
    {
      Write(Ascii(s));
    }

    /** `writeShort`: exactly two bytes. */
    method WriteShort(s: i16)
      modifies this
      ensures out == old(out) + EncodeShort(littleEndian, s)
      ensures |out| == |old(out)| + 2
    {
      if littleEndian {
        WriteByte(s);
        WriteByte(s / 0x100);
      } else {
        WriteByte(s / 0x100);
        WriteByte(s);
      }
      ShortAsBytes(littleEndian, s);
    }

    /** `writeInt`: exactly four bytes, written as two shorts (see `IntAsShorts` and `IntLayout`). */
    method WriteInt(x: i32)
      modifies this
      ensures out == old(out) + EncodeInt(littleEndian, x)
      ensures |out| == |old(out)| + 4
    {
      var low, high := ToInt16(x), ToInt16(x / 0x1_0000);
      ghost var start := out;
      if littleEndian {
        WriteShort(low);
        WriteShort(high);
      } else {
        WriteShort(high);
        WriteShort(low);
      }
      assert out == start + (if littleEndian then EncodeShort(littleEndian, low) + EncodeShort(littleEndian, high)
                             else EncodeShort(littleEndian, high) + EncodeShort(littleEndian, low));
      IntAsShorts(littleEndian, x);
    }

    /** `writeLong`: exactly eight bytes, written as two ints (see `LongAsInts` and `LongLayout`). */
    method WriteLong(x: i64)
      modifies this
      ensures out == old(out) + EncodeLong(littleEndian, x)
      ensures |out| == |old(out)| + 8
    {
      var low, high := ToInt32(x), ToInt32(x / 0x1_0000_0000);
      ghost var start := out;
      if littleEndian {
        WriteInt(low);
        WriteInt(high);
      } else {
        WriteInt(high);
        WriteInt(low);
      }
      assert out == start + (if littleEndian then EncodeInt(littleEndian, low) + EncodeInt(littleEndian, high)
                             else EncodeInt(littleEndian, high) + EncodeInt(littleEndian, low));
      LongAsInts(littleEndian, x);
    }
  }
}
