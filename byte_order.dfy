/**
 * How CustomOutputStream lays out a short, an int and a long as bytes, and how
 * CustomInputStream assembles a short, an int (or a long) from the bytes it
 * reads. The layouts are functions; the stream classes append or consume
 * exactly these bytes, and their methods prove that the source's own
 * decomposition (an int as two shorts, a long as two ints) yields them.
 */
module ByteOrder {
  import opened JavaTypes

  /** `OutputStream.write(int)` keeps the low eight bits of its argument. */
  function LowByte(x: int): byte
  {
    x % 0x100
  }

  /** 256 to the power `n`. */
  function Pow256(n: nat): (r: nat)
    ensures r > 0
  {
    if n == 0 then 1 else 0x100 * Pow256(n - 1)
  }

  /**
   * The low `n` bytes of `x` (its two's-complement form for a negative `x`):
   * least significant first when little-endian, most significant first otherwise.
   */
  function Bytes(littleEndian: bool, x: int, n: nat): (r: seq<byte>)
    ensures |r| == n
    decreases n
  {
    if n == 0 then []
    else if littleEndian then [LowByte(x)] + Bytes(littleEndian, x / 0x100, n - 1)
    else Bytes(littleEndian, x / 0x100, n - 1) + [LowByte(x)]
  }

  /**
   * The unsigned value of bytes read one after the other: the first read is
   * the lowest when little-endian, the highest otherwise.
   */
  function Value(littleEndian: bool, b: seq<byte>): nat
  {
    if b == [] then 0
    else if littleEndian then b[0] + 0x100 * Value(littleEndian, b[1..])
    else 0x100 * Value(littleEndian, b[..|b| - 1]) + b[|b| - 1]
  }

  /** The bytes `writeShort` emits. */
  function EncodeShort(littleEndian: bool, s: i16): seq<byte>
  {
    Bytes(littleEndian, s, 2)
  }

  /**
   * The bytes `writeInt` emits, written out byte by byte (`IntBytes` shows
   * they are `Bytes(littleEndian, x, 4)`).
   */
  function EncodeInt(littleEndian: bool, x: i32): (r: seq<byte>)
    ensures |r| == 4
  {
    if littleEndian then [LowByte(x), LowByte(x / 0x100), LowByte(x / 0x1_0000), LowByte(x / 0x100_0000)]
    else [LowByte(x / 0x100_0000), LowByte(x / 0x1_0000), LowByte(x / 0x100), LowByte(x)]
  }

  /** The bytes `writeLong` emits. */
  function EncodeLong(littleEndian: bool, x: i64): seq<byte>
  {
    Bytes(littleEndian, x, 8)
  }

  /** `readShort`: two `read()` results combined and cast to `short`. */
  function DecodeShort(littleEndian: bool, b: seq<byte>): i16
    requires |b| == 2
  {
    ToInt16(Value(littleEndian, b))
  }

  /**
   * `readInt`: four `read()` results combined with `int` arithmetic; the sum
   * overflows into the sign bit exactly as a wrap of the unsigned value.
   */
  function DecodeInt(littleEndian: bool, b: seq<byte>): i32
    requires |b| == 4
  {
    ToInt32(Value(littleEndian, b))
  }

  /** `readLong` as evidently intended: the eight bytes as one 64-bit two's-complement value. */
  function DecodeLong(littleEndian: bool, b: seq<byte>): i64
    requires |b| == 8
  {
    ToInt64(Value(littleEndian, b))
  }

  /**
   * `readLong` as written: in its sum the term `0x1000000 * read()` is `int`
   * arithmetic and overflows to a negative `int` for a byte of 0x80 or more,
   * before it is widened into the `long` sum.
   */
  function DecodeLongAsWritten(littleEndian: bool, b: seq<byte>): i64
    requires |b| == 8
  {
    if littleEndian then
      ToInt64(b[0] as int + 0x100 * (b[1] as int) + 0x1_0000 * (b[2] as int) + ToInt32(0x100_0000 * (b[3] as int))
              + 0x1_0000_0000 * (b[4] as int) + 0x100_0000_0000 * (b[5] as int)
              + 0x1_0000_0000_0000 * (b[6] as int) + 0x100_0000_0000_0000 * (b[7] as int))
    else
      ToInt64(0x100_0000_0000_0000 * (b[0] as int) + 0x1_0000_0000_0000 * (b[1] as int)
              + 0x100_0000_0000 * (b[2] as int) + 0x1_0000_0000 * (b[3] as int)
              + ToInt32(0x100_0000 * (b[4] as int)) + 0x1_0000 * (b[5] as int) + 0x100 * (b[6] as int) + b[7] as int)
  }

  // Arithmetic with a modulus that is a power of 256.

  /** Dividing by 256 and then by `p` is dividing by `256 * p`; the remainders nest likewise. */
  lemma DivMod256(x: int, p: nat)
    requires p > 0
    ensures x / 0x100 / p == x / (0x100 * p)
    ensures x % (0x100 * p) == x % 0x100 + 0x100 * ((x / 0x100) % p)
  {
    var q := x / 0x100;
    var t, s := q / p, q % p;
    assert q == p * t + s;
    assert x == 0x100 * q + x % 0x100;
    assert x == (0x100 * p) * t + (x % 0x100 + 0x100 * s);
    assert 0x100 * s + x % 0x100 < 0x100 * p by {
      MulAtLeast(0x100, p - s);
      assert 0x100 * (p - s) == 0x100 * p - 0x100 * s;
    }
    DivModUnique(x, 0x100 * p, t, x % 0x100 + 0x100 * s);
  }

  /** `writeInt`'s four bytes are the low four bytes of `x`. */
  lemma IntBytes(littleEndian: bool, x: int)
    requires -0x8000_0000 <= x < 0x8000_0000
    ensures EncodeInt(littleEndian, x) == Bytes(littleEndian, x, 4)
  {
    DivMod256(x, 0x100);
    DivMod256(x, 0x1_0000);
    DivMod256(x / 0x100, 0x100);
  }

  // The layouts and their values.

  /** The bytes of `x` are read back as its unsigned residue. */
  lemma {:induction false} ValueBytes(littleEndian: bool, x: int, n: nat)
    ensures Value(littleEndian, Bytes(littleEndian, x, n)) == x % Pow256(n)
    decreases n
  {
    if n > 0 {
      var b := Bytes(littleEndian, x, n);
      var rest := Bytes(littleEndian, x / 0x100, n - 1);
      ValueBytes(littleEndian, x / 0x100, n - 1);
      if littleEndian {
        assert b[0] == LowByte(x) && b[1..] == rest;
      } else {
        assert b[n - 1] == LowByte(x) && b[..n - 1] == rest;
      }
      DivMod256(x, Pow256(n - 1));
    }
  }

  /** Any bytes are the bytes of their own value. */
  lemma {:induction false} BytesValue(littleEndian: bool, b: seq<byte>)
    ensures Bytes(littleEndian, Value(littleEndian, b), |b|) == b
  {
    if b != [] {
      var n := |b|;
      var v := Value(littleEndian, b);
      var (first, others) := if littleEndian then (b[0], b[1..]) else (b[n - 1], b[..n - 1]);
      var w := Value(littleEndian, others);
      assert v == 0x100 * w + first;
      DivModUnique(v, 0x100, w, first);
      BytesValue(littleEndian, others);
      assert Bytes(littleEndian, w, n - 1) == others;
      if littleEndian {
        assert b == [first] + others;
      } else {
        assert b == others + [first];
      }
    }
  }

  /** Values that agree modulo 256^n have the same `n` low bytes. */
  lemma BytesCongruent(littleEndian: bool, x: int, y: int, n: nat)
    requires x % Pow256(n) == y % Pow256(n)
    ensures Bytes(littleEndian, x, n) == Bytes(littleEndian, y, n)
  {
    ValueBytes(littleEndian, x, n);
    ValueBytes(littleEndian, y, n);
    BytesValue(littleEndian, Bytes(littleEndian, x, n));
    BytesValue(littleEndian, Bytes(littleEndian, y, n));
  }

  /** The `m + n` low bytes are the `m` low bytes and the `n` bytes above them, in the stream's order. */
  lemma {:induction false} BytesSplit(littleEndian: bool, x: int, m: nat, n: nat)
    ensures Bytes(littleEndian, x, m + n) ==
      if littleEndian then Bytes(littleEndian, x, m) + Bytes(littleEndian, x / Pow256(m), n)
      else Bytes(littleEndian, x / Pow256(m), n) + Bytes(littleEndian, x, m)
    decreases m
  {
    if m > 0 {
      var y := x / 0x100;
      BytesSplit(littleEndian, y, m - 1, n);
      DivMod256(x, Pow256(m - 1));
      assert y / Pow256(m - 1) == x / Pow256(m);
      assert m + n - 1 == (m - 1) + n;
      if littleEndian {
        calc {
          Bytes(littleEndian, x, m + n);
          [LowByte(x)] + Bytes(littleEndian, y, (m - 1) + n);
          [LowByte(x)] + (Bytes(littleEndian, y, m - 1) + Bytes(littleEndian, x / Pow256(m), n));
          Bytes(littleEndian, x, m) + Bytes(littleEndian, x / Pow256(m), n);
        }
      } else {
        calc {
          Bytes(littleEndian, x, m + n);
          Bytes(littleEndian, y, (m - 1) + n) + [LowByte(x)];
          (Bytes(littleEndian, x / Pow256(m), n) + Bytes(littleEndian, y, m - 1)) + [LowByte(x)];
          Bytes(littleEndian, x / Pow256(m), n) + Bytes(littleEndian, x, m);
        }
      }
    }
  }

  /** Byte `k` of the layout is byte `k` of the value (little-endian) or byte `n - 1 - k` (big-endian). */
  lemma {:induction false} BytesAt(littleEndian: bool, x: int, n: nat, k: nat)
    requires k < n
    ensures Bytes(littleEndian, x, n)[k] == LowByte(x / Pow256(if littleEndian then k else n - 1 - k))
    decreases n
  {
    var j := if littleEndian then k else n - 1 - k;
    if j == 0 {
      assert x / Pow256(0) == x;
    } else {
      if littleEndian {
        BytesAt(littleEndian, x / 0x100, n - 1, k - 1);
      } else {
        BytesAt(littleEndian, x / 0x100, n - 1, k);
      }
      DivMod256(x, Pow256(j - 1));
    }
  }

  /** A wrap agrees with the value it wraps modulo 2^16, 2^32 or 2^64. */
  lemma WrapResidues(x: int)
    ensures ToInt16(x) % Pow256(2) == x % Pow256(2)
    ensures ToInt32(x) % Pow256(4) == x % Pow256(4)
    ensures ToInt64(x) % Pow256(8) == x % Pow256(8)
  {
    assert Pow256(2) == 0x1_0000;
    assert Pow256(4) == 0x1_0000_0000;
    Pow256Eight();
    Residue16(x);
    Residue32(x);
    Residue64(x);
  }

  /** Byte `j` of `x`, counting from the least significant. */
  function ByteOf(x: int, j: nat): byte
  {
    LowByte(x / Pow256(j))
  }

  /** `writeInt` emits the bytes of `x` from low to high when little-endian, from high to low otherwise. */
  lemma IntLayout(littleEndian: bool, x: i32)
    ensures forall k | 0 <= k < 4 :: EncodeInt(littleEndian, x)[k] == ByteOf(x, if littleEndian then k else 3 - k)
  {
    forall k | 0 <= k < 4
      ensures EncodeInt(littleEndian, x)[k] == ByteOf(x, if littleEndian then k else 3 - k)
    {
      IntBytes(littleEndian, x);
      BytesAt(littleEndian, x, 4, k);
    }
  }

  /** `writeLong` emits the bytes of `x` from low to high when little-endian, from high to low otherwise. */
  lemma LongLayout(littleEndian: bool, x: i64)
    ensures forall k | 0 <= k < 8 :: EncodeLong(littleEndian, x)[k] == ByteOf(x, if littleEndian then k else 7 - k)
  {
    forall k | 0 <= k < 8
      ensures EncodeLong(littleEndian, x)[k] == ByteOf(x, if littleEndian then k else 7 - k)
    {
      BytesAt(littleEndian, x, 8, k);
    }
  }

  // The source's decompositions.

  /** `writeShort`: the low byte and the byte above it (`aShort >> 8`), low first when little-endian. */
  lemma ShortAsBytes(littleEndian: bool, s: i16)
    ensures EncodeShort(littleEndian, s) ==
      if littleEndian then [LowByte(s), LowByte(s / 0x100)] else [LowByte(s / 0x100), LowByte(s)]
  {
    BytesAt(littleEndian, s, 2, 0);
    BytesAt(littleEndian, s, 2, 1);
    assert Pow256(1) == 0x100;
  }

  /** `writeInt`: the low half `(short) anInt` and the high half `(short) (anInt >> 16)`, low half first when little-endian. */
  lemma IntAsShorts(littleEndian: bool, x: i32)
    ensures EncodeInt(littleEndian, x) ==
      if littleEndian then EncodeShort(littleEndian, ToInt16(x)) + EncodeShort(littleEndian, ToInt16(x / 0x1_0000))
      else EncodeShort(littleEndian, ToInt16(x / 0x1_0000)) + EncodeShort(littleEndian, ToInt16(x))
  {
    assert Pow256(2) == 0x1_0000;
    IntBytes(littleEndian, x);
    BytesSplit(littleEndian, x, 2, 2);
    WrapResidues(x);
    WrapResidues(x / 0x1_0000);
    BytesCongruent(littleEndian, ToInt16(x), x, 2);
    BytesCongruent(littleEndian, ToInt16(x / 0x1_0000), x / 0x1_0000, 2);
  }

  /** `writeLong`: the low int `(int) aLong` and the high int `(int) (aLong >> 32)`, low int first when little-endian. */
  lemma LongAsInts(littleEndian: bool, x: i64)
    ensures EncodeLong(littleEndian, x) ==
      if littleEndian then EncodeInt(littleEndian, ToInt32(x)) + EncodeInt(littleEndian, ToInt32(x / 0x1_0000_0000))
      else EncodeInt(littleEndian, ToInt32(x / 0x1_0000_0000)) + EncodeInt(littleEndian, ToInt32(x))
  {
    assert Pow256(4) == 0x1_0000_0000;
    IntBytes(littleEndian, ToInt32(x));
    IntBytes(littleEndian, ToInt32(x / 0x1_0000_0000));
    BytesSplit(littleEndian, x, 4, 4);
    WrapResidues(x);
    WrapResidues(x / 0x1_0000_0000);
    BytesCongruent(littleEndian, ToInt32(x), x, 4);
    BytesCongruent(littleEndian, ToInt32(x / 0x1_0000_0000), x / 0x1_0000_0000, 4);
  }

  // Round trips.

  /** Round trip: `readShort` of what `writeShort(s)` wrote, in the same byte order, is `s`. */
  lemma DecodeEncodeShort(littleEndian: bool, s: i16)
    ensures |EncodeShort(littleEndian, s)| == 2
    ensures DecodeShort(littleEndian, EncodeShort(littleEndian, s)) == s
  {
    ValueBytes(littleEndian, s, 2);
    assert Pow256(2) == 0x1_0000;
    Residue16(s % 0x1_0000);
    SameResidue16(ToInt16(s % 0x1_0000), s);
  }

  /** Round trip: `readInt` of what `writeInt(x)` wrote, in the same byte order, is `x`. */
  lemma DecodeEncodeInt(littleEndian: bool, x: i32)
    ensures |EncodeInt(littleEndian, x)| == 4
    ensures DecodeInt(littleEndian, EncodeInt(littleEndian, x)) == x
  {
    IntBytes(littleEndian, x);
    ValueBytes(littleEndian, x, 4);
    assert Pow256(4) == 0x1_0000_0000;
    IntResidue(x);
  }

  /** Wrapping the unsigned residue of an int gives the int back. */
  lemma IntResidue(x: i32)
    ensures ToInt32(x % 0x1_0000_0000) == x
  {
    Residue32(x % 0x1_0000_0000);
    SameResidue32(ToInt32(x % 0x1_0000_0000), x);
  }

  /** Round trip the other way: any four bytes read as an int are written back unchanged. */
  lemma EncodeDecodeInt(littleEndian: bool, b: seq<byte>)
    requires |b| == 4
    ensures EncodeInt(littleEndian, DecodeInt(littleEndian, b)) == b
  {
    var v := Value(littleEndian, b);
    IntBytes(littleEndian, ToInt32(v));
    WrapResidues(v);
    BytesCongruent(littleEndian, ToInt32(v), v, 4);
    BytesValue(littleEndian, b);
  }

  /** Round trip for the corrected reader: it reads back whatever `writeLong` wrote. */
  lemma DecodeEncodeLong(littleEndian: bool, x: i64)
    ensures |EncodeLong(littleEndian, x)| == 8
    ensures DecodeLong(littleEndian, EncodeLong(littleEndian, x)) == x
  {
    ValueBytes(littleEndian, x, 8);
    Pow256Eight();
    LongResidue(x);
  }

  lemma Pow256Eight()
    ensures Pow256(8) == 0x1_0000_0000_0000_0000
  {
    assert Pow256(4) == 0x1_0000_0000;
  }

  /** Wrapping the unsigned residue of a long gives the long back. */
  lemma LongResidue(x: i64)
    ensures ToInt64(x % 0x1_0000_0000_0000_0000) == x
  {
    Residue64(x % 0x1_0000_0000_0000_0000);
    SameResidue64(ToInt64(x % 0x1_0000_0000_0000_0000), x);
  }

  /** `writeLong(0x80000000L)`, little-endian, emits the bytes 00 00 00 80 00 00 00 00. */
  lemma EncodeTwoToThe31()
    ensures EncodeLong(true, 0x8000_0000) == [0, 0, 0, 0x80, 0, 0, 0, 0]
  {
    assert Bytes(true, 0x80, 5) == [0x80, 0, 0, 0, 0];
    assert Bytes(true, 0x8000_0000, 8) == [0, 0, 0] + Bytes(true, 0x80, 5);
  }

  /**
   * The as-written reader misreads 2^31: `readLong` returns -2^31 for the
   * bytes `writeLong(0x80000000L)` emits, where the corrected reader returns 2^31.
   */
  lemma ReadLongAsWrittenMisreads()
    ensures DecodeLongAsWritten(true, EncodeLong(true, 0x8000_0000)) == -0x8000_0000
    ensures DecodeLong(true, EncodeLong(true, 0x8000_0000)) == 0x8000_0000
  {
    EncodeTwoToThe31();
    var b: seq<byte> := [0, 0, 0, 0x80, 0, 0, 0, 0];
    assert ToInt32(0x100_0000 * 0x80) == -0x8000_0000;
    assert DecodeLongAsWritten(true, b) == ToInt64(-0x8000_0000);
    DecodeEncodeLong(true, 0x8000_0000);
  }

  // Text.

  /** `String.getBytes(US_ASCII)`: one byte per character; a character outside ASCII becomes '?'. */
  function Ascii(s: string): (r: seq<byte>)
    ensures |r| == |s|
    ensures forall k | 0 <= k < |s| :: s[k] as int < 0x80 ==> r[k] == s[k] as int
  {
    seq(|s|, k requires 0 <= k < |s| => if s[k] as int < 0x80 then s[k] as int else '?' as int)
  }

  /** `readString`: each byte read becomes the character with that code, `(char) read()`. */
  function Latin1(b: seq<byte>): (r: string)
    ensures |r| == |b|
    ensures forall k | 0 <= k < |b| :: r[k] as int == b[k]
  {
    seq(|b|, k requires 0 <= k < |b| => b[k] as char)
  }

  /** A tag written with `writeString` is read back by `readString`, for ASCII tags such as "BKHD". */
  lemma LatinAscii(s: string)
    requires forall k | 0 <= k < |s| :: s[k] as int < 0x80
    ensures Latin1(Ascii(s)) == s
  {
    var r := Latin1(Ascii(s));
    forall k | 0 <= k < |s|
      ensures r[k] == s[k]
    {
      assert r[k] as int == s[k] as int;
    }
  }

  /** The other way round: bytes `readString` reads as an ASCII tag are the bytes `writeString` emits for it. */
  lemma AsciiLatin(b: seq<byte>, s: string)
    requires |b| == |s| && Latin1(b) == s
    requires forall k | 0 <= k < |s| :: s[k] as int < 0x80
    ensures Ascii(s) == b
  {
    assert forall k | 0 <= k < |s| :: Ascii(s)[k] == s[k] as int == Latin1(b)[k] as int == b[k];
  }
}
