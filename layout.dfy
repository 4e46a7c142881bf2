/**
 * The SoundBank byte layout: what the editor's constructor accepts (Parse) and
 * what writeBNK emits (Serialize), and the theorem that reading back an
 * emitted bank recovers its header, its index and every entry's bytes.
 *
 *   "BKHD" length:int  header bytes
 *   "DIDX" length:int  records of 12 bytes: id:int offset:int length:int
 *   "DATA" length:int  entry bytes
 *   trailing bytes, copied as they are
 */
module Layout {
  import opened Wrappers
  import opened JavaTypes
  import opened ByteOrder

  /** The three parallel arrays the constructor fills from the DIDX records. */
  datatype Index = Index(ids: seq<i32>, offsets: seq<i32>, lengths: seq<i32>)

  /** What the constructor keeps of a parsed bank: the `bkhd`, `ids`, `offsets`, `originalLengths`, `dataLength` and `offsetAbsolute` fields. */
  datatype Bank = Bank(header: seq<byte>, ids: seq<i32>, offsets: seq<i32>, lengths: seq<i32>, dataLength: i32, dataStart: int)

  /** The int `readInt` returns at position `p`. */
  function IntAt(file: seq<byte>, littleEndian: bool, p: int): i32
    requires 0 <= p && p + 4 <= |file|
  {
    DecodeInt(littleEndian, file[p..p + 4])
  }

  /** The tag `readMagic` returns at position `p`. */
  function TagAt(file: seq<byte>, p: int): string
    requires 0 <= p && p + 4 <= |file|
  {
    Latin1(file[p..p + 4])
  }

  /** Field `f` (0 id, 1 offset, 2 length) of record `k` of a table starting at `at`; a record is three ints, 12 bytes. */
  function RecordField(file: seq<byte>, littleEndian: bool, at: int, k: int, f: int): i32
    requires 0 <= at && 0 <= k && 0 <= f < 3 && at + 12 * (k + 1) <= |file|
  {
    IntAt(file, littleEndian, at + 12 * k + 4 * f)
  }

  /** One DIDX record, as three `readInt`s return it. */
  datatype Record = Record(id: i32, offset: i32, length: i32)

  /** The number of whole records, out of `n`, that the file holds from `at` on. */
  function Available(file: seq<byte>, at: nat, n: nat): (m: nat)
    requires at <= |file|
    ensures m <= n && at + 12 * m <= |file|
    ensures m == n <==> at + 12 * n <= |file|
  {
    if at + 12 * n <= |file| then n else (|file| - at) / 12
  }

  /** The first `m` records of the table that starts at `at`. */
  function Records(file: seq<byte>, littleEndian: bool, at: nat, m: nat): (rs: seq<Record>)
    requires at + 12 * m <= |file|
    ensures |rs| == m
  {
    seq(m, k requires 0 <= k < m =>
      Record(RecordField(file, littleEndian, at, k, 0), RecordField(file, littleEndian, at, k, 1), RecordField(file, littleEndian, at, k, 2)))
  }

  /** Every record's offset is at least the previous record's. */
  predicate OffsetsOrdered(records: seq<Record>)
  {
    forall k | 0 < k < |records| :: records[k - 1].offset <= records[k].offset
  }

  /**
   * The DIDX loop of the constructor over the records the file holds: record
   * by record, the stream runs dry (fewer than `n` records) or an offset is
   * below the previous one, whichever comes first.
   */
  function CheckIndex(records: seq<Record>, n: nat): (r: Result<Index, Error>)
    ensures r.Success? ==> |r.value.ids| == |r.value.offsets| == |r.value.lengths| == n
    ensures r.Failure? ==> r.error == NotThatLong || r.error.CorruptOffsets?
    decreases n
  {
    if n == 0 then Success(Index([], [], []))
    else
      var prev :- CheckIndex(records, n - 1);
      if |records| < n then Failure(NotThatLong)
      else
        var record := records[n - 1];
        if n > 1 && record.offset < prev.offsets[n - 2] then Failure(CorruptOffsets(n - 1, record.offset, prev.offsets[n - 2]))
        else Success(Index(prev.ids + [record.id], prev.offsets + [record.offset], prev.lengths + [record.length]))
  }

  /** The index `n` records from `at`, read as the constructor reads it. */
  function ParseIndex(file: seq<byte>, littleEndian: bool, at: nat, n: nat): (r: Result<Index, Error>)
    requires at <= |file|
    ensures r.Success? ==> |r.value.ids| == |r.value.offsets| == |r.value.lengths| == n
  {
    CheckIndex(Records(file, littleEndian, at, Available(file, at, n)), n)
  }

  /** Entry `k` of a successfully checked index is record `k`. */
  lemma {:induction false} CheckIndexFields(records: seq<Record>, n: nat)
    requires CheckIndex(records, n).Success?
    ensures n <= |records|
    ensures var x := CheckIndex(records, n).value;
      forall k | 0 <= k < n :: records[k] == Record(x.ids[k], x.offsets[k], x.lengths[k])
  {
    if n > 0 {
      CheckIndexFields(records, n - 1);
    }
  }

  /** The index is checked exactly when `n` records are there and their first `n` offsets never decrease. */
  lemma {:induction false} CheckIndexSucceeds(records: seq<Record>, n: nat)
    ensures CheckIndex(records, n).Success? <==> n <= |records| && OffsetsOrdered(records[..n])
  {
    if n > 0 {
      CheckIndexSucceeds(records, n - 1);
      var prev := CheckIndex(records, n - 1);
      if n <= |records| {
        assert records[..n][..n - 1] == records[..n - 1];
        if prev.Success? {
          CheckIndexFields(records, n - 1);
        }
      }
    }
  }

  /**
   * The index is read exactly when all `n` records are in the file and no
   * offset is below the one before it (equal offsets are accepted); its arrays
   * then hold the records' fields in file order.
   */
  lemma ParseIndexMeaning(file: seq<byte>, littleEndian: bool, at: nat, n: nat)
    requires at <= |file|
    ensures ParseIndex(file, littleEndian, at, n).Success? <==>
      at + 12 * n <= |file| && OffsetsOrdered(Records(file, littleEndian, at, n))
    ensures ParseIndex(file, littleEndian, at, n).Success? ==>
      var x := ParseIndex(file, littleEndian, at, n).value;
      forall k | 0 <= k < n ::
        && x.ids[k] == RecordField(file, littleEndian, at, k, 0)
        && x.offsets[k] == RecordField(file, littleEndian, at, k, 1)
        && x.lengths[k] == RecordField(file, littleEndian, at, k, 2)
  {
    var records := Records(file, littleEndian, at, Available(file, at, n));
    CheckIndexSucceeds(records, n);
    if CheckIndex(records, n).Success? {
      CheckIndexFields(records, n);
      assert records[..n] == records;
    }
  }

  /** Ordered offsets never decrease, between any two records. */
  lemma {:induction false} OffsetsOrderedPairs(records: seq<Record>, j: nat, k: nat)
    requires OffsetsOrdered(records)
    requires j <= k < |records|
    ensures records[j].offset <= records[k].offset
    decreases k - j
  {
    if j < k {
      OffsetsOrderedPairs(records, j + 1, k);
    }
  }

  /** The file positions the constructor reads at, once the header length `h` and entry count `n` are known. */
  function DidxAt(h: int): int { 8 + h }
  function DataAt(h: int, n: int): int { 16 + h + 12 * n }

  /** The BKHD chunk: its tag, its length and that many header bytes. */
  function ParseHeaderChunk(file: seq<byte>, littleEndian: bool): (r: Result<seq<byte>, Error>)
    ensures r.Success? ==>
      && 8 + |r.value| <= |file|
      && TagAt(file, 0) == "BKHD" && IntAt(file, littleEndian, 4) == |r.value| && r.value == file[8..8 + |r.value|]
  {
    if |file| < 4 then Failure(NotThatLong)
    else if TagAt(file, 0) != "BKHD" then Failure(MissingSection("BKHD"))
    else if |file| < 8 then Failure(NotThatLong)
    else
      var bkhdLength := IntAt(file, littleEndian, 4);
      if bkhdLength < 0 then Failure(NegativeArraySize(bkhdLength))
      else if |file| < 8 + bkhdLength then Failure(NotThatLong)
      else Success(file[8..8 + bkhdLength])
  }

  /** The DIDX chunk at `didx`: its tag, a length that is a whole number of records, and the records. */
  function ParseIndexChunk(file: seq<byte>, littleEndian: bool, didx: nat): (r: Result<Index, Error>)
    requires didx <= |file|
    ensures r.Success? ==>
      var n := |r.value.ids|;
      && didx + 8 + 12 * n <= |file|
      && TagAt(file, didx) == "DIDX" && IntAt(file, littleEndian, didx + 4) == 12 * n
      && ParseIndex(file, littleEndian, didx + 8, n) == r
  {
    if |file| < didx + 4 then Failure(NotThatLong)
    else if TagAt(file, didx) != "DIDX" then Failure(MissingSection("DIDX"))
    else if |file| < didx + 8 then Failure(NotThatLong)
    else
      var didxLength := IntAt(file, littleEndian, didx + 4);
      // Java's `%` truncates toward zero and Dafny's does not, but both
      // give a zero remainder for exactly the multiples of 12
      if didxLength % 12 != 0 then Failure(CorruptIndexLength(didxLength))
      else
        var numWEMs := didxLength / 12;
        if numWEMs < 0 then Failure(NegativeArraySize(numWEMs))
        else ParseIndex(file, littleEndian, didx + 8, numWEMs)
  }

  /** The DATA chunk header at `data`: its tag and a declared length no smaller than the `int` sum of the entry lengths. */
  function ParseDataChunk(file: seq<byte>, littleEndian: bool, data: nat, lengths: seq<i32>): (r: Result<i32, Error>)
    ensures r.Success? ==>
      && data + 8 <= |file|
      && TagAt(file, data) == "DATA" && IntAt(file, littleEndian, data + 4) == r.value
      && ToInt32(Sum(lengths)) <= r.value
  {
    if |file| < data + 4 then Failure(NotThatLong)
    else if TagAt(file, data) != "DATA" then Failure(MissingSection("DATA"))
    else if |file| < data + 8 then Failure(NotThatLong)
    else
      var dataLength := IntAt(file, littleEndian, data + 4);
      var calculated := ToInt32(Sum(lengths));
      if dataLength < calculated then Failure(CorruptData(calculated, dataLength))
      else Success(dataLength)
  }

  /**
   * The constructor: a file no longer than `Integer.MAX_VALUE`, then the three
   * chunk headers and the index, in file order, failing at the first problem
   * with the exception Java throws. The data starts right after the DATA length.
   */
  function Parse(file: seq<byte>, littleEndian: bool): (r: Result<Bank, Error>)
    ensures |file| > INT_MAX ==> r == Failure(TooBig)
    ensures r.Success? ==> |r.value.ids| == |r.value.offsets| == |r.value.lengths| && 0 <= r.value.dataStart
  {
    if |file| > INT_MAX then Failure(TooBig)
    else
      var header :- ParseHeaderChunk(file, littleEndian);
      ParseTables(file, littleEndian, header)
  }

  /** The constructor after the header `header`: the DIDX chunk, the DATA chunk, and where the entry bytes start. */
  function ParseTables(file: seq<byte>, littleEndian: bool, header: seq<byte>): (r: Result<Bank, Error>)
    requires DidxAt(|header|) <= |file|
    ensures r.Success? ==> |r.value.ids| == |r.value.offsets| == |r.value.lengths| && 0 <= r.value.dataStart
  {
    var index :- ParseIndexChunk(file, littleEndian, DidxAt(|header|));
    var dataLength :- ParseDataChunk(file, littleEndian, DataAt(|header|, |index.ids|), index.lengths);
    Success(Bank(header, index.ids, index.offsets, index.lengths, dataLength, DataAt(|header|, |index.ids|) + 8))
  }

  /**
   * The DIDX and DATA chunks of `b` in place after its header: the DIDX chunk
   * holding `12 * n` bytes of records read as the index, and the DATA chunk
   * right after it, whose declared length is at least the `int` sum of the
   * entry lengths; the entry bytes start after the DATA chunk's length.
   */
  predicate TablesAt(file: seq<byte>, littleEndian: bool, b: Bank)
  {
    var h, n := |b.header|, |b.ids|;
    && b.dataStart == DataAt(h, n) + 8 <= |file|
    && |b.offsets| == |b.lengths| == n
    && TagAt(file, DidxAt(h)) == "DIDX" && IntAt(file, littleEndian, DidxAt(h) + 4) == 12 * n
    && ParseIndex(file, littleEndian, DidxAt(h) + 8, n) == Success(Index(b.ids, b.offsets, b.lengths))
    && TagAt(file, DataAt(h, n)) == "DATA" && IntAt(file, littleEndian, DataAt(h, n) + 4) == b.dataLength
    && ToInt32(Sum(b.lengths)) <= b.dataLength
  }

  /**
   * What an accepted bank is: a file of at most `Integer.MAX_VALUE` bytes with
   * the BKHD chunk at 0 holding the header, and the DIDX and DATA chunks in
   * place after it.
   */
  lemma ParseMeaning(file: seq<byte>, littleEndian: bool)
    requires Parse(file, littleEndian).Success?
    ensures var b := Parse(file, littleEndian).value;
      && |file| <= INT_MAX && TablesAt(file, littleEndian, b)
      && TagAt(file, 0) == "BKHD" && IntAt(file, littleEndian, 4) == |b.header| && b.header == file[8..8 + |b.header|]
  {
    var header := ParseHeaderChunk(file, littleEndian);
    assert header.Success?;
    assert Parse(file, littleEndian) == ParseTables(file, littleEndian, header.value);
    ParseTablesMeaning(file, littleEndian, header.value);
  }

  /** What the chunks after an accepted header are: the bank keeps that header and has its DIDX and DATA chunks in place. */
  lemma ParseTablesMeaning(file: seq<byte>, littleEndian: bool, h: seq<byte>)
    requires DidxAt(|h|) <= |file| && ParseTables(file, littleEndian, h).Success?
    ensures var b := ParseTables(file, littleEndian, h).value;
      b.header == h && TablesAt(file, littleEndian, b)
  {
    var index := ParseIndexChunk(file, littleEndian, DidxAt(|h|));
    assert index.Success?;
    var x := index.value;
    var dataLength := ParseDataChunk(file, littleEndian, DataAt(|h|, |x.ids|), x.lengths);
    assert dataLength.Success?;
    assert ParseTables(file, littleEndian, h) == Success(Bank(h, x.ids, x.offsets, x.lengths, dataLength.value, DataAt(|h|, |x.ids|) + 8));
  }
}
