/**
 * What writeBNK emits, as one function of the editor's state, and the
 * theorem that the constructor reads an emitted bank back: the same header,
 * the same ids, offsets that are the running sums of the lengths, the same
 * lengths, and each entry's bytes at its offset in the DATA chunk.
 */
module Serialization {
  import opened Wrappers
  import opened JavaTypes
  import opened ByteOrder
  import opened Layout

  /** The three `writeInt`s of one DIDX record. */
  function RecordBytes(littleEndian: bool, record: Record): (r: seq<byte>)
    ensures |r| == 12
  {
    EncodeInt(littleEndian, record.id) + EncodeInt(littleEndian, record.offset) + EncodeInt(littleEndian, record.length)
  }

  /** The offset writeBNK gives entry `k`: the `int` sum of the lengths before it (`currentAddress`). */
  function RunningOffset(lengths: seq<i32>, k: nat): i32
    requires k <= |lengths|
  {
    ToInt32(Sum(lengths[..k]))
  }

  /** The offsets of all entries. */
  function RunningOffsets(lengths: seq<i32>): (r: seq<i32>)
    ensures |r| == |lengths|
  {
    seq(|lengths|, k requires 0 <= k < |lengths| => RunningOffset(lengths, k))
  }

  /** The records writeBNK puts in the DIDX chunk: each id with its running offset and its (replaced) length. */
  function TableRecords(ids: seq<i32>, lengths: seq<i32>): (rs: seq<Record>)
    requires |ids| == |lengths|
    ensures |rs| == |ids|
  {
    seq(|ids|, k requires 0 <= k < |ids| => Record(ids[k], RunningOffset(lengths, k), lengths[k]))
  }

  /** The DIDX records as writeBNK writes them, one after the other. */
  function TableBytes(littleEndian: bool, records: seq<Record>): (r: seq<byte>)
    ensures |r| == 12 * |records|
  {
    if records == [] then []
    else TableBytes(littleEndian, records[..|records| - 1]) + RecordBytes(littleEndian, records[|records| - 1])
  }

  /** Field `f` of a record: 0 its id, 1 its offset, 2 its length. */
  function FieldOf(record: Record, f: nat): i32
  {
    if f == 0 then record.id else if f == 1 then record.offset else record.length
  }

  /** The entry payloads one after the other. */
  function Concat(payloads: seq<seq<byte>>): seq<byte>
  {
    if payloads == [] then [] else Concat(payloads[..|payloads| - 1]) + payloads[|payloads| - 1]
  }

  /** The lengths of the payloads, as a sequence. */
  function Sizes(payloads: seq<seq<byte>>): (r: seq<int>)
    ensures |r| == |payloads|
  {
    seq(|payloads|, k requires 0 <= k < |payloads| => |payloads[k]|)
  }

  /** A chunk as writeBNK writes it: the tag with `writeString`, a length with `writeInt`, then the body. */
  function Chunk(littleEndian: bool, tag: string, size: i32, body: seq<byte>): seq<byte>
  {
    Ascii(tag) + EncodeInt(littleEndian, size) + body
  }

  function HeaderChunk(littleEndian: bool, header: seq<byte>): seq<byte>
  {
    Chunk(littleEndian, "BKHD", ToInt32(|header|), header)
  }

  function IndexChunk(littleEndian: bool, ids: seq<i32>, lengths: seq<i32>): seq<byte>
    requires |ids| == |lengths|
  {
    Chunk(littleEndian, "DIDX", ToInt32(|ids| * 12), TableBytes(littleEndian, TableRecords(ids, lengths)))
  }

  function DataChunk(littleEndian: bool, lengths: seq<i32>, payloads: seq<seq<byte>>): seq<byte>
  {
    Chunk(littleEndian, "DATA", ToInt32(Sum(lengths)), Concat(payloads))
  }

  /**
   * The bytes writeBNK writes: the BKHD chunk with the header verbatim, the
   * DIDX chunk with the recomputed records, the DATA chunk whose declared length
   * is the `int` sum of the lengths, the payloads in entry order, then `rest`.
   */
  function Serialize(littleEndian: bool, header: seq<byte>, ids: seq<i32>, lengths: seq<i32>,
                     payloads: seq<seq<byte>>, rest: seq<byte>): seq<byte>
    requires |ids| == |lengths|
  {
    HeaderChunk(littleEndian, header) + IndexChunk(littleEndian, ids, lengths) + DataChunk(littleEndian, lengths, payloads) + rest
  }

  /** A slice of a concatenation that falls inside its middle part. */
  lemma SliceInside(pre: seq<byte>, mid: seq<byte>, post: seq<byte>, i: int, j: int)
    requires 0 <= i <= j <= |mid|
    ensures (pre + mid + post)[|pre| + i..|pre| + j] == mid[i..j]
  {
  }

  /** A slice of a slice is a slice. */
  lemma SliceOfSlice(s: seq<byte>, a: int, b: int, i: int, j: int)
    requires 0 <= a <= b <= |s| && 0 <= i <= j <= b - a
    ensures s[a..b][i..j] == s[a + i..a + j]
  {
    forall t | 0 <= t < j - i
      ensures s[a..b][i..j][t] == s[a + i..a + j][t]
    {
    }
  }

  /** Group `f` of three four-byte groups one after the other. */
  lemma GroupOfThree(a: seq<byte>, b: seq<byte>, c: seq<byte>, f: nat)
    requires |a| == |b| == |c| == 4 && f < 3
    ensures (a + b + c)[4 * f..4 * f + 4] == if f == 0 then a else if f == 1 then b else c
  {
    if f == 0 {
      SliceInside([], a, b + c, 0, 4);
      assert [] + a + (b + c) == a + b + c;
    } else if f == 1 {
      SliceInside(a, b, c, 0, 4);
    } else {
      SliceInside(a + b, c, [], 0, 4);
      assert a + b + c + [] == a + b + c;
    }
  }

  /** Field `f` of a record is its `f`-th four-byte group. */
  lemma RecordBytesField(littleEndian: bool, record: Record, f: nat)
    requires f < 3
    ensures RecordBytes(littleEndian, record)[4 * f..4 * f + 4] == EncodeInt(littleEndian, FieldOf(record, f))
  {
    GroupOfThree(EncodeInt(littleEndian, record.id), EncodeInt(littleEndian, record.offset), EncodeInt(littleEndian, record.length), f);
  }

  /** Four bytes inside a 12-byte block inside a slice of the file. */
  lemma GroupInBlock(file: seq<byte>, at: nat, size: nat, table: seq<byte>, k: nat, block: seq<byte>, f: nat)
    requires at + size <= |file| && file[at..at + size] == table
    requires 12 * k + 12 <= size && |block| == 12 && table[12 * k..12 * k + 12] == block && f < 3
    ensures file[at + 12 * k + 4 * f..at + 12 * k + 4 * f + 4] == block[4 * f..4 * f + 4]
  {
    SliceOfSlice(file, at, at + size, 12 * k, 12 * k + 12);
    SliceOfSlice(file, at + 12 * k, at + 12 * k + 12, 4 * f, 4 * f + 4);
  }

  /** A 12-byte block of a table made of a front part and one last block. */
  lemma BlockOfTable(table: seq<byte>, front: seq<byte>, last: seq<byte>, n: nat, k: nat, block: seq<byte>)
    requires table == front + last && |front| == 12 * n && |last| == 12 && k <= n
    requires k < n ==> 12 * k + 12 <= |front| && front[12 * k..12 * k + 12] == block
    ensures table[12 * k..12 * k + 12] == if k == n then last else block
  {
    if k == n {
      SliceInside(front, last, [], 0, 12);
      assert front + last + [] == table;
    } else {
      SliceInside([], front, last, 12 * k, 12 * k + 12);
      assert [] + front + last == table;
    }
  }

  /** Record `k` of a written table is the 12 bytes from `12 * k` on. */
  lemma {:induction false} TableBytesRecord(littleEndian: bool, records: seq<Record>, k: nat)
    requires k < |records|
    ensures TableBytes(littleEndian, records)[12 * k..12 * k + 12] == RecordBytes(littleEndian, records[k])
  {
    var n := |records| - 1;
    if k < n {
      TableBytesRecord(littleEndian, records[..n], k);
    }
    BlockOfTable(TableBytes(littleEndian, records), TableBytes(littleEndian, records[..n]), RecordBytes(littleEndian, records[n]),
                 n, k, RecordBytes(littleEndian, records[k]));
  }

  /** The four bytes of field `f` of record `k` of a written table. */
  lemma TableFieldBytes(littleEndian: bool, file: seq<byte>, at: nat, records: seq<Record>, k: nat, f: nat)
    requires k < |records| && f < 3
    requires at + 12 * |records| <= |file| && file[at..at + 12 * |records|] == TableBytes(littleEndian, records)
    ensures file[at + 12 * k + 4 * f..at + 12 * k + 4 * f + 4] == EncodeInt(littleEndian, FieldOf(records[k], f))
  {
    TableBytesRecord(littleEndian, records, k);
    RecordBytesField(littleEndian, records[k], f);
    GroupInBlock(file, at, 12 * |records|, TableBytes(littleEndian, records), k, RecordBytes(littleEndian, records[k]), f);
  }

  /** Field `f` of record `k` of a written table is read back as written. */
  lemma TableFieldRead(littleEndian: bool, file: seq<byte>, at: nat, records: seq<Record>, k: nat, f: nat)
    requires k < |records| && f < 3
    requires at + 12 * |records| <= |file| && file[at..at + 12 * |records|] == TableBytes(littleEndian, records)
    ensures RecordField(file, littleEndian, at, k, f) == FieldOf(records[k], f)
  {
    TableFieldBytes(littleEndian, file, at, records, k, f);
    IntRoundTrip(file, littleEndian, at + 12 * k + 4 * f, FieldOf(records[k], f));
  }

  /** The records the constructor finds in a written table are the ones written. */
  lemma RecordsOfTable(littleEndian: bool, file: seq<byte>, at: nat, records: seq<Record>)
    requires at + 12 * |records| <= |file| && file[at..at + 12 * |records|] == TableBytes(littleEndian, records)
    ensures Records(file, littleEndian, at, |records|) == records
  {
    var read := Records(file, littleEndian, at, |records|);
    forall k | 0 <= k < |records|
      ensures read[k] == records[k]
    {
      TableFieldRead(littleEndian, file, at, records, k, 0);
      TableFieldRead(littleEndian, file, at, records, k, 1);
      TableFieldRead(littleEndian, file, at, records, k, 2);
    }
  }

  /** The payload of entry `k` starts where the payloads before it end. */
  lemma {:induction false} ConcatSlice(payloads: seq<seq<byte>>, k: nat)
    requires k < |payloads|
    ensures 0 <= Sum(Sizes(payloads)[..k])
    ensures Sum(Sizes(payloads)[..k]) + |payloads[k]| <= |Concat(payloads)|
    ensures Concat(payloads)[Sum(Sizes(payloads)[..k])..Sum(Sizes(payloads)[..k]) + |payloads[k]|] == payloads[k]
  {
    var n := |payloads| - 1;
    var front := payloads[..n];
    SumNonNegative(Sizes(payloads)[..k]);
    ConcatSize(front);
    assert Sizes(payloads)[..n] == Sizes(front);
    if k == n {
      SliceInside(Concat(front), payloads[n], [], 0, |payloads[n]|);
      assert Concat(front) + payloads[n] + [] == Concat(payloads);
    } else {
      ConcatSlice(front, k);
      assert Sizes(front)[..k] == Sizes(payloads)[..k];
      var at := Sum(Sizes(payloads)[..k]);
      SliceInside([], Concat(front), payloads[n], at, at + |payloads[k]|);
      assert [] + Concat(front) + payloads[n] == Concat(payloads);
    }
  }

  /** The payloads together are as long as the sum of their sizes. */
  lemma {:induction false} ConcatSize(payloads: seq<seq<byte>>)
    ensures |Concat(payloads)| == Sum(Sizes(payloads))
  {
    if payloads != [] {
      var n := |payloads| - 1;
      ConcatSize(payloads[..n]);
      assert Sizes(payloads)[..n] == Sizes(payloads[..n]);
    }
  }

  /** A tag written with `writeString` is read back by `readMagic`. */
  lemma TagRoundTrip(file: seq<byte>, p: nat, tag: string)
    requires |tag| == 4 && forall k | 0 <= k < 4 :: tag[k] as int < 0x80
    requires p + 4 <= |file| && file[p..p + 4] == Ascii(tag)
    ensures TagAt(file, p) == tag
  {
    LatinAscii(tag);
  }

  /** An `int` written with `writeInt` is read back by `readInt`. */
  lemma IntRoundTrip(file: seq<byte>, littleEndian: bool, p: nat, x: i32)
    requires p + 4 <= |file| && file[p..p + 4] == EncodeInt(littleEndian, x)
    ensures IntAt(file, littleEndian, p) == x
  {
    DecodeEncodeInt(littleEndian, x);
  }

  /** The bytes of a chunk written at `|pre|`. */
  lemma ChunkBytes(littleEndian: bool, pre: seq<byte>, tag: string, size: i32, body: seq<byte>, post: seq<byte>)
    requires |tag| == 4
    ensures var file := pre + Chunk(littleEndian, tag, size, body) + post;
      && |pre| + 8 + |body| <= |file|
      && file[|pre|..|pre| + 4] == Ascii(tag)
      && file[|pre| + 4..|pre| + 8] == EncodeInt(littleEndian, size)
      && file[|pre| + 8..|pre| + 8 + |body|] == body
  {
    var file := pre + Chunk(littleEndian, tag, size, body) + post;
    var t, z := Ascii(tag), EncodeInt(littleEndian, size);
    DecodeEncodeInt(littleEndian, size);
    assert file == pre + t + (z + body + post);
    SliceInside(pre, t, z + body + post, 0, 4);
    assert file == (pre + t) + z + (body + post);
    SliceInside(pre + t, z, body + post, 0, 4);
    assert file == (pre + t + z) + body + post;
    SliceInside(pre + t + z, body, post, 0, |body|);
  }

  /** The tag and the length of a chunk written at `p` are read back. */
  lemma ChunkHeadAt(file: seq<byte>, littleEndian: bool, p: nat,
                    pre: seq<byte>, tag: string, size: i32, body: seq<byte>, post: seq<byte>)
    requires |tag| == 4 && forall k | 0 <= k < 4 :: tag[k] as int < 0x80
    requires file == pre + Chunk(littleEndian, tag, size, body) + post && p == |pre|
    ensures p + 8 + |body| <= |file|
    ensures TagAt(file, p) == tag && IntAt(file, littleEndian, p + 4) == size
  {
    ChunkBytes(littleEndian, pre, tag, size, body, post);
    TagRoundTrip(file, p, tag);
    IntRoundTrip(file, littleEndian, p + 4, size);
  }

  /** The body of a chunk written at `p` follows its length. */
  lemma ChunkBodyAt(file: seq<byte>, littleEndian: bool, p: nat,
                    pre: seq<byte>, tag: string, size: i32, body: seq<byte>, post: seq<byte>)
    requires |tag| == 4
    requires file == pre + Chunk(littleEndian, tag, size, body) + post && p == |pre|
    ensures p + 8 + |body| <= |file| && file[p + 8..p + 8 + |body|] == body
  {
    ChunkBytes(littleEndian, pre, tag, size, body, post);
  }

  /** The header chunk is accepted once its tag, its length and its bytes are there. */
  lemma HeaderChunkAccepted(file: seq<byte>, littleEndian: bool, header: seq<byte>)
    requires 8 + |header| <= |file|
    requires TagAt(file, 0) == "BKHD" && IntAt(file, littleEndian, 4) == |header| && file[8..8 + |header|] == header
    ensures ParseHeaderChunk(file, littleEndian) == Success(header)
  {
  }

  /** Running offsets of non-negative lengths whose sum fits an `int` are the exact sums, never decreasing. */
  lemma RunningOffsetsExact(lengths: seq<i32>, j: nat, k: nat)
    requires forall i | 0 <= i < |lengths| :: 0 <= lengths[i]
    requires Sum(lengths) <= INT_MAX
    requires j <= k <= |lengths|
    ensures RunningOffset(lengths, k) == Sum(lengths[..k])
    ensures RunningOffset(lengths, j) <= RunningOffset(lengths, k)
  {
    SumPrefixMonotone(lengths, j, k);
    SumPrefixMonotone(lengths, k, |lengths|);
    SumNonNegative(lengths[..j]);
    assert lengths[..|lengths|] == lengths;
  }

  /** The index chunk is accepted up to its records once its tag and a length of `12 * n` are there. */
  lemma IndexChunkAccepted(file: seq<byte>, littleEndian: bool, didx: nat, n: nat)
    requires didx + 8 <= |file| && 12 * n <= INT_MAX
    requires TagAt(file, didx) == "DIDX" && IntAt(file, littleEndian, didx + 4) == 12 * n
    ensures ParseIndexChunk(file, littleEndian, didx) == ParseIndex(file, littleEndian, didx + 8, n)
  {
    var didxLength := IntAt(file, littleEndian, didx + 4);
    assert didxLength % 12 == 0 && didxLength / 12 == n by {
      MultipleOfTwelve(n);
    }
  }

  lemma MultipleOfTwelve(n: nat)
    ensures (12 * n) % 12 == 0 && (12 * n) / 12 == n
  {
  }

  /** The written records pass the offset check and give back the ids, running offsets and lengths. */
  lemma CheckTableRecords(ids: seq<i32>, lengths: seq<i32>)
    requires |ids| == |lengths|
    requires forall i | 0 <= i < |lengths| :: 0 <= lengths[i]
    requires Sum(lengths) <= INT_MAX
    ensures CheckIndex(TableRecords(ids, lengths), |ids|) == Success(Index(ids, RunningOffsets(lengths), lengths))
  {
    var n := |ids|;
    var records := TableRecords(ids, lengths);
    forall k | 0 < k < n
      ensures records[k - 1].offset <= records[k].offset
    {
      RunningOffsetsExact(lengths, k - 1, k);
    }
    assert records[..n] == records;
    CheckIndexSucceeds(records, n);
    CheckIndexFields(records, n);
    var x := CheckIndex(records, n).value;
    assert x.ids == ids;
    assert x.offsets == RunningOffsets(lengths);
    assert x.lengths == lengths;
  }

  /** The data chunk is accepted once its tag and a length no smaller than the computed sum are there. */
  lemma DataChunkAccepted(file: seq<byte>, littleEndian: bool, data: nat, lengths: seq<i32>)
    requires data + 8 <= |file|
    requires TagAt(file, data) == "DATA" && IntAt(file, littleEndian, data + 4) == ToInt32(Sum(lengths))
    ensures ParseDataChunk(file, littleEndian, data, lengths) == Success(ToInt32(Sum(lengths)))
  {
  }

  /** What an emitted bank must satisfy to be read back: the constructor's own limits on a bank it accepts. */
  predicate Reopenable(header: seq<byte>, ids: seq<i32>, lengths: seq<i32>, payloads: seq<seq<byte>>)
  {
    && |ids| == |lengths| == |payloads|
    && |header| <= INT_MAX && 12 * |ids| <= INT_MAX
    && (forall k | 0 <= k < |lengths| :: 0 <= lengths[k] && |payloads[k]| == lengths[k])
    && Sum(lengths) <= INT_MAX
  }

  /** Where the DATA chunk's payloads start in an emitted bank. */
  function DataStart(header: seq<byte>, n: nat): nat
  {
    24 + |header| + 12 * n
  }

  /** The constructor accepts a file of at most `Integer.MAX_VALUE` bytes whose three chunks it accepts one by one. */
  lemma ParseAccepts(file: seq<byte>, littleEndian: bool, header: seq<byte>, ids: seq<i32>, lengths: seq<i32>)
    requires |file| <= INT_MAX && DidxAt(|header|) <= |file|
    requires 0 <= Sum(lengths) <= INT_MAX
    requires ParseHeaderChunk(file, littleEndian) == Success(header)
    requires ParseIndexChunk(file, littleEndian, DidxAt(|header|)) == Success(Index(ids, RunningOffsets(lengths), lengths))
    requires ParseDataChunk(file, littleEndian, DataAt(|header|, |ids|), lengths) == Success(ToInt32(Sum(lengths)))
    ensures Parse(file, littleEndian)
         == Success(Bank(header, ids, RunningOffsets(lengths), lengths, Sum(lengths), DataStart(header, |ids|)))
  {
    ParseTablesAccepts(file, littleEndian, header, ids, lengths);
  }

  /** After a header the constructor accepts, it accepts a DIDX chunk and a DATA chunk it accepts one by one. */
  lemma ParseTablesAccepts(file: seq<byte>, littleEndian: bool, header: seq<byte>, ids: seq<i32>, lengths: seq<i32>)
    requires DidxAt(|header|) <= |file|
    requires ParseIndexChunk(file, littleEndian, DidxAt(|header|)) == Success(Index(ids, RunningOffsets(lengths), lengths))
    requires ParseDataChunk(file, littleEndian, DataAt(|header|, |ids|), lengths) == Success(ToInt32(Sum(lengths)))
    ensures ParseTables(file, littleEndian, header)
         == Success(Bank(header, ids, RunningOffsets(lengths), lengths, ToInt32(Sum(lengths)), DataStart(header, |ids|)))
  {
  }

  /** An index chunk whose tag and length are in place and whose records are the written ones is read back as the entries. */
  lemma IndexChunkAt(file: seq<byte>, littleEndian: bool, didx: nat, ids: seq<i32>, lengths: seq<i32>)
    requires |ids| == |lengths| && 12 * |ids| <= INT_MAX
    requires forall i | 0 <= i < |lengths| :: 0 <= lengths[i]
    requires Sum(lengths) <= INT_MAX
    requires didx + 8 + 12 * |ids| <= |file|
    requires TagAt(file, didx) == "DIDX" && IntAt(file, littleEndian, didx + 4) == 12 * |ids|
    requires Records(file, littleEndian, didx + 8, |ids|) == TableRecords(ids, lengths)
    ensures ParseIndexChunk(file, littleEndian, didx) == Success(Index(ids, RunningOffsets(lengths), lengths))
  {
    IndexChunkAccepted(file, littleEndian, didx, |ids|);
    CheckTableRecords(ids, lengths);
    assert Available(file, didx + 8, |ids|) == |ids|;
  }

  /** Regrouping a concatenation of four parts. */
  lemma Regroup(a: seq<byte>, b: seq<byte>, c: seq<byte>, d: seq<byte>)
    ensures a + b + c + d == [] + a + (b + c + d)
    ensures a + b + c + d == a + b + (c + d)
  {
    assert a + b + c + d == [] + a + (b + c + d);
  }

  /** Regrouping the DATA chunk's parts after what comes before it. */
  lemma RegroupData(p: seq<byte>, a: seq<byte>, b: seq<byte>, c: seq<byte>, d: seq<byte>)
    ensures p + (a + b + c) + d == p + a + b + c + d
  {
  }

  /** An emitted bank is its three chunk headers, its header, its table, its payloads and `rest`. */
  lemma SerializeSize(littleEndian: bool, header: seq<byte>, ids: seq<i32>, lengths: seq<i32>,
                      payloads: seq<seq<byte>>, rest: seq<byte>)
    requires Reopenable(header, ids, lengths, payloads)
    ensures |HeaderChunk(littleEndian, header)| == 8 + |header|
    ensures |IndexChunk(littleEndian, ids, lengths)| == 8 + 12 * |ids|
    ensures |DataChunk(littleEndian, lengths, payloads)| == 8 + Sum(lengths)
    ensures |Serialize(littleEndian, header, ids, lengths, payloads, rest)| == DataStart(header, |ids|) + Sum(lengths) + |rest|
  {
    assert Sizes(payloads) == lengths;
    ConcatSize(payloads);
  }

  /** An emitted bank starts with the BKHD tag, the header's length and the header. */
  lemma SerializeHeaderHead(littleEndian: bool, header: seq<byte>, ids: seq<i32>, lengths: seq<i32>,
                            payloads: seq<seq<byte>>, rest: seq<byte>)
    requires Reopenable(header, ids, lengths, payloads)
    ensures var file := Serialize(littleEndian, header, ids, lengths, payloads, rest);
      && 8 + |header| <= |file|
      && TagAt(file, 0) == "BKHD" && IntAt(file, littleEndian, 4) == |header|
      && file[8..8 + |header|] == header
  {
    var file := Serialize(littleEndian, header, ids, lengths, payloads, rest);
    var hc, ic, dc := HeaderChunk(littleEndian, header), IndexChunk(littleEndian, ids, lengths), DataChunk(littleEndian, lengths, payloads);
    Regroup(hc, ic, dc, rest);
    ChunkHeadAt(file, littleEndian, 0, [], "BKHD", ToInt32(|header|), header, ic + dc + rest);
    ChunkBodyAt(file, littleEndian, 0, [], "BKHD", ToInt32(|header|), header, ic + dc + rest);
  }

  /** The DIDX tag, a length of 12 bytes per entry and the written records follow the header. */
  lemma SerializeIndexHead(littleEndian: bool, header: seq<byte>, ids: seq<i32>, lengths: seq<i32>,
                           payloads: seq<seq<byte>>, rest: seq<byte>)
    requires Reopenable(header, ids, lengths, payloads)
    ensures var file := Serialize(littleEndian, header, ids, lengths, payloads, rest);
      var table := TableBytes(littleEndian, TableRecords(ids, lengths));
      && DidxAt(|header|) + 8 + |table| <= |file|
      && TagAt(file, DidxAt(|header|)) == "DIDX" && IntAt(file, littleEndian, DidxAt(|header|) + 4) == 12 * |ids|
      && file[DidxAt(|header|) + 8..DidxAt(|header|) + 8 + |table|] == table
  {
    var file := Serialize(littleEndian, header, ids, lengths, payloads, rest);
    var hc, ic, dc := HeaderChunk(littleEndian, header), IndexChunk(littleEndian, ids, lengths), DataChunk(littleEndian, lengths, payloads);
    var table := TableBytes(littleEndian, TableRecords(ids, lengths));
    SerializeSize(littleEndian, header, ids, lengths, payloads, rest);
    Regroup(hc, ic, dc, rest);
    ChunkHeadAt(file, littleEndian, DidxAt(|header|), hc, "DIDX", ToInt32(|ids| * 12), table, dc + rest);
    ChunkBodyAt(file, littleEndian, DidxAt(|header|), hc, "DIDX", ToInt32(|ids| * 12), table, dc + rest);
  }

  /** The DATA tag and the `int` sum of the lengths follow the table. */
  lemma SerializeDataHead(littleEndian: bool, header: seq<byte>, ids: seq<i32>, lengths: seq<i32>,
                          payloads: seq<seq<byte>>, rest: seq<byte>)
    requires Reopenable(header, ids, lengths, payloads)
    ensures var file := Serialize(littleEndian, header, ids, lengths, payloads, rest);
      && DataAt(|header|, |ids|) + 8 <= |file|
      && TagAt(file, DataAt(|header|, |ids|)) == "DATA"
      && IntAt(file, littleEndian, DataAt(|header|, |ids|) + 4) == ToInt32(Sum(lengths))
  {
    var file := Serialize(littleEndian, header, ids, lengths, payloads, rest);
    var hc, ic := HeaderChunk(littleEndian, header), IndexChunk(littleEndian, ids, lengths);
    SerializeSize(littleEndian, header, ids, lengths, payloads, rest);
    ChunkHeadAt(file, littleEndian, DataAt(|header|, |ids|), hc + ic, "DATA", ToInt32(Sum(lengths)), Concat(payloads), rest);
  }

  /** The BKHD chunk of an emitted bank is read back as the same header. */
  lemma HeaderOfSerialize(littleEndian: bool, header: seq<byte>, ids: seq<i32>, lengths: seq<i32>,
                          payloads: seq<seq<byte>>, rest: seq<byte>)
    requires Reopenable(header, ids, lengths, payloads)
    ensures ParseHeaderChunk(Serialize(littleEndian, header, ids, lengths, payloads, rest), littleEndian) == Success(header)
  {
    SerializeHeaderHead(littleEndian, header, ids, lengths, payloads, rest);
    HeaderChunkAccepted(Serialize(littleEndian, header, ids, lengths, payloads, rest), littleEndian, header);
  }

  /** The records the constructor finds in an emitted bank are the ones writeBNK wrote. */
  lemma RecordsOfSerialize(littleEndian: bool, header: seq<byte>, ids: seq<i32>, lengths: seq<i32>,
                           payloads: seq<seq<byte>>, rest: seq<byte>)
    requires Reopenable(header, ids, lengths, payloads)
    ensures var file := Serialize(littleEndian, header, ids, lengths, payloads, rest);
      && DidxAt(|header|) + 8 + 12 * |ids| <= |file|
      && Records(file, littleEndian, DidxAt(|header|) + 8, |ids|) == TableRecords(ids, lengths)
  {
    SerializeIndexHead(littleEndian, header, ids, lengths, payloads, rest);
    RecordsOfTable(littleEndian, Serialize(littleEndian, header, ids, lengths, payloads, rest), DidxAt(|header|) + 8, TableRecords(ids, lengths));
  }

  /** The DIDX chunk of an emitted bank is read back as the same ids and lengths, with the running offsets. */
  lemma IndexOfSerialize(littleEndian: bool, header: seq<byte>, ids: seq<i32>, lengths: seq<i32>,
                         payloads: seq<seq<byte>>, rest: seq<byte>)
    requires Reopenable(header, ids, lengths, payloads)
    ensures var file := Serialize(littleEndian, header, ids, lengths, payloads, rest);
      && DidxAt(|header|) <= |file|
      && ParseIndexChunk(file, littleEndian, DidxAt(|header|)) == Success(Index(ids, RunningOffsets(lengths), lengths))
  {
    SerializeIndexHead(littleEndian, header, ids, lengths, payloads, rest);
    RecordsOfSerialize(littleEndian, header, ids, lengths, payloads, rest);
    IndexChunkAt(Serialize(littleEndian, header, ids, lengths, payloads, rest), littleEndian, DidxAt(|header|), ids, lengths);
  }

  /** The DATA chunk of an emitted bank is accepted: its declared length is the very sum the constructor computes. */
  lemma DataOfSerialize(littleEndian: bool, header: seq<byte>, ids: seq<i32>, lengths: seq<i32>,
                        payloads: seq<seq<byte>>, rest: seq<byte>)
    requires Reopenable(header, ids, lengths, payloads)
    ensures ParseDataChunk(Serialize(littleEndian, header, ids, lengths, payloads, rest), littleEndian, DataAt(|header|, |ids|), lengths)
         == Success(ToInt32(Sum(lengths)))
  {
    SerializeDataHead(littleEndian, header, ids, lengths, payloads, rest);
    DataChunkAccepted(Serialize(littleEndian, header, ids, lengths, payloads, rest), littleEndian, DataAt(|header|, |ids|), lengths);
  }

  lemma ChunksOfSerialize(littleEndian: bool, header: seq<byte>, ids: seq<i32>, lengths: seq<i32>,
                          payloads: seq<seq<byte>>, rest: seq<byte>)
    requires Reopenable(header, ids, lengths, payloads)
    ensures var file := Serialize(littleEndian, header, ids, lengths, payloads, rest);
      && |file| == DataStart(header, |ids|) + Sum(lengths) + |rest|
      && DidxAt(|header|) <= |file|
      && ParseHeaderChunk(file, littleEndian) == Success(header)
      && ParseIndexChunk(file, littleEndian, DidxAt(|header|)) == Success(Index(ids, RunningOffsets(lengths), lengths))
      && ParseDataChunk(file, littleEndian, DataAt(|header|, |ids|), lengths) == Success(ToInt32(Sum(lengths)))
  {
    SerializeSize(littleEndian, header, ids, lengths, payloads, rest);
    HeaderOfSerialize(littleEndian, header, ids, lengths, payloads, rest);
    IndexOfSerialize(littleEndian, header, ids, lengths, payloads, rest);
    DataOfSerialize(littleEndian, header, ids, lengths, payloads, rest);
  }

  /**
   * Round trip: the constructor accepts what writeBNK emits (when every length
   * is that of its payload and the sums fit an `int`) and reads back the same
   * header, ids and lengths, offsets that are the running sums of the lengths,
   * and a DATA length that is their sum.
   */
  lemma ParseSerialize(littleEndian: bool, header: seq<byte>, ids: seq<i32>, lengths: seq<i32>,
                       payloads: seq<seq<byte>>, rest: seq<byte>)
    requires Reopenable(header, ids, lengths, payloads)
    requires DataStart(header, |ids|) + Sum(lengths) + |rest| <= INT_MAX
    ensures 0 <= Sum(lengths) <= INT_MAX
    ensures Parse(Serialize(littleEndian, header, ids, lengths, payloads, rest), littleEndian)
         == Success(Bank(header, ids, RunningOffsets(lengths), lengths, Sum(lengths), DataStart(header, |ids|)))
  {
    SumNonNegative(lengths);
    ChunksOfSerialize(littleEndian, header, ids, lengths, payloads, rest);
    ParseAccepts(Serialize(littleEndian, header, ids, lengths, payloads, rest), littleEndian, header, ids, lengths);
  }

  /**
   * Round trip, with the size bound taken from the emitted file itself: when
   * every length is that of its payload and the emitted bank is no longer
   * than `Integer.MAX_VALUE`, the constructor reads it back.
   */
  lemma ParseSerializeFits(littleEndian: bool, header: seq<byte>, ids: seq<i32>, lengths: seq<i32>,
                           payloads: seq<seq<byte>>, rest: seq<byte>)
    requires |ids| == |lengths| == |payloads| && |header| <= INT_MAX && 12 * |ids| <= INT_MAX
    requires forall k | 0 <= k < |lengths| :: 0 <= lengths[k] && |payloads[k]| == lengths[k]
    requires |Serialize(littleEndian, header, ids, lengths, payloads, rest)| <= INT_MAX
    ensures 0 <= Sum(lengths) <= INT_MAX
    ensures Parse(Serialize(littleEndian, header, ids, lengths, payloads, rest), littleEndian)
         == Success(Bank(header, ids, RunningOffsets(lengths), lengths, Sum(lengths), DataStart(header, |ids|)))
  {
    SumNonNegative(lengths);
    assert Sizes(payloads) == lengths;
    ConcatSize(payloads);
    assert |DataChunk(littleEndian, lengths, payloads)| == 8 + Sum(lengths);
    SerializeSize(littleEndian, header, ids, lengths, payloads, rest);
    ParseSerialize(littleEndian, header, ids, lengths, payloads, rest);
  }

  /**
   * The payloads lie one after the other from `start` in `file`: entry `k`'s
   * at its running offset from `start`, and `rest` after the last of them.
   */
  predicate LaidOut(file: seq<byte>, start: nat, lengths: seq<i32>, payloads: seq<seq<byte>>, rest: seq<byte>)
    requires |lengths| == |payloads|
  {
    && 0 <= Sum(lengths) && start + Sum(lengths) + |rest| == |file|
    && file[start + Sum(lengths)..] == rest
    && forall k | 0 <= k < |lengths| ::
         && 0 <= lengths[k] && 0 <= RunningOffset(lengths, k) == Sum(lengths[..k])
         && start + RunningOffset(lengths, k) + lengths[k] <= |file|
         && file[start + RunningOffset(lengths, k)..start + RunningOffset(lengths, k) + lengths[k]] == payloads[k]
  }

  /** Payloads written one after the other from `start` are laid out there, and `rest` follows them. */
  lemma PayloadsAt(file: seq<byte>, start: nat, pre: seq<byte>, lengths: seq<i32>, payloads: seq<seq<byte>>, rest: seq<byte>)
    requires |lengths| == |payloads| && Sum(lengths) <= INT_MAX
    requires forall k | 0 <= k < |lengths| :: 0 <= lengths[k] && |payloads[k]| == lengths[k]
    requires file == pre + Concat(payloads) + rest && start == |pre|
    ensures LaidOut(file, start, lengths, payloads, rest)
  {
    assert Sizes(payloads) == lengths;
    ConcatSize(payloads);
    SumNonNegative(lengths);
    SliceInside(pre + Concat(payloads), rest, [], 0, |rest|);
    assert file == pre + Concat(payloads) + rest + [];
    forall k | 0 <= k < |lengths|
      ensures 0 <= lengths[k] && 0 <= RunningOffset(lengths, k) == Sum(lengths[..k])
      ensures start + RunningOffset(lengths, k) + lengths[k] <= |file|
      ensures file[start + RunningOffset(lengths, k)..start + RunningOffset(lengths, k) + lengths[k]] == payloads[k]
    {
      PayloadAt(file, start, pre, lengths, payloads, rest, k);
    }
  }

  /** Payload `k` of payloads written one after the other from `start` lies at its running offset. */
  lemma PayloadAt(file: seq<byte>, start: nat, pre: seq<byte>, lengths: seq<i32>, payloads: seq<seq<byte>>, rest: seq<byte>, k: nat)
    requires |lengths| == |payloads| && Sum(lengths) <= INT_MAX && k < |lengths|
    requires forall k | 0 <= k < |lengths| :: 0 <= lengths[k] && |payloads[k]| == lengths[k]
    requires file == pre + Concat(payloads) + rest && start == |pre|
    ensures 0 <= RunningOffset(lengths, k) == Sum(lengths[..k])
    ensures start + RunningOffset(lengths, k) + lengths[k] <= |file|
    ensures file[start + RunningOffset(lengths, k)..start + RunningOffset(lengths, k) + lengths[k]] == payloads[k]
  {
    assert Sizes(payloads) == lengths;
    ConcatSize(payloads);
    RunningOffsetsExact(lengths, 0, k);
    ConcatSlice(payloads, k);
    SliceInside(pre, Concat(payloads), rest, Sum(lengths[..k]), Sum(lengths[..k]) + lengths[k]);
  }

  /**
   * Layout: in an emitted bank, entry `k`'s payload lies at its running offset
   * from the start of the data, and `rest` follows the last payload.
   */
  lemma SerializeLayout(littleEndian: bool, header: seq<byte>, ids: seq<i32>, lengths: seq<i32>,
                        payloads: seq<seq<byte>>, rest: seq<byte>)
    requires Reopenable(header, ids, lengths, payloads)
    ensures LaidOut(Serialize(littleEndian, header, ids, lengths, payloads, rest), DataStart(header, |ids|), lengths, payloads, rest)
  {
    var pre := SerializeDataSplit(littleEndian, header, ids, lengths, payloads, rest);
    PayloadsAt(Serialize(littleEndian, header, ids, lengths, payloads, rest), DataStart(header, |ids|), pre, lengths, payloads, rest);
  }

  /** An emitted bank is everything up to the DATA chunk's length, then the payloads, then `rest`. */
  lemma SerializeDataSplit(littleEndian: bool, header: seq<byte>, ids: seq<i32>, lengths: seq<i32>,
                           payloads: seq<seq<byte>>, rest: seq<byte>) returns (pre: seq<byte>)
    requires Reopenable(header, ids, lengths, payloads)
    ensures Serialize(littleEndian, header, ids, lengths, payloads, rest) == pre + Concat(payloads) + rest
    ensures |pre| == DataStart(header, |ids|)
  {
    var front := HeaderChunk(littleEndian, header) + IndexChunk(littleEndian, ids, lengths);
    var tag, size := Ascii("DATA"), EncodeInt(littleEndian, ToInt32(Sum(lengths)));
    SerializeSize(littleEndian, header, ids, lengths, payloads, rest);
    RegroupData(front, tag, size, Concat(payloads), rest);
    pre := front + tag + size;
  }

  /** A chunk the constructor accepted at `p` is the chunk writeBNK writes with that tag, length and body. */
  lemma ChunkOfFile(file: seq<byte>, littleEndian: bool, p: nat, tag: string, size: i32, body: seq<byte>)
    requires |tag| == 4 && forall k | 0 <= k < 4 :: tag[k] as int < 0x80
    requires p + 8 + |body| <= |file|
    requires TagAt(file, p) == tag && IntAt(file, littleEndian, p + 4) == size && file[p + 8..p + 8 + |body|] == body
    ensures file[p..p + 8 + |body|] == Chunk(littleEndian, tag, size, body)
  {
    AsciiLatin(file[p..p + 4], tag);
    EncodeDecodeInt(littleEndian, file[p + 4..p + 8]);
    assert file[p..p + 8 + |body|] == file[p..p + 4] + file[p + 4..p + 8] + file[p + 8..p + 8 + |body|];
  }

  /** The head of a DATA chunk the constructor accepted at `p` is the head writeBNK writes with that length. */
  lemma DataHeadOfFile(file: seq<byte>, littleEndian: bool, p: nat, size: i32)
    requires p + 8 <= |file| && TagAt(file, p) == "DATA" && IntAt(file, littleEndian, p + 4) == size
    ensures file[p..p + 8] == Chunk(littleEndian, "DATA", size, [])
  {
    assert file[p + 8..p + 8] == [];
    ChunkOfFile(file, littleEndian, p, "DATA", size, []);
  }

  /** Record `k` the constructor reads in the table at `at` is written back as the same 12 bytes. */
  lemma RecordOfFile(file: seq<byte>, littleEndian: bool, at: nat, m: nat, k: nat)
    requires k < m && at + 12 * m <= |file|
    ensures RecordBytes(littleEndian, Records(file, littleEndian, at, m)[k]) == file[at + 12 * k..at + 12 * k + 12]
  {
    var p := at + 12 * k;
    EncodeDecodeInt(littleEndian, file[p..p + 4]);
    EncodeDecodeInt(littleEndian, file[p + 4..p + 8]);
    EncodeDecodeInt(littleEndian, file[p + 8..p + 12]);
    assert file[p..p + 12] == file[p..p + 4] + file[p + 4..p + 8] + file[p + 8..p + 12];
  }

  /** Records each written back as the 12 bytes of the file at their place make up the table written back as those bytes. */
  lemma {:induction false} TableOfFile(file: seq<byte>, littleEndian: bool, at: nat, records: seq<Record>)
    requires at + 12 * |records| <= |file|
    requires forall k | 0 <= k < |records| :: RecordBytes(littleEndian, records[k]) == file[at + 12 * k..at + 12 * k + 12]
    ensures TableBytes(littleEndian, records) == file[at..at + 12 * |records|]
  {
    if records != [] {
      var m := |records|;
      TableOfFile(file, littleEndian, at, records[..m - 1]);
      TableLast(littleEndian, records, file, at, m);
    }
  }

  /** The first `m` records the constructor reads at `at` are written back as the same bytes. */
  lemma RecordsOfFile(file: seq<byte>, littleEndian: bool, at: nat, m: nat)
    requires at + 12 * m <= |file|
    ensures TableBytes(littleEndian, Records(file, littleEndian, at, m)) == file[at..at + 12 * m]
  {
    forall k | 0 <= k < m
      ensures RecordBytes(littleEndian, Records(file, littleEndian, at, m)[k]) == file[at + 12 * k..at + 12 * k + 12]
    {
      RecordOfFile(file, littleEndian, at, m, k);
    }
    TableOfFile(file, littleEndian, at, Records(file, littleEndian, at, m));
  }

  /** The table of a non-empty run of records, told by the bytes of its front and of its last record. */
  lemma TableLast(littleEndian: bool, records: seq<Record>, file: seq<byte>, at: nat, m: nat)
    requires |records| == m > 0 && at + 12 * m <= |file|
    requires TableBytes(littleEndian, records[..m - 1]) == file[at..at + 12 * (m - 1)]
    requires RecordBytes(littleEndian, records[m - 1]) == file[at + 12 * (m - 1)..at + 12 * (m - 1) + 12]
    ensures TableBytes(littleEndian, records) == file[at..at + 12 * m]
  {
    var j := at + 12 * (m - 1);
    JoinSlices(file, at, j, j + 12, TableBytes(littleEndian, records[..m - 1]), RecordBytes(littleEndian, records[m - 1]));
  }

  /** Two adjacent slices, whatever they are known as, join into one. */
  lemma JoinSlices(file: seq<byte>, i: int, j: int, k: int, x: seq<byte>, y: seq<byte>)
    requires 0 <= i <= j <= k <= |file| && x == file[i..j] && y == file[j..k]
    ensures x + y == file[i..k]
  {
    SplitAt(file, i, j, k);
  }

  /** A sum of lengths equal to an `int` is not changed by the wrap. */
  lemma SumFits(lengths: seq<i32>, total: i32)
    requires forall k | 0 <= k < |lengths| :: 0 <= lengths[k]
    requires total == Sum(lengths)
    ensures 0 <= Sum(lengths) && ToInt32(Sum(lengths)) == total
  {
    SumNonNegative(lengths);
  }

  /** A slice is the two slices it splits into. */
  lemma SplitAt(file: seq<byte>, i: int, j: int, k: int)
    requires 0 <= i <= j <= k <= |file|
    ensures file[i..k] == file[i..j] + file[j..k]
  {
  }

  /** Payload `k` is the `lengths[k]` bytes of the file from the sum of the lengths before it on, counted from `start`. */
  predicate CutFrom(file: seq<byte>, start: nat, lengths: seq<i32>, payloads: seq<seq<byte>>)
    requires |payloads| == |lengths|
  {
    forall k | 0 <= k < |lengths| :: CutAt(file, start, lengths, payloads, k)
  }

  /** Payload `k` is cut from the file at `start` plus the sum of the lengths before it. */
  predicate CutAt(file: seq<byte>, start: nat, lengths: seq<i32>, payloads: seq<seq<byte>>, k: int)
    requires |payloads| == |lengths| && 0 <= k < |lengths|
  {
    && 0 <= Sum(lengths[..k]) && 0 <= lengths[k] && start + Sum(lengths[..k]) + lengths[k] <= |file|
    && payloads[k] == file[start + Sum(lengths[..k])..start + Sum(lengths[..k]) + lengths[k]]
  }

  /** Dropping the last entry keeps the others cut from the same places. */
  lemma CutFromFront(file: seq<byte>, start: nat, lengths: seq<i32>, payloads: seq<seq<byte>>)
    requires |payloads| == |lengths| > 0 && CutFrom(file, start, lengths, payloads)
    ensures CutFrom(file, start, lengths[..|lengths| - 1], payloads[..|lengths| - 1])
  {
    var m := |lengths| - 1;
    forall k | 0 <= k < m
      ensures CutAt(file, start, lengths[..m], payloads[..m], k)
    {
      assert CutAt(file, start, lengths, payloads, k);
      assert lengths[..m][..k] == lengths[..k];
    }
  }

  /** Payloads cut from the file one after the other, from `start` on, are written back as those bytes. */
  lemma {:induction false} ConcatOfFile(file: seq<byte>, start: nat, lengths: seq<i32>, payloads: seq<seq<byte>>)
    requires |payloads| == |lengths|
    requires forall k | 0 <= k < |lengths| :: 0 <= lengths[k]
    requires start + Sum(lengths) <= |file|
    requires CutFrom(file, start, lengths, payloads)
    ensures 0 <= Sum(lengths) && Concat(payloads) == file[start..start + Sum(lengths)]
  {
    SumNonNegative(lengths);
    if lengths != [] {
      var m := |lengths| - 1;
      var front, cut := lengths[..m], payloads[..m];
      CutFromFront(file, start, lengths, payloads);
      SumNonNegative(front);
      ConcatOfFile(file, start, front, cut);
      var a := Sum(front);
      assert Sum(lengths) == a + lengths[m];
      assert CutAt(file, start, lengths, payloads, m);
      assert payloads[m] == file[start + a..start + a + lengths[m]];
      assert Concat(payloads) == Concat(cut) + payloads[m];
      SplitAt(file, start, start + a, start + a + lengths[m]);
    }
  }

  /** A file made of the three chunk heads, the payloads and trailing bytes is the bank writeBNK emits with them. */
  lemma FileIsSerialize(file: seq<byte>, littleEndian: bool, header: seq<byte>, ids: seq<i32>, lengths: seq<i32>,
                        payloads: seq<seq<byte>>, start: nat, size: nat)
    requires |ids| == |lengths| && start == DataAt(|header|, |ids|) + 8 && start + size <= |file|
    requires file[..8 + |header|] == HeaderChunk(littleEndian, header)
    requires file[8 + |header|..DataAt(|header|, |ids|)] == IndexChunk(littleEndian, ids, lengths)
    requires file[DataAt(|header|, |ids|)..start] == Chunk(littleEndian, "DATA", ToInt32(Sum(lengths)), [])
    requires file[start..start + size] == Concat(payloads)
    ensures Serialize(littleEndian, header, ids, lengths, payloads, file[start + size..]) == file
  {
    var head := Chunk(littleEndian, "DATA", ToInt32(Sum(lengths)), []);
    SplitFile(file, 8 + |header|, DataAt(|header|, |ids|), start, start + size);
    ChunkHead(littleEndian, "DATA", ToInt32(Sum(lengths)), Concat(payloads));
    Regroup4(HeaderChunk(littleEndian, header) + IndexChunk(littleEndian, ids, lengths), head, Concat(payloads), file[start + size..]);
  }

  /** A chunk is its head (tag and length) followed by its body. */
  lemma ChunkHead(littleEndian: bool, tag: string, size: i32, body: seq<byte>)
    ensures Chunk(littleEndian, tag, size, body) == Chunk(littleEndian, tag, size, []) + body
  {
    assert Chunk(littleEndian, tag, size, []) == Ascii(tag) + EncodeInt(littleEndian, size);
  }

  /** Regrouping a part made of two after what comes before it. */
  lemma Regroup4(p: seq<byte>, a: seq<byte>, b: seq<byte>, d: seq<byte>)
    ensures p + (a + b) + d == p + a + b + d
  {
  }

  /** A file is its pieces between four positions, one after the other. */
  lemma SplitFile(file: seq<byte>, i: nat, j: nat, k: nat, l: nat)
    requires i <= j <= k <= l <= |file|
    ensures file == file[..i] + file[i..j] + file[j..k] + file[k..l] + file[l..]
  {
    assert file == file[..i] + file[i..j] + file[j..k] + file[k..l] + file[l..];
  }

  /** The BKHD chunk the constructor accepted at 0 is the BKHD chunk writeBNK writes for that header. */
  lemma HeaderOfFile(file: seq<byte>, littleEndian: bool, header: seq<byte>)
    requires 8 + |header| <= |file| <= INT_MAX
    requires TagAt(file, 0) == "BKHD" && IntAt(file, littleEndian, 4) == |header| && header == file[8..8 + |header|]
    ensures file[..8 + |header|] == HeaderChunk(littleEndian, header)
  {
    ChunkOfFile(file, littleEndian, 0, "BKHD", ToInt32(|header|), header);
    assert file[..8 + |header|] == file[0..8 + |header|];
  }

  /**
   * The DIDX chunk of an accepted bank whose offsets are the running sums of
   * its lengths is the DIDX chunk writeBNK writes for its ids and lengths.
   */
  lemma IndexOfFile(file: seq<byte>, littleEndian: bool, b: Bank)
    requires TablesAt(file, littleEndian, b)
    requires forall k | 0 <= k < |b.ids| :: b.offsets[k] == RunningOffset(b.lengths, k)
    ensures file[8 + |b.header|..DataAt(|b.header|, |b.ids|)] == IndexChunk(littleEndian, b.ids, b.lengths)
  {
    var h, n := |b.header|, |b.ids|;
    var at := DidxAt(h) + 8;
    ParseIndexMeaning(file, littleEndian, at, n);
    forall k | 0 <= k < n
      ensures TableRecords(b.ids, b.lengths)[k] == Records(file, littleEndian, at, n)[k]
    {
    }
    assert TableRecords(b.ids, b.lengths) == Records(file, littleEndian, at, n);
    IndexAt(file, littleEndian, 8 + h, DataAt(h, n), b.ids, b.lengths);
  }

  /** A DIDX chunk in the file whose records are the table of `ids` and `lengths` is the chunk writeBNK writes for them. */
  lemma IndexAt(file: seq<byte>, littleEndian: bool, p: nat, q: nat, ids: seq<i32>, lengths: seq<i32>)
    requires |ids| == |lengths| && q == p + 8 + 12 * |ids| <= |file|
    requires TagAt(file, p) == "DIDX" && IntAt(file, littleEndian, p + 4) == 12 * |ids|
    requires Records(file, littleEndian, p + 8, |ids|) == TableRecords(ids, lengths)
    ensures file[p..q] == IndexChunk(littleEndian, ids, lengths)
  {
    var body := TableBytes(littleEndian, TableRecords(ids, lengths));
    RecordsOfFile(file, littleEndian, p + 8, |ids|);
    assert |body| == 12 * |ids| && file[p + 8..p + 8 + |body|] == body;
    assert IntAt(file, littleEndian, p + 4) == ToInt32(|ids| * 12);
    ChunkOfFile(file, littleEndian, p, "DIDX", ToInt32(|ids| * 12), body);
  }

  /**
   * An accepted bank whose offsets are the running sums of its lengths and
   * whose DATA length is their sum is, byte for byte, the bank writeBNK emits
   * from its header, ids and lengths, the payloads cut from the file one after
   * the other, and the bytes after the last payload.
   */
  lemma SerializeParsed(file: seq<byte>, littleEndian: bool, b: Bank, payloads: seq<seq<byte>>)
    requires Parse(file, littleEndian) == Success(b)
    requires forall k | 0 <= k < |b.lengths| :: 0 <= b.lengths[k]
    requires forall k | 0 <= k < |b.ids| :: b.offsets[k] == RunningOffset(b.lengths, k)
    requires b.dataLength == Sum(b.lengths) && 0 <= b.dataStart + Sum(b.lengths) <= |file|
    requires |payloads| == |b.lengths| && CutFrom(file, b.dataStart, b.lengths, payloads)
    ensures Serialize(littleEndian, b.header, b.ids, b.lengths, payloads, file[b.dataStart + Sum(b.lengths)..]) == file
  {
    ParsedChunks(file, littleEndian, b);
    SerializeChunks(file, littleEndian, b, payloads);
  }

  /** The chunks of an accepted bank with running offsets, in the form SerializeChunks takes them. */
  lemma ParsedChunks(file: seq<byte>, littleEndian: bool, b: Bank)
    requires Parse(file, littleEndian) == Success(b)
    requires forall k | 0 <= k < |b.ids| :: b.offsets[k] == RunningOffset(b.lengths, k)
    ensures ChunksAt(file, littleEndian, b)
  {
    ParseMeaning(file, littleEndian);
    IndexOfFile(file, littleEndian, b);
  }

  /** The BKHD chunk, the DIDX chunk writeBNK would emit and the DATA head of bank `b` are in place in `file`. */
  predicate ChunksAt(file: seq<byte>, littleEndian: bool, b: Bank)
  {
    var h, n := |b.header|, |b.ids|;
    && n == |b.lengths| && b.dataStart == DataAt(h, n) + 8 <= |file| <= INT_MAX
    && TagAt(file, 0) == "BKHD" && IntAt(file, littleEndian, 4) == h && b.header == file[8..8 + h]
    && file[8 + h..DataAt(h, n)] == IndexChunk(littleEndian, b.ids, b.lengths)
    && TagAt(file, DataAt(h, n)) == "DATA" && IntAt(file, littleEndian, DataAt(h, n) + 4) == b.dataLength
  }

  /** SerializeParsed, from the chunks ParseMeaning and IndexOfFile find in an accepted bank. */
  lemma SerializeChunks(file: seq<byte>, littleEndian: bool, b: Bank, payloads: seq<seq<byte>>)
    requires ChunksAt(file, littleEndian, b)
    requires forall k | 0 <= k < |b.lengths| :: 0 <= b.lengths[k]
    requires b.dataLength == Sum(b.lengths) && 0 <= b.dataStart + Sum(b.lengths) <= |file|
    requires |payloads| == |b.lengths| && CutFrom(file, b.dataStart, b.lengths, payloads)
    ensures Serialize(littleEndian, b.header, b.ids, b.lengths, payloads, file[b.dataStart + Sum(b.lengths)..]) == file
  {
    var p := DataAt(|b.header|, |b.ids|);
    HeaderOfFile(file, littleEndian, b.header);
    DataOfFile(file, littleEndian, p, p + 8, b.dataLength, b.lengths, payloads);
    FileIsSerialize(file, littleEndian, b.header, b.ids, b.lengths, payloads, p + 8, Sum(b.lengths));
  }

  /** The DATA chunk at `p`, whose declared length is the sum of the lengths, is its head and the payloads cut after it. */
  lemma DataOfFile(file: seq<byte>, littleEndian: bool, p: nat, start: nat, size: i32, lengths: seq<i32>, payloads: seq<seq<byte>>)
    requires start == p + 8 <= |file| && TagAt(file, p) == "DATA" && IntAt(file, littleEndian, p + 4) == size
    requires forall k | 0 <= k < |lengths| :: 0 <= lengths[k]
    requires size == Sum(lengths) && start + Sum(lengths) <= |file|
    requires |payloads| == |lengths| && CutFrom(file, start, lengths, payloads)
    ensures file[p..start] == Chunk(littleEndian, "DATA", ToInt32(Sum(lengths)), [])
    ensures 0 <= Sum(lengths) && file[start..start + Sum(lengths)] == Concat(payloads)
  {
    SumFits(lengths, size);
    DataHeadOfFile(file, littleEndian, p, size);
    ConcatOfFile(file, start, lengths, payloads);
  }
}
