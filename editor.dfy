/**
 * BNKEditor: opens a SoundBank, lets entries (WEMs) be written out one by one
 * or marked as replaced, and writes the bank back with the replacements in
 * place and everything else as it was.
 *
 * Files are byte sequences: the bank is the content of the opened file, a
 * replacement is the content of the replacement file, and what writeWEM and
 * writeBNK write is returned as their result.
 */
module Editor {
  import opened Wrappers
  import opened JavaTypes
  import opened ByteOrder
  import opened InputStreams
  import opened OutputStreams
  import opened Layout
  import opened Serialization
  import opened Caching

  /** The first position of `id` among `ids`, or `|ids|` when it is not there. */
  function Find(ids: seq<i32>, id: int): (r: nat)
    ensures r <= |ids|
    ensures r < |ids| ==> ids[r] == id
    ensures forall j | 0 <= j < r :: ids[j] != id
  {
    if ids == [] then 0
    else if ids[0] == id then 0
    else 1 + Find(ids[1..], id)
  }

  /**
   * The array position an `index` argument designates: the position itself,
   * or, when `isID`, the first entry with that id; an id that is not there
   * falls back to being used as a position.
   */
  function Locate(ids: seq<i32>, index: i32, isID: bool): (position: int)
    ensures isID && (exists j | 0 <= j < |ids| :: ids[j] == index) ==>
      0 <= position < |ids| && ids[position] == index && forall j | 0 <= j < position :: ids[j] != index
    ensures !(isID && exists j | 0 <= j < |ids| :: ids[j] == index) ==> position == index
  {
    if isID && Find(ids, index) < |ids| then Find(ids, index) else index
  }

  /** Each replaced entry's length is its replacement's; every other entry keeps its original length. */
  predicate Consistent(src: Source, lengths: seq<i32>, replacements: seq<Option<seq<byte>>>)
  {
    && |src.lengths| == |lengths| == |replacements|
    && forall k | 0 <= k < |lengths| ::
         if replacements[k].Some? then |replacements[k].value| == lengths[k] else lengths[k] == src.lengths[k]
  }

  /** The payloads a bank should carry: each replacement, and each other entry's original bytes. */
  function Intended(src: Source, replacements: seq<Option<seq<byte>>>): (payloads: seq<seq<byte>>)
    requires |src.offsets| == |src.lengths| == |replacements|
    requires forall k | 0 <= k < |replacements| && replacements[k].None? :: InFile(src, k)
    ensures |payloads| == |replacements|
  {
    seq(|replacements|, k requires 0 <= k < |replacements| =>
      if replacements[k].Some? then replacements[k].value else Original(src, k))
  }

  /** The input cursor, the cache, `rest` and the outcome after writeBNK. */
  datatype Written = Written(at: Cursor, rest: Option<seq<byte>>, result: Result<seq<byte>, Error>)

  /**
   * writeBNK from the editor's state: with no entries it throws at `ids[0]`;
   * otherwise the DATA loop runs, then whatever remains of the input becomes
   * `rest` (read with `readRest`), and the bank is emitted with the payloads
   * the loop wrote; a `rest` that was never read throws.
   */
  function WriteBank(src: Source, littleEndian: bool, header: seq<byte>, ids: seq<i32>, lengths: seq<i32>,
                     replacements: seq<Option<seq<byte>>>, c: Cursor, rest: Option<seq<byte>>): (w: Written)
    requires Fits(src, c) && |ids| == |lengths| == |replacements| == |c.cache|
  {
    if |ids| == 0 then Written(c, rest, Failure(IndexOutOfBounds(0)))
    else
      var e := Emit(src, replacements, c, |ids|);
      if e.error.Some? then Written(e.at, rest, Failure(e.error.value))
      else if e.at.pos < |src.data| && |src.data| - e.at.pos > INT_MAX then Written(e.at, rest, Failure(TooBig))
      else
        var rest' := if e.at.pos < |src.data| then Some(src.data[e.at.pos..]) else rest;
        var at := if e.at.pos < |src.data| then e.at.(pos := |src.data|) else e.at;
        if rest'.None? then Written(at, rest', Failure(NullPointer))
        else Written(at, rest', Success(Serialize(littleEndian, header, ids, lengths, e.payloads, rest'.value)))
  }

  /**
   * What writeBNK emits is the bank with the intended payloads: every entry
   * that is not replaced lies inside the input, and the header, the ids and
   * the lengths are the editor's, the payloads the replacements or the
   * original bytes, and the trailing bytes `rest`: whatever follows the input
   * cursor once the DATA loop ends (or, when the cursor is at the end, the
   * bytes an earlier writeBNK kept).
   */
  lemma WriteBankPayloads(src: Source, littleEndian: bool, header: seq<byte>, ids: seq<i32>, lengths: seq<i32>,
                          replacements: seq<Option<seq<byte>>>, c: Cursor, rest: Option<seq<byte>>)
    requires Fits(src, c) && |ids| == |lengths| == |replacements| == |c.cache|
    requires Faithful(src, c.cache) && c.pos <= |src.data|
    ensures var w := WriteBank(src, littleEndian, header, ids, lengths, replacements, c, rest);
      w.result.Success? ==>
        && (forall k | 0 <= k < |ids| && replacements[k].None? :: InFile(src, k))
        && w.rest.Some?
        && w.result.value == Serialize(littleEndian, header, ids, lengths, Intended(src, replacements), w.rest.value)
  {
    if |ids| > 0 {
      var e := Emit(src, replacements, c, |ids|);
      EmitPayloads(src, replacements, c, |ids|);
      if e.error.None? {
        assert e.payloads == Intended(src, replacements);
      }
    }
  }

  /**
   * Round trip: a bank writeBNK emits, from a consistent editor, is accepted
   * when it is no longer than `Integer.MAX_VALUE`, and reopening it gives the
   * same header, ids and lengths, offsets that are the running sums of the
   * lengths, and a DATA length that is their sum.
   */
  lemma WriteBankReopens(src: Source, littleEndian: bool, header: seq<byte>, ids: seq<i32>, lengths: seq<i32>,
                         replacements: seq<Option<seq<byte>>>, c: Cursor, rest: Option<seq<byte>>)
    requires Fits(src, c) && |ids| == |lengths| == |replacements| == |c.cache|
    requires Faithful(src, c.cache) && c.pos <= |src.data| && Consistent(src, lengths, replacements)
    requires |header| <= INT_MAX && 12 * |ids| <= INT_MAX
    ensures var w := WriteBank(src, littleEndian, header, ids, lengths, replacements, c, rest);
      w.result.Success? && |w.result.value| <= INT_MAX ==>
        && 0 <= Sum(lengths) <= INT_MAX
        && Parse(w.result.value, littleEndian)
          == Success(Bank(header, ids, RunningOffsets(lengths), lengths, Sum(lengths), DataStart(header, |ids|)))
  {
    var w := WriteBank(src, littleEndian, header, ids, lengths, replacements, c, rest);
    WriteBankPayloads(src, littleEndian, header, ids, lengths, replacements, c, rest);
    if w.result.Success? && |w.result.value| <= INT_MAX {
      var payloads := Intended(src, replacements);
      forall k | 0 <= k < |lengths|
        ensures 0 <= lengths[k] && |payloads[k]| == lengths[k]
      {
      }
      ParseSerializeFits(littleEndian, header, ids, lengths, payloads, w.rest.value);
    }
  }

  /**
   * Round trip with no edits: a bank laid out as writeBNK lays one out (at
   * least one entry, offsets the running sums of the lengths, a DATA length
   * that is their sum) with bytes after its last entry is written back by
   * writeBNK, right after opening it, byte for byte as it was read.
   */
  lemma WriteBankIdentity(file: seq<byte>, littleEndian: bool, b: Bank)
    requires Parse(file, littleEndian) == Success(b) && |b.ids| > 0
    requires forall k | 0 <= k < |b.ids| :: b.offsets[k] == RunningOffset(b.lengths, k)
    requires forall k | 0 <= k < |b.lengths| :: 0 <= b.lengths[k]
    requires b.dataLength == Sum(b.lengths) && b.dataStart + Sum(b.lengths) < |file|
    ensures var none := seq(|b.ids|, _ => None);
      WriteBank(Source(file, b.dataStart, b.offsets, b.lengths), littleEndian, b.header, b.ids, b.lengths,
                none, Cursor(b.dataStart, none), None).result == Success(file)
  {
    var none: seq<Option<seq<byte>>> := seq(|b.ids|, _ => None);
    var src := Source(file, b.dataStart, b.offsets, b.lengths);
    UneditedConsecutive(file, b);
    SumNonNegative(b.lengths);
    UneditedWrite(src, littleEndian, b.header, b.ids);
    SerializeParsed(file, littleEndian, b, Intended(src, none));
  }

  /**
   * The trailing bytes are whatever follows the input cursor once the DATA
   * loop ends, not what follows the DATA chunk: a replaced entry is never
   * read, so with the last entry replaced its original bytes, and the rest of
   * the old DATA chunk, are written again after the new DATA chunk.
   */
  lemma WriteBankRestAfterReplacedLast()
    ensures var data: seq<byte> := [1, 2, 3, 4, 5, 6, 7, 8, 9, 9];
      var w := WriteBank(Source(data, 0, [0, 4], [4, 4]), true, [], [7, 8], [4, 1],
                         [None, Some([0xAA])], Cursor(0, [None, None]), None);
      w.rest == Some([5, 6, 7, 8, 9, 9]) && w.result.Success?
  {
    var data: seq<byte> := [1, 2, 3, 4, 5, 6, 7, 8, 9, 9];
    var src, c := Source(data, 0, [0, 4], [4, 4]), Cursor(0, [None, None]);
    var replacements: seq<Option<seq<byte>>> := [None, Some([0xAA])];
    assert Fill(src, c, 1).at.pos == 4;
    assert Emit(src, replacements, c, 2).at.pos == 4 && Emit(src, replacements, c, 2).error.None?;
    assert data[4..] == [5, 6, 7, 8, 9, 9];
  }

  /**
   * With nothing replaced, writeBNK on such a bank succeeds: every entry lies
   * in the file, the payloads are cut from it one after the other, and the
   * trailing bytes are those after the last entry.
   */
  lemma UneditedWrite(src: Source, littleEndian: bool, header: seq<byte>, ids: seq<i32>)
    requires Consecutive(src) && 0 < |ids| == |src.lengths| && |src.data| <= INT_MAX
    requires 0 <= src.start + Sum(src.lengths) < |src.data|
    ensures var none := seq(|ids|, _ => None);
      var w := WriteBank(src, littleEndian, header, ids, src.lengths, none, Cursor(src.start, none), None);
      && (forall k | 0 <= k < |ids| :: InFile(src, k))
      && CutFrom(src.data, src.start, src.lengths, Intended(src, none))
      && w.result == Success(Serialize(littleEndian, header, ids, src.lengths, Intended(src, none), src.data[src.start + Sum(src.lengths)..]))
  {
    var none: seq<Option<seq<byte>>> := seq(|ids|, _ => None);
    UneditedSucceeds(src, littleEndian, header, ids, src.lengths);
    WriteBankPayloads(src, littleEndian, header, ids, src.lengths, none, Cursor(src.start, none), None);
    UneditedCut(src, none);
  }

  /** With nothing replaced, writeBNK over consecutive entries with bytes after the last one succeeds and keeps those bytes as `rest`. */
  lemma UneditedSucceeds(src: Source, littleEndian: bool, header: seq<byte>, ids: seq<i32>, lengths: seq<i32>)
    requires Consecutive(src) && 0 < |ids| == |lengths| == |src.lengths| && |src.data| <= INT_MAX
    requires 0 <= src.start + Sum(src.lengths) < |src.data|
    ensures var none := seq(|ids|, _ => None);
      var w := WriteBank(src, littleEndian, header, ids, lengths, none, Cursor(src.start, none), None);
      w.result.Success? && w.rest == Some(src.data[src.start + Sum(src.lengths)..])
  {
    var none: seq<Option<seq<byte>>> := seq(|ids|, _ => None);
    UneditedEmit(src, Cursor(src.start, none));
    WriteBankRest(src, littleEndian, header, ids, lengths, none, Cursor(src.start, none), None);
  }

  /** With nothing replaced, the DATA loop over consecutive entries throws nothing and stops right after the last one. */
  lemma UneditedEmit(src: Source, c: Cursor)
    requires Consecutive(src) && Fits(src, c) && c.pos == src.start
    ensures var e := Emit(src, seq(|c.cache|, _ => None), c, |c.cache|);
      e.error.None? && e.at.pos == src.start + Sum(src.lengths)
  {
    EmitConsecutive(src, c, |c.cache|);
    assert src.lengths[..|c.cache|] == src.lengths;
  }

  /** A DATA loop that throws nothing and stops inside a file of at most `Integer.MAX_VALUE` bytes leaves the rest of the file as `rest`, and writeBNK succeeds. */
  lemma WriteBankRest(src: Source, littleEndian: bool, header: seq<byte>, ids: seq<i32>, lengths: seq<i32>,
                      replacements: seq<Option<seq<byte>>>, c: Cursor, rest: Option<seq<byte>>)
    requires Fits(src, c) && 0 < |ids| == |lengths| == |replacements| == |c.cache| && |src.data| <= INT_MAX
    requires Emit(src, replacements, c, |ids|).error.None? && Emit(src, replacements, c, |ids|).at.pos < |src.data|
    ensures var w := WriteBank(src, littleEndian, header, ids, lengths, replacements, c, rest);
      w.result.Success? && w.rest == Some(src.data[Emit(src, replacements, c, |ids|).at.pos..])
  {
  }

  /** The entries of such a bank lie one after the other from where the DATA payloads start. */
  lemma UneditedConsecutive(file: seq<byte>, b: Bank)
    requires |b.ids| == |b.offsets| == |b.lengths| && 0 <= b.dataStart && |file| <= INT_MAX
    requires forall k | 0 <= k < |b.ids| :: b.offsets[k] == RunningOffset(b.lengths, k)
    requires forall k | 0 <= k < |b.lengths| :: 0 <= b.lengths[k]
    requires b.dataStart + Sum(b.lengths) <= |file|
    ensures Consecutive(Source(file, b.dataStart, b.offsets, b.lengths))
  {
    var src := Source(file, b.dataStart, b.offsets, b.lengths);
    forall k | 0 <= k < |b.lengths|
      ensures Target(src, k) == src.start + Sum(src.lengths[..k])
    {
      RunningOffsetsExact(b.lengths, k, k);
      SumPrefixMonotone(b.lengths, k, |b.lengths|);
      assert b.lengths[..|b.lengths|] == b.lengths;
    }
  }

  /** With nothing replaced, the intended payloads of consecutive entries are cut from the file one after the other. */
  lemma UneditedCut(src: Source, none: seq<Option<seq<byte>>>)
    requires Consecutive(src) && |none| == |src.lengths| && forall k | 0 <= k < |none| :: none[k].None?
    ensures forall k | 0 <= k < |none| :: InFile(src, k)
    ensures 0 <= src.start && CutFrom(src.data, src.start, src.lengths, Intended(src, none))
  {
    forall k | 0 <= k < |none|
      ensures InFile(src, k)
    {
      ConsecutiveEntry(src, k);
    }
    forall k | 0 <= k < |none|
      ensures CutAt(src.data, src.start, src.lengths, Intended(src, none), k)
    {
      UneditedEntry(src, none, k);
    }
  }

  /** Entry `k`'s intended payload, with nothing replaced, is cut from the file at the sum of the lengths before it. */
  lemma UneditedEntry(src: Source, none: seq<Option<seq<byte>>>, k: int)
    requires Consecutive(src) && |none| == |src.lengths| && forall j | 0 <= j < |none| :: none[j].None?
    requires forall j | 0 <= j < |none| :: InFile(src, j)
    requires 0 <= k < |none|
    ensures 0 <= src.start && CutAt(src.data, src.start, src.lengths, Intended(src, none), k)
  {
    ConsecutiveEntry(src, k);
  }

  /** The `int` sum of the lengths, as the constructor's and writeBNK's `calc` loops add them up. */
  method SumLengths(lengths: seq<i32>) returns (total: i32)
    ensures total == ToInt32(Sum(lengths))
  {
    total := 0;
    for i := 0 to |lengths|
      invariant total == ToInt32(Sum(lengths[..i]))
    {
      assert lengths[..i + 1][..i] == lengths[..i];
      WrapAdd(Sum(lengths[..i]), lengths[i]);
      total := ToInt32(total as int + lengths[i]);
    }
    assert lengths[..|lengths|] == lengths;
  }

  /** The BKHD chunk, read from the start of the file. */
  method ReadHeaderChunk(input: InputStream) returns (r: Result<seq<byte>, Error>)
    requires input.Valid() && input.pos == 0
    modifies input
    ensures input.Valid()
    ensures r == ParseHeaderChunk(input.data, input.littleEndian)
    ensures r.Success? ==> input.pos == 8 + |r.value|
  {
    var magic :- input.ReadMagic();
    if magic != "BKHD" {
      return Failure(MissingSection("BKHD"));
    }
    var bkhdLength :- input.ReadInt();
    r := input.Read(bkhdLength);
  }

  /** The three `readInt`s of record `i` of the `n` at `at`: the record `Records` holds there, or too few bytes. */
  method ReadRecord(input: InputStream, ghost at: nat, ghost n: nat, ghost i: nat) returns (r: Result<Record, Error>)
    requires input.Valid() && input.pos == at + 12 * i && i < n
    modifies input
    ensures input.Valid()
    ensures var records := Records(input.data, input.littleEndian, at, Available(input.data, at, n));
      r == if |records| <= i then Failure(NotThatLong) else Success(records[i])
    ensures r.Success? ==> input.pos == old(input.pos) + 12
  {
    RecordAt(input.data, input.littleEndian, at, n, i);
    var id :- input.ReadInt();
    var offset :- input.ReadInt();
    var length :- input.ReadInt();
    r := Success(Record(id, offset, length));
  }

  /** The number of whole records the file holds from `at` on decides whether record `i` is there. */
  lemma AvailableRecord(file: seq<byte>, at: nat, n: nat, i: nat)
    requires at <= |file| && i < n
    ensures i < Available(file, at, n) <==> at + 12 * (i + 1) <= |file|
  {
    if at + 12 * n > |file| {
      var q, m := (|file| - at) / 12, (|file| - at) % 12;
      assert |file| - at == 12 * q + m;
    }
  }

  /** One more record checked: the loop stops without it, rejects an offset below the previous one, and otherwise appends it. */
  lemma CheckIndexNext(records: seq<Record>, i: nat, x: Index)
    requires CheckIndex(records, i) == Success(x)
    ensures |x.ids| == |x.offsets| == |x.lengths| == i
    ensures CheckIndex(records, i + 1) ==
      if |records| <= i then Failure(NotThatLong)
      else if i > 0 && records[i].offset < x.offsets[i - 1] then Failure(CorruptOffsets(i, records[i].offset, x.offsets[i - 1]))
      else Success(Index(x.ids + [records[i].id], x.offsets + [records[i].offset], x.lengths + [records[i].length]))
  {
  }

  /** Record `i` of the table at `at` is there when the file holds it, and is the three `int`s stored there. */
  lemma RecordAt(file: seq<byte>, littleEndian: bool, at: nat, n: nat, i: nat)
    requires at <= |file| && i < n
    ensures var records := Records(file, littleEndian, at, Available(file, at, n));
      && (i < |records| <==> at + 12 * i + 12 <= |file|)
      && (i < |records| ==> records[i] == Record(IntAt(file, littleEndian, at + 12 * i), IntAt(file, littleEndian, at + 12 * i + 4),
                                                 IntAt(file, littleEndian, at + 12 * i + 8)))
  {
    AvailableRecord(file, at, n, i);
  }

  /** Once the DIDX loop fails, the later records do not matter: the same exception ends it. */
  lemma {:induction false} CheckIndexStops(records: seq<Record>, i: nat, n: nat)
    requires i <= n && CheckIndex(records, i).Failure?
    ensures CheckIndex(records, n) == CheckIndex(records, i)
    decreases n - i
  {
    if i < n {
      CheckIndexStops(records, i, n - 1);
    }
  }

  /** The DIDX loop after records `0..i-1` of the `n` at `at`: `CheckIndex` over `i` records, with the cursor after them when it succeeded. */
  ghost predicate IndexedAt(input: InputStream, at: nat, n: nat, i: int, r: Result<Index, Error>)
    reads input
  {
    && input.Valid() && at <= |input.data| && 0 <= i <= n
    && CheckIndex(Records(input.data, input.littleEndian, at, Available(input.data, at, n)), i) == r
    && (r.Success? ==> input.pos == at + 12 * i)
  }

  /**
   * One turn of the DIDX loop: read record `i` and reject an offset below the
   * previous record's.
   */
  method ReadIndexEntry(input: InputStream, ghost at: nat, n: nat, i: nat, x: Index) returns (r: Result<Index, Error>)
    requires i < n && IndexedAt(input, at, n, i, Success(x))
    modifies input
    ensures IndexedAt(input, at, n, i + 1, r)
  {
    CheckIndexNext(Records(input.data, input.littleEndian, at, Available(input.data, at, n)), i, x);
    var record :- ReadRecord(input, at, n, i);
    if i > 0 && record.offset < x.offsets[i - 1] {
      return Failure(CorruptOffsets(i, record.offset, x.offsets[i - 1]));
    }
    r := Success(Index(x.ids + [record.id], x.offsets + [record.offset], x.lengths + [record.length]));
  }

  /** The DIDX loop over `n` records from `at`: the index `ParseIndex` reads there. */
  method ReadRecords(input: InputStream, ghost at: nat, n: nat) returns (r: Result<Index, Error>)
    requires input.Valid() && input.pos == at
    modifies input
    ensures input.Valid()
    ensures r == ParseIndex(input.data, input.littleEndian, at, n)
    ensures r.Success? ==> input.pos == at + 12 * n
  {
    ghost var records := Records(input.data, input.littleEndian, at, Available(input.data, at, n));
    var x := Index([], [], []);
    for i := 0 to n
      invariant IndexedAt(input, at, n, i, Success(x))
    {
      var next := ReadIndexEntry(input, at, n, i, x);
      if next.Failure? {
        CheckIndexStops(records, i + 1, n);
        return next;
      }
      x := next.value;
    }
    r := Success(x);
  }

  /** The DIDX chunk at `didx`: the tag, a length that is a whole number of records, and the records. */
  method ReadIndexChunk(input: InputStream, didx: nat) returns (r: Result<Index, Error>)
    requires input.Valid() && input.pos == didx
    modifies input
    ensures input.Valid()
    ensures r == ParseIndexChunk(input.data, input.littleEndian, didx)
    ensures r.Success? ==> input.pos == didx + 8 + 12 * |r.value.ids|
  {
    var magic :- input.ReadMagic();
    if magic != "DIDX" {
      return Failure(MissingSection("DIDX"));
    }
    r := ReadIndexBody(input, didx);
  }

  /** The DIDX chunk after its tag: the length, its check against the record size, and the records. */
  method ReadIndexBody(input: InputStream, didx: nat) returns (r: Result<Index, Error>)
    requires input.Valid() && input.pos == didx + 4 <= |input.data| && TagAt(input.data, didx) == "DIDX"
    modifies input
    ensures input.Valid()
    ensures r == ParseIndexChunk(input.data, input.littleEndian, didx)
    ensures r.Success? ==> input.pos == didx + 8 + 12 * |r.value.ids|
  {
    var didxLength :- input.ReadInt();
    if didxLength % 12 != 0 {
      return Failure(CorruptIndexLength(didxLength));
    }
    var numWEMs := didxLength / 12;
    if numWEMs < 0 {
      return Failure(NegativeArraySize(numWEMs));
    }
    r := ReadRecords(input, didx + 8, numWEMs);
  }

  /** The DATA chunk header at `data`: the tag, the declared length, and the check against the `calc` loop. */
  method ReadDataChunk(input: InputStream, data: nat, lengths: seq<i32>) returns (r: Result<i32, Error>)
    requires input.Valid() && input.pos == data
    modifies input
    ensures input.Valid()
    ensures r == ParseDataChunk(input.data, input.littleEndian, data, lengths)
    ensures r.Success? ==> input.pos == data + 8
  {
    var magic :- input.ReadMagic();
    if magic != "DATA" {
      return Failure(MissingSection("DATA"));
    }
    var dataLength :- input.ReadInt();
    var total := SumLengths(lengths);
    if dataLength < total {
      return Failure(CorruptData(total, dataLength));
    }
    r := Success(dataLength);
  }

  /** Appending is associative. */
  lemma AppendAssoc(a: seq<byte>, b: seq<byte>, c: seq<byte>)
    ensures a + b + c == a + (b + c)
  {
  }

  /** One more payload written after the others extends their concatenation. */
  lemma ConcatAppend(start: seq<byte>, payloads: seq<seq<byte>>, payload: seq<byte>)
    ensures start + Concat(payloads) + payload == start + Concat(payloads + [payload])
  {
    assert (payloads + [payload])[..|payloads|] == payloads;
    AppendAssoc(start, Concat(payloads), payload);
  }

  /** A chunk's tag, length and body written one after the other make up the chunk. */
  lemma ChunkAppend(littleEndian: bool, pre: seq<byte>, tag: string, size: i32, body: seq<byte>)
    ensures pre + Ascii(tag) + EncodeInt(littleEndian, size) + body == pre + Chunk(littleEndian, tag, size, body)
  {
    RegroupData(pre, Ascii(tag), EncodeInt(littleEndian, size), body, []);
    assert pre + (Ascii(tag) + EncodeInt(littleEndian, size) + body) + [] == pre + Chunk(littleEndian, tag, size, body);
  }

  /** One DIDX record as writeBNK writes it: three `writeInt`s. */
  method WriteRecord(output: OutputStream, id: i32, offset: i32, length: i32)
    modifies output
    ensures output.out == old(output.out) + RecordBytes(output.littleEndian, Record(id, offset, length))
  {
    output.WriteInt(id);
    output.WriteInt(offset);
    output.WriteInt(length);
  }

  /** One more record extends the written table, and the running offset grows by the record's length, wrapping as an `int`. */
  lemma TableStep(littleEndian: bool, ids: seq<i32>, lengths: seq<i32>, i: nat, start: seq<byte>, written: seq<byte>)
    requires |ids| == |lengths| && i < |ids|
    requires written == start + TableBytes(littleEndian, TableRecords(ids, lengths)[..i])
    ensures written + RecordBytes(littleEndian, Record(ids[i], RunningOffset(lengths, i), lengths[i]))
            == start + TableBytes(littleEndian, TableRecords(ids, lengths)[..i + 1])
    ensures RunningOffset(lengths, i + 1) == ToInt32(RunningOffset(lengths, i) as int + lengths[i])
    ensures RunningOffset(lengths, 0) == 0
  {
    var records := TableRecords(ids, lengths);
    assert records[..i + 1][..i] == records[..i];
    AppendAssoc(start, TableBytes(littleEndian, records[..i]), RecordBytes(littleEndian, records[i]));
    assert lengths[..i + 1][..i] == lengths[..i];
    assert lengths[..0] == [];
    WrapAdd(Sum(lengths[..i]), lengths[i]);
  }

  /** The sizes of a bank accepted from a file of `size` bytes: header and index fit an `int`, and the data starts inside the file. */
  predicate Sized(bank: Bank, size: int)
  {
    && |bank.header| <= INT_MAX && 12 * |bank.ids| <= INT_MAX
    && |bank.ids| == |bank.offsets| == |bank.lengths|
    && 0 <= bank.dataStart <= size <= INT_MAX
  }

  /** An accepted bank has those sizes. */
  lemma ParseSized(file: seq<byte>, littleEndian: bool)
    requires Parse(file, littleEndian).Success?
    ensures Sized(Parse(file, littleEndian).value, |file|)
  {
    ParseMeaning(file, littleEndian);
  }

  /** The three chunk reads of the constructor, from the start of the file: the layout `Parse` describes. */
  method ReadBank(input: InputStream) returns (r: Result<Bank, Error>)
    requires input.Valid() && input.pos == 0 && |input.data| <= INT_MAX
    modifies input
    ensures input.Valid()
    ensures r == Parse(input.data, input.littleEndian)
    ensures r.Success? ==> input.pos == r.value.dataStart
  {
    var bkhd :- ReadHeaderChunk(input);
    r := ReadTables(input, bkhd);
  }

  /** The DIDX and DATA chunks after the header `bkhd`, and where the entry bytes start. */
  method ReadTables(input: InputStream, bkhd: seq<byte>) returns (r: Result<Bank, Error>)
    requires input.Valid() && input.pos == DidxAt(|bkhd|)
    modifies input
    ensures input.Valid()
    ensures r == ParseTables(input.data, input.littleEndian, bkhd)
    ensures r.Success? ==> input.pos == r.value.dataStart
  {
    var index :- ReadIndexChunk(input, DidxAt(|bkhd|));
    r := ReadDataStart(input, bkhd, index);
  }

  /** The DATA chunk after the header `bkhd` and the index `index`, and where the entry bytes start. */
  method ReadDataStart(input: InputStream, bkhd: seq<byte>, index: Index) returns (r: Result<Bank, Error>)
    requires input.Valid() && input.pos == DataAt(|bkhd|, |index.ids|)
    modifies input
    ensures input.Valid()
    ensures r == (var dataLength :- ParseDataChunk(input.data, input.littleEndian, DataAt(|bkhd|, |index.ids|), index.lengths);
                  Success(Bank(bkhd, index.ids, index.offsets, index.lengths, dataLength, DataAt(|bkhd|, |index.ids|) + 8)))
    ensures r.Success? ==> input.pos == r.value.dataStart
  {
    var dataLength :- ReadDataChunk(input, DataAt(|bkhd|, |index.ids|), index.lengths);
    var offsetAbsolute := input.GetCurrentPosition();
    r := Success(Bank(bkhd, index.ids, index.offsets, index.lengths, dataLength, offsetAbsolute));
  }

  class BNKEditor {
    /** The opened bank, read forward only. */
    const input: InputStream
    /** The BKHD chunk's bytes. */
    const bkhd: seq<byte>
    const numWEMs: nat
    /** The DIDX records' fields, in file order. */
    const ids: seq<i32>
    const offsets: seq<i32>
    const originalLengths: seq<i32>
    /** The length each entry will have in the written bank. */
    const replacedLengths: array<i32>
    /** The replacement of each entry, `None` when it keeps its bytes. */
    const replacements: array<Option<seq<byte>>>
    /** Each entry's original bytes once read, `None` until then. */
    const bufferedWEMs: array<Option<seq<byte>>>
    /** Where the DATA chunk's payloads start in the opened file. */
    const offsetAbsolute: i32
    /** The DATA chunk's declared length. */
    const dataLength: i32
    /** The bytes after the last payload, once read. */
    var rest: Option<seq<byte>>

    /** What the caching walk reads. */
    function Src(): Source
    {
      Source(input.data, offsetAbsolute, offsets, originalLengths)
    }

    /** The sizes the constructor fixes: a header and an index that fit an `int`, and one slot per entry in every array. */
    ghost predicate Shaped()
      reads this
    {
      && |bkhd| <= INT_MAX && 12 * numWEMs <= INT_MAX
      && |ids| == |offsets| == |originalLengths| == numWEMs
      && replacedLengths.Length == replacements.Length == bufferedWEMs.Length == numWEMs
      && replacements != bufferedWEMs
    }

    ghost predicate Valid()
      reads this, input, replacedLengths, replacements, bufferedWEMs
    {
      && input.Valid()
      && Shaped()
      && Consistent(Src(), replacedLengths[..], replacements[..])
      && Faithful(Src(), bufferedWEMs[..])
    }

    /** The state right after the constructor read `bank` from `file`: nothing replaced, nothing cached, the cursor at the data. */
    ghost predicate Opened(file: seq<byte>, littleEndian: bool, bank: Bank)
      reads this, input, replacedLengths, replacements, bufferedWEMs
    {
      && input.data == file && input.littleEndian == littleEndian && input.pos == bank.dataStart
      && bkhd == bank.header && ids == bank.ids && offsets == bank.offsets && originalLengths == bank.lengths
      && numWEMs == |bank.ids| && dataLength == bank.dataLength && offsetAbsolute == bank.dataStart
      && replacedLengths[..] == bank.lengths
      && (forall k | 0 <= k < replacements.Length :: replacements[k].None?)
      && (forall k | 0 <= k < bufferedWEMs.Length :: bufferedWEMs[k].None?)
      && rest.None?
    }

    /**
     * The editor over `input` after its layout was read as `bank`: nothing
     * replaced, nothing cached, each entry's new length its original one.
     */
    constructor Init(input: InputStream, bank: Bank)
      requires input.Valid() && input.pos == bank.dataStart && Sized(bank, |input.data|)
      ensures this.input == input && Valid() && Opened(input.data, input.littleEndian, bank)
      ensures fresh(replacedLengths) && fresh(replacements) && fresh(bufferedWEMs)
    {
      var n := |bank.ids|;
      this.input := input;
      bkhd := bank.header;
      numWEMs := n;
      ids, offsets, originalLengths := bank.ids, bank.offsets, bank.lengths;
      replacedLengths := new i32[n](k requires 0 <= k < n => bank.lengths[k]);
      replacements := new Option<seq<byte>>[n](_ => None);
      bufferedWEMs := new Option<seq<byte>>[n](_ => None);
      dataLength := bank.dataLength;
      offsetAbsolute := bank.dataStart as i32;
      rest := None;
      new;
      assert replacements[..] == seq(n, _ => None);
      assert bufferedWEMs[..] == seq(n, _ => None);
    }

    /**
     * The constructor: it throws exactly when the layout is rejected, with
     * the same exception, and otherwise holds what was read, with nothing
     * replaced or cached yet.
     */
    static method Open(file: seq<byte>, littleEndian: bool) returns (r: Result<BNKEditor, Error>)
      ensures Parse(file, littleEndian).Failure? ==> r == Failure(Parse(file, littleEndian).error)
      ensures Parse(file, littleEndian).Success? ==>
        && r.Success? && fresh(r.value) && fresh(r.value.input)
        && r.value.Valid() && r.value.Opened(file, littleEndian, Parse(file, littleEndian).value)
    {
      if |file| > INT_MAX {
        return Failure(TooBig);
      }
      var input := new InputStream(file, littleEndian);
      var bank :- ReadBank(input);
      ParseSized(file, littleEndian);
      var editor := new BNKEditor.Init(input, bank);
      r := Success(editor);
    }

    /** `getIDs`: the DIDX ids in file order, one per entry. */
    function GetIDs(): (r: seq<i32>)
      requires Valid()
      reads this, input, replacedLengths, replacements, bufferedWEMs
      ensures |r| == numWEMs
    {
      ids
    }

    /** `getReplacements`: per entry, the replacement writeBNK will use, whose length is the entry's new length. */
    function GetReplacements(): (r: seq<Option<seq<byte>>>)
      requires Valid()
      reads this, input, replacedLengths, replacements, bufferedWEMs
      ensures |r| == numWEMs
      ensures forall k | 0 <= k < |r| ::
        if r[k].Some? then |r[k].value| == replacedLengths[k] else replacedLengths[k] == originalLengths[k]
    {
      replacements[..]
    }

    /** The position loop shared by writeWEM, replace and cancelReplacement. */
    method Select(index: i32, isID: bool) returns (position: int)
      requires Valid()
      ensures position == Locate(ids, index, isID)
    {
      position := index;
      if isID {
        for i := 0 to numWEMs
          invariant position == index
          invariant forall j | 0 <= j < i :: ids[j] != index
        {
          if ids[i] == index {
            position := i;
            break;
          }
        }
      }
    }

    /**
     * The caching walk over entries `0..k-1` (the inner loop of writeWEM and
     * writeBNK): the cursor, the cache and the exception are those of `Fill`.
     */
    method CacheThrough(k: int) returns (error: Option<Error>)
      requires Valid() && 0 <= k <= numWEMs
      modifies input, bufferedWEMs
      ensures Valid()
      ensures var p := Fill(Src(), old(Cursor(input.pos, bufferedWEMs[..])), k);
        input.pos == p.at.pos && bufferedWEMs[..] == p.at.cache && error == p.error
    {
      ghost var c := Cursor(input.pos, bufferedWEMs[..]);
      FillFaithful(Src(), c, k);
      for i := 0 to k
        invariant FilledAt(c, i, None)
      {
        error := CacheEntry(c, i);
        if error.Some? {
          FillStops(Src(), c, i + 1, k);
          return;
        }
      }
      error := None;
    }

    /** The walk after entries `0..i-1`, started from cursor `c`: the state `Fill` describes. */
    ghost predicate FilledAt(c: Cursor, i: int, error: Option<Error>)
      reads this, input, bufferedWEMs
    {
      && input.Valid() && Shaped() && Fits(Src(), c) && 0 <= i <= numWEMs
      && Fill(Src(), c, i) == Progress(Cursor(input.pos, bufferedWEMs[..]), error)
    }

    /**
     * One turn of the walk: when the cursor has not passed entry `i`'s start,
     * skip to it and read the entry's original length into its cache slot.
     */
    method CacheEntry(ghost c: Cursor, i: nat) returns (error: Option<Error>)
      requires i < numWEMs && FilledAt(c, i, None)
      modifies input, bufferedWEMs
      ensures FilledAt(c, i + 1, error)
    {
      var target := ToInt32(offsets[i] as int + offsetAbsolute);
      if input.GetCurrentPosition() <= target {
        var skipped := input.SkipUntil(target);
        if skipped.Fail? {
          return Some(skipped.error);
        }
        var bytes := input.Read(originalLengths[i]);
        if bytes.Failure? {
          return Some(bytes.error);
        }
        bufferedWEMs[i] := Some(bytes.value);
      }
      error := None;
    }

    /**
     * `writeWEM`: walk the entries up to the designated one, then return its
     * cached bytes. A negative position throws at once; a position past the
     * last entry throws after walking all of them; an entry the walk did not
     * read throws when written.
     */
    method WriteWEM(index: i32, isID: bool) returns (r: Result<seq<byte>, Error>)
      requires Valid()
      modifies input, bufferedWEMs
      ensures Valid()
      ensures var position := Locate(ids, index, isID);
        var c := old(Cursor(input.pos, bufferedWEMs[..]));
        if position < 0 then
          r == Failure(IndexOutOfBounds(position)) && input.pos == c.pos && bufferedWEMs[..] == c.cache
        else
          var p := Fill(Src(), c, if position < numWEMs then position + 1 else numWEMs);
          && input.pos == p.at.pos && bufferedWEMs[..] == p.at.cache
          && r == if p.error.Some? then Failure(p.error.value)
                  else if position >= numWEMs then Failure(IndexOutOfBounds(numWEMs))
                  else if p.at.cache[position].None? then Failure(NullPointer)
                  else Success(p.at.cache[position].value)
      ensures r.Success? ==> var position := Locate(ids, index, isID);
        0 <= position < numWEMs && InFile(Src(), position) && r.value == Original(Src(), position)
    {
      var position := Select(index, isID);
      if position < 0 {
        return Failure(IndexOutOfBounds(position));
      }
      if position >= numWEMs {
        var error := CacheThrough(numWEMs);
        if error.Some? {
          return Failure(error.value);
        }
        return Failure(IndexOutOfBounds(numWEMs));
      }
      var error := CacheThrough(position + 1);
      if error.Some? {
        return Failure(error.value);
      }
      if bufferedWEMs[position].None? {
        return Failure(NullPointer);
      }
      r := Success(bufferedWEMs[position].value);
    }

    /**
     * `replace`: mark the designated entry as replaced by `content`, whose
     * length becomes the entry's length; a replacement longer than
     * `Integer.MAX_VALUE` or a position outside the arrays throws and changes
     * nothing.
     */
    method Replace(index: i32, isID: bool, content: seq<byte>) returns (r: Outcome)
      requires Valid()
      modifies replacements, replacedLengths
      ensures Valid()
      ensures var position := Locate(ids, index, isID);
        r == if |content| > INT_MAX then Fail(TooBig)
             else if position < 0 || position >= numWEMs then Fail(IndexOutOfBounds(position))
             else Pass
      ensures r.Pass? ==> var position := Locate(ids, index, isID);
        && replacements[..] == old(replacements[..])[position := Some(content)]
        && replacedLengths[..] == old(replacedLengths[..])[position := |content|]
      ensures r.Fail? ==> replacements[..] == old(replacements[..]) && replacedLengths[..] == old(replacedLengths[..])
    {
      if |content| > INT_MAX {
        return Fail(TooBig);
      }
      var position := Select(index, isID);
      if position < 0 || position >= numWEMs {
        return Fail(IndexOutOfBounds(position));
      }
      replacements[position] := Some(content);
      replacedLengths[position] := |content|;
      r := Pass;
    }

    /**
     * `cancelReplacement`: the designated entry keeps its own bytes and
     * length again; for an entry that was not replaced nothing changes.
     */
    method CancelReplacement(index: i32, isID: bool) returns (r: Outcome)
      requires Valid()
      modifies replacements, replacedLengths
      ensures Valid()
      ensures var position := Locate(ids, index, isID);
        r == if position < 0 || position >= numWEMs then Fail(IndexOutOfBounds(position)) else Pass
      ensures r.Pass? ==> var position := Locate(ids, index, isID);
        && replacements[..] == old(replacements[..])[position := None]
        && replacedLengths[..] == old(replacedLengths[..])[position := originalLengths[position]]
        && (old(replacements[position]).None? ==>
              replacements[..] == old(replacements[..]) && replacedLengths[..] == old(replacedLengths[..]))
      ensures r.Fail? ==> replacements[..] == old(replacements[..]) && replacedLengths[..] == old(replacedLengths[..])
    {
      var position := Select(index, isID);
      if position < 0 || position >= numWEMs {
        return Fail(IndexOutOfBounds(position));
      }
      replacements[position] := None;
      replacedLengths[position] := originalLengths[position];
      r := Pass;
    }

    /** The DIDX records of writeBNK: the first written before the loop with offset 0, then one per entry with the running `currentAddress`. */
    static method WriteTable(output: OutputStream, ids: seq<i32>, lengths: seq<i32>)
      requires |ids| == |lengths| > 0
      modifies output
      ensures output.out == old(output.out) + TableBytes(output.littleEndian, TableRecords(ids, lengths))
    {
      ghost var start := output.out;
      ghost var records := TableRecords(ids, lengths);
      assert records[..0] == [];
      TableStep(output.littleEndian, ids, lengths, 0, start, output.out);
      WriteRecord(output, ids[0], 0, lengths[0]);
      var currentAddress := lengths[0];
      for i := 1 to |ids|
        invariant output.out == start + TableBytes(output.littleEndian, records[..i])
        invariant currentAddress == RunningOffset(lengths, i)
      {
        TableStep(output.littleEndian, ids, lengths, i, start, output.out);
        WriteRecord(output, ids[i], currentAddress, lengths[i]);
        currentAddress := ToInt32(currentAddress as int + lengths[i]);
      }
      assert records[..|ids|] == records;
    }

    /** The DATA loop after entries `0..i-1`, started from cursor `c` with `start` written: the state `Emit` describes. */
    ghost predicate EmittedAt(output: OutputStream, c: Cursor, start: seq<byte>, i: int, error: Option<Error>)
      reads this, input, replacedLengths, replacements, bufferedWEMs, output
    {
      && Valid() && Fits(Src(), c) && 0 <= i <= numWEMs
      && var e := Emit(Src(), replacements[..], c, i);
        && input.pos == e.at.pos && bufferedWEMs[..] == e.at.cache && error == e.error
        && output.out == start + Concat(e.payloads)
    }

    /** A DATA loop that threw stays where it stopped. */
    lemma EmittedStops(output: OutputStream, c: Cursor, start: seq<byte>, i: int, error: Option<Error>)
      requires EmittedAt(output, c, start, i, error) && error.Some?
      ensures EmittedAt(output, c, start, numWEMs, error)
    {
      EmitStops(Src(), replacements[..], c, i, numWEMs);
    }

    /**
     * One turn of the DATA loop: entry `i`'s replacement when it has one,
     * otherwise its cache slot after walking entries `0..i`.
     */
    method WriteEntry(output: OutputStream, ghost c: Cursor, ghost start: seq<byte>, i: nat) returns (error: Option<Error>)
      requires i < numWEMs && EmittedAt(output, c, start, i, None)
      modifies input, bufferedWEMs, output
      ensures EmittedAt(output, c, start, i + 1, error)
    {
      if replacements[i].Some? {
        WriteReplacement(output, c, start, i);
        error := None;
      } else {
        error := WriteCached(output, c, start, i);
      }
    }

    /** A replaced entry: its replacement's bytes are written. */
    method WriteReplacement(output: OutputStream, ghost c: Cursor, ghost start: seq<byte>, i: nat)
      requires i < numWEMs && EmittedAt(output, c, start, i, None) && replacements[i].Some?
      modifies output
      ensures EmittedAt(output, c, start, i + 1, None)
    {
      ghost var e := Emit(Src(), replacements[..], c, i);
      ConcatAppend(start, e.payloads, replacements[i].value);
      output.Write(replacements[i].value);
    }

    /** An entry that is not replaced: walk entries `0..i`, then write its cache slot, which throws when it was never filled. */
    method WriteCached(output: OutputStream, ghost c: Cursor, ghost start: seq<byte>, i: nat) returns (error: Option<Error>)
      requires i < numWEMs && EmittedAt(output, c, start, i, None) && replacements[i].None?
      modifies input, bufferedWEMs, output
      ensures EmittedAt(output, c, start, i + 1, error)
    {
      ghost var e := Emit(Src(), replacements[..], c, i);
      error := CacheThrough(i + 1);
      if error.Some? {
        return;
      }
      if bufferedWEMs[i].None? {
        return Some(NullPointer);
      }
      ConcatAppend(start, e.payloads, bufferedWEMs[i].value);
      output.Write(bufferedWEMs[i].value);
    }

    /**
     * The DATA loop of writeBNK: the cursor, the cache, the payloads written
     * and the exception are those of `Emit`.
     */
    method WriteData(output: OutputStream) returns (error: Option<Error>)
      requires Valid()
      modifies input, bufferedWEMs, output
      ensures EmittedAt(output, old(Cursor(input.pos, bufferedWEMs[..])), old(output.out), numWEMs, error)
    {
      ghost var c := Cursor(input.pos, bufferedWEMs[..]);
      ghost var start := output.out;
      for i := 0 to numWEMs
        invariant EmittedAt(output, c, start, i, None)
      {
        error := WriteEntry(output, c, start, i);
        if error.Some? {
          EmittedStops(output, c, start, i + 1, error);
          return;
        }
      }
      error := None;
    }

    /** The BKHD chunk and the DIDX chunk of writeBNK; with no entries, reading `ids[0]` throws after the DIDX length. */
    method WriteHeaderAndIndex(output: OutputStream) returns (ok: bool)
      requires Valid()
      modifies output
      ensures ok <==> numWEMs > 0
      ensures ok ==> output.out == old(output.out) + HeaderChunk(output.littleEndian, bkhd)
                                   + IndexChunk(output.littleEndian, ids, replacedLengths[..])
    {
      ghost var start := output.out;
      output.WriteString("BKHD");
      output.WriteInt(|bkhd|);
      output.Write(bkhd);
      ChunkAppend(output.littleEndian, start, "BKHD", ToInt32(|bkhd|), bkhd);
      ghost var header := output.out;
      output.WriteString("DIDX");
      output.WriteInt(ToInt32(numWEMs * 12));
      if numWEMs == 0 {
        return false;
      }
      WriteTable(output, ids, replacedLengths[..]);
      ChunkAppend(output.littleEndian, header, "DIDX", ToInt32(numWEMs * 12), TableBytes(output.littleEndian, TableRecords(ids, replacedLengths[..])));
      ok := true;
    }

    /** The DATA chunk's tag and length: the `int` sum of the new lengths. */
    method WriteDataHead(output: OutputStream)
      requires Valid()
      modifies output
      ensures output.out == old(output.out) + Ascii("DATA") + EncodeInt(output.littleEndian, ToInt32(Sum(replacedLengths[..])))
    {
      output.WriteString("DATA");
      var total := SumLengths(replacedLengths[..]);
      output.WriteInt(total);
    }

    /** Chunks written one after the other make up the bank. */
    static lemma SerializeAssembled(littleEndian: bool, header: seq<byte>, ids: seq<i32>, lengths: seq<i32>,
                                    payloads: seq<seq<byte>>, rest: seq<byte>, chunks: seq<byte>)
      requires |ids| == |lengths|
      requires chunks == [] + HeaderChunk(littleEndian, header) + IndexChunk(littleEndian, ids, lengths)
      ensures chunks + Ascii("DATA") + EncodeInt(littleEndian, ToInt32(Sum(lengths))) + Concat(payloads) + rest
              == Serialize(littleEndian, header, ids, lengths, payloads, rest)
    {
      RegroupData(chunks, Ascii("DATA"), EncodeInt(littleEndian, ToInt32(Sum(lengths))), Concat(payloads), rest);
    }

    /**
     * The trailing bytes of writeBNK: when the cursor has not reached the end
     * of the input, everything after it is read (throwing when more than
     * `Integer.MAX_VALUE` bytes remain) and becomes `rest`.
     */
    method TakeRest() returns (r: Outcome)
      requires Valid()
      modifies this, input
      ensures Valid()
      ensures var more := old(input.pos) < |input.data|;
        if more && |input.data| - old(input.pos) > INT_MAX then
          r == Fail(TooBig) && input.pos == old(input.pos) && rest == old(rest)
        else
          && r == Pass
          && input.pos == (if more then |input.data| else old(input.pos))
          && rest == (if more then Some(input.data[old(input.pos)..]) else old(rest))
    {
      if input.GetRemaining() > 0 {
        var tail := input.ReadRest();
        if tail.Failure? {
          return Fail(tail.error);
        }
        rest := Some(tail.value);
      }
      r := Pass;
    }

    /**
     * `writeBNK` after the DIDX chunk: the DATA chunk's head, the payloads and
     * the trailing bytes, as `WriteBank` describes them.
     */
    method WriteBody(output: OutputStream) returns (r: Result<seq<byte>, Error>)
      requires Valid() && numWEMs > 0
      requires output.out == [] + HeaderChunk(output.littleEndian, bkhd) + IndexChunk(output.littleEndian, ids, replacedLengths[..])
      modifies this, input, bufferedWEMs, output
      ensures Valid()
      ensures var w := WriteBank(Src(), output.littleEndian, bkhd, ids, replacedLengths[..], replacements[..],
                                 old(Cursor(input.pos, bufferedWEMs[..])), old(rest));
        input.pos == w.at.pos && bufferedWEMs[..] == w.at.cache && rest == w.rest && r == w.result
    {
      ghost var c := Cursor(input.pos, bufferedWEMs[..]);
      ghost var chunks := output.out;
      WriteDataHead(output);
      var error := WriteData(output);
      if error.Some? {
        return Failure(error.value);
      }
      r := WriteRest(output, c, chunks);
    }

    /** `writeBNK` after a DATA loop that threw nothing: the trailing bytes, as `WriteBank` describes them. */
    method WriteRest(output: OutputStream, ghost c: Cursor, ghost chunks: seq<byte>) returns (r: Result<seq<byte>, Error>)
      requires numWEMs > 0
      requires EmittedAt(output, c, chunks + Ascii("DATA") + EncodeInt(output.littleEndian, ToInt32(Sum(replacedLengths[..]))), numWEMs, None)
      requires chunks == [] + HeaderChunk(output.littleEndian, bkhd) + IndexChunk(output.littleEndian, ids, replacedLengths[..])
      modifies this, input, output
      ensures Valid()
      ensures var w := WriteBank(Src(), output.littleEndian, bkhd, ids, replacedLengths[..], replacements[..], c, old(rest));
        input.pos == w.at.pos && bufferedWEMs[..] == w.at.cache && rest == w.rest && r == w.result
    {
      ghost var e := Emit(Src(), replacements[..], c, numWEMs);
      var taken := TakeRest();
      if taken.Fail? {
        return Failure(taken.error);
      }
      if rest.None? {
        return Failure(NullPointer);
      }
      output.Write(rest.value);
      SerializeAssembled(output.littleEndian, bkhd, ids, replacedLengths[..], e.payloads, rest.value, chunks);
      r := Success(output.out);
    }

    /**
     * `writeBNK`: the bank as `WriteBank` describes it, which reopens to the
     * editor's header, ids and lengths when it fits an `int`.
     */
    method WriteBNK(littleEndian: bool) returns (r: Result<seq<byte>, Error>)
      requires Valid()
      modifies this, input, bufferedWEMs
      ensures Valid()
      ensures var w := WriteBank(Src(), littleEndian, bkhd, ids, replacedLengths[..], replacements[..],
                                 old(Cursor(input.pos, bufferedWEMs[..])), old(rest));
        input.pos == w.at.pos && bufferedWEMs[..] == w.at.cache && rest == w.rest && r == w.result
      ensures r.Success? && |r.value| <= INT_MAX ==>
        && 0 <= Sum(replacedLengths[..]) <= INT_MAX
        && Parse(r.value, littleEndian) == Success(Bank(bkhd, ids, RunningOffsets(replacedLengths[..]), replacedLengths[..],
                                                     Sum(replacedLengths[..]), DataStart(bkhd, numWEMs)))
    {
      WriteBankReopens(Src(), littleEndian, bkhd, ids, replacedLengths[..], replacements[..], Cursor(input.pos, bufferedWEMs[..]), rest);
      var output := new OutputStream(littleEndian);
      var ok := WriteHeaderAndIndex(output);
      if !ok {
        return Failure(IndexOutOfBounds(0));
      }
      r := WriteBody(output);
    }
  }
}
