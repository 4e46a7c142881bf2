# BNKEditor in Dafny

A model of BNKEditor, a small Java library that edits Wwise SoundBank (`.bnk`)
files: it opens a bank, lets each embedded sound (a WEM) be exported or marked
as replaced by another file, and writes the bank back with the replacements in
place. A bank is three chunks followed by trailing bytes:

    "BKHD" length:int  header bytes (kept verbatim)
    "DIDX" length:int  one 12-byte record per WEM: id:int offset:int length:int
    "DATA" length:int  the WEM payloads
    trailing bytes (writeBNK copies whatever follows its input cursor
                    once the DATA loop is done)

The model covers the three classes the editor is made of:

- `CustomInputStream` becomes `InputStreams.InputStream`, a class over the
  file's content `data` with a cursor `pos` that only moves forward and a
  `closed` flag set when the cursor reaches the end. Each read is a method whose
  contract gives the exact bytes or value returned, the exception thrown and the
  new cursor.
- `CustomOutputStream` becomes `OutputStreams.OutputStream`, whose `out`
  sequence grows by exactly the bytes each write emits. The byte orders of
  `writeShort`/`writeInt`/`writeLong` are pure functions in `ByteOrder`, with
  round-trip lemmas against the matching readers.
- `BNKEditor` becomes `Editor.BNKEditor`, a class holding the parsed header and
  index, the parallel arrays `replacedLengths`, `replacements` and
  `bufferedWEMs`, the shared input stream, and `rest`. Its operations are
  proved against specification functions:
  - `Layout.Parse`: what the constructor accepts and reads;
  - `Caching.Fill`: the forward-only walk that caches WEM bytes;
  - `Caching.Emit` and `Editor.WriteBank`: writeBNK's DATA loop and its result;
  - `Serialization.Serialize`: the bytes writeBNK emits.

The main theorems:

- Reopening what writeBNK writes gives back the same header, ids and lengths,
  offsets that are the running sums of the lengths, and a DATA length that is
  their sum (`Serialization.ParseSerialize`, `Editor.WriteBankReopens`).
- Each WEM's payload lies at its running offset in the DATA chunk and is either
  its replacement or its original bytes (`Serialization.SerializeLayout`,
  `Editor.WriteBankPayloads`).
- A bank is accepted exactly when its chunks are in order, its index is
  record-aligned, its offsets never decrease and its declared data length
  covers the entries (`Layout.ParseMeaning`, `Layout.ParseIndexMeaning`,
  `Layout.CheckIndexSucceeds`).
- Writing back a bank that was opened and not edited, whose offsets are the
  running sums of its lengths, whose DATA length is their sum and which has
  trailing bytes, gives back the file byte for byte
  (`Editor.WriteBankIdentity`).

Java `int` arithmetic is modelled with explicit two's-complement wrap-around
(`JavaTypes.ToInt32` and friends), including the running sums `calc` and
`currentAddress`. Java exceptions are the constructors of `JavaTypes.Error`,
returned in a `Result` or an `Outcome`.

Where the code and the format's description disagree, the model follows the
code:

- An id that is not found is used as a position (it does not fail cleanly).
- writeBNK with no entries throws at `ids[0]`.
- A `rest` that was never read makes writeBNK throw when it writes it, so an
  unedited bank with no trailing bytes cannot be written back.
- The trailing bytes are not the bytes after the DATA chunk. writeBNK copies
  whatever follows its input cursor when the DATA loop ends
  (BNKEditor.java:241-242). A replaced entry is never read (the `continue` at
  BNKEditor.java:229), so when the last entries are replaced, or the DATA
  chunk holds bytes beyond its entries, those original bytes are copied again
  after the new DATA chunk (`Editor.WriteBankRestAfterReplacedLast`).

## Model

| member | source | states |
|---|---|---|
| JavaTypes.ToInt32 | BNKEditor.java:69 | an `int` result equals the exact value whenever that value is in the `int` range |
| JavaTypes.Residue32 | BNKEditor.java:220 | `int` overflow preserves the value modulo 2^32 |
| JavaTypes.WrapAdd | BNKEditor.java:213 | adding to an already wrapped accumulator gives the wrap of the exact sum, so `calc` and `currentAddress` are wrapped exact sums |
| JavaTypes.SumNonNegative | BNKEditor.java:67-70 | the sum of non-negative lengths is non-negative |
| JavaTypes.SumPrefixMonotone | BNKEditor.java:67-70 | sums of non-negative lengths grow with the prefix they cover |
| ByteOrder.IntBytes | CustomOutputStream.java:75-83 | writeInt's four bytes are the low four bytes of the value in the stream's order |
| ByteOrder.ValueBytes | CustomInputStream.java:137-141 | reading back the low n bytes of x gives x modulo 256^n |
| ByteOrder.BytesValue | CustomInputStream.java:137-141 | any byte string is the encoding of its own unsigned value |
| ByteOrder.IntLayout | CustomOutputStream.java:75-83 | writeInt emits the bytes of x from low to high when little-endian and from high to low otherwise |
| ByteOrder.LongLayout | CustomOutputStream.java:60-68 | writeLong emits the bytes of x from low to high when little-endian and from high to low otherwise |
| ByteOrder.ShortAsBytes | CustomOutputStream.java:90-98 | writeShort emits the low byte and `aShort >> 8`, low first when little-endian |
| ByteOrder.IntAsShorts | CustomOutputStream.java:75-83 | writeInt is writeShort of the low half and of `anInt >> 16`, low half first when little-endian |
| ByteOrder.LongAsInts | CustomOutputStream.java:60-68 | writeLong is writeInt of the low int and of `aLong >> 32`, low int first when little-endian |
| ByteOrder.DecodeEncodeShort | CustomInputStream.java:149-153 | readShort reads back any short that writeShort wrote in the same byte order |
| ByteOrder.DecodeEncodeInt | CustomInputStream.java:137-141 | readInt reads back any int that writeInt wrote in the same byte order |
| ByteOrder.EncodeDecodeInt | CustomInputStream.java:137-141 | any four bytes read by readInt are written back unchanged by writeInt |
| ByteOrder.DecodeEncodeLong | CustomInputStream.java:125-129 | the corrected readLong reads back any long that writeLong wrote in the same byte order |
| ByteOrder.EncodeTwoToThe31 | CustomOutputStream.java:60-68 | writeLong(0x80000000L) little-endian emits 00 00 00 80 00 00 00 00 |
| ByteOrder.ReadLongAsWrittenMisreads | CustomInputStream.java:127-128 | readLong as written returns -2^31 for the bytes of writeLong(2^31), where the corrected reader returns 2^31 |
| ByteOrder.Ascii | CustomOutputStream.java:40-42 | writeString emits one byte per character, the character's code for ASCII characters |
| ByteOrder.Latin1 | CustomInputStream.java:112-117 | readString gives one character per byte, with the byte's value as its code |
| ByteOrder.LatinAscii | CustomInputStream.java:100-103 | an ASCII tag written with writeString is read back unchanged by readMagic |
| InputStreams.SkipGuardAsWrittenAdmitsPastEnd | CustomInputStream.java:187 | the guard as written lets a skip of 6 from position 5 of a 10-byte file through, while the intended guard rejects it |
| InputStreams.InputStream.constructor | CustomInputStream.java:32-37 | a new stream is at position 0 over the whole file, open, with a fixed byte order |
| InputStreams.InputStream.GetCurrentPosition | CustomInputStream.java:211-213 | the position is always within the file |
| InputStreams.InputStream.GetLength | CustomInputStream.java:219-221 | the length is the file's length |
| InputStreams.InputStream.GetRemaining | CustomInputStream.java:227-229 | the remaining count is within the file's length and is zero exactly at the end |
| InputStreams.InputStream.Close | CustomInputStream.java:201-203 | closing at the end marks the stream closed without moving it |
| InputStreams.InputStream.ReadInto | CustomInputStream.java:85-90 | throws exactly when fewer bytes remain than the array holds, changing nothing; otherwise fills the array with the next bytes, advances by its length and closes at the end |
| InputStreams.InputStream.Read | CustomInputStream.java:72-76 | a negative length throws NegativeArraySize and too few remaining bytes throw; otherwise returns the next `length` bytes and advances by `length` |
| InputStreams.InputStream.ReadByte | CustomInputStream.java:160-165 | returns the byte at the cursor, advances by one and closes exactly at the end |
| InputStreams.InputStream.ReadString | CustomInputStream.java:112-117 | throws when fewer than `length` bytes remain; otherwise returns the next bytes as characters, one per byte, and advances past them |
| InputStreams.InputStream.ReadMagic | CustomInputStream.java:100-103 | throws when fewer than 4 bytes remain; otherwise returns the next 4 bytes as a 4-character tag and advances by 4 |
| InputStreams.InputStream.ReadInt | CustomInputStream.java:137-141 | throws when fewer than 4 bytes remain; otherwise returns the next 4 bytes decoded in the stream's byte order and wrapped to an int, and advances by 4 |
| InputStreams.InputStream.ReadShort | CustomInputStream.java:149-153 | throws when fewer than 2 bytes remain; otherwise returns the next 2 bytes decoded as a short and advances by 2 |
| InputStreams.InputStream.ReadLong | CustomInputStream.java:125-129 | throws when fewer than 8 bytes remain; otherwise returns the next 8 bytes as a 64-bit value and advances by 8 |
| InputStreams.InputStream.ReadUntil | CustomInputStream.java:59-63 | a target behind the cursor, too far ahead for one array, or past the end throws and leaves the cursor; otherwise returns the bytes up to the target and stops there |
| InputStreams.InputStream.ReadRest | CustomInputStream.java:47-50 | throws when more than Integer.MAX_VALUE bytes remain; otherwise returns exactly the remaining bytes and leaves the stream at the end and closed |
| InputStreams.InputStream.Skip | CustomInputStream.java:186-192 | with the intended guard: fails without moving when fewer than `amount` bytes remain; otherwise advances by the amount (not at all for a negative one) and closes at the end |
| InputStreams.InputStream.SkipUntil | CustomInputStream.java:175-178 | a target behind the cursor or past the end fails and leaves the cursor; otherwise the cursor is at the target |
| OutputStreams.OutputStream.constructor | CustomOutputStream.java:28-31 | a new sink has written nothing and has a fixed byte order |
| OutputStreams.OutputStream.Write | CustomOutputStream.java:49-51 | appends the bytes in order, unchanged |
| OutputStreams.OutputStream.WriteByte | CustomOutputStream.java:105-107 | appends one byte: the low eight bits of the argument |
| OutputStreams.OutputStream.WriteString | CustomOutputStream.java:40-42 | appends one byte per character, the string's ASCII bytes |
| OutputStreams.OutputStream.WriteShort | CustomOutputStream.java:90-98 | appends exactly the two bytes of the short in the sink's order |
| OutputStreams.OutputStream.WriteInt | CustomOutputStream.java:75-83 | appends exactly the four bytes of the int in the sink's order |
| OutputStreams.OutputStream.WriteLong | CustomOutputStream.java:60-68 | appends exactly the eight bytes of the long in the sink's order |
| Layout.CheckIndex | BNKEditor.java:55-62 | an accepted index has n entries in each array; a rejection is either a stream that ran dry or a decreasing offset |
| Layout.CheckIndexFields | BNKEditor.java:58-61 | entry k of an accepted index holds record k's id, offset and length |
| Layout.CheckIndexSucceeds | BNKEditor.java:55-62 | the index is accepted exactly when n records are there and their offsets never decrease |
| Layout.ParseIndexMeaning | BNKEditor.java:55-62 | the DIDX records are accepted exactly when all n are in the file and no offset is below the previous one (equal offsets accepted); the arrays then hold the records' fields in file order |
| Layout.OffsetsOrderedPairs | BNKEditor.java:57 | in an accepted index no later entry has a smaller offset than an earlier one |
| Layout.ParseHeaderChunk | BNKEditor.java:38-40 | an accepted BKHD chunk has the BKHD tag at 0 and a length at 4, and the header is exactly that many following bytes |
| Layout.ParseIndexChunk | BNKEditor.java:43-62 | an accepted DIDX chunk has the DIDX tag and a length of 12 bytes per entry, and its entries are the records that follow |
| Layout.ParseDataChunk | BNKEditor.java:65-71 | an accepted DATA chunk has the DATA tag and a declared length no smaller than the int sum of the entry lengths |
| Layout.Parse | BNKEditor.java:34 | a file longer than Integer.MAX_VALUE is rejected as too big |
| Layout.ParseMeaning | BNKEditor.java:33-73 | an accepted bank fits an int in size, has BKHD at 0 with its header verbatim, then DIDX and DATA in place; the data starts right after the DATA length |
| Layout.ParseTablesMeaning | BNKEditor.java:43-72 | after an accepted header, the bank keeps that header and has its DIDX and DATA chunks in place |
| Serialization.RunningOffsetsExact | BNKEditor.java:205-214 | for non-negative lengths whose sum fits an int, each written offset is the exact sum of the earlier lengths, and offsets never decrease |
| Serialization.TableBytesRecord | BNKEditor.java:205-214 | record k of the written table is the 12 bytes from 12k on |
| Serialization.TableFieldRead | BNKEditor.java:56 | each field of a written record is read back by readInt as written |
| Serialization.RecordsOfTable | BNKEditor.java:205-214 | the constructor finds exactly the written records in a written table |
| Serialization.ConcatSlice | BNKEditor.java:225-238 | each payload written one after another starts where the earlier ones end |
| Serialization.ConcatSize | BNKEditor.java:225-238 | the payloads together are as long as the sum of their sizes |
| Serialization.TagRoundTrip | BNKEditor.java:196 | a tag written with writeString is read back by readMagic |
| Serialization.IntRoundTrip | BNKEditor.java:197 | an int written with writeInt is read back by readInt |
| Serialization.ChunkHeadAt | BNKEditor.java:196-197 | a written chunk's tag and length are read back at its position |
| Serialization.ChunkBodyAt | BNKEditor.java:198 | a written chunk's body follows its length unchanged |
| Serialization.HeaderChunkAccepted | BNKEditor.java:38-40 | the BKHD chunk is accepted once its tag, length and bytes are in place |
| Serialization.IndexChunkAccepted | BNKEditor.java:43-48 | a DIDX chunk with its tag and a length of 12n is accepted as the n records that follow |
| Serialization.CheckTableRecords | BNKEditor.java:205-214 | the written records pass the offset check and are read back as the ids, running offsets and lengths |
| Serialization.DataChunkAccepted | BNKEditor.java:65-71 | a DATA chunk declaring the int sum of the lengths is accepted |
| Serialization.ParseAccepts | BNKEditor.java:33-73 | a file that fits an int and whose three chunks are accepted one by one is accepted as the bank they describe |
| Serialization.ParseTablesAccepts | BNKEditor.java:43-72 | after an accepted header, accepted DIDX and DATA chunks give the bank they describe |
| Serialization.IndexChunkAt | BNKEditor.java:43-62 | a DIDX chunk holding the written records is read back as the ids, running offsets and lengths |
| Serialization.SerializeSize | BNKEditor.java:191-244 | an emitted bank's size is its header, 12 bytes per entry, 24 bytes of chunk heads, the sum of the lengths and the trailing bytes |
| Serialization.SerializeHeaderHead | BNKEditor.java:196-198 | an emitted bank starts with BKHD, the header's length and the header verbatim |
| Serialization.SerializeIndexHead | BNKEditor.java:201-214 | after the header come DIDX, 12 bytes per entry as the length, and the written records |
| Serialization.SerializeDataHead | BNKEditor.java:217-222 | after the records come DATA and the int sum of the new lengths |
| Serialization.HeaderOfSerialize | BNKEditor.java:196-198 | the BKHD chunk of an emitted bank is read back as the same header |
| Serialization.RecordsOfSerialize | BNKEditor.java:205-214 | the records the constructor finds in an emitted bank are the ones writeBNK wrote |
| Serialization.IndexOfSerialize | BNKEditor.java:201-214 | the DIDX chunk of an emitted bank is read back as the same ids and lengths, with running offsets |
| Serialization.DataOfSerialize | BNKEditor.java:217-222 | the DATA chunk of an emitted bank passes the constructor's length check |
| Serialization.ChunksOfSerialize | BNKEditor.java:195-222 | each of the three chunks of an emitted bank is accepted |
| Serialization.ParseSerialize | BNKEditor.java:191-244 | round trip: the constructor accepts an emitted bank that fits an int and reads back its header, ids and lengths, running offsets, and the sum of the lengths as the DATA length |
| Serialization.ParseSerializeFits | BNKEditor.java:191-244 | the same round trip, given only that the emitted file is at most Integer.MAX_VALUE bytes |
| Serialization.PayloadsAt | BNKEditor.java:225-242 | payloads written one after another lie at their running offsets, with the trailing bytes after them |
| Serialization.PayloadAt | BNKEditor.java:225-238 | payload k lies at its running offset from the start of the data |
| Serialization.SerializeLayout | BNKEditor.java:225-242 | in an emitted bank each payload lies at its recorded offset from the data start, and the trailing bytes follow the last one |
| Serialization.SerializeDataSplit | BNKEditor.java:217-242 | an emitted bank is everything up to the DATA length, then the payloads, then the trailing bytes |
| Caching.Original | BNKEditor.java:110 | an entry's original bytes are as many as its original length |
| Caching.Step | BNKEditor.java:108-111 | one step of the walk never moves the cursor backward |
| Caching.Fill | BNKEditor.java:107-112 | the walk never moves the cursor backward and keeps one slot per entry |
| Caching.FillFaithful | BNKEditor.java:107-112 | every slot the walk fills holds its entry's original bytes, the cursor stays in the file, and slots after the walked entries are untouched |
| Caching.FillStops | BNKEditor.java:107-112 | after an exception the walk reaches no later entry |
| Caching.FillSucceeds | BNKEditor.java:107-112 | a walk over entries that all lie inside the file throws nothing |
| Caching.FillStaysBelow | BNKEditor.java:107-112 | a walk over entries that end by t, starting at or before t, stops at or before t |
| Caching.FillCachesLast | BNKEditor.java:107-112 | for non-overlapping entries, a walk from at or before the last entry's start caches that entry's original bytes |
| Caching.Emit | BNKEditor.java:225-238 | the DATA loop never moves the cursor backward and writes one payload per entry when it throws nothing |
| Caching.EmitStops | BNKEditor.java:225-238 | once the DATA loop throws, the later entries do not change its outcome |
| Caching.EmitPayloads | BNKEditor.java:225-238 | the DATA loop keeps the cache faithful and writes each entry's replacement, or else its original bytes, in entry order |
| Editor.Find | BNKEditor.java:98-103 | the result is the first position holding the id, or the length when no entry has it |
| Editor.Locate | BNKEditor.java:96-104 | by id: the first entry with that id; otherwise, or when no entry has it, the argument itself as the position |
| Editor.Intended | BNKEditor.java:225-238 | one intended payload per entry |
| Editor.WriteBankPayloads | BNKEditor.java:225-242 | a successful writeBNK emits the bank with each replacement or else the original bytes, and the trailing bytes |
| Editor.WriteBankReopens | BNKEditor.java:191-244 | a successful writeBNK result that fits an int reopens to the editor's header, ids and new lengths, with running offsets and their sum as the DATA length |
| Editor.SumLengths | BNKEditor.java:67-70 | the calc loop computes the int wrap of the exact sum of the lengths |
| Editor.ReadHeaderChunk | BNKEditor.java:38-40 | reading the BKHD chunk accepts and rejects exactly as the layout says, and leaves the cursor after the header |
| Editor.ReadRecord | BNKEditor.java:56 | three readInts give record i of the table, or throw when the file does not hold it |
| Editor.AvailableRecord | BNKEditor.java:56 | record i is available exactly when its 12 bytes are in the file |
| Editor.RecordAt | BNKEditor.java:56 | record i is there exactly when its 12 bytes are, and it is the three ints stored there |
| Editor.CheckIndexStops | BNKEditor.java:57 | once the DIDX loop throws, the later records do not change the exception |
| Editor.ReadIndexEntry | BNKEditor.java:56-61 | one turn of the DIDX loop keeps the loop's state equal to the index check over one more record |
| Editor.ReadRecords | BNKEditor.java:55-62 | the DIDX loop returns exactly the layout's index, with the cursor after the records |
| Editor.ReadIndexChunk | BNKEditor.java:43-62 | reading the DIDX chunk accepts and rejects exactly as the layout says |
| Editor.ReadIndexBody | BNKEditor.java:44-62 | after the DIDX tag, the length check and the records agree with the layout |
| Editor.ReadDataChunk | BNKEditor.java:65-71 | reading the DATA chunk head accepts and rejects exactly as the layout says, leaving the cursor after the length |
| Editor.ConcatAppend | BNKEditor.java:237 | writing one more payload extends the concatenation of those written |
| Editor.ChunkAppend | BNKEditor.java:196-198 | a tag, a length and a body written in turn form the chunk |
| Editor.WriteRecord | BNKEditor.java:210-212 | three writeInts append exactly one record |
| Editor.TableStep | BNKEditor.java:208-213 | one more record extends the written table, and `currentAddress` grows by the record's length with int wrap-around |
| Editor.ParseSized | BNKEditor.java:34 | an accepted bank has a header and an index that fit an int, and its data starts inside the file |
| Editor.ReadBank | BNKEditor.java:33-72 | the constructor's reads return exactly `Parse` of the file, and on success leave the cursor where the data starts |
| Editor.ReadTables | BNKEditor.java:43-72 | the reads after the header return exactly the layout's index and data length |
| Editor.ReadDataStart | BNKEditor.java:65-72 | the DATA chunk's reads give the bank, with `offsetAbsolute` equal to the cursor position after the DATA length |
| Editor.WriteBankIdentity | BNKEditor.java:191-244 | an accepted bank that is not edited, with running offsets, a DATA length equal to the sum of the lengths and trailing bytes, is written back as exactly the file it was read from |
| Editor.WriteBankRestAfterReplacedLast | BNKEditor.java:225-242 | with the last entry replaced, the trailing bytes writeBNK copies start at the end of the first entry, so the replaced entry's original bytes are written again after the DATA chunk |
| Editor.UneditedWrite | BNKEditor.java:225-242 | an unedited write over consecutive entries emits each entry's original bytes, cut from the file at its running offset, then the bytes after the last entry |
| Editor.UneditedSucceeds | BNKEditor.java:225-242 | an unedited write over consecutive entries throws nothing and takes as trailing bytes everything after the last entry |
| Editor.UneditedEmit | BNKEditor.java:225-238 | the DATA loop over consecutive, unreplaced entries throws nothing and stops at the end of the last entry |
| Editor.UneditedConsecutive | BNKEditor.java:33-73 | an accepted bank whose offsets are running sums of non-negative lengths ending inside the file lays its entries end to end from the data start |
| Editor.UneditedCut | BNKEditor.java:225-238 | for consecutive entries, the original payloads are the file cut at the running offsets |
| Editor.UneditedEntry | BNKEditor.java:231-237 | entry k's original bytes are the file from its running offset for its length |
| Caching.ConsecutiveInFile | BNKEditor.java:107-112 | entries laid end to end inside the file each lie inside the file and do not overlap |
| Caching.ConsecutiveEntry | BNKEditor.java:107-112 | entry k of entries laid end to end starts at the sum of the earlier lengths from the data start |
| Caching.EmitConsecutive | BNKEditor.java:225-238 | over entries laid end to end and nothing replaced, the DATA loop throws nothing and ends at the end of the last entry |
| Serialization.SerializeParsed | BNKEditor.java:191-244 | an accepted bank with running offsets and a DATA length equal to the sum is the emitted bank of its header, ids, lengths, the payloads cut from it and the bytes after them |
| Serialization.SerializeChunks | BNKEditor.java:195-242 | a file whose three chunks are in place and whose data is the payloads is the emitted bank |
| Serialization.HeaderOfFile | BNKEditor.java:196-198 | an accepted BKHD chunk is the chunk writeBNK emits for that header |
| Serialization.IndexOfFile | BNKEditor.java:201-214 | the DIDX chunk of an accepted bank with running offsets is the chunk writeBNK emits for its ids and lengths |
| Serialization.IndexAt | BNKEditor.java:201-214 | a DIDX chunk whose records are the written ones is byte for byte the chunk writeBNK emits |
| Serialization.DataOfFile | BNKEditor.java:217-238 | a DATA chunk declaring the sum of the lengths, holding the cut payloads, is the head writeBNK emits followed by the payloads |
| Serialization.DataHeadOfFile | BNKEditor.java:217-222 | a DATA tag and length read from the file are the head writeBNK emits |
| Serialization.ChunkOfFile | BNKEditor.java:196-198 | an ASCII tag, a length and the body read from the file are the chunk writeBNK emits |
| Serialization.RecordOfFile | BNKEditor.java:210-212 | the 12 bytes of a record read from the file are the record writeBNK emits for its three ints |
| Serialization.RecordsOfFile | BNKEditor.java:205-214 | the records read from the file, written back as a table, are the file's bytes |
| Serialization.TableOfFile | BNKEditor.java:205-214 | records each equal to the file's 12 bytes at their place form the file's table bytes |
| Serialization.ConcatOfFile | BNKEditor.java:225-238 | payloads cut from the file at running offsets, written one after another, are the file's bytes |
| Serialization.FileIsSerialize | BNKEditor.java:195-242 | a file made of the header chunk, the index chunk, the DATA head, the payloads and the rest is the emitted bank |
| Serialization.SumFits | BNKEditor.java:217-222 | a sum of non-negative lengths that an int equals is non-negative and its own int wrap |
| ByteOrder.AsciiLatin | CustomInputStream.java:100-103 | bytes read as an ASCII tag by readMagic are written back unchanged by writeString |
| Editor.BNKEditor.Init | BNKEditor.java:49-61 | a new editor holds the parsed fields, replaces nothing, has cached nothing, and gives each entry its original length |
| Editor.BNKEditor.Open | BNKEditor.java:33-73 | the constructor throws exactly the layout's exception, and otherwise gives an editor holding what was read, with nothing replaced or cached |
| Editor.BNKEditor.GetIDs | BNKEditor.java:81-83 | there is one id per entry |
| Editor.BNKEditor.GetReplacements | BNKEditor.java:179-181 | one slot per entry, and each replacement is as long as its entry's new length |
| Editor.BNKEditor.Select | BNKEditor.java:96-104 | the position loop computes `Locate` |
| Editor.BNKEditor.CacheThrough | BNKEditor.java:107-112 | the caching loop leaves the cursor, the cache and the exception as the walk describes |
| Editor.BNKEditor.CacheEntry | BNKEditor.java:108-111 | one turn of the caching loop is one step of the walk |
| Editor.BNKEditor.WriteWEM | BNKEditor.java:94-119 | a negative position throws at once; otherwise the walk runs, then a position past the last entry throws, and so does an entry that was never cached; a result is that entry's original bytes |
| Editor.BNKEditor.Replace | BNKEditor.java:131-147 | a replacement over Integer.MAX_VALUE bytes or a position outside the arrays throws and changes nothing; otherwise only that slot's replacement and new length change |
| Editor.BNKEditor.CancelReplacement | BNKEditor.java:157-171 | outside the arrays it throws and changes nothing; otherwise only that slot is reset to no replacement and its original length, which changes nothing when it was not replaced |
| Editor.BNKEditor.WriteTable | BNKEditor.java:205-214 | the DIDX records written are each id with its running offset and new length |
| Editor.BNKEditor.EmittedStops | BNKEditor.java:225-238 | a DATA loop that threw is in its final state |
| Editor.BNKEditor.WriteEntry | BNKEditor.java:225-238 | one turn of the DATA loop is one step of `Emit` |
| Editor.BNKEditor.WriteReplacement | BNKEditor.java:226-230 | a replaced entry writes its replacement's bytes |
| Editor.BNKEditor.WriteCached | BNKEditor.java:231-237 | an entry that was not replaced walks the entries up to it, then writes its cache slot, or throws when it is empty |
| Editor.BNKEditor.WriteData | BNKEditor.java:225-238 | the DATA loop leaves the cursor, the cache, the written payloads and the exception as `Emit` describes |
| Editor.BNKEditor.WriteHeaderAndIndex | BNKEditor.java:195-214 | it succeeds exactly when there is an entry, and then writes the BKHD chunk and the DIDX chunk |
| Editor.BNKEditor.WriteDataHead | BNKEditor.java:217-222 | writes DATA and the int sum of the new lengths |
| Editor.BNKEditor.SerializeAssembled | BNKEditor.java:195-242 | the chunks written in turn make up the emitted bank |
| Editor.BNKEditor.TakeRest | BNKEditor.java:241 | with input left, it reads everything after the cursor into `rest` (throwing when more than Integer.MAX_VALUE bytes remain); otherwise `rest` is kept |
| Editor.BNKEditor.WriteBody | BNKEditor.java:217-242 | everything after the DIDX chunk is written as `WriteBank` describes |
| Editor.BNKEditor.WriteRest | BNKEditor.java:241-242 | after a DATA loop that threw nothing, the trailing bytes are written as `WriteBank` describes, and a missing `rest` throws |
| Editor.BNKEditor.WriteBNK | BNKEditor.java:191-244 | writeBNK returns `WriteBank` of the editor's state; a result that fits an int reopens to the editor's header, ids and new lengths, with running offsets |

## Left out

- EditorWindow.java is not part of this model. It is a Swing user interface.
- File-system calls are not modelled. This covers `File.length`, `createNewFile`, opening a `FileInputStream` or `FileOutputStream`, `flushAndClose` and the close of the underlying stream. A file is its content as a byte sequence, and what `writeWEM` and `writeBNK` write is returned as their result.
- Editor.BNKEditor.Replace takes the replacement's content, captured when `replace` is called. The source keeps a `File` and reads it only in `writeBNK`, so a replacement file that changes or disappears in between is not modelled. That includes a length that no longer matches and an IOException.
- Editor.BNKEditor.WriteBNK does not model the bytes already written to the destination before an exception. The result is then only the exception.
- Editor.BNKEditor.WriteWEM does not model creating the export file. It returns the bytes it would write.
- Editor.BNKEditor.Open stands for the Java constructor. The constructor Editor.BNKEditor.Init only assembles an editor from what Open read.
- Editor.BNKEditor.GetIDs and Editor.BNKEditor.GetReplacements return values, where the source hands out its own arrays. Changes a caller makes through those arrays are not modelled.
- InputStreams.InputStream.ReadInto and InputStreams.InputStream.Skip model the retry loops around `InputStream.read` and `InputStream.skip` as one exact step. Short reads and skips are behaviour of the underlying stream.
- InputStreams.InputStream.Skip uses the evidently intended guard, not the one written at CustomInputStream.java:187 (see Findings).
- InputStreams.InputStream.SkipUntil inherits the intended guard: a target past the end fails with the cursor unmoved. The source's skipUntil moves the cursor past the end instead. The next `read(length)` then throws NotThatLong, or NegativeArraySize for a negative length.
- Caching.Step inherits the same guard: an entry whose offset lies past the end fails the walk with the cursor unmoved, where the source would move past the end and fail at the following read.
- InputStreams.InputStream.ReadByte requires a byte to remain. The public read() at the end of the file reads from the closed stream and moves the position past the length; every reader in the core checks the remaining count before it calls read().
- InputStreams.InputStream.ReadLong returns the evidently intended value, not the overflowing sum at CustomInputStream.java:127-128 (see Findings).
- InputStreams.InputStream.Close only sets the `closed` flag. Closing the underlying stream is not modelled.
- Exception messages are not modelled. Each exception is one constructor of `JavaTypes.Error`, with the values the message reports. IllegalArgumentException and UnsupportedOperationException for a file that is too short are both `NotThatLong`.

## Findings

| source | as written | input that shows it | evidently intended | confidence | as-written member | corrected member |
|---|---|---|---|---|---|---|
| CustomInputStream.java:127-128 | `0x1000000 * read()` is `int` arithmetic, so for a byte of 0x80 or more it overflows to a negative `int` before it joins the `long` sum | little-endian bytes 00 00 00 80 00 00 00 00, which writeLong(0x80000000L) emits, are read as -2147483648 | the eight bytes read as one 64-bit two's-complement value, so readLong inverts writeLong | not executed | ByteOrder.ReadLongAsWrittenMisreads | ByteOrder.DecodeEncodeLong |
| CustomInputStream.java:187 | skip rejects only `amount > c + d` (length plus position) | a 10-byte file at position 5, skipping 6, passes the guard although it ends past the end | reject an amount larger than the bytes remaining, `amount > c - d` | not executed | InputStreams.SkipGuardAsWrittenAdmitsPastEnd | InputStreams.InputStream.Skip |
