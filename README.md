# Pack engine model

Pack is a C library that bundles many files into one archive file, a
*pack*, and reads them back by path. This project models its C engine:

- the writer, `packItems` and `writePackItems` in `source/writer.c`;
- the reader, `createPackReader` and what can be done with a reader, in
  `source/reader.c`;
- `getPackInfo` in `source/common.c`;
- the older reader revision in `source/pack_reader.c`, as a module of its own.

The model proves properties of each.

A pack, as `packItems` writes it, is laid out as follows:

- an 8-byte header: `'P' 'A' 'C' 'K'`, the major, minor and patch version
  of the library, then `!PACK_LITTLE_ENDIAN`;
- the item count, as a host-order `uint64_t`;
- one block per path, in the order of the sorted paths. A block is:
  - a 32-byte item record (compressed size, item size, file offset, path
    length, padding);
  - the path bytes;
  - the item's bytes. These are zstd-compressed when that is strictly
    smaller, and stored raw otherwise.

The reader checks the header, then loads `itemCount` records, each followed
by its path. It finds an item with a binary search over the
(length, bytes) order, and reads an item by seeking to the offset in its
record.

## Modules

| file | module | what it holds |
|---|---|---|
| `format.dfy` | `PackFormat` | Result codes, the build configuration (version triple, byte order), the host-order integer codec, the 32-byte item record and their round trips. |
| `io.dfy` | `CFile` | Files as byte sequences. `fread` as a pure function. A read `Stream` and a write `OutStream` with a capacity, past which `fwrite` is short. |
| `memcmp.dfy` | `MemCmp` | `memcmp`, and the "length first, then bytes" comparison both comparators are built from. |
| `items.dfy` | `PackItems` | The in-memory item table, `comparePackItems`, and `bsearch`. |
| `zstd.dfy` | `Zstd` | The compressor and decompressor, as any pair of functions with capacity-checked calls. |
| `common.dfy` | `PackCommon` | `getPackInfo`. |
| `reader.dfy` | `PackReader` | `createPackReader`, `createPackItems`, the `PackReader` class with its getters, lookup and item reads, and `destroyPackReader`. |
| `pack_reader.dfy` | `LegacyPackReader` | The older reader revision. |
| `writer.dfy` | `PackWriter` | `comparePackItemPaths`, the sort, the per-item loop and `packItems`. |
| `compat.dfy` | `PackCompat` | What the writer and the readers agree on. |

### Model conventions

- **Stateful procedures are methods** over a `Stream`/`OutStream`, arrays and
  the reader class. Each is proved equal to a pure function of the files and
  the old state: `OpenSpec`, `ReadItemSpec`, `ParseRecords`, `WriteItems`,
  `PackSpec`. The lemmas are stated about those functions.
- **Memory:**
  - In the reader, an allocation of `n` bytes fails when `n > allocLimit`.
  - In the writer, memory is a budget `heap` of free bytes, and `realloc`
    gives the old block back first.
  - Creating the zstd context (`zstdReady`) and creating the pack file
    (`canCreate`) are parameters.
- **Unknown build values.** `pack/defines.h` is not part of this model.
  - The version constants and `PACK_LITTLE_ENDIAN` are a `Config` value.
  - The record layout is the `ItemInfo` of `source/pack_reader.c:11-17`:
    three `uint64_t` fields, a `uint8_t`, then 7 bytes of padding, 32 bytes
    in all, in host byte order.
- **Checks.** Where the source compares `fread`'s element count with a
  byte size, the model takes the value compared with as a parameter of type
  `Checks`:
  - `AsWritten` is the code as it stands;
  - `Intended` compares with 1.

## Model

| member | source | states |
|---|---|---|
| PackFormat.EndianFlag | source/writer.c:290 | The header's byte-order flag is 0 exactly on a little-endian build. |
| PackFormat.U64RoundTrip | source/writer.c:307-311 | A count written as eight host-order bytes reads back as the same count. |
| PackFormat.U64ValueBytes | source/reader.c:175-179 | Any eight bytes read as a count are that count's encoding, so reading loses nothing. |
| PackFormat.HostRoundTrip | source/writer.c:307-311 | Encoding a value below 256^k in k bytes of either byte order and decoding it gives the value back. |
| PackFormat.ReverseReverse | source/writer.c:307-311 | Reversing the byte order twice restores the bytes (big-endian hosts). |
| PackFormat.InfoRoundTrip | source/reader.c:46-52 | A 32-byte record written with `fwrite(&info)` decodes to the same sizes, offset and path length. |
| CFile.Fread | source/reader.c:129-135 | `fread` delivers all n bytes exactly when the file is readable and holds them; otherwise it delivers a shorter prefix of the file from pos. |
| CFile.Elements | source/reader.c:175-181 | `fread(p, size, 1, f)` returns 1 exactly when all `size` bytes arrive, and 0 otherwise. |
| CFile.CountCheck | source/common.c:61 | The item-count read's element count is compared with 8 (`sizeof(uint64_t)`) as written, and with 1 under the `Intended` check. |
| CFile.RecordCheck | source/pack_reader.c:62 | The record read's element count is compared with 32 (`sizeof(ItemInfo)`) as written, and with 1 under the `Intended` check. |
| CFile.Stream.Read | source/reader.c:361-365 | The bytes read are `Fread` at the old position, and the position advances by their number. |
| CFile.Stream.Seek | source/reader.c:313-319 | `fseeko(SEEK_SET)` succeeds exactly when the file can be positioned and the offset fits an `off_t`; only then does the position move. |
| CFile.Stream.SeekEnd | source/writer.c:63-74 | `fseeko(0, SEEK_END)` moves to the file's length exactly when the file can be positioned. |
| CFile.Fill | source/reader.c:344-349 | Filling a caller buffer overwrites its first bytes with the data and leaves the rest unchanged. |
| CFile.Emit | source/writer.c:293-299 | A write appends all its bytes exactly when they fit. Otherwise it appends the prefix that fits, and the earlier contents stay. |
| CFile.EmitTwice | source/writer.c:165-189 | Two writes that both fit store what one write of both pieces stores. |
| CFile.EmitShort | source/writer.c:165-189 | After a short write the file is full: later writes store nothing, and the file holds what one short write of everything would. |
| CFile.OutStream.Write | source/writer.c:293-299 | `fwrite` stores what `Emit` says and returns the count stored; the count is complete exactly when all bytes were appended. |
| MemCmp.MemCmp | source/reader.c:253-256 | `memcmp` over n bytes gives -1, 0 or 1. It is 0 exactly when the first n bytes are equal, and negative exactly when, at the first byte where they differ, the first operand's byte is smaller. |
| MemCmp.LexBelow | source/reader.c:253-256 | Over equal lengths, the byte order is negative exactly when some position has equal bytes before it and a smaller byte of the first operand at it. |
| MemCmp.LexZero | source/reader.c:253-256 | Byte strings of equal length compare 0 exactly when they are equal. |
| MemCmp.LexAntisymmetric | source/reader.c:253-256 | Swapping the operands negates the result. |
| MemCmp.LexTransitive | source/reader.c:253-256 | The byte order is transitive. |
| MemCmp.LexStrictLeft | source/reader.c:253-256 | Strictly below then at most gives strictly below. |
| MemCmp.LexStrictRight | source/reader.c:253-256 | At most then strictly below gives strictly below. |
| MemCmp.CompareSized | source/reader.c:246-256 | Result 0 exactly when the lengths and the bytes within them agree. Negative exactly when the first is shorter, or as long and bytewise smaller. |
| MemCmp.CompareSizedAntisymmetric | source/writer.c:243-248 | The length-then-bytes order is antisymmetric in sign. |
| MemCmp.CompareSizedTransitive | source/writer.c:243-248 | The length-then-bytes order is transitive. |
| MemCmp.CompareSizedStrictLeft | source/reader.c:246-256 | Strict-then-weak comparisons chain to a strict one. |
| MemCmp.CompareSizedStrictRight | source/reader.c:246-256 | Weak-then-strict comparisons chain to a strict one. |
| MemCmp.CompareSizedCongruent | source/reader.c:246-256 | Operands that compare equal compare alike against any third. |
| PackItems.CompareItems | source/reader.c:239-257 | `comparePackItems` is 0 exactly when the path lengths and the bytes within that length are equal. |
| PackItems.CompareItemsAntisymmetric | source/reader.c:239-257 | sign(cmp(a, b)) = -sign(cmp(b, a)). |
| PackItems.CompareItemsTransitive | source/reader.c:239-257 | The item order is transitive, as `bsearch` requires. |
| PackItems.BinarySearch | source/reader.c:271-276 | A hit is an in-range index of an item equal to the key. On a sorted table there is a hit exactly when such an item exists. |
| Zstd.Compress | source/writer.c:145-150 | A compressed frame is produced only when it fits in the buffer, and it is the codec's frame. Conversely, whenever the codec produces a frame that fits, it is returned. |
| Zstd.Decompress | source/reader.c:344-349 | Decompressed content is produced only when it fits in the buffer, and it is the codec's content. Conversely, whenever the codec produces content that fits, it is returned. |
| PackCommon.GetPackInfo | source/common.c:6-70 | FAILED_TO_OPEN_FILE exactly for a missing file. On success the file is readable, has the magic and at least 16 bytes, and the five outputs are header bytes 4, 5 and 6, `header[7] == 0` and the stored count. Success is possible only with the `Intended` count check. |
| PackCommon.ShortHeaderInfo | source/common.c:30-40 | An unreadable file, or one shorter than the header, gives FAILED_TO_READ_FILE. |
| PackCommon.BadMagicInfo | source/common.c:42-49 | A full header without "PACK" gives BAD_FILE_TYPE before the count is read. |
| PackCommon.InfoNeverReported | source/common.c:53-62 | As written, every call fails, and a file with the magic gets FAILED_TO_READ_FILE. |
| PackCommon.VersionsNotChecked | source/common.c:42-68 | With the count check corrected, every readable file with the magic and a full count is reported, whatever its version and byte-order bytes. |
| PackCommon.PatchReported | source/common.c:64-68 | Changing only the patch byte changes only the reported patch version. |
| PackReader.CheckHeader | source/reader.c:135-171 | The codes in source order, each an if-and-only-if: a short header gives FAILED_TO_READ_FILE, no magic UNKNOWN_FILE_TYPE, a major or minor mismatch BAD_FILE_VERSION, a wrong flag byte BAD_FILE_ENDIANNESS, otherwise SUCCESS. |
| PackReader.PatchIgnored | source/reader.c:163 | Headers that differ only in the patch byte get the same outcome. |
| PackReader.ReadRecord | source/reader.c:46-88 | A loaded item's path buffer is `pathSize` bytes plus a 0, and lies inside the file. Errors are only FAILED_TO_READ_FILE or FAILED_TO_ALLOCATE. |
| PackReader.ReadRecordPath | source/reader.c:71-77 | The path buffer holds the `pathSize` bytes after the record, then the terminator. |
| PackReader.ParseRecords | source/reader.c:44-89 | A table that loads has exactly n items and takes at least 32 bytes per record. Errors are only the read and allocation failures. |
| PackReader.ParseRecord | source/reader.c:44-89 | One pass of the loop followed by the rest: n items that fit in the file, or a read or allocation failure. |
| PackReader.CreatePackItemsSpec | source/reader.c:34-93 | A table that loads has `itemCount` items, each path terminated. |
| PackReader.ParseRecordsTerminated | source/reader.c:77 | Every path of a loaded table ends with its terminator. |
| PackReader.ShortRecordRefused | source/reader.c:48-59 | A record that cannot be read in full stops the load with FAILED_TO_READ_FILE. |
| PackReader.FirstRecordRead | source/reader.c:44-89 | Item 0 is the decoded record at the position, with the path bytes after it plus a 0. The remaining items are the table loaded after them. By induction, item i holds the i-th record. |
| PackReader.TruncatedTableRefused | source/reader.c:44-59 | A file too short for n records of 32 bytes never loads. |
| PackReader.RecordAt | source/reader.c:46-52 | The record `fread` takes at a position holds the path length stored in byte 24 of it. |
| PackReader.RecordLoads | source/reader.c:46-88 | A record that is all there, whose path buffer can be had and whose path bytes are all there, loads as that record with those bytes plus a 0. |
| PackReader.PathUnaffordable | source/reader.c:61-69 | A record whose `pathSize + 1` bytes cannot be had stops the load with FAILED_TO_ALLOCATE. |
| PackReader.ShortPathRefused | source/reader.c:71-84 | A record whose path bytes are not all in the file stops the load with FAILED_TO_READ_FILE. |
| PackReader.LayoutLaid | source/reader.c:44-89 | Records, each directly followed by its path, laid back to back in the file: each record is read at its place, with its path after it. |
| PackReader.LaidLoads | source/reader.c:44-89 | Entries laid back to back, with affordable paths, load as exactly those entries with terminators added, and the file is left after the last path. |
| PackReader.EntryLoads | source/reader.c:44-89 | A first entry that loads, in front of a rest that loads, gives the whole table. |
| PackReader.TableLoads | source/reader.c:34-93 | Any table of entries whose bytes (record, path, record, path, ...) lie at the position loads as exactly those entries, terminated, ending after its last path. |
| PackReader.OpenSpec | source/reader.c:95-216 | An opened reader's table has exactly `itemCount` items, all terminated. |
| PackReader.BadMagicRefused | source/reader.c:143-152 | A readable file without "PACK" gives UNKNOWN_FILE_TYPE. |
| PackReader.PackOpens | source/reader.c:95-216 | A readable file with an accepted header, a count n and n entries laid out after it opens, with exactly those entries, terminated. |
| PackReader.HeaderAndCountRead | source/reader.c:129-202 | After an accepted header and a count whose table loads, the reader opens with that count and that table. |
| PackReader.ReadItemSpec | source/reader.c:301-372 | On success the buffer holds exactly `itemSize` bytes. For `zipSize == 0` they are the raw bytes at the offset; for `zipSize > 0` they are what the `zipSize` bytes at the offset decompress to. At most `itemSize` bytes reach the buffer in any case. |
| PackReader.ReadItemErrors | source/reader.c:313-369 | Each error and when it happens: FAILED_TO_SEEK_FILE exactly when the seek fails. For a raw item, FAILED_TO_READ_FILE exactly when the bytes are not all there. FAILED_TO_ALLOCATE exactly when the compressed buffer cannot be had. For a compressed item whose buffer is had, FAILED_TO_READ_FILE exactly when the `zipSize` bytes are not all there. FAILED_TO_DECOMPRESS only for compressed items. No other code. |
| PackReader.CompressedItemRead | source/reader.c:324-357 | For a compressed item whose buffer is had and whose bytes are all there, the read succeeds exactly when the codec turns the stored bytes into exactly `itemSize` bytes, and then the buffer holds them. Otherwise the code is FAILED_TO_DECOMPRESS. |
| PackReader.RawItemRead | source/reader.c:359-371 | A raw item whose bytes are all there reads back as exactly the `itemSize` bytes at its offset. |
| PackReader.PackReader.Init | source/reader.c:204-212 | The reader holds the file, the count and the table, and its search item is zeroed. |
| PackReader.PackReader.ItemCount | source/reader.c:232-237 | `getPackItemCount` is the number of items in the table. |
| PackReader.PackReader.ItemDataSize | source/reader.c:284-291 | `getPackItemDataSize` is the item's `itemSize`. |
| PackReader.PackReader.ItemPath | source/reader.c:292-299 | `getPackItemPath` is the stored path: `pathSize` bytes, then a terminator. |
| PackReader.PackReader.GetItemIndex | source/reader.c:258-283 | True implies an in-range index of the item with exactly that path. False leaves the index unchanged. On a sorted table it is true exactly when such an item exists, as the header's doc comment promises. |
| PackReader.PackReader.GetItemIndexAsWritten | source/reader.c:267-276 | With the key's length left at 0, a hit is always an item of path length 0. On a sorted table there is a hit exactly when such an item exists. |
| PackReader.PackReader.ReadItemData | source/reader.c:301-372 | The returned code, the caller's buffer and the file position are exactly what `ReadItemSpec` gives. |
| PackReader.PackReader.CreateItemData | source/reader.c:374-407 | Data is returned exactly on SUCCESS, with size `itemSize` and the bytes `readPackItemData` produced. If the allocation fails, the result is FAILED_TO_ALLOCATE and the file is not moved. |
| PackReader.SearchKey | source/reader.c:267-269 | The corrected key has the path's length, the path, and a terminator. |
| PackReader.KeyMatches | source/reader.c:239-257 | A loaded item compares equal to a path's key exactly when it holds that path. |
| PackReader.CreatePackReader | source/reader.c:95-216 | The code is `OpenSpec`'s. A reader is published exactly on SUCCESS, and it holds `OpenSpec`'s table, a zeroed key and the open file positioned after the table. |
| PackReader.ParseRecordsStep | source/reader.c:44-89 | A table whose first record loads is that item in front of the table after it. |
| PackReader.ParseRecordsAdvance | source/reader.c:86-88 | A loop pass moves one item from the still-to-read table to the read items. |
| PackReader.ParseRecordsFails | source/reader.c:54-84 | A failing record ends the load with its own error. |
| PackReader.ReadRecordFrom | source/reader.c:46-88 | The loop body reads `ReadRecord`'s item and leaves the file after the path. |
| PackReader.ReadNextRecord | source/reader.c:44-89 | One loop pass, stated against the records still to read. |
| PackReader.CreatePackItems | source/reader.c:34-93 | The result is `CreatePackItemsSpec` of the file at the current position, and the file is left after the table. |
| PackReader.ReadRecords | source/reader.c:44-92 | The loop gives `ParseRecords` of the file at the current position, and leaves the file after the table. |
| PackReader.DestroyPackReader | source/reader.c:217-230 | Null does nothing. Otherwise the table is freed, the file closed and the reader dead. |
| LegacyPackReader.ReadRecord | source/pack_reader.c:54-94 | A record loads only under the `Intended` check. Its path buffer holds exactly `pathSize` bytes inside the file. |
| LegacyPackReader.ReadRecordPath | source/pack_reader.c:79-83 | The path buffer holds the `pathSize` bytes after the record, with no terminator. |
| LegacyPackReader.ParseRecords | source/pack_reader.c:52-95 | A non-empty table loads only under the `Intended` check, with n items of at least 32 bytes each. Errors are only the read and allocation failures. |
| LegacyPackReader.ParseRecord | source/pack_reader.c:52-95 | One pass of the loop followed by the rest. |
| LegacyPackReader.CreatePackItemsSpec | source/pack_reader.c:42-99 | A table that loads has `itemCount` items, each holding exactly its path. |
| LegacyPackReader.ParseRecordsExact | source/pack_reader.c:69-94 | Every path buffer of a loaded table holds exactly `pathSize` bytes. |
| LegacyPackReader.RecordCheckAlwaysFails | source/pack_reader.c:56-67 | As written, a table with at least one record never loads: FAILED_TO_ALLOCATE or FAILED_TO_READ_FILE. |
| LegacyPackReader.IntendedRecordsRead | source/pack_reader.c:54-94 | With the record check corrected, item 0 of a loaded table is the record stored at the position with the path bytes after it, and the other items are the table loaded after that path. |
| LegacyPackReader.IntendedRecordLoads | source/pack_reader.c:54-94 | With the record check corrected, a record that is all there, whose path buffer can be had and whose path bytes are all there, loads as that record with exactly those bytes. |
| LegacyPackReader.IntendedShortPathRefused | source/pack_reader.c:79-91 | With the record check corrected, a record whose path bytes are not all in the file stops the load with FAILED_TO_READ_FILE. |
| LegacyPackReader.IntendedEntryLoads | source/pack_reader.c:52-95 | With the record check corrected, a first entry that loads, in front of a rest that loads, gives the whole table. |
| LegacyPackReader.IntendedLaidLoads | source/pack_reader.c:52-95 | With the record check corrected, entries laid back to back with affordable paths load as exactly those entries. |
| LegacyPackReader.IntendedTableLoads | source/pack_reader.c:42-99 | With the record check corrected, any table of entries laid out at the position loads as exactly those entries, ending after its last path. |
| LegacyPackReader.OpenSpec | source/pack_reader.c:101-236 | A reader opens only under the `Intended` check, with `itemCount` items each holding exactly its path. |
| LegacyPackReader.NeverOpens | source/pack_reader.c:195-207 | As written, no file opens. A header that passes every check ends in FAILED_TO_READ_FILE. |
| LegacyPackReader.EmptyPackOpens | source/pack_reader.c:195-216 | With the count check corrected, a valid header with count 0 opens with an empty table. |
| LegacyPackReader.IntendedPackOpens | source/pack_reader.c:101-236 | With both checks corrected, a readable file with an accepted header, a count n and n entries laid out after it opens with exactly those entries. |
| LegacyPackReader.IntendedHeaderAndCountRead | source/pack_reader.c:141-222 | With the count check corrected, after an accepted header and a count whose table loads, the reader opens with that count and that table. |
| LegacyPackReader.SameHeaderChecks | source/pack_reader.c:147-191 | A header that fails gets the same code, in the same order, as in the newer reader. |
| LegacyPackReader.ReadItemSpec | source/pack_reader.c:321-390 | FAILED_TO_ALLOCATE exactly when the `zipSize` buffer cannot be had, and it is checked before the seek. FAILED_TO_SEEK_FILE exactly when allocation succeeds and the seek fails. On success the buffer holds `itemSize` bytes decompressed from the `zipSize` bytes at the offset, even when `zipSize` is 0. |
| LegacyPackReader.RawItemsDecompressed | source/pack_reader.c:360-387 | An item stored raw reads back only if the codec turns zero bytes into exactly `itemSize` bytes. |
| LegacyPackReader.ReadItemErrors | source/pack_reader.c:332-387 | When the buffer is had and the seek succeeds, FAILED_TO_READ_FILE exactly when `zipSize` is non-zero and those bytes are not all there. No code outside seek, allocation, read and decompression failures. |
| LegacyPackReader.StoredItemRead | source/pack_reader.c:332-387 | When the buffer is had, the seek succeeds and the `zipSize` bytes are there, the read succeeds exactly when the codec turns them into exactly `itemSize` bytes, and then the buffer holds them; otherwise FAILED_TO_DECOMPRESS. |
| LegacyPackReader.SearchKey | source/pack_reader.c:287-289 | The corrected key holds the path, unterminated, with the path's length and zero sizes and offset. |
| LegacyPackReader.PackReader.Init | source/pack_reader.c:224-232 | The reader holds the file, the count and the table, and its search item is zeroed. |
| LegacyPackReader.PackReader.ItemCount | source/pack_reader.c:252-257 | The number of items. |
| LegacyPackReader.PackReader.ItemDataSize | source/pack_reader.c:304-311 | The item's `itemSize`. |
| LegacyPackReader.PackReader.ItemPath | source/pack_reader.c:312-319 | The item's path buffer itself: `pathSize` bytes, not terminated. |
| LegacyPackReader.PackReader.GetItemIndexAsWritten | source/pack_reader.c:278-303 | With the key's length at 0, only items of path length 0 can be hit. |
| LegacyPackReader.PackReader.GetItemIndex | source/pack_reader.c:278-303 | With the key's length set, true exactly when an item holds the path on a sorted table, with an in-range index. False leaves the index unchanged. The reader's search item becomes the path's key (for paths of at most 255 bytes). |
| LegacyPackReader.PackReader.ReadItemData | source/pack_reader.c:321-390 | Code, buffer and file position as `ReadItemSpec` gives them. |
| LegacyPackReader.PackReader.CreateItemData | source/pack_reader.c:392-425 | Data exactly on SUCCESS, with size `itemSize`. |
| LegacyPackReader.ParseRecordsStep | source/pack_reader.c:52-95 | A table whose first record loads is that item in front of the table after it. |
| LegacyPackReader.ReadRecordFrom | source/pack_reader.c:54-94 | The loop body reads `ReadRecord`'s item and leaves the file after the path. |
| LegacyPackReader.ReadNextRecord | source/pack_reader.c:52-95 | One loop pass, stated against the records still to read. |
| LegacyPackReader.CreatePackItems | source/pack_reader.c:42-99 | The result is `CreatePackItemsSpec` at the current position, with the file left after the table. |
| LegacyPackReader.ReadRecords | source/pack_reader.c:52-96 | The loop gives `ParseRecords` at the current position. |
| LegacyPackReader.CreatePackReader | source/pack_reader.c:101-236 | The code is `OpenSpec`'s, and a reader is published exactly on SUCCESS, holding `OpenSpec`'s table. |
| LegacyPackReader.DestroyPackReader | source/pack_reader.c:237-250 | Null does nothing. Otherwise the table is freed and the file closed. |
| PackWriter.HeaderBytes | source/writer.c:285-291 | 8 bytes: the magic, the version triple and the byte-order flag. |
| PackWriter.ShortLength | source/writer.c:240-241 | The path length cast to `uint8_t`. It equals the length for paths of at most 255 bytes. |
| PackWriter.ComparePaths | source/writer.c:234-249 | `comparePackItemPaths` is 0 exactly when the truncated lengths and the bytes within them agree. |
| PackWriter.ComparePathsAntisymmetric | source/writer.c:234-249 | a > b exactly when b < a. |
| PackWriter.ComparePathsTransitive | source/writer.c:234-249 | The path order is transitive, as `qsort` requires. |
| PackWriter.Insert | source/writer.c:269-273 | Inserting adds exactly one copy of the path. |
| PackWriter.SortPaths | source/writer.c:269-273 | The sorted paths are a permutation of the input. |
| PackWriter.InsertBelow | source/writer.c:269-273 | A path below every element and below the inserted one stays below all of them. |
| PackWriter.InsertSorted | source/writer.c:269-273 | Inserting into a sorted sequence keeps it sorted. |
| PackWriter.SortPathsSorted | source/writer.c:269-273 | The sort's result is ordered by `comparePackItemPaths`. |
| PackWriter.Regrow | source/writer.c:99-128 | Items of at most 1 byte leave the buffers alone. A larger item regrows both buffers to exactly `itemSize` when memory allows, and fails otherwise, because `bufferSize` stays 1. |
| PackWriter.ZipSize | source/writer.c:145-156 | The stored `zipSize` is 0 or strictly below `itemSize`. It is 0 exactly when compression fails, is empty, or is not smaller. Otherwise it is the frame's length. |
| PackWriter.PrepareItem | source/writer.c:43-156 | A prepared item has a path of at most 255 bytes that names a file. Its `itemSize` is the file's length modulo 2^32 and is non-zero, and `zipSize` is 0 or smaller. The payload is the raw bytes or their frame. Buffers that started with at least one byte end with at least `itemSize` bytes. |
| PackWriter.PrepareItemErrors | source/writer.c:43-143 | Each code exactly when it happens: BAD_DATA_SIZE for a long path or an empty file; FAILED_TO_OPEN_FILE for a missing file; FAILED_TO_SEEK_FILE for an unpositionable one; FAILED_TO_ALLOCATE when the buffers cannot be regrown; FAILED_TO_READ_FILE when they can but the file is unreadable. Success exactly otherwise, and no other code. |
| PackWriter.WriteItem | source/writer.c:36-228 | A prepare error is returned with the file untouched. Success appends exactly the record (offset = the position before it), the path and the payload. The file only grows. |
| PackWriter.WriteItemFits | source/writer.c:165-220 | An item is written exactly when it is prepared and its block fits. A prepared item that does not fit gives FAILED_TO_WRITE_FILE. |
| PackWriter.WriteItems | source/writer.c:36-228 | The loop only appends to the file and never exceeds its capacity. |
| PackWriter.WriteItemsPass | source/writer.c:36-228 | One pass of the loop with paths left: the file only grows and stays within its capacity. |
| PackWriter.Blocks | source/writer.c:158-220 | The blocks of the items, each recording its own start offset. They end within the largest file offset. |
| PackWriter.BlocksFrom | source/writer.c:158-220 | The first item's block followed by the blocks after it. Failures are real codes, and the blocks end within the largest file offset. |
| PackWriter.WriteItemsLayout | source/writer.c:158-220 | A successful loop leaves the earlier contents followed by the blocks. Each record's offset is 16 plus the sizes of the blocks before it. |
| PackWriter.BlocksWritten | source/writer.c:36-228 | Conversely, the loop succeeds when every item is prepared and all blocks fit. |
| PackWriter.FirstFailureStops | source/writer.c:43-220 | After the first failing item, later paths do not change the outcome or the file. |
| PackWriter.InitialScratch | source/writer.c:19-34 | The two one-byte buffers are had exactly when two bytes are free. |
| PackWriter.PackSpec | source/writer.c:250-337 | A pack file is kept exactly on SUCCESS. |
| PackWriter.PackLayout | source/writer.c:285-325 | A kept pack is the header, the count `\|paths\|` and the blocks of the sorted paths, the first at offset 16. |
| PackWriter.PackKept | source/writer.c:250-337 | Conversely, the pack is kept when memory suffices, the file can be created and everything fits. |
| PackWriter.PackEarlyErrors | source/writer.c:260-319 | The failures before any item: the path-array allocation, the open, a short header or count write, and the scratch buffers. |
| PackWriter.WriteBlock | source/writer.c:165-220 | The three `fwrite` calls leave what one write of the block leaves. They succeed exactly when all of it was appended. |
| PackWriter.WriteItemTo | source/writer.c:36-228 | One loop iteration over the stream and scratch arrays gives exactly `WriteItem`'s outcome and file. The arrays have the new capacities. |
| PackWriter.WriteItemsStep | source/writer.c:36-228 | A failing item ends the loop with its error. A succeeding one hands its buffers to the rest. |
| PackWriter.WritePackItems | source/writer.c:13-233 | The buffer allocation failure, or exactly `WriteItems`' outcome and file. |
| PackWriter.SortPathArray | source/writer.c:269-273 | The array ends sorted by `comparePackItemPaths`, as a permutation, in `SortPaths` order. |
| PackWriter.CopyPaths | source/writer.c:260-267 | A fresh array holding the caller's paths. The caller's array is not reordered. |
| PackWriter.PackItems | source/writer.c:250-337 | The result and the kept file are exactly `PackSpec` of the caller's paths; a failed pack leaves no file. |
| PackCompat.HeaderAccepted | source/writer.c:285-291 | The written header passes every check of a reader built with the same configuration. |
| PackCompat.OtherVersionRefused | source/reader.c:154-161 | A reader of another major or minor version refuses it with BAD_FILE_VERSION. |
| PackCompat.OtherByteOrderRefused | source/reader.c:165-171 | A reader of the other byte order refuses it with BAD_FILE_ENDIANNESS. |
| PackCompat.KeptFile | source/writer.c:285-319 | A kept pack starts with the header and the path count. |
| PackCompat.KeptPackHeaderRead | source/reader.c:129-187 | `createPackReader` accepts a kept pack's header and reads back the number of paths as `itemCount`. |
| PackCompat.KeptPackInfo | source/common.c:28-69 | With the count check corrected, `getPackInfo` reports the writer's version, byte order and path count. |
| PackCompat.KeptPackInfoAsWritten | source/common.c:53-62 | As written, `getPackInfo` refuses even a kept pack with FAILED_TO_READ_FILE. |
| PackCompat.OrderAgrees | source/writer.c:234-249 | For paths of at most 255 bytes, `comparePackItems` on the loaded entries equals `comparePackItemPaths` on the paths. |
| PackCompat.SortedTableSearchable | source/writer.c:269-273 | Paths in the writer's order, loaded by the reader, form a table sorted as `bsearch` requires. |
| PackCompat.BlocksPrepared | source/writer.c:43-84 | Every path with a written block is 1 to 255 bytes long. |
| PackCompat.KeptPathsStored | source/writer.c:43-50 | Every path of a kept pack is 1 to 255 bytes long. |
| PackCompat.KeptTableSearchable | source/writer.c:269-273 | The entries of a kept pack, in the order written, are sorted for `bsearch` and have non-zero lengths. So the lookup as written never finds them. |
| PackCompat.LookupKeyCounterexample | source/reader.c:267-269 | For the entry of path "a", the corrected key compares equal and the key as written does not. |

## Left out

- The zstd codec is not modelled. `ZSTD_compress` and `ZSTD_decompressDCtx` are any pair of functions that produce bytes or fail. `ZSTD_maxCLevel` and the context objects are not modelled; creating the decompression context is the `zstdReady` parameter.
- stdio and the operating system are reduced to byte sequences:
  - `fopen` succeeds exactly when the path is in the file map, and `"rb"` and `"r"` are not told apart;
  - `fread` is short only at the end of the file or on an unreadable file;
  - `fwrite` is short only when the output file is full;
  - `fclose` and `remove` are not modelled: a pack file that is removed is reported as absent.
  - `openFile`/`seekFile`/`tellFile` are taken as the POSIX branch of `include/pack/file.h`.
- Path bytes are taken to be the string before its terminator. A path with an interior 0 byte, which `strlen` would cut short, is not modelled.
- `pack/defines.h` is not part of this model. The record layout and the build constants are assumptions, stated under Model conventions above.
- The reader's table allocation of a single `PackItem` (source/reader.c:39), and the writes past it for more than one item, are not modelled. The table is a sequence; only the allocation's failure code is kept.
- The double free on a failed record read (source/reader.c:56-57) is not modelled. Frees are not modelled at all.
- Whether `malloc(0)` returns NULL is not modelled. A zero-byte allocation always succeeds here. This affects `pathSize` 0 in source/pack_reader.c:69-70, `itemSize` 0 in `createPackItemData`, and the `zipSize` buffer of every raw item in the older reader (source/pack_reader.c:334-338), which is 0 bytes. `LegacyPackReader.RawItemsDecompressed`, `LegacyPackReader.StoredItemRead` and `LegacyPackReader.ReadItemErrors` rely on that allocation succeeding.
- Version bytes of 128 and above are not modelled. The readers compare `char header[]` bytes with the version constants (source/reader.c:127, 154-155; source/pack_reader.c:147, 174-175), and `char` is signed on common ABIs, so such a version written by source/writer.c:285-288 would never match. `Config`'s major and minor are `Version` values below 128, where a signed and an unsigned `char` agree.
- The 7 padding bytes of the item record written by `fwrite(&info)` (source/writer.c:158) hold unspecified values in C. The model writes them as zeros (`PackFormat.InfoBytes`); the readers never look at them.
- The progress output (`printf` and its float percentage, source/writer.c:40-41, 222-227) is not modelled.
- PackWriter.SortPaths: `qsort` is modelled by an insertion sort. Its result is proved to be a sorted permutation, which is all `qsort` promises. Which of two paths that compare equal comes first is not pinned down by the C library; the model picks one order.
- PackWriter.PackSpec: the product `itemCount * sizeof(const char*)` is taken without 64-bit wrap-around.
- PackWriter.PackSpec: the pack file's capacity is assumed to fit an `off_t`.
- PackWriter.WriteItem: the three `fwrite` calls of an item are one `Emit` of the whole block. `WriteBlock` proves that this stores the same bytes and gives the same result.
- PackWriter.Regrow: the contents that `realloc` carries over are not tracked. The next `fread` overwrites the part that is used.
- PackWriter.WriteItemTo: the second `fseeko(SEEK_SET, 0)` of an item (source/writer.c:86-97) is taken to succeed whenever the first seek did, because the same file can be positioned.
- PackReader.PackReader.ReadItemData: on a failed decompression, the model places the decompressor's whole output in the caller's buffer. What zstd leaves in the buffer on an error is not modelled.
- There is no whole-archive write-then-read round trip, because none holds for this code. The writer puts each record directly before its path and payload, and records the offset of the record (source/writer.c:158-220). The reader reads all records back to back after the count (source/reader.c:44-89) and seeks to the recorded offset for the payload (source/reader.c:313-316). `PackCompat` proves what does carry over: the header, the count and the order of the entries.
- The C# and C++ wrappers, the command-line utilities, `tests/test_packer.c` (which targets a later interface) and the generated documentation are not part of this model.

## Findings

| source | as written | input that shows it | evidently intended | confidence | as-written member | corrected member |
|---|---|---|---|---|---|---|
| source/reader.c:267-269 | `getPackItemIndex` sets only the key's path. The key's `pathSize` stays 0 from the `memset` at source/reader.c:209-212, and the comparator compares lengths first. | A pack holding the path "a" (record path length 1, path buffer "a\0"), looked up with "a": the key (length 0) compares unequal, so the lookup is false. | The key's length is the path's length, so the lookup is true exactly when the item exists (include/pack/reader.h:34-35). | not executed | PackReader.PackReader.GetItemIndexAsWritten, PackCompat.LookupKeyCounterexample | PackReader.PackReader.GetItemIndex |
| source/common.c:61 | `fread(&itemCount, 8, 1, f)` returns an element count (0 or 1), and it is compared with `sizeof(uint64_t)`. | Any readable file of at least 16 bytes starting with "PACK", such as a pack the writer keeps, gives FAILED_TO_READ_FILE. | The count is compared with 1, and the header fields and count are reported. | not executed | PackCommon.InfoNeverReported, PackCompat.KeptPackInfoAsWritten | PackCommon.VersionsNotChecked, PackCompat.KeptPackInfo |
| source/pack_reader.c:201 | The item-count read's element count is compared with `sizeof(uint64_t)`. | Any file whose header passes every check gives FAILED_TO_READ_FILE, and no reader is published. | The count is compared with 1. | not executed | LegacyPackReader.NeverOpens | LegacyPackReader.EmptyPackOpens |
| source/pack_reader.c:62 | The record read's element count is compared with `sizeof(ItemInfo)`. | Any table with at least one record fails to load. | The record read is compared with 1. | not executed | LegacyPackReader.RecordCheckAlwaysFails | LegacyPackReader.IntendedTableLoads, LegacyPackReader.IntendedPackOpens |
