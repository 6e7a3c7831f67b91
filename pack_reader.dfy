/**
 * The older revision of the reader (source/pack_reader.c). It shares the
 * header checks, the comparator and the lookup with source/reader.c, and
 * differs from it here:
 *   - the item count read is checked against sizeof(uint64_t) and a record
 *     read against sizeof(ItemInfo), where fread returns an element count
 *     (0 or 1), so both checks fail whenever they are reached;
 *   - a path buffer holds exactly pathSize bytes, with no terminator;
 *   - readPackItemData allocates the compressed buffer before seeking and
 *     always decompresses, with no raw branch.
 *
 * The value fread's result is compared against is a parameter (`Checks`):
 * `AsWritten` is the code as it stands, `Intended` compares with 1.
 */
module LegacyPackReader {
  import opened PackFormat
  import opened CFile
  import opened Zstd
  import opened PackItems
  import Current = PackReader

  /** A path buffer as this revision fills it: exactly pathSize bytes. */
  predicate Exact(item: PackItem)
  {
    |item.path| == item.info.pathSize as nat
  }

  predicate AllExact(items: seq<PackItem>)
  {
    forall i :: 0 <= i < |items| ==> Exact(items[i])
  }

  /** One pass of createPackItems' loop: the record, malloc(pathSize), the path. */
  function ReadRecord(c: Checks, little: bool, node: FileNode, pos: nat, allocLimit: nat): (r: Result<PackItem>)
    ensures r.Ok? ==> c.Intended? && Exact(r.value)
    ensures r.Ok? ==> pos + InfoSize + r.value.info.pathSize as nat <= |node.content|
  {
    var record := Fread(node, pos, InfoSize);
    if Elements(record, InfoSize) != RecordCheck(c) then Err(FailedToReadFile)
    else
      var info := DecodeInfo(record, little);
      if info.pathSize as nat > allocLimit then Err(FailedToAllocate)
      else
        var path := Fread(node, pos + InfoSize, info.pathSize);
        if |path| != info.pathSize as nat then Err(FailedToReadFile)
        else Ok(PackItem(info, path))
  }

  /** The path buffer holds the pathSize bytes after the record. */
  lemma ReadRecordPath(c: Checks, little: bool, node: FileNode, pos: nat, allocLimit: nat)
    ensures var r := ReadRecord(c, little, node, pos, allocLimit);
      r.Ok? ==> r.value.path == node.content[pos + InfoSize..pos + InfoSize + r.value.info.pathSize as nat]
  {
  }

  /** The loop of createPackItems from file position pos: n records, stopping at the first failure. */
  function ParseRecords(c: Checks, little: bool, node: FileNode, pos: nat, n: nat, allocLimit: nat): (r: Result<Current.Parsed>)
    ensures r.Ok? ==> |r.value.items| == n
    ensures r.Ok? && n > 0 ==> c.Intended? && pos + Current.RecordsFloor(n) <= |node.content|
    ensures r.Err? ==> r.error == FailedToReadFile || r.error == FailedToAllocate
    decreases n, 1
  {
    if n == 0 then Ok(Current.Parsed([], pos)) else ParseRecord(c, little, node, pos, n, allocLimit)
  }

  /** A pass of the loop with n > 0 records to go: one record, then the n - 1 after it. */
  function ParseRecord(c: Checks, little: bool, node: FileNode, pos: nat, n: nat, allocLimit: nat): (r: Result<Current.Parsed>)
    requires n > 0
    ensures r.Ok? ==> |r.value.items| == n && c.Intended? && pos + Current.RecordsFloor(n) <= |node.content|
    ensures r.Err? ==> r.error == FailedToReadFile || r.error == FailedToAllocate
    decreases n, 0
  {
    match ReadRecord(c, little, node, pos, allocLimit)
    case Err(e) => Err(e)
    case Ok(item) =>
      Current.Prepend([item], ParseRecords(c, little, node, pos + InfoSize + item.info.pathSize as nat, n - 1, allocLimit))
  }

  /** createPackItems: the table allocation, then the records. */
  function CreatePackItemsSpec(c: Checks, little: bool, node: FileNode, pos: nat, count: nat, allocLimit: nat): (r: Result<Current.Parsed>)
    ensures r.Ok? ==> |r.value.items| == count && AllExact(r.value.items)
  {
    if Current.PackItemSize > allocLimit then Err(FailedToAllocate)
    else
      ParseRecordsExact(c, little, node, pos, count, allocLimit);
      ParseRecords(c, little, node, pos, count, allocLimit)
  }

  /** Every path buffer of a table that loads holds exactly its path. */
  lemma {:induction false} ParseRecordsExact(c: Checks, little: bool, node: FileNode, pos: nat, n: nat, allocLimit: nat)
    ensures ParseRecords(c, little, node, pos, n, allocLimit).Ok? ==> AllExact(ParseRecords(c, little, node, pos, n, allocLimit).value.items)
    decreases n
  {
    if n > 0 {
      var r := ReadRecord(c, little, node, pos, allocLimit);
      if r.Ok? {
        var next := pos + InfoSize + r.value.info.pathSize as nat;
        ParseRecordsStep(c, little, node, pos, n, allocLimit, r.value, next);
        ParseRecordsExact(c, little, node, next, n - 1, allocLimit);
        PrependExact(r.value, ParseRecords(c, little, node, next, n - 1, allocLimit));
      }
    }
  }

  /** An exact path buffer in front of exact ones. */
  lemma PrependExact(item: PackItem, rest: Result<Current.Parsed>)
    requires Exact(item) && (rest.Ok? ==> AllExact(rest.value.items))
    ensures Current.Prepend([item], rest).Ok? ==> AllExact(Current.Prepend([item], rest).value.items)
  {
    if rest.Ok? {
      var items := [item] + rest.value.items;
      forall i | 0 <= i < |items|
        ensures Exact(items[i])
      {
        if i > 0 {
          assert items[i] == rest.value.items[i - 1];
        }
      }
    }
  }

  /** As written, a table with at least one record never loads. */
  lemma RecordCheckAlwaysFails(little: bool, node: FileNode, pos: nat, count: nat, allocLimit: nat)
    requires count > 0
    ensures var r := CreatePackItemsSpec(AsWritten, little, node, pos, count, allocLimit);
      r == Err(FailedToAllocate) || r == Err(FailedToReadFile)
  {
  }

  /**
   * With the record check comparing with 1, a record whose path fits in
   * memory and in the file loads, as exactly the pathSize bytes after it.
   */
  lemma IntendedRecordLoads(little: bool, node: FileNode, pos: nat, allocLimit: nat)
    requires node.readable && pos + InfoSize <= |node.content|
    requires Current.RecordAt(little, node, pos).pathSize as nat <= allocLimit
    requires pos + InfoSize + Current.RecordAt(little, node, pos).pathSize as nat <= |node.content|
    ensures var info := Current.RecordAt(little, node, pos);
      ReadRecord(Intended, little, node, pos, allocLimit)
      == Ok(PackItem(info, node.content[pos + InfoSize..pos + InfoSize + info.pathSize as nat]))
  {
    var info := Current.RecordAt(little, node, pos);
    assert Fread(node, pos, InfoSize) == node.content[pos..pos + InfoSize];
    assert Fread(node, pos + InfoSize, info.pathSize as nat)
      == node.content[pos + InfoSize..pos + InfoSize + info.pathSize as nat];
  }

  /** With the record check comparing with 1, a path cut short by the end of the file fails the table. */
  lemma IntendedShortPathRefused(little: bool, node: FileNode, pos: nat, n: nat, allocLimit: nat)
    requires n > 0 && node.readable && pos + InfoSize <= |node.content|
    requires Current.RecordAt(little, node, pos).pathSize as nat <= allocLimit
    requires |node.content| < pos + InfoSize + Current.RecordAt(little, node, pos).pathSize as nat
    ensures ParseRecords(Intended, little, node, pos, n, allocLimit) == Err(FailedToReadFile)
  {
    var info := Current.RecordAt(little, node, pos);
    assert |Fread(node, pos, InfoSize)| == InfoSize;
    assert |Fread(node, pos + InfoSize, info.pathSize as nat)| != info.pathSize as nat;
  }

  /**
   * With the record check comparing with 1, a table that loads starts with
   * the record at pos and exactly the pathSize bytes after it; the rest of
   * the table is what loads after them.
   */
  lemma IntendedRecordsRead(little: bool, node: FileNode, pos: nat, n: nat, allocLimit: nat)
    requires n > 0 && ParseRecords(Intended, little, node, pos, n, allocLimit).Ok?
    ensures pos + InfoSize <= |node.content|
    ensures var items := ParseRecords(Intended, little, node, pos, n, allocLimit).value.items;
      var next := pos + InfoSize + items[0].info.pathSize as nat;
      && items[0].info == DecodeInfo(node.content[pos..pos + InfoSize], little)
      && next <= |node.content|
      && items[0].path == node.content[pos + InfoSize..next]
      && ParseRecords(Intended, little, node, next, n - 1, allocLimit).Ok?
      && items[1..] == ParseRecords(Intended, little, node, next, n - 1, allocLimit).value.items
  {
    assert ParseRecords(Intended, little, node, pos, n, allocLimit) == ParseRecord(Intended, little, node, pos, n, allocLimit);
    var r := ReadRecord(Intended, little, node, pos, allocLimit);
    assert r.Ok?;
    ReadRecordPath(Intended, little, node, pos, allocLimit);
    var next := pos + InfoSize + r.value.info.pathSize as nat;
    ParseRecordsStep(Intended, little, node, pos, n, allocLimit, r.value, next);
  }

  /** Entries whose path bytes are pathSize long and fit in memory (malloc(pathSize)). */
  predicate StorableEntries(entries: seq<PackItem>, allocLimit: nat)
  {
    entries != [] ==>
      && |entries[0].path| == entries[0].info.pathSize as nat
      && entries[0].info.pathSize as nat <= allocLimit
      && StorableEntries(entries[1..], allocLimit)
  }

  /** The entries after the first are laid out just after its path. */
  lemma LaidTail(little: bool, node: FileNode, pos: nat, entries: seq<PackItem>, allocLimit: nat)
    requires entries != [] && StorableEntries(entries, allocLimit) && Current.Laid(little, node, pos, entries)
    ensures Current.Laid(little, node, pos + InfoSize + |entries[0].path|, entries[1..])
    ensures StorableEntries(entries[1..], allocLimit)
  {
  }

  /**
   * With the record check comparing with 1, the first entry laid out at pos,
   * ahead of the rest of the entries loading up to end, loads ahead of them.
   */
  lemma IntendedEntryLoads(little: bool, node: FileNode, pos: nat, entries: seq<PackItem>, allocLimit: nat, end: nat)
    requires entries != [] && node.readable && pos + InfoSize + |entries[0].path| <= |node.content|
    requires Current.RecordAt(little, node, pos) == entries[0].info
    requires |entries[0].path| == entries[0].info.pathSize as nat && entries[0].info.pathSize as nat <= allocLimit
    requires node.content[pos + InfoSize..pos + InfoSize + |entries[0].path|] == entries[0].path
    requires ParseRecords(Intended, little, node, pos + InfoSize + |entries[0].path|, |entries[1..]|, allocLimit)
      == Ok(Current.Parsed(entries[1..], end))
    ensures ParseRecords(Intended, little, node, pos, |entries|, allocLimit) == Ok(Current.Parsed(entries, end))
  {
    var e := entries[0];
    IntendedRecordLoads(little, node, pos, allocLimit);
    ParseRecordsStep(Intended, little, node, pos, |entries|, allocLimit, e, pos + InfoSize + |e.path|);
    assert |entries[1..]| == |entries| - 1 && [e] + entries[1..] == entries;
    assert Current.Prepend([e], Ok(Current.Parsed(entries[1..], end))) == Ok(Current.Parsed(entries, end));
  }

  /** With the record check comparing with 1: when the entries after the first load, the whole table loads. */
  lemma IntendedLaidStep(little: bool, node: FileNode, pos: nat, entries: seq<PackItem>, allocLimit: nat)
    requires node.readable && entries != []
    requires StorableEntries(entries, allocLimit) && Current.Laid(little, node, pos, entries)
    requires var next := pos + InfoSize + |entries[0].path|;
      ParseRecords(Intended, little, node, next, |entries[1..]|, allocLimit)
      == Ok(Current.Parsed(entries[1..], next + Current.TableSize(entries[1..])))
    ensures ParseRecords(Intended, little, node, pos, |entries|, allocLimit)
      == Ok(Current.Parsed(entries, pos + Current.TableSize(entries)))
  {
    var next := pos + InfoSize + |entries[0].path|;
    IntendedEntryLoads(little, node, pos, entries, allocLimit, next + Current.TableSize(entries[1..]));
    assert pos + Current.TableSize(entries) == next + Current.TableSize(entries[1..]);
  }

  /** With the record check comparing with 1, entries laid out from pos load as exactly those entries. */
  lemma {:induction false} IntendedLaidLoads(little: bool, node: FileNode, pos: nat, entries: seq<PackItem>, allocLimit: nat)
    requires node.readable && StorableEntries(entries, allocLimit) && Current.Laid(little, node, pos, entries)
    ensures ParseRecords(Intended, little, node, pos, |entries|, allocLimit)
      == Ok(Current.Parsed(entries, pos + Current.TableSize(entries)))
    decreases |entries|
  {
    if entries != [] {
      LaidTail(little, node, pos, entries, allocLimit);
      IntendedLaidLoads(little, node, pos + InfoSize + |entries[0].path|, entries[1..], allocLimit);
      IntendedLaidStep(little, node, pos, entries, allocLimit);
    }
  }

  /**
   * With the record check comparing with 1, a table laid out back to back
   * from pos loads as exactly those entries, and the file is left just after
   * the last path.
   */
  lemma IntendedTableLoads(little: bool, node: FileNode, pos: nat, entries: seq<PackItem>, allocLimit: nat)
    requires node.readable && StorableEntries(entries, allocLimit)
    requires pos + |Current.TableLayout(little, entries)| <= |node.content|
    requires node.content[pos..pos + |Current.TableLayout(little, entries)|] == Current.TableLayout(little, entries)
    ensures ParseRecords(Intended, little, node, pos, |entries|, allocLimit)
      == Ok(Current.Parsed(entries, pos + |Current.TableLayout(little, entries)|))
  {
    Current.LayoutLaid(little, node, pos, entries);
    IntendedLaidLoads(little, node, pos, entries, allocLimit);
    Current.TableLayoutSize(little, entries);
  }

  /** createPackReader of this revision: every way it can end, in source order. */
  function OpenSpec(c: Checks, cfg: Config, fs: FileSystem, path: Path, allocLimit: nat, zstdReady: bool): (r: Result<Current.Table>)
    ensures r.Ok? ==> c.Intended?
    ensures r.Ok? ==> |r.value.items| == r.value.itemCount as nat && AllExact(r.value.items)
  {
    if Current.ReaderSize > allocLimit then Err(FailedToAllocate)
    else if !zstdReady then Err(FailedToCreateZstd)
    else if path !in fs then Err(FailedToOpenFile)
    else
      var node := fs[path];
      var header := Fread(node, 0, HeaderSize);
      var check := Current.CheckHeader(cfg, header);
      if check != Success then Err(check)
      else
        var countBytes := Fread(node, HeaderSize, CountSize);
        if Elements(countBytes, CountSize) != CountCheck(c) then Err(FailedToReadFile)
        else
          var count := U64Value(countBytes, cfg.littleEndian);
          match CreatePackItemsSpec(c, cfg.littleEndian, node, HeaderSize + CountSize, count, allocLimit)
          case Err(e) => Err(e)
          case Ok(parsed) => Ok(Current.Table(count, parsed.items, parsed.end))
  }

  /**
   * As written, no file opens: a header that passes every check is followed
   * by the count check, which fails.
   */
  lemma NeverOpens(cfg: Config, fs: FileSystem, path: Path, allocLimit: nat, zstdReady: bool)
    ensures OpenSpec(AsWritten, cfg, fs, path, allocLimit, zstdReady).Err?
    ensures Current.ReaderSize <= allocLimit && zstdReady && path in fs
      && Current.CheckHeader(cfg, Fread(fs[path], 0, HeaderSize)) == Success
      ==> OpenSpec(AsWritten, cfg, fs, path, allocLimit, zstdReady) == Err(FailedToReadFile)
  {
  }

  /**
   * With the count check comparing with 1, a pack whose header passes and
   * whose item count is 0 opens, with an empty table right after the count.
   */
  lemma EmptyPackOpens(cfg: Config, fs: FileSystem, path: Path, allocLimit: nat, zstdReady: bool)
    requires Current.ReaderSize <= allocLimit && zstdReady && path in fs
    requires fs[path].readable && |fs[path].content| >= HeaderSize + CountSize
    requires Current.CheckHeader(cfg, fs[path].content[..HeaderSize]) == Success
    requires U64Value(fs[path].content[HeaderSize..HeaderSize + CountSize], cfg.littleEndian) == 0
    ensures OpenSpec(Intended, cfg, fs, path, allocLimit, zstdReady) == Ok(Current.Table(0, [], HeaderSize + CountSize))
  {
    var node := fs[path];
    assert Fread(node, 0, HeaderSize) == node.content[..HeaderSize];
    assert Fread(node, HeaderSize, CountSize) == node.content[HeaderSize..HeaderSize + CountSize];
  }

  /**
   * With both checks comparing with 1, a pack with a valid header, a count
   * and that many records laid out back to back after it opens, holding
   * exactly those entries.
   */
  lemma IntendedPackOpens(cfg: Config, fs: FileSystem, path: Path, entries: seq<PackItem>, allocLimit: nat)
    requires Current.ReaderSize <= allocLimit && path in fs && fs[path].readable
    requires StorableEntries(entries, allocLimit)
    requires HeaderSize + CountSize + |Current.TableLayout(cfg.littleEndian, entries)| <= |fs[path].content|
    requires Current.CheckHeader(cfg, fs[path].content[..HeaderSize]) == Success
    requires U64Value(fs[path].content[HeaderSize..HeaderSize + CountSize], cfg.littleEndian) as nat == |entries|
    requires fs[path].content[HeaderSize + CountSize..HeaderSize + CountSize + |Current.TableLayout(cfg.littleEndian, entries)|]
      == Current.TableLayout(cfg.littleEndian, entries)
    ensures OpenSpec(Intended, cfg, fs, path, allocLimit, true)
      == Ok(Current.Table(|entries| as uint64, entries, HeaderSize + CountSize + |Current.TableLayout(cfg.littleEndian, entries)|))
  {
    var end := HeaderSize + CountSize + |Current.TableLayout(cfg.littleEndian, entries)|;
    IntendedTableLoads(cfg.littleEndian, fs[path], HeaderSize + CountSize, entries, allocLimit);
    var parsed := Current.Parsed(entries, end);
    assert ParseRecords(Intended, cfg.littleEndian, fs[path], HeaderSize + CountSize, |entries|, allocLimit) == Ok(parsed);
    IntendedHeaderAndCountRead(cfg, fs, path, allocLimit, |entries| as uint64, parsed);
  }

  /** With the count check comparing with 1, a good header and a count whose table loads open the pack. */
  lemma IntendedHeaderAndCountRead(cfg: Config, fs: FileSystem, path: Path, allocLimit: nat, count: uint64, parsed: Current.Parsed)
    requires Current.ReaderSize <= allocLimit && path in fs && fs[path].readable
    requires HeaderSize + CountSize <= |fs[path].content|
    requires Current.CheckHeader(cfg, fs[path].content[..HeaderSize]) == Success
    requires U64Value(fs[path].content[HeaderSize..HeaderSize + CountSize], cfg.littleEndian) == count
    requires ParseRecords(Intended, cfg.littleEndian, fs[path], HeaderSize + CountSize, count as nat, allocLimit) == Ok(parsed)
    ensures OpenSpec(Intended, cfg, fs, path, allocLimit, true) == Ok(Current.Table(count, parsed.items, parsed.end))
  {
    var node := fs[path];
    assert Fread(node, 0, HeaderSize) == node.content[..HeaderSize];
    assert Fread(node, HeaderSize, CountSize) == node.content[HeaderSize..HeaderSize + CountSize];
  }

  /** Up to the count read the revisions agree: the same header codes in the same order. */
  lemma SameHeaderChecks(c: Checks, cfg: Config, fs: FileSystem, path: Path, allocLimit: nat, zstdReady: bool)
    requires Current.ReaderSize <= allocLimit && zstdReady && path in fs
    requires Current.CheckHeader(cfg, Fread(fs[path], 0, HeaderSize)) != Success
    ensures OpenSpec(c, cfg, fs, path, allocLimit, zstdReady) == Current.OpenSpec(cfg, fs, path, allocLimit, zstdReady)
  {
  }

  /** Result, bytes put into the caller's buffer, and file position after readPackItemData. */
  datatype ReadOutcome = ReadOutcome(result: Result<seq<uint8>>, written: seq<uint8>, pos: nat)

  /**
   * readPackItemData of this revision: allocate zipSize bytes, seek, read
   * zipSize bytes, and decompress them into itemSize bytes, whatever
   * zipSize is.
   */
  function ReadItemSpec(node: FileNode, pos0: nat, info: ItemInfo, allocLimit: nat, z: Zstd): (o: ReadOutcome)
    ensures |o.written| <= info.itemSize as nat
    ensures o.result.Ok? ==> o.written == o.result.value && |o.result.value| == info.itemSize as nat
    ensures o.result.Ok? && info.zipSize == 0 ==> z.decompress([]) == Some(o.result.value)
    ensures o.result.Ok? && info.zipSize > 0 ==>
      && info.fileOffset as nat + info.zipSize as nat <= |node.content|
      && z.decompress(node.content[info.fileOffset..info.fileOffset as nat + info.zipSize as nat]) == Some(o.result.value)
    ensures o.result == Err(FailedToAllocate) <==> info.zipSize as nat > allocLimit
    ensures o.result == Err(FailedToSeekFile) <==> info.zipSize as nat <= allocLimit && !SeekOk(node, info.fileOffset)
  {
    var offset := info.fileOffset as nat;
    if info.zipSize as nat > allocLimit then ReadOutcome(Err(FailedToAllocate), [], pos0)
    else if !SeekOk(node, offset) then ReadOutcome(Err(FailedToSeekFile), [], pos0)
    else
      var zipData := Fread(node, offset, info.zipSize);
      if |zipData| != info.zipSize as nat then ReadOutcome(Err(FailedToReadFile), [], offset + |zipData|)
      else
        match Decompress(z, zipData, info.itemSize)
        case None => ReadOutcome(Err(FailedToDecompress), [], offset + |zipData|)
        case Some(content) =>
          if |content| != info.itemSize as nat then ReadOutcome(Err(FailedToDecompress), content, offset + |zipData|)
          else ReadOutcome(Ok(content), content, offset + |zipData|)
  }

  /**
   * An item stored raw (zipSize 0) reads back as its bytes in the newer
   * revision, but this one hands zero bytes to the decompressor instead.
   */
  lemma RawItemsDecompressed(node: FileNode, pos0: nat, info: ItemInfo, allocLimit: nat, z: Zstd)
    requires info.zipSize == 0 && SeekOk(node, info.fileOffset)
    ensures ReadItemSpec(node, pos0, info, allocLimit, z).result.Ok? <==>
      z.decompress([]).Some? && |z.decompress([]).value| == info.itemSize as nat
  {
  }

  /** The errors readPackItemData of this revision can return, and when each happens. */
  lemma ReadItemErrors(node: FileNode, pos0: nat, info: ItemInfo, allocLimit: nat, z: Zstd)
    ensures var r := ReadItemSpec(node, pos0, info, allocLimit, z).result;
      && (info.zipSize as nat <= allocLimit && SeekOk(node, info.fileOffset) ==>
            (r == Err(FailedToReadFile) <==>
               info.zipSize > 0 && (!node.readable || |node.content| < info.fileOffset as nat + info.zipSize as nat)))
      && (r.Err? ==> r.error in {FailedToSeekFile, FailedToAllocate, FailedToReadFile, FailedToDecompress})
  {
  }

  /**
   * Once the zipSize bytes are in hand the read succeeds exactly when the
   * decompressor yields itemSize bytes, with those bytes, and fails with
   * FAILED_TO_DECOMPRESS otherwise.
   */
  lemma StoredItemRead(node: FileNode, pos0: nat, info: ItemInfo, allocLimit: nat, z: Zstd)
    requires info.zipSize as nat <= allocLimit && SeekOk(node, info.fileOffset)
    requires node.readable && info.fileOffset as nat + info.zipSize as nat <= |node.content|
    ensures var stored := node.content[info.fileOffset..info.fileOffset as nat + info.zipSize as nat];
      var r := ReadItemSpec(node, pos0, info, allocLimit, z).result;
      && (r.Ok? <==> z.decompress(stored).Some? && |z.decompress(stored).value| == info.itemSize as nat)
      && (r.Ok? ==> r.value == z.decompress(stored).value)
      && (r.Err? ==> r.error == FailedToDecompress)
  {
    var offset := info.fileOffset as nat;
    assert Fread(node, offset, info.zipSize as nat) == node.content[offset..offset + info.zipSize as nat];
  }

  /** The key the corrected lookup hands to bsearch: the path and its length. */
  function SearchKey(path: Path): (key: PackItem)
    requires |path| <= 255
    ensures Exact(key) && key.path == path && key.info == ItemInfo(0, 0, 0, |path| as uint8)
  {
    PackItem(ItemInfo(0, 0, 0, |path| as uint8), path)
  }

  /** A pack opened by this revision (struct PackReader). */
  class PackReader {
    const cfg: Config
    const zstd: Zstd
    const file: Stream
    var itemCount: uint64
    var items: seq<PackItem>
    var searchItem: PackItem
    var live: bool

    ghost predicate Valid()
      reads this
    {
      && live
      && itemCount as nat == |items|
      && AllExact(items)
      && WellFormed(searchItem)
    }

    constructor Init(cfg: Config, zstd: Zstd, file: Stream, itemCount: uint64, items: seq<PackItem>)
      requires itemCount as nat == |items| && AllExact(items)
      ensures Valid()
      ensures this.cfg == cfg && this.zstd == zstd && this.file == file
      ensures this.itemCount == itemCount && this.items == items && searchItem == ZeroItem
    {
      this.cfg := cfg;
      this.zstd := zstd;
      this.file := file;
      this.itemCount := itemCount;
      this.items := items;
      searchItem := ZeroItem;
      live := true;
    }

    /** getPackItemCount */
    function ItemCount(): (n: uint64)
      reads this
      requires Valid()
      ensures n as nat == |items|
    {
      itemCount
    }

    /** getPackItemDataSize */
    function ItemDataSize(index: uint64): (size: uint64)
      reads this
      requires Valid() && index < itemCount
      ensures size == items[index].info.itemSize
    {
      items[index].info.itemSize
    }

    /** getPackItemPath: pathSize bytes, with no terminator after them. */
    function ItemPath(index: uint64): (p: seq<uint8>)
      reads this
      requires Valid() && index < itemCount
      ensures |p| == items[index].info.pathSize as nat
      ensures p == items[index].path
    {
      items[index].path
    }

    /** getPackItemIndex as written: the key keeps the pathSize of the zeroed search item. */
    method GetItemIndexAsWritten(path: Path, index0: uint64) returns (found: bool, index: uint64)
      requires Valid() && searchItem.info == ZeroItem.info
      modifies this`searchItem
      ensures Valid() && searchItem == old(searchItem).(path := path)
      ensures found ==> index < itemCount && items[index].info.pathSize == 0
      ensures !found ==> index == index0
      ensures SortedItems(items) ==>
        (found <==> exists k :: 0 <= k < |items| && items[k].info.pathSize == 0)
    {
      searchItem := searchItem.(path := path);
      var hit, at := BinarySearch(items, searchItem);
      if !hit {
        return false, index0;
      }
      return true, at as uint64;
    }

    /** getPackItemIndex with the key's length set to the length of the path. */
    method GetItemIndex(path: Path, index0: uint64) returns (found: bool, index: uint64)
      requires Valid()
      modifies this`searchItem
      ensures Valid()
      ensures found ==> index < itemCount && items[index].path == path
      ensures !found ==> index == index0
      ensures SortedItems(items) ==>
        (found <==> exists k :: 0 <= k < |items| && items[k].path == path)
      ensures searchItem == if |path| <= 255 then SearchKey(path) else old(searchItem)
    {
      if |path| > 255 {
        forall k | 0 <= k < |items| ensures items[k].path != path {
          assert Exact(items[k]);
        }
        return false, index0;
      }
      searchItem := SearchKey(path);
      forall k | 0 <= k < |items|
        ensures CompareItems(searchItem, items[k]) == 0 <==> items[k].path == path
      {
        assert Exact(items[k]);
        assert items[k].path[..items[k].info.pathSize] == items[k].path;
      }
      var hit, at := BinarySearch(items, searchItem);
      if !hit {
        return false, index0;
      }
      return true, at as uint64;
    }

    /** readPackItemData into a caller buffer of at least itemSize bytes. */
    method ReadItemData(index: uint64, buffer: array<uint8>, allocLimit: nat) returns (res: PackResult)
      requires Valid() && index < itemCount
      requires buffer.Length >= items[index].info.itemSize as nat
      modifies file`pos, buffer
      ensures var o := ReadItemSpec(file.node, old(file.pos), items[index].info, allocLimit, zstd);
        && res == o.result.Code()
        && buffer[..] == Overlay(old(buffer[..]), o.written)
        && file.pos == o.pos
    {
      var info := items[index].info;
      if info.zipSize as nat > allocLimit {
        return FailedToAllocate;
      }
      var seekOk := file.Seek(info.fileOffset);
      if !seekOk {
        return FailedToSeekFile;
      }
      var zipData := file.Read(info.zipSize);
      if |zipData| != info.zipSize as nat {
        return FailedToReadFile;
      }
      var content := Decompress(zstd, zipData, info.itemSize);
      if content.None? {
        return FailedToDecompress;
      }
      Fill(buffer, content.value);
      if |content.value| != info.itemSize as nat {
        return FailedToDecompress;
      }
      return Success;
    }

    /** createPackItemData: a fresh buffer of itemSize bytes filled by readPackItemData. */
    method CreateItemData(index: uint64, allocLimit: nat) returns (res: PackResult, out: Option<Current.ItemData>)
      requires Valid() && index < itemCount
      modifies file`pos
      ensures out.Some? <==> res == Success
      ensures var info := items[index].info;
        if info.itemSize as nat > allocLimit then
          res == FailedToAllocate && file.pos == old(file.pos)
        else
          var o := ReadItemSpec(file.node, old(file.pos), info, allocLimit, zstd);
          && res == o.result.Code()
          && file.pos == o.pos
          && (out.Some? ==> out.value == Current.ItemData(info.itemSize, o.result.value))
    {
      var size := items[index].info.itemSize;
      if size as nat > allocLimit {
        return FailedToAllocate, None;
      }
      var data := new uint8[size];
      res := ReadItemData(index, data, allocLimit);
      if res != Success {
        return res, None;
      }
      return Success, Some(Current.ItemData(size, data[..]));
    }
  }

  /** One record more: the table from pos is this record in front of the table after it. */
  lemma ParseRecordsStep(c: Checks, little: bool, node: FileNode, pos: nat, n: nat, allocLimit: nat, item: PackItem, next: nat)
    requires n > 0 && ReadRecord(c, little, node, pos, allocLimit) == Ok(item)
    requires next == pos + InfoSize + item.info.pathSize as nat
    ensures ParseRecords(c, little, node, pos, n, allocLimit)
      == Current.Prepend([item], ParseRecords(c, little, node, next, n - 1, allocLimit))
  {
    assert ParseRecords(c, little, node, pos, n, allocLimit) == ParseRecord(c, little, node, pos, n, allocLimit);
  }

  /** The body of createPackItems' loop: read a record, allocate and read its path. */
  method ReadRecordFrom(c: Checks, file: Stream, little: bool, allocLimit: nat) returns (r: Result<PackItem>)
    modifies file`pos
    ensures r == ReadRecord(c, little, file.node, old(file.pos), allocLimit)
    ensures r.Ok? ==> file.pos == old(file.pos) + InfoSize + r.value.info.pathSize as nat
  {
    var record := file.Read(InfoSize);
    if Elements(record, InfoSize) != RecordCheck(c) {
      return Err(FailedToReadFile);
    }
    var info := DecodeInfo(record, little);
    if info.pathSize as nat > allocLimit {
      return Err(FailedToAllocate);
    }
    var path := file.Read(info.pathSize);
    if |path| != info.pathSize as nat {
      return Err(FailedToReadFile);
    }
    return Ok(PackItem(info, path));
  }

  /** One pass of the loop, with what it does to the records still to read. */
  method ReadNextRecord(c: Checks, file: Stream, little: bool, allocLimit: nat, ghost items: seq<PackItem>, ghost left: nat)
    returns (item: Result<PackItem>)
    requires left > 0
    modifies file`pos
    ensures item.Err? ==> Current.Prepend(items, ParseRecords(c, little, file.node, old(file.pos), left, allocLimit)) == Err(item.error)
    ensures item.Ok? ==>
      Current.Prepend(items, ParseRecords(c, little, file.node, old(file.pos), left, allocLimit))
      == Current.Prepend(items + [item.value], ParseRecords(c, little, file.node, file.pos, left - 1, allocLimit))
  {
    ghost var pos := file.pos;
    item := ReadRecordFrom(c, file, little, allocLimit);
    if item.Ok? {
      ParseRecordsStep(c, little, file.node, pos, left, allocLimit, item.value, file.pos);
      Current.PrependTwice(items, [item.value], ParseRecords(c, little, file.node, file.pos, left - 1, allocLimit));
    }
  }

  /** createPackItems: the table allocation, then the loop. */
  method CreatePackItems(c: Checks, file: Stream, count: uint64, little: bool, allocLimit: nat) returns (r: Result<Current.Parsed>)
    modifies file`pos
    ensures r == CreatePackItemsSpec(c, little, file.node, old(file.pos), count, allocLimit)
    ensures r.Ok? ==> file.pos == r.value.end
  {
    if Current.PackItemSize > allocLimit {
      return Err(FailedToAllocate);
    }
    r := ReadRecords(c, file, count, little, allocLimit);
  }

  /** The loop of createPackItems: `count` records and their paths, stopping at the first failure. */
  method ReadRecords(c: Checks, file: Stream, count: uint64, little: bool, allocLimit: nat) returns (r: Result<Current.Parsed>)
    modifies file`pos
    ensures r == ParseRecords(c, little, file.node, old(file.pos), count, allocLimit)
    ensures r.Ok? ==> file.pos == r.value.end
  {
    ghost var node := file.node;
    ghost var whole := ParseRecords(c, little, node, file.pos, count, allocLimit);
    Current.PrependNothing(whole);
    var items: seq<PackItem> := [];
    ghost var left: nat := count;
    for i := 0 to count
      invariant left == count - i
      invariant whole == Current.Prepend(items, ParseRecords(c, little, node, file.pos, left, allocLimit))
    {
      var item := ReadNextRecord(c, file, little, allocLimit, items, left);
      if item.Err? {
        return Err(item.error);
      }
      left := left - 1;
      items := items + [item.value];
    }
    ParseRecordsDone(c, little, node, file.pos, allocLimit, items);
    return Ok(Current.Parsed(items, file.pos));
  }

  lemma ParseRecordsDone(c: Checks, little: bool, node: FileNode, pos: nat, allocLimit: nat, items: seq<PackItem>)
    ensures Current.Prepend(items, ParseRecords(c, little, node, pos, 0, allocLimit)) == Ok(Current.Parsed(items, pos))
  {
    assert items + [] == items;
  }

  /**
   * createPackReader of this revision. No reader is published unless every
   * step succeeds, which as written never happens (NeverOpens).
   */
  method CreatePackReader(c: Checks, cfg: Config, fs: FileSystem, path: Path, allocLimit: nat, zstdReady: bool, zstd: Zstd)
    returns (res: PackResult, reader: PackReader?)
    ensures res == OpenSpec(c, cfg, fs, path, allocLimit, zstdReady).Code()
    ensures reader != null <==> res == Success
    ensures reader != null ==>
      var t := OpenSpec(c, cfg, fs, path, allocLimit, zstdReady).value;
      && fresh(reader) && fresh(reader.file) && reader.Valid()
      && reader.cfg == cfg && reader.zstd == zstd
      && reader.itemCount == t.itemCount && reader.items == t.items && reader.searchItem == ZeroItem
      && reader.file.node == fs[path] && reader.file.pos == t.end && reader.file.isOpen
  {
    if Current.ReaderSize > allocLimit {
      return FailedToAllocate, null;
    }
    if !zstdReady {
      return FailedToCreateZstd, null;
    }
    if path !in fs {
      return FailedToOpenFile, null;
    }
    var file := new Stream.Open(fs[path]);
    var header := file.Read(HeaderSize);
    var check := Current.CheckHeader(cfg, header);
    if check != Success {
      file.Close();
      return check, null;
    }
    var countBytes := file.Read(CountSize);
    if Elements(countBytes, CountSize) != CountCheck(c) {
      file.Close();
      return FailedToReadFile, null;
    }
    var count := U64Value(countBytes, cfg.littleEndian);
    var parsed := CreatePackItems(c, file, count, cfg.littleEndian, allocLimit);
    if parsed.Err? {
      file.Close();
      return parsed.error, null;
    }
    reader := new PackReader.Init(cfg, zstd, file, count, parsed.value.items);
    return Success, reader;
  }

  /** destroyPackReader: nothing for null; otherwise the table is freed and the file closed. */
  method DestroyPackReader(reader: PackReader?)
    modifies if reader == null then {} else {reader, reader.file}
    ensures reader != null ==> !reader.live && reader.items == [] && !reader.file.isOpen
  {
    if reader == null {
      return;
    }
    reader.items := [];
    reader.file.Close();
    reader.live := false;
  }
}
