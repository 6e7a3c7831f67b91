/**
 * The pack reader (source/reader.c): opening a pack and checking its header,
 * loading the item table, looking an item up by path, and reading an item's
 * data, raw or through the decompressor.
 *
 * The file is a `Stream` over a `FileNode`; what each operation does to the
 * caller is stated against a pure function of the file (`OpenSpec`,
 * `ReadItemSpec`), and the properties of the format are lemmas about those.
 */
module PackReader {
  import opened PackFormat
  import opened CFile
  import opened Zstd
  import opened PackItems

  /** sizeof(PackItem) and sizeof(struct PackReader) on an LP64 host. */
  const PackItemSize: nat := 40
  const ReaderSize: nat := 72

  /**
   * The header checks of createPackReader, in source order: the first one
   * that fails picks the result. The patch byte (header[6]) is not looked at.
   */
  function CheckHeader(cfg: Config, header: seq<uint8>): (r: PackResult)
    ensures r == FailedToReadFile <==> |header| != HeaderSize
    ensures r == UnknownFileType <==> |header| == HeaderSize && !HasMagic(header)
    ensures r == BadFileVersion <==>
      |header| == HeaderSize && HasMagic(header) && (header[4] != cfg.major || header[5] != cfg.minor)
    ensures r == BadFileEndianness <==>
      |header| == HeaderSize && HasMagic(header) && header[4] == cfg.major && header[5] == cfg.minor
      && header[7] != EndianFlag(cfg)
    ensures r == Success <==>
      |header| == HeaderSize && HasMagic(header) && header[4] == cfg.major && header[5] == cfg.minor
      && header[7] == EndianFlag(cfg)
  {
    if |header| != HeaderSize then FailedToReadFile
    else if header[0] != 'P' as uint8 || header[1] != 'A' as uint8
         || header[2] != 'C' as uint8 || header[3] != 'K' as uint8 then
      UnknownFileType
    else if header[4] != cfg.major || header[5] != cfg.minor then BadFileVersion
    else if header[7] != EndianFlag(cfg) then BadFileEndianness
    else
      assert header[..4] == Magic;
      Success
  }

  lemma PatchIgnored(cfg: Config, header: seq<uint8>, patch: uint8)
    requires |header| == HeaderSize
    ensures CheckHeader(cfg, header[6 := patch]) == CheckHeader(cfg, header)
  {
    assert header[6 := patch][..4] == header[..4];
  }

  /** A path buffer as createPackItems fills it: pathSize bytes and a 0 terminator. */
  predicate Terminated(item: PackItem)
  {
    |item.path| == item.info.pathSize as nat + 1 && item.path[item.info.pathSize] == 0
  }

  predicate AllTerminated(items: seq<PackItem>)
  {
    forall i :: 0 <= i < |items| ==> Terminated(items[i])
  }

  /** The items read and the file position after the last of them. */
  datatype Parsed = Parsed(items: seq<PackItem>, end: nat)

  /**
   * One pass of createPackItems' loop at file position pos: the record, an
   * allocation of pathSize + 1 bytes, the path, and its terminator.
   */
  function ReadRecord(little: bool, node: FileNode, pos: nat, allocLimit: nat): (r: Result<PackItem>)
    ensures r.Ok? ==> Terminated(r.value) && pos + InfoSize + r.value.info.pathSize as nat <= |node.content|
    ensures r.Err? ==> r.error == FailedToReadFile || r.error == FailedToAllocate
  {
    var record := Fread(node, pos, InfoSize);
    if |record| != InfoSize then Err(FailedToReadFile)
    else
      var info := DecodeInfo(record, little);
      if info.pathSize + 1 > allocLimit then Err(FailedToAllocate)
      else
        var path := Fread(node, pos + InfoSize, info.pathSize);
        if |path| != info.pathSize as nat then Err(FailedToReadFile)
        else Ok(PackItem(info, path + [0]))
  }

  /** The path buffer holds the pathSize bytes after the record, then the terminator. */
  lemma ReadRecordPath(little: bool, node: FileNode, pos: nat, allocLimit: nat)
    ensures var r := ReadRecord(little, node, pos, allocLimit);
      r.Ok? ==> r.value.path == node.content[pos + InfoSize..pos + InfoSize + r.value.info.pathSize as nat] + [0]
  {
  }

  /**
   * The loop of createPackItems from file position pos: n records, stopping
   * at the first failure. A table that loads fits in the file, at least 32
   * bytes per record.
   */
  function ParseRecords(little: bool, node: FileNode, pos: nat, n: nat, allocLimit: nat): (r: Result<Parsed>)
    ensures r.Ok? ==> |r.value.items| == n
    ensures r.Ok? && n > 0 ==> pos + RecordsFloor(n) <= |node.content|
    ensures r.Err? ==> r.error == FailedToReadFile || r.error == FailedToAllocate
    decreases n, 1
  {
    if n == 0 then Ok(Parsed([], pos)) else ParseRecord(little, node, pos, n, allocLimit)
  }

  /** A pass of the loop with n > 0 records to go: one record, then the n - 1 after it. */
  function ParseRecord(little: bool, node: FileNode, pos: nat, n: nat, allocLimit: nat): (r: Result<Parsed>)
    requires n > 0
    ensures r.Ok? ==> |r.value.items| == n && pos + RecordsFloor(n) <= |node.content|
    ensures r.Err? ==> r.error == FailedToReadFile || r.error == FailedToAllocate
    decreases n, 0
  {
    match ReadRecord(little, node, pos, allocLimit)
    case Err(e) => Err(e)
    case Ok(item) => Prepend([item], ParseRecords(little, node, pos + InfoSize + item.info.pathSize as nat, n - 1, allocLimit))
  }

  /** createPackItems: the table allocation, then the records. */
  function CreatePackItemsSpec(little: bool, node: FileNode, pos: nat, count: nat, allocLimit: nat): (r: Result<Parsed>)
    ensures r.Ok? ==> |r.value.items| == count && AllTerminated(r.value.items)
  {
    if PackItemSize > allocLimit then Err(FailedToAllocate)
    else
      ParseRecordsTerminated(little, node, pos, count, allocLimit);
      ParseRecords(little, node, pos, count, allocLimit)
  }

  /** Every path buffer of a table that loads ends with its terminator. */
  lemma {:induction false} ParseRecordsTerminated(little: bool, node: FileNode, pos: nat, n: nat, allocLimit: nat)
    ensures ParseRecords(little, node, pos, n, allocLimit).Ok? ==> AllTerminated(ParseRecords(little, node, pos, n, allocLimit).value.items)
    decreases n
  {
    if n > 0 {
      var r := ReadRecord(little, node, pos, allocLimit);
      if r.Ok? {
        var next := pos + InfoSize + r.value.info.pathSize as nat;
        ParseRecordsStep(little, node, pos, n, allocLimit, r.value, next);
        ParseRecordsTerminated(little, node, next, n - 1, allocLimit);
        PrependTerminated(r.value, ParseRecords(little, node, next, n - 1, allocLimit));
      }
    }
  }

  /** A terminated path buffer in front of terminated ones. */
  lemma PrependTerminated(item: PackItem, rest: Result<Parsed>)
    requires Terminated(item) && (rest.Ok? ==> AllTerminated(rest.value.items))
    ensures Prepend([item], rest).Ok? ==> AllTerminated(Prepend([item], rest).value.items)
  {
    if rest.Ok? {
      var items := [item] + rest.value.items;
      forall i | 0 <= i < |items|
        ensures Terminated(items[i])
      {
        if i > 0 {
          assert items[i] == rest.value.items[i - 1];
        }
      }
    }
  }

  /** What a reader holds once createPackReader succeeds. */
  datatype Table = Table(itemCount: uint64, items: seq<PackItem>, end: nat)

  /** createPackReader: every way it can end, in source order. */
  function OpenSpec(cfg: Config, fs: FileSystem, path: Path, allocLimit: nat, zstdReady: bool): (r: Result<Table>)
    ensures r.Ok? ==> |r.value.items| == r.value.itemCount as nat && AllTerminated(r.value.items)
  {
    if ReaderSize > allocLimit then Err(FailedToAllocate)
    else if !zstdReady then Err(FailedToCreateZstd)
    else if path !in fs then Err(FailedToOpenFile)
    else
      var node := fs[path];
      var header := Fread(node, 0, HeaderSize);
      var check := CheckHeader(cfg, header);
      if check != Success then Err(check)
      else
        var countBytes := Fread(node, HeaderSize, CountSize);
        if |countBytes| != CountSize then Err(FailedToReadFile)
        else
          var count := U64Value(countBytes, cfg.littleEndian);
          match CreatePackItemsSpec(cfg.littleEndian, node, HeaderSize + CountSize, count, allocLimit)
          case Err(e) => Err(e)
          case Ok(parsed) => Ok(Table(count, parsed.items, parsed.end))
  }

  /** A readable file whose first eight bytes are not "PACK" is refused before any item is read. */
  lemma BadMagicRefused(cfg: Config, fs: FileSystem, path: Path, allocLimit: nat)
    requires ReaderSize <= allocLimit && path in fs
    requires fs[path].readable && |fs[path].content| >= HeaderSize && !HasMagic(fs[path].content)
    ensures OpenSpec(cfg, fs, path, allocLimit, true) == Err(UnknownFileType)
  {
    var header := Fread(fs[path], 0, HeaderSize);
    assert header[..4] == fs[path].content[..4];
  }

  /** A table whose n records do not fit in the file is never accepted. */
  lemma TruncatedTableRefused(little: bool, node: FileNode, pos: nat, n: nat, allocLimit: nat)
    requires n > 0 && |node.content| < pos + InfoSize * n
    ensures ParseRecords(little, node, pos, n, allocLimit).Err?
  {
    RecordsFloorProduct(n);
  }

  /** A record that cannot be read in full ends the table with FAILED_TO_READ_FILE. */
  lemma ShortRecordRefused(little: bool, node: FileNode, pos: nat, n: nat, allocLimit: nat)
    requires n > 0 && (!node.readable || |node.content| < pos + InfoSize)
    ensures ParseRecords(little, node, pos, n, allocLimit) == Err(FailedToReadFile)
  {
    assert |Fread(node, pos, InfoSize)| != InfoSize;
  }

  /**
   * A table that loads starts with the record stored at pos and the pathSize
   * bytes after it, terminated; the rest of the table is what loads after them.
   */
  lemma FirstRecordRead(little: bool, node: FileNode, pos: nat, n: nat, allocLimit: nat)
    requires n > 0 && ParseRecords(little, node, pos, n, allocLimit).Ok?
    ensures pos + InfoSize <= |node.content|
    ensures var items := ParseRecords(little, node, pos, n, allocLimit).value.items;
      var next := pos + InfoSize + items[0].info.pathSize as nat;
      && items[0].info == DecodeInfo(node.content[pos..pos + InfoSize], little)
      && next <= |node.content|
      && items[0].path == node.content[pos + InfoSize..next] + [0]
      && ParseRecords(little, node, next, n - 1, allocLimit).Ok?
      && items[1..] == ParseRecords(little, node, next, n - 1, allocLimit).value.items
  {
    var r := ReadRecord(little, node, pos, allocLimit);
    assert r.Ok?;
    ReadRecordPath(little, node, pos, allocLimit);
    var next := pos + InfoSize + r.value.info.pathSize as nat;
    ParseRecordsStep(little, node, pos, n, allocLimit, r.value, next);
  }

  /** The record fread takes from pos, when the file holds its 32 bytes; its path length is byte 24. */
  function RecordAt(little: bool, node: FileNode, pos: nat): (info: ItemInfo)
    requires node.readable && pos + InfoSize <= |node.content|
    ensures info.pathSize == node.content[pos + 24]
  {
    DecodeInfo(Fread(node, pos, InfoSize), little)
  }

  /** A record with an affordable path whose bytes are all in the file loads, as those bytes and a 0. */
  lemma RecordLoads(little: bool, node: FileNode, pos: nat, allocLimit: nat)
    requires node.readable && pos + InfoSize <= |node.content|
    requires RecordAt(little, node, pos).pathSize as nat + 1 <= allocLimit
    requires pos + InfoSize + RecordAt(little, node, pos).pathSize as nat <= |node.content|
    ensures var info := RecordAt(little, node, pos);
      ReadRecord(little, node, pos, allocLimit)
      == Ok(PackItem(info, node.content[pos + InfoSize..pos + InfoSize + info.pathSize as nat] + [0]))
  {
  }

  /** A path longer than the memory left for it ends the table with FAILED_TO_ALLOCATE. */
  lemma PathUnaffordable(little: bool, node: FileNode, pos: nat, n: nat, allocLimit: nat)
    requires n > 0 && node.readable && pos + InfoSize <= |node.content|
    requires RecordAt(little, node, pos).pathSize as nat + 1 > allocLimit
    ensures ParseRecords(little, node, pos, n, allocLimit) == Err(FailedToAllocate)
  {
  }

  /** A complete record whose path is cut short ends the table with FAILED_TO_READ_FILE. */
  lemma ShortPathRefused(little: bool, node: FileNode, pos: nat, n: nat, allocLimit: nat)
    requires n > 0 && node.readable && pos + InfoSize <= |node.content|
    requires RecordAt(little, node, pos).pathSize as nat + 1 <= allocLimit
    requires |node.content| < pos + InfoSize + RecordAt(little, node, pos).pathSize as nat
    ensures ParseRecords(little, node, pos, n, allocLimit) == Err(FailedToReadFile)
  {
    var info := RecordAt(little, node, pos);
    assert |Fread(node, pos + InfoSize, info.pathSize as nat)| != info.pathSize as nat;
  }

  /** Entries whose path bytes are pathSize long and affordable: what a table is made of. */
  predicate StorableEntries(entries: seq<PackItem>, allocLimit: nat)
  {
    entries != [] ==>
      && |entries[0].path| == entries[0].info.pathSize as nat
      && entries[0].info.pathSize as nat + 1 <= allocLimit
      && StorableEntries(entries[1..], allocLimit)
  }

  /** The bytes of a table: each 32-byte record followed by its path. */
  function TableLayout(little: bool, entries: seq<PackItem>): (r: seq<uint8>)
    ensures entries == [] ==> r == []
  {
    if entries == [] then []
    else InfoBytes(entries[0].info, little) + entries[0].path + TableLayout(little, entries[1..])
  }

  /** The entries as loaded: each path buffer gets its terminator. */
  function WithTerminators(entries: seq<PackItem>): (r: seq<PackItem>)
    ensures |r| == |entries|
  {
    if entries == [] then []
    else [entries[0].(path := entries[0].path + [0])] + WithTerminators(entries[1..])
  }

  /** Three consecutive pieces of a window of the file are three consecutive slices of it. */
  lemma SliceParts(c: seq<uint8>, pos: nat, a: seq<uint8>, b: seq<uint8>, d: seq<uint8>)
    requires pos + |a| + |b| + |d| <= |c| && c[pos..pos + |a| + |b| + |d|] == a + b + d
    ensures c[pos..pos + |a|] == a
    ensures c[pos + |a|..pos + |a| + |b|] == b
    ensures c[pos + |a| + |b|..pos + |a| + |b| + |d|] == d
  {
    var w := c[pos..pos + |a| + |b| + |d|];
    assert w[..|a|] == a && w[|a|..|a| + |b|] == b && w[|a| + |b|..] == d;
    assert c[pos..pos + |a|] == w[..|a|];
    var middle := c[pos + |a|..pos + |a| + |b|];
    forall k | 0 <= k < |b|
      ensures middle[k] == b[k]
    {
      assert w[|a| + k] == c[pos + |a| + k];
    }
    var tail := c[pos + |a| + |b|..pos + |a| + |b| + |d|];
    forall k | 0 <= k < |d|
      ensures tail[k] == d[k]
    {
      assert w[|a| + |b| + k] == c[pos + |a| + |b| + k];
    }
  }

  /** The bytes a table of these entries takes: 32 per record plus its path. */
  function TableSize(entries: seq<PackItem>): nat
  {
    if entries == [] then 0 else InfoSize + |entries[0].path| + TableSize(entries[1..])
  }

  lemma {:induction false} TableLayoutSize(little: bool, entries: seq<PackItem>)
    ensures |TableLayout(little, entries)| == TableSize(entries)
    decreases |entries|
  {
    if entries != [] {
      TableLayoutSize(little, entries[1..]);
    }
  }

  /**
   * The entries stored from pos one after the other: each record decodes to
   * the entry's info and is followed by the entry's path bytes.
   */
  predicate Laid(little: bool, node: FileNode, pos: nat, entries: seq<PackItem>)
    decreases |entries|
  {
    entries != [] ==>
      && node.readable
      && pos + InfoSize + |entries[0].path| <= |node.content|
      && RecordAt(little, node, pos) == entries[0].info
      && node.content[pos + InfoSize..pos + InfoSize + |entries[0].path|] == entries[0].path
      && Laid(little, node, pos + InfoSize + |entries[0].path|, entries[1..])
  }

  /** The 32 bytes stored at pos, when they are a record's encoding, decode to that record. */
  lemma RecordFromBytes(little: bool, node: FileNode, pos: nat, info: ItemInfo)
    requires node.readable && pos + InfoSize <= |node.content|
    requires node.content[pos..pos + InfoSize] == InfoBytes(info, little)
    ensures RecordAt(little, node, pos) == info
  {
    assert Fread(node, pos, InfoSize) == node.content[pos..pos + InfoSize];
    InfoRoundTrip(info, little);
  }

  /** The bytes of a table, stored from pos, lay its entries out one after the other. */
  lemma {:induction false} LayoutLaid(little: bool, node: FileNode, pos: nat, entries: seq<PackItem>)
    requires node.readable
    requires pos + |TableLayout(little, entries)| <= |node.content|
    requires node.content[pos..pos + |TableLayout(little, entries)|] == TableLayout(little, entries)
    ensures Laid(little, node, pos, entries)
    decreases |entries|
  {
    if entries != [] {
      var e := entries[0];
      var head := InfoBytes(e.info, little);
      var rest := TableLayout(little, entries[1..]);
      assert TableLayout(little, entries) == head + e.path + rest;
      SliceParts(node.content, pos, head, e.path, rest);
      RecordFromBytes(little, node, pos, e.info);
      LayoutLaid(little, node, pos + InfoSize + |e.path|, entries[1..]);
      LaidCons(little, node, pos, entries);
    }
  }

  /** A first entry in place, followed by the rest in place, puts the whole list in place. */
  lemma LaidCons(little: bool, node: FileNode, pos: nat, entries: seq<PackItem>)
    requires entries != [] && node.readable && pos + InfoSize + |entries[0].path| <= |node.content|
    requires RecordAt(little, node, pos) == entries[0].info
    requires node.content[pos + InfoSize..pos + InfoSize + |entries[0].path|] == entries[0].path
    requires Laid(little, node, pos + InfoSize + |entries[0].path|, entries[1..])
    ensures Laid(little, node, pos, entries)
  {
  }

  /** Entries laid out from pos load as a table of those entries, terminated, ending after the last path. */
  lemma {:induction false} LaidLoads(little: bool, node: FileNode, pos: nat, entries: seq<PackItem>, allocLimit: nat)
    requires node.readable && StorableEntries(entries, allocLimit) && Laid(little, node, pos, entries)
    ensures ParseRecords(little, node, pos, |entries|, allocLimit)
      == Ok(Parsed(WithTerminators(entries), pos + TableSize(entries)))
    decreases |entries|
  {
    if entries != [] {
      LaidTail(little, node, pos, entries, allocLimit);
      LaidLoads(little, node, pos + InfoSize + |entries[0].path|, entries[1..], allocLimit);
      LaidStep(little, node, pos, entries, allocLimit);
    }
  }

  /** The entries after the first are laid out just after its path. */
  lemma LaidTail(little: bool, node: FileNode, pos: nat, entries: seq<PackItem>, allocLimit: nat)
    requires entries != [] && StorableEntries(entries, allocLimit) && Laid(little, node, pos, entries)
    ensures Laid(little, node, pos + InfoSize + |entries[0].path|, entries[1..])
    ensures StorableEntries(entries[1..], allocLimit)
  {
  }

  /** When the entries after the first load, the whole table loads. */
  lemma LaidStep(little: bool, node: FileNode, pos: nat, entries: seq<PackItem>, allocLimit: nat)
    requires node.readable && entries != []
    requires StorableEntries(entries, allocLimit) && Laid(little, node, pos, entries)
    requires var next := pos + InfoSize + |entries[0].path|;
      ParseRecords(little, node, next, |entries[1..]|, allocLimit)
      == Ok(Parsed(WithTerminators(entries[1..]), next + TableSize(entries[1..])))
    ensures ParseRecords(little, node, pos, |entries|, allocLimit)
      == Ok(Parsed(WithTerminators(entries), pos + TableSize(entries)))
  {
    var next := pos + InfoSize + |entries[0].path|;
    EntryLoads(little, node, pos, entries, allocLimit, next + TableSize(entries[1..]));
    assert pos + TableSize(entries) == next + TableSize(entries[1..]);
  }

  /**
   * The first entry laid out at pos, ahead of the rest of the entries
   * loading up to end, loads ahead of them with its terminator.
   */
  lemma EntryLoads(little: bool, node: FileNode, pos: nat, entries: seq<PackItem>, allocLimit: nat, end: nat)
    requires entries != [] && node.readable && pos + InfoSize + |entries[0].path| <= |node.content|
    requires RecordAt(little, node, pos) == entries[0].info
    requires |entries[0].path| == entries[0].info.pathSize as nat && entries[0].info.pathSize as nat + 1 <= allocLimit
    requires node.content[pos + InfoSize..pos + InfoSize + |entries[0].path|] == entries[0].path
    requires ParseRecords(little, node, pos + InfoSize + |entries[0].path|, |entries[1..]|, allocLimit)
      == Ok(Parsed(WithTerminators(entries[1..]), end))
    ensures ParseRecords(little, node, pos, |entries|, allocLimit) == Ok(Parsed(WithTerminators(entries), end))
  {
    var e := entries[0];
    var loaded := e.(path := e.path + [0]);
    RecordLoads(little, node, pos, allocLimit);
    ParseRecordsStep(little, node, pos, |entries|, allocLimit, loaded, pos + InfoSize + |e.path|);
    assert |entries[1..]| == |entries| - 1;
    assert WithTerminators(entries) == [loaded] + WithTerminators(entries[1..]);
    assert Prepend([loaded], Ok(Parsed(WithTerminators(entries[1..]), end))) == Ok(Parsed(WithTerminators(entries), end));
  }

  /**
   * A table laid out back to back from pos loads as exactly those entries,
   * terminated, and the file is left just after the last path.
   */
  lemma TableLoads(little: bool, node: FileNode, pos: nat, entries: seq<PackItem>, allocLimit: nat)
    requires node.readable && StorableEntries(entries, allocLimit)
    requires pos + |TableLayout(little, entries)| <= |node.content|
    requires node.content[pos..pos + |TableLayout(little, entries)|] == TableLayout(little, entries)
    ensures ParseRecords(little, node, pos, |entries|, allocLimit)
      == Ok(Parsed(WithTerminators(entries), pos + |TableLayout(little, entries)|))
  {
    LayoutLaid(little, node, pos, entries);
    LaidLoads(little, node, pos, entries, allocLimit);
    TableLayoutSize(little, entries);
  }

  /**
   * A pack with a valid header, a count and that many records laid out back
   * to back after it opens, holding exactly those entries.
   */
  lemma PackOpens(cfg: Config, fs: FileSystem, path: Path, entries: seq<PackItem>, allocLimit: nat)
    requires ReaderSize <= allocLimit && path in fs && fs[path].readable
    requires StorableEntries(entries, allocLimit)
    requires HeaderSize + CountSize + |TableLayout(cfg.littleEndian, entries)| <= |fs[path].content|
    requires CheckHeader(cfg, fs[path].content[..HeaderSize]) == Success
    requires U64Value(fs[path].content[HeaderSize..HeaderSize + CountSize], cfg.littleEndian) as nat == |entries|
    requires fs[path].content[HeaderSize + CountSize..HeaderSize + CountSize + |TableLayout(cfg.littleEndian, entries)|]
      == TableLayout(cfg.littleEndian, entries)
    ensures OpenSpec(cfg, fs, path, allocLimit, true)
      == Ok(Table(|entries| as uint64, WithTerminators(entries), HeaderSize + CountSize + |TableLayout(cfg.littleEndian, entries)|))
  {
    var end := HeaderSize + CountSize + |TableLayout(cfg.littleEndian, entries)|;
    TableLoads(cfg.littleEndian, fs[path], HeaderSize + CountSize, entries, allocLimit);
    var parsed := Parsed(WithTerminators(entries), end);
    assert ParseRecords(cfg.littleEndian, fs[path], HeaderSize + CountSize, |entries|, allocLimit) == Ok(parsed);
    HeaderAndCountRead(cfg, fs, path, allocLimit, |entries| as uint64, parsed);
  }

  /** A good header and a count whose table loads open the pack with that count and table. */
  lemma HeaderAndCountRead(cfg: Config, fs: FileSystem, path: Path, allocLimit: nat, count: uint64, parsed: Parsed)
    requires ReaderSize <= allocLimit && path in fs && fs[path].readable
    requires HeaderSize + CountSize <= |fs[path].content|
    requires CheckHeader(cfg, fs[path].content[..HeaderSize]) == Success
    requires U64Value(fs[path].content[HeaderSize..HeaderSize + CountSize], cfg.littleEndian) == count
    requires ParseRecords(cfg.littleEndian, fs[path], HeaderSize + CountSize, count as nat, allocLimit) == Ok(parsed)
    ensures OpenSpec(cfg, fs, path, allocLimit, true) == Ok(Table(count, parsed.items, parsed.end))
  {
    var node := fs[path];
    assert Fread(node, 0, HeaderSize) == node.content[..HeaderSize];
    assert Fread(node, HeaderSize, CountSize) == node.content[HeaderSize..HeaderSize + CountSize];
  }

  /** The fewest bytes n records take: 32 each, with empty paths. */
  function RecordsFloor(n: nat): nat
  {
    if n == 0 then 0 else InfoSize + RecordsFloor(n - 1)
  }

  lemma {:induction false} RecordsFloorProduct(n: nat)
    ensures RecordsFloor(n) == InfoSize * n
  {
    if n > 0 {
      RecordsFloorProduct(n - 1);
    }
  }

  // ---------------------------------------------------------------------
  // Reading an item

  /** Result, bytes put into the caller's buffer, and file position after readPackItemData. */
  datatype ReadOutcome = ReadOutcome(result: Result<seq<uint8>>, written: seq<uint8>, pos: nat)

  /**
   * readPackItemData for an item, with the file at pos0: seek to the item's
   * offset; a zero zipSize means itemSize raw bytes, otherwise zipSize
   * compressed bytes that must decompress to exactly itemSize bytes.
   */
  function ReadItemSpec(node: FileNode, pos0: nat, info: ItemInfo, allocLimit: nat, z: Zstd): (o: ReadOutcome)
    ensures |o.written| <= info.itemSize as nat
    ensures o.result.Ok? ==> o.written == o.result.value && |o.result.value| == info.itemSize as nat
    ensures o.result.Ok? && info.zipSize == 0 && info.itemSize > 0 ==>
      && info.fileOffset as nat + info.itemSize as nat <= |node.content|
      && o.result.value == node.content[info.fileOffset..info.fileOffset as nat + info.itemSize as nat]
    ensures o.result.Ok? && info.zipSize > 0 ==>
      && info.fileOffset as nat + info.zipSize as nat <= |node.content|
      && z.decompress(node.content[info.fileOffset..info.fileOffset as nat + info.zipSize as nat]) == Some(o.result.value)
  {
    var offset := info.fileOffset as nat;
    if !SeekOk(node, offset) then ReadOutcome(Err(FailedToSeekFile), [], pos0)
    else if info.zipSize > 0 then
      if info.zipSize > allocLimit then ReadOutcome(Err(FailedToAllocate), [], offset)
      else
        var zipData := Fread(node, offset, info.zipSize);
        if |zipData| != info.zipSize as nat then ReadOutcome(Err(FailedToReadFile), [], offset + |zipData|)
        else
          match Decompress(z, zipData, info.itemSize)
          case None => ReadOutcome(Err(FailedToDecompress), [], offset + |zipData|)
          case Some(content) =>
            if |content| != info.itemSize as nat then ReadOutcome(Err(FailedToDecompress), content, offset + |zipData|)
            else ReadOutcome(Ok(content), content, offset + |zipData|)
    else
      var data := Fread(node, offset, info.itemSize);
      if |data| != info.itemSize as nat then ReadOutcome(Err(FailedToReadFile), data, offset + |data|)
      else ReadOutcome(Ok(data), data, offset + |data|)
  }

  /** The errors readPackItemData can return, and when each happens. */
  lemma ReadItemErrors(node: FileNode, pos0: nat, info: ItemInfo, allocLimit: nat, z: Zstd)
    ensures var r := ReadItemSpec(node, pos0, info, allocLimit, z).result;
      && (r == Err(FailedToSeekFile) <==> !SeekOk(node, info.fileOffset))
      && (info.zipSize == 0 && SeekOk(node, info.fileOffset) ==>
            (r == Err(FailedToReadFile) <==>
               info.itemSize > 0 && (!node.readable || |node.content| < info.fileOffset as nat + info.itemSize as nat)))
      && (r == Err(FailedToDecompress) ==> info.zipSize > 0)
      && (r == Err(FailedToAllocate) <==> SeekOk(node, info.fileOffset) && info.zipSize as nat > allocLimit)
      && (SeekOk(node, info.fileOffset) && 0 < info.zipSize as nat <= allocLimit ==>
            (r == Err(FailedToReadFile) <==>
               !node.readable || |node.content| < info.fileOffset as nat + info.zipSize as nat))
      && (r.Err? ==> r.error in {FailedToSeekFile, FailedToAllocate, FailedToReadFile, FailedToDecompress})
  {
  }

  /**
   * A compressed item whose zipSize bytes are all in the file: the read
   * succeeds exactly when the decompressor yields itemSize bytes, with those
   * bytes, and fails with FAILED_TO_DECOMPRESS otherwise.
   */
  lemma CompressedItemRead(node: FileNode, pos0: nat, info: ItemInfo, allocLimit: nat, z: Zstd)
    requires SeekOk(node, info.fileOffset) && 0 < info.zipSize as nat <= allocLimit
    requires node.readable && info.fileOffset as nat + info.zipSize as nat <= |node.content|
    ensures var stored := node.content[info.fileOffset..info.fileOffset as nat + info.zipSize as nat];
      var r := ReadItemSpec(node, pos0, info, allocLimit, z).result;
      && (r.Ok? <==> z.decompress(stored).Some? && |z.decompress(stored).value| == info.itemSize as nat)
      && (r.Ok? ==> r.value == z.decompress(stored).value)
      && (r.Err? ==> r.error == FailedToDecompress)
  {
  }

  /** A raw item whose itemSize bytes are all in the file is read as exactly those bytes. */
  lemma RawItemRead(node: FileNode, pos0: nat, info: ItemInfo, allocLimit: nat, z: Zstd)
    requires SeekOk(node, info.fileOffset) && info.zipSize == 0
    requires node.readable && info.fileOffset as nat + info.itemSize as nat <= |node.content|
    ensures ReadItemSpec(node, pos0, info, allocLimit, z).result
      == Ok(node.content[info.fileOffset..info.fileOffset as nat + info.itemSize as nat])
  {
    var offset := info.fileOffset as nat;
    assert Fread(node, offset, info.itemSize as nat) == node.content[offset..offset + info.itemSize as nat];
  }

  datatype ItemData = ItemData(size: uint64, data: seq<uint8>)

  /** A pack opened for reading (struct PackReader). */
  class PackReader {
    const cfg: Config
    /** The codec behind the decompression context. */
    const zstd: Zstd
    const file: Stream
    var itemCount: uint64
    var items: seq<PackItem>
    /** The key getPackItemIndex hands to bsearch. */
    var searchItem: PackItem
    /** False once destroyPackReader has freed the reader. */
    var live: bool

    ghost predicate Valid()
      reads this
    {
      && live
      && itemCount as nat == |items|
      && AllTerminated(items)
      && WellFormed(searchItem)
    }

    /** The field assignments at the end of a successful createPackReader. */
    constructor Init(cfg: Config, zstd: Zstd, file: Stream, itemCount: uint64, items: seq<PackItem>)
      requires itemCount as nat == |items| && AllTerminated(items)
      ensures Valid()
      ensures this.cfg == cfg && this.zstd == zstd && this.file == file
      ensures this.itemCount == itemCount && this.items == items && searchItem == ZeroItem
    {
      this.cfg := cfg;
      this.zstd := zstd;
      this.file := file;
      this.itemCount := itemCount;
      this.items := items;
      searchItem := ZeroItem;
      live := true;
    }

    /** getPackItemCount */
    function ItemCount(): (n: uint64)
      reads this
      requires Valid()
      ensures n as nat == |items|
    {
      itemCount
    }

    /** getPackItemDataSize */
    function ItemDataSize(index: uint64): (size: uint64)
      reads this
      requires Valid() && index < itemCount
      ensures size == items[index].info.itemSize
    {
      items[index].info.itemSize
    }

    /** getPackItemPath: the path as read from the table, NUL-terminated. */
    function ItemPath(index: uint64): (p: seq<uint8>)
      reads this
      requires Valid() && index < itemCount
      ensures |p| == items[index].info.pathSize as nat + 1 && p[|p| - 1] == 0
      ensures p[..|p| - 1] == items[index].path[..items[index].info.pathSize]
    {
      items[index].path
    }

    /**
     * getPackItemIndex with the key's length set to the length of the path.
     * The source assigns only the key's path (reader.c:267-269), so its
     * length stays 0 from createPackReader's memset; GetItemIndexAsWritten
     * models that. A path longer than 255 bytes cannot be stored in a
     * pack, so it is not found.
     */
    method GetItemIndex(path: Path, index0: uint64) returns (found: bool, index: uint64)
      requires Valid()
      modifies this`searchItem
      ensures Valid()
      ensures found ==> index < itemCount && items[index].path == path + [0]
      ensures !found ==> index == index0
      ensures SortedItems(items) ==>
        (found <==> exists k :: 0 <= k < |items| && items[k].path == path + [0])
      ensures searchItem == if |path| <= 255 then SearchKey(path) else old(searchItem)
    {
      if |path| > 255 {
        forall k | 0 <= k < |items| ensures items[k].path != path + [0] {
          assert |items[k].path| <= 256;
        }
        return false, index0;
      }
      searchItem := SearchKey(path);
      forall k | 0 <= k < |items|
        ensures CompareItems(searchItem, items[k]) == 0 <==> items[k].path == path + [0]
      {
        KeyMatches(path, items[k]);
      }
      var hit, at := BinarySearch(items, searchItem);
      if !hit {
        return false, index0;
      }
      return true, at as uint64;
    }

    /** getPackItemIndex as written: the key keeps the pathSize it already has. */
    method GetItemIndexAsWritten(path: Path, index0: uint64) returns (found: bool, index: uint64)
      requires Valid() && searchItem.info == ZeroItem.info
      modifies this`searchItem
      ensures Valid() && searchItem == old(searchItem).(path := path + [0])
      ensures found ==> index < itemCount && items[index].info.pathSize == 0
      ensures !found ==> index == index0
      ensures SortedItems(items) ==>
        (found <==> exists k :: 0 <= k < |items| && items[k].info.pathSize == 0)
    {
      searchItem := searchItem.(path := path + [0]);
      var hit, at := BinarySearch(items, searchItem);
      if !hit {
        return false, index0;
      }
      return true, at as uint64;
    }

    /** readPackItemData into a caller buffer of at least itemSize bytes. */
    method ReadItemData(index: uint64, buffer: array<uint8>, allocLimit: nat) returns (res: PackResult)
      requires Valid() && index < itemCount
      requires buffer.Length >= items[index].info.itemSize as nat
      modifies file`pos, buffer
      ensures var o := ReadItemSpec(file.node, old(file.pos), items[index].info, allocLimit, zstd);
        && res == o.result.Code()
        && buffer[..] == Overlay(old(buffer[..]), o.written)
        && file.pos == o.pos
    {
      var info := items[index].info;
      var seekOk := file.Seek(info.fileOffset);
      if !seekOk {
        return FailedToSeekFile;
      }
      if info.zipSize > 0 {
        if info.zipSize > allocLimit {
          return FailedToAllocate;
        }
        var zipData := file.Read(info.zipSize);
        if |zipData| != info.zipSize as nat {
          return FailedToReadFile;
        }
        var content := Decompress(zstd, zipData, info.itemSize);
        if content.None? {
          return FailedToDecompress;
        }
        Fill(buffer, content.value);
        if |content.value| != info.itemSize as nat {
          return FailedToDecompress;
        }
      } else {
        var data := file.Read(info.itemSize);
        Fill(buffer, data);
        if |data| != info.itemSize as nat {
          return FailedToReadFile;
        }
      }
      return Success;
    }

    /** createPackItemData: a fresh buffer of itemSize bytes filled by readPackItemData. */
    method CreateItemData(index: uint64, allocLimit: nat) returns (res: PackResult, out: Option<ItemData>)
      requires Valid() && index < itemCount
      modifies file`pos
      ensures out.Some? <==> res == Success
      ensures var info := items[index].info;
        if info.itemSize as nat > allocLimit then
          res == FailedToAllocate && file.pos == old(file.pos)
        else
          var o := ReadItemSpec(file.node, old(file.pos), info, allocLimit, zstd);
          && res == o.result.Code()
          && file.pos == o.pos
          && (out.Some? ==> out.value == ItemData(info.itemSize, o.result.value))
    {
      var size := items[index].info.itemSize;
      if size as nat > allocLimit {
        return FailedToAllocate, None;
      }
      var data := new uint8[size];
      res := ReadItemData(index, data, allocLimit);
      if res != Success {
        return res, None;
      }
      return Success, Some(ItemData(size, data[..]));
    }
  }

  /** The key the corrected lookup builds: the path's length and its bytes with a terminator. */
  function SearchKey(path: Path): (key: PackItem)
    requires |path| <= 255
    ensures WellFormed(key) && Terminated(key)
  {
    PackItem(ItemInfo(0, 0, 0, |path|), path + [0])
  }

  /** A loaded item compares equal to a path's key exactly when it holds that path. */
  lemma KeyMatches(path: Path, item: PackItem)
    requires |path| <= 255 && Terminated(item)
    ensures CompareItems(SearchKey(path), item) == 0 <==> item.path == path + [0]
  {
    var n := item.info.pathSize as nat;
    assert item.path == item.path[..n] + [0];
  }

  /**
   * createPackReader. No reader is published unless every step succeeds;
   * on success the reader holds the table OpenSpec describes.
   */
  method CreatePackReader(cfg: Config, fs: FileSystem, path: Path, allocLimit: nat, zstdReady: bool, zstd: Zstd)
    returns (res: PackResult, reader: PackReader?)
    ensures res == OpenSpec(cfg, fs, path, allocLimit, zstdReady).Code()
    ensures reader != null <==> res == Success
    ensures reader != null ==>
      var t := OpenSpec(cfg, fs, path, allocLimit, zstdReady).value;
      && fresh(reader) && fresh(reader.file) && reader.Valid()
      && reader.cfg == cfg && reader.zstd == zstd
      && reader.itemCount == t.itemCount && reader.items == t.items && reader.searchItem == ZeroItem
      && reader.file.node == fs[path] && reader.file.pos == t.end && reader.file.isOpen
  {
    if ReaderSize > allocLimit {
      return FailedToAllocate, null;
    }
    if !zstdReady {
      return FailedToCreateZstd, null;
    }
    if path !in fs {
      return FailedToOpenFile, null;
    }
    var file := new Stream.Open(fs[path]);
    var header := file.Read(HeaderSize);
    var check := CheckHeader(cfg, header);
    if check != Success {
      file.Close();
      return check, null;
    }
    var countBytes := file.Read(CountSize);
    if |countBytes| != CountSize {
      file.Close();
      return FailedToReadFile, null;
    }
    var count := U64Value(countBytes, cfg.littleEndian);
    var parsed := CreatePackItems(file, count, cfg.littleEndian, allocLimit);
    if parsed.Err? {
      file.Close();
      return parsed.error, null;
    }
    reader := new PackReader.Init(cfg, zstd, file, count, parsed.value.items);
    return Success, reader;
  }

  /** Items read so far, in front of what the rest of the loop produces. */
  function Prepend(items: seq<PackItem>, r: Result<Parsed>): Result<Parsed>
  {
    match r
    case Err(e) => Err(e)
    case Ok(p) => Ok(Parsed(items + p.items, p.end))
  }

  /** One record more: the table from pos is this record in front of the table after it. */
  lemma ParseRecordsStep(little: bool, node: FileNode, pos: nat, n: nat, allocLimit: nat, item: PackItem, next: nat)
    requires n > 0 && ReadRecord(little, node, pos, allocLimit) == Ok(item)
    requires next == pos + InfoSize + item.info.pathSize as nat
    ensures ParseRecords(little, node, pos, n, allocLimit) == Prepend([item], ParseRecords(little, node, next, n - 1, allocLimit))
  {
    assert ParseRecords(little, node, pos, n, allocLimit) == ParseRecord(little, node, pos, n, allocLimit);
  }

  /** One record read: it moves from the records still to read to the ones read. */
  lemma ParseRecordsAdvance(little: bool, node: FileNode, pos: nat, n: nat, allocLimit: nat,
                            items: seq<PackItem>, item: PackItem, next: nat)
    requires n > 0 && ReadRecord(little, node, pos, allocLimit) == Ok(item)
    requires next == pos + InfoSize + item.info.pathSize as nat
    ensures Prepend(items, ParseRecords(little, node, pos, n, allocLimit))
         == Prepend(items + [item], ParseRecords(little, node, next, n - 1, allocLimit))
  {
    ParseRecordsStep(little, node, pos, n, allocLimit, item, next);
    PrependTwice(items, [item], ParseRecords(little, node, next, n - 1, allocLimit));
  }

  /** A record that cannot be read ends the table with its error. */
  lemma ParseRecordsFails(little: bool, node: FileNode, pos: nat, n: nat, allocLimit: nat, items: seq<PackItem>)
    requires n > 0 && ReadRecord(little, node, pos, allocLimit).Err?
    ensures Prepend(items, ParseRecords(little, node, pos, n, allocLimit)) == Err(ReadRecord(little, node, pos, allocLimit).error)
  {
  }

  lemma PrependNothing(r: Result<Parsed>)
    ensures Prepend([], r) == r
  {
    if r.Ok? {
      assert [] + r.value.items == r.value.items;
    }
  }

  lemma PrependTwice(a: seq<PackItem>, b: seq<PackItem>, r: Result<Parsed>)
    ensures Prepend(a, Prepend(b, r)) == Prepend(a + b, r)
  {
    if r.Ok? {
      assert a + (b + r.value.items) == a + b + r.value.items;
    }
  }

  /** The body of createPackItems' loop: read a record, allocate and read its path. */
  method ReadRecordFrom(file: Stream, little: bool, allocLimit: nat) returns (r: Result<PackItem>)
    modifies file`pos
    ensures r == ReadRecord(little, file.node, old(file.pos), allocLimit)
    ensures r.Ok? ==> file.pos == old(file.pos) + InfoSize + r.value.info.pathSize as nat
  {
    var record := file.Read(InfoSize);
    if |record| != InfoSize {
      return Err(FailedToReadFile);
    }
    var info := DecodeInfo(record, little);
    if info.pathSize + 1 > allocLimit {
      return Err(FailedToAllocate);
    }
    var path := file.Read(info.pathSize);
    if |path| != info.pathSize as nat {
      return Err(FailedToReadFile);
    }
    return Ok(PackItem(info, path + [0]));
  }

  /** One pass of the loop, with what it does to the records still to read. */
  method ReadNextRecord(file: Stream, little: bool, allocLimit: nat, ghost items: seq<PackItem>, ghost left: nat)
    returns (item: Result<PackItem>)
    requires left > 0
    modifies file`pos
    ensures item.Err? ==> Prepend(items, ParseRecords(little, file.node, old(file.pos), left, allocLimit)) == Err(item.error)
    ensures item.Ok? ==>
      Prepend(items, ParseRecords(little, file.node, old(file.pos), left, allocLimit))
      == Prepend(items + [item.value], ParseRecords(little, file.node, file.pos, left - 1, allocLimit))
  {
    ghost var pos := file.pos;
    item := ReadRecordFrom(file, little, allocLimit);
    if item.Err? {
      ParseRecordsFails(little, file.node, pos, left, allocLimit, items);
    } else {
      ParseRecordsAdvance(little, file.node, pos, left, allocLimit, items, item.value, file.pos);
    }
  }

  /** createPackItems: the table allocation, then the loop. */
  method CreatePackItems(file: Stream, count: uint64, little: bool, allocLimit: nat) returns (r: Result<Parsed>)
    modifies file`pos
    ensures r == CreatePackItemsSpec(little, file.node, old(file.pos), count, allocLimit)
    ensures r.Ok? ==> file.pos == r.value.end
  {
    if PackItemSize > allocLimit {
      return Err(FailedToAllocate);
    }
    r := ReadRecords(file, count, little, allocLimit);
  }

  /** The loop of createPackItems: `count` records and their paths, stopping at the first failure. */
  method ReadRecords(file: Stream, count: uint64, little: bool, allocLimit: nat) returns (r: Result<Parsed>)
    modifies file`pos
    ensures r == ParseRecords(little, file.node, old(file.pos), count, allocLimit)
    ensures r.Ok? ==> file.pos == r.value.end
  {
    ghost var node := file.node;
    ghost var whole := ParseRecords(little, node, file.pos, count, allocLimit);
    PrependNothing(whole);
    var items: seq<PackItem> := [];
    ghost var left: nat := count;
    for i := 0 to count
      invariant left == count - i
      invariant whole == Prepend(items, ParseRecords(little, node, file.pos, left, allocLimit))
    {
      var item := ReadNextRecord(file, little, allocLimit, items, left);
      if item.Err? {
        assert whole == Err(item.error);
        return Err(item.error);
      }
      left := left - 1;
      items := items + [item.value];
    }
    ParseRecordsDone(little, node, file.pos, allocLimit, items);
    return Ok(Parsed(items, file.pos));
  }

  lemma ParseRecordsDone(little: bool, node: FileNode, pos: nat, allocLimit: nat, items: seq<PackItem>)
    ensures Prepend(items, ParseRecords(little, node, pos, 0, allocLimit)) == Ok(Parsed(items, pos))
  {
    assert items + [] == items;
  }

  /** destroyPackReader: nothing for null; otherwise the table is freed and the file closed. */
  method DestroyPackReader(reader: PackReader?)
    modifies if reader == null then {} else {reader, reader.file}
    ensures reader != null ==> !reader.live && reader.items == [] && !reader.file.isOpen
  {
    if reader == null {
      return;
    }
    reader.items := [];
    reader.file.Close();
    reader.live := false;
  }
}
