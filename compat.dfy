/**
 * What the writer (source/writer.c) and the readers (source/reader.c,
 * source/common.c) agree on: the header and item count a kept pack starts
 * with pass the reader's checks and read back as written, and the order the
 * writer sorts paths in is the order the reader's binary search needs.
 *
 * The item table itself does not read back: the writer follows each record
 * with its path and its payload and records the offset of the record, while
 * the reader reads records and paths back to back and seeks to that offset
 * for the payload. The order lemmas are therefore about the table the reader
 * holds when it is given the writer's records and paths.
 */
module PackCompat {
  import opened PackFormat
  import opened CFile
  import opened MemCmp
  import opened PackItems
  import PackReader
  import PackCommon
  import PackWriter

  // ---------------------------------------------------------------------
  // The header and the item count

  /** The header packItems writes passes every check of a reader built with the same configuration. */
  lemma HeaderAccepted(cfg: Config)
    ensures PackReader.CheckHeader(cfg, PackWriter.HeaderBytes(cfg)) == Success
  {
  }

  /** A reader built with another major or minor version refuses the header with BAD_FILE_VERSION. */
  lemma OtherVersionRefused(writer: Config, reader: Config)
    requires writer.major != reader.major || writer.minor != reader.minor
    ensures PackReader.CheckHeader(reader, PackWriter.HeaderBytes(writer)) == BadFileVersion
  {
  }

  /** A reader of the same version but the other byte order refuses it with BAD_FILE_ENDIANNESS. */
  lemma OtherByteOrderRefused(writer: Config, reader: Config)
    requires writer.major == reader.major && writer.minor == reader.minor
    requires writer.littleEndian != reader.littleEndian
    ensures PackReader.CheckHeader(reader, PackWriter.HeaderBytes(writer)) == BadFileEndianness
  {
  }

  /** The bytes of a kept pack, when packItems keeps one. */
  function KeptFile(env: PackWriter.WriterEnv, paths: seq<Path>, canCreate: bool, capacity: nat, heap: nat): (file: seq<uint8>)
    requires 0 < |paths| < 0x1_0000_0000_0000_0000 && capacity <= MaxOffset
    requires PackWriter.PackSpec(env, paths, canCreate, capacity, heap).result == Success
    ensures |file| >= HeaderSize + CountSize
    ensures file[..HeaderSize] == PackWriter.HeaderBytes(env.cfg)
    ensures file[HeaderSize..HeaderSize + CountSize] == U64Bytes(|paths|, env.cfg.littleEndian)
  {
    PackWriter.PackLayout(env, paths, canCreate, capacity, heap);
    var header := PackWriter.HeaderBytes(env.cfg);
    var count := U64Bytes(|paths|, env.cfg.littleEndian);
    var file := PackWriter.PackSpec(env, paths, canCreate, capacity, heap).file.value;
    assert file[..HeaderSize] == header;
    assert file[HeaderSize..HeaderSize + CountSize] == count;
    file
  }

  /**
   * createPackReader on a kept pack, built with the writer's configuration:
   * the header passes and the item count it reads is the number of paths.
   */
  lemma KeptPackHeaderRead(env: PackWriter.WriterEnv, paths: seq<Path>, canCreate: bool, capacity: nat, heap: nat,
                           node: FileNode)
    requires 0 < |paths| < 0x1_0000_0000_0000_0000 && capacity <= MaxOffset
    requires PackWriter.PackSpec(env, paths, canCreate, capacity, heap).result == Success
    requires node.readable && node.content == KeptFile(env, paths, canCreate, capacity, heap)
    ensures PackReader.CheckHeader(env.cfg, Fread(node, 0, HeaderSize)) == Success
    ensures |Fread(node, HeaderSize, CountSize)| == CountSize
    ensures U64Value(Fread(node, HeaderSize, CountSize), env.cfg.littleEndian) == |paths|
  {
    HeaderAccepted(env.cfg);
    U64RoundTrip(|paths|, env.cfg.littleEndian);
  }

  /**
   * getPackInfo with the count check corrected, on a kept pack: it reports
   * the writer's version, byte order and number of paths.
   */
  lemma KeptPackInfo(env: PackWriter.WriterEnv, paths: seq<Path>, canCreate: bool, capacity: nat, heap: nat,
                     fs: FileSystem, path: Path)
    requires 0 < |paths| < 0x1_0000_0000_0000_0000 && capacity <= MaxOffset
    requires PackWriter.PackSpec(env, paths, canCreate, capacity, heap).result == Success
    requires path in fs && fs[path].readable && fs[path].content == KeptFile(env, paths, canCreate, capacity, heap)
    ensures PackCommon.GetPackInfo(Intended, fs, path, env.cfg.littleEndian)
         == Ok(PackCommon.PackInfo(env.cfg.major, env.cfg.minor, env.cfg.patch, env.cfg.littleEndian, |paths|))
  {
    var cfg := env.cfg;
    var r := PackCommon.GetPackInfo(Intended, fs, path, cfg.littleEndian);
    PackCommon.VersionsNotChecked(fs, path, cfg.littleEndian);
    assert fs[path].content[..HeaderSize] == PackWriter.HeaderBytes(cfg);
    U64Injective(r.value.itemCount, |paths|, cfg.littleEndian);
  }

  /** As written, getPackInfo refuses even the packs the writer keeps. */
  lemma KeptPackInfoAsWritten(env: PackWriter.WriterEnv, paths: seq<Path>, canCreate: bool, capacity: nat, heap: nat,
                              fs: FileSystem, path: Path)
    requires 0 < |paths| < 0x1_0000_0000_0000_0000 && capacity <= MaxOffset
    requires PackWriter.PackSpec(env, paths, canCreate, capacity, heap).result == Success
    requires path in fs && fs[path].readable && fs[path].content == KeptFile(env, paths, canCreate, capacity, heap)
    ensures PackCommon.GetPackInfo(AsWritten, fs, path, env.cfg.littleEndian) == Err(FailedToReadFile)
  {
    assert fs[path].content[..HeaderSize] == PackWriter.HeaderBytes(env.cfg);
    PackCommon.InfoNeverReported(fs, path, env.cfg.littleEndian);
  }

  /** Two values with the same encoding are equal. */
  lemma U64Injective(a: uint64, b: uint64, little: bool)
    requires U64Bytes(a, little) == U64Bytes(b, little)
    ensures a == b
  {
    U64RoundTrip(a, little);
    U64RoundTrip(b, little);
  }

  // ---------------------------------------------------------------------
  // The order of the items

  /**
   * The table entry the reader builds from the writer's record and path for
   * p: the record's pathSize is |p| and the path buffer is p and a terminator.
   */
  predicate Loaded(item: PackItem, p: Path)
  {
    item.info.pathSize as nat == |p| && item.path == p + [0]
  }

  /**
   * For paths of at most 255 bytes, comparePackItems on the loaded entries
   * gives exactly what comparePackItemPaths gives on the paths.
   */
  lemma OrderAgrees(a: Path, b: Path, x: PackItem, y: PackItem)
    requires |a| <= 255 && |b| <= 255 && Loaded(x, a) && Loaded(y, b)
    ensures WellFormed(x) && WellFormed(y)
    ensures CompareItems(x, y) == PackWriter.ComparePaths(a, b)
  {
    assert x.path[..|a|] == a[..|a|];
    assert y.path[..|b|] == b[..|b|];
    if |a| == |b| {
      assert x.path[..|a|] == a[..|a|] && y.path[..|a|] == b[..|a|];
    }
  }

  /** Paths in the writer's order, loaded by the reader, form a table bsearch can search. */
  lemma SortedTableSearchable(paths: seq<Path>, items: seq<PackItem>)
    requires |items| == |paths|
    requires forall i :: 0 <= i < |paths| ==> |paths[i]| <= 255 && Loaded(items[i], paths[i])
    requires PackWriter.SortedPaths(paths)
    ensures AllWellFormed(items) && SortedItems(items)
  {
    forall i | 0 <= i < |items| ensures WellFormed(items[i]) {
      OrderAgrees(paths[i], paths[i], items[i], items[i]);
    }
    forall i, j | 0 <= i < j < |items| ensures CompareItems(items[i], items[j]) <= 0 {
      OrderAgrees(paths[i], paths[j], items[i], items[j]);
    }
  }

  /** Every item of a pack that is written could be prepared. */
  lemma {:induction false} BlocksPrepared(env: PackWriter.WriterEnv, paths: seq<Path>, offset: nat, s: PackWriter.Scratch)
    requires offset <= MaxOffset
    requires PackWriter.Blocks(env, paths, offset, s).Ok?
    ensures forall i :: 0 <= i < |paths| ==> 0 < |paths[i]| <= 255
    decreases |paths|
  {
    if paths != [] {
      var p := PackWriter.PrepareItem(env, paths[0], s).value;
      var block := PackWriter.BlockBytes(env.cfg.littleEndian, paths[0], p, offset);
      BlocksPrepared(env, paths[1..], offset + |block|, p.scratch);
      forall i | 0 <= i < |paths| ensures 0 < |paths[i]| <= 255 {
        if i > 0 {
          assert paths[i] == paths[1..][i - 1];
        }
      }
    }
  }

  /** Every path of a kept pack names a file and is at most 255 bytes long. */
  lemma KeptPathsStored(env: PackWriter.WriterEnv, paths: seq<Path>, canCreate: bool, capacity: nat, heap: nat)
    requires 0 < |paths| < 0x1_0000_0000_0000_0000 && capacity <= MaxOffset
    requires PackWriter.PackSpec(env, paths, canCreate, capacity, heap).result == Success
    ensures forall i :: 0 <= i < |paths| ==> 0 < |paths[i]| <= 255
  {
    PackWriter.PackLayout(env, paths, canCreate, capacity, heap);
    var s := PackWriter.Scratch(1, 1, heap - |paths| * PackWriter.PointerSize - 2);
    BlocksPrepared(env, PackWriter.SortPaths(paths), HeaderSize + CountSize, s);
    StoredPermuted(PackWriter.SortPaths(paths), paths);
  }

  /** Rearranging paths keeps them all stored. */
  lemma StoredPermuted(from: seq<Path>, to: seq<Path>)
    requires multiset(from) == multiset(to)
    requires forall i :: 0 <= i < |from| ==> 0 < |from[i]| <= 255
    ensures forall i :: 0 <= i < |to| ==> 0 < |to[i]| <= 255
  {
    forall i | 0 <= i < |to| ensures 0 < |to[i]| <= 255 {
      assert to[i] in multiset(from);
      var k :| 0 <= k < |from| && from[k] == to[i];
    }
  }

  /**
   * The table of a kept pack, as the reader would hold it: the records in
   * the order the writer emits them are sorted as bsearch requires.
   */
  lemma KeptTableSearchable(env: PackWriter.WriterEnv, paths: seq<Path>, canCreate: bool, capacity: nat, heap: nat,
                            items: seq<PackItem>)
    requires 0 < |paths| < 0x1_0000_0000_0000_0000 && capacity <= MaxOffset
    requires PackWriter.PackSpec(env, paths, canCreate, capacity, heap).result == Success
    requires |items| == |paths|
    requires forall i :: 0 <= i < |items| ==> Loaded(items[i], PackWriter.SortPaths(paths)[i])
    ensures AllWellFormed(items) && SortedItems(items)
    ensures forall i :: 0 <= i < |items| ==> items[i].info.pathSize != 0
  {
    var sorted := PackWriter.SortPaths(paths);
    KeptPathsStored(env, paths, canCreate, capacity, heap);
    StoredPermuted(paths, sorted);
    PackWriter.SortPathsSorted(paths);
    SortedTableSearchable(sorted, items);
  }

  /**
   * The lookup key as written: getPackItemIndex sets only the key's path,
   * so its length stays 0. Against the entry for the one-byte path "a" the
   * corrected key compares equal and the key as written does not.
   */
  lemma LookupKeyCounterexample()
    ensures var item := PackItem(ItemInfo(0, 1, 16, 1), [0x61, 0]);
      && Loaded(item, [0x61])
      && CompareItems(PackReader.SearchKey([0x61]), item) == 0
      && CompareItems(ZeroItem.(path := [0x61, 0]), item) != 0
  {
    var item := PackItem(ItemInfo(0, 1, 16, 1), [0x61, 0]);
    PackReader.KeyMatches([0x61], item);
  }
}
