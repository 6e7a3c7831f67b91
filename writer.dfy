/**
 * The pack writer (source/writer.c): packItems copies and sorts the item
 * paths, writes the header and the item count, then writePackItems appends,
 * for each path, an item record, the path bytes and the item's payload
 * (compressed when that is strictly smaller, raw otherwise). Any failure
 * after the pack file is created removes it.
 *
 * Memory is a budget of free bytes (`heap`): an allocation of n bytes
 * succeeds when n bytes are free, and realloc gives the old block back
 * first. The output file stores at most `capacity` bytes; fwrite beyond that
 * is short.
 */
module PackWriter {
  import opened PackFormat
  import opened MemCmp
  import opened CFile
  import opened Zstd

  /** The header packItems writes: "PACK", the version triple, !PACK_LITTLE_ENDIAN. */
  function HeaderBytes(cfg: Config): (h: seq<uint8>)
    ensures |h| == HeaderSize && HasMagic(h)
    ensures h[4] == cfg.major && h[5] == cfg.minor && h[6] == cfg.patch && h[7] == EndianFlag(cfg)
  {
    Magic + [cfg.major, cfg.minor, cfg.patch, EndianFlag(cfg)]
  }

  // ---------------------------------------------------------------------
  // Path order (comparePackItemPaths) and the sort packItems applies

  /** strlen of a path, cast to uint8_t as comparePackItemPaths does. */
  function ShortLength(p: Path): (n: nat)
    ensures n <= |p| && n < 256
    ensures |p| <= 255 ==> n == |p|
  {
    |p| % 256
  }

  /** comparePackItemPaths: truncated length first, then memcmp over that many bytes. */
  function ComparePaths(a: Path, b: Path): (r: int)
    ensures r == 0 <==> ShortLength(a) == ShortLength(b) && a[..ShortLength(a)] == b[..ShortLength(b)]
  {
    CompareSized(ShortLength(a), a, ShortLength(b), b)
  }

  lemma ComparePathsAntisymmetric(a: Path, b: Path)
    ensures ComparePaths(a, b) > 0 <==> ComparePaths(b, a) < 0
  {
    CompareSizedAntisymmetric(ShortLength(b), b, ShortLength(a), a);
  }

  lemma ComparePathsTransitive(a: Path, b: Path, c: Path)
    requires ComparePaths(a, b) <= 0 && ComparePaths(b, c) <= 0
    ensures ComparePaths(a, c) <= 0
  {
    CompareSizedTransitive(ShortLength(a), a, ShortLength(b), b, ShortLength(c), c);
  }

  /** The order qsort leaves the paths in: no path compares greater than a later one. */
  predicate SortedPaths(s: seq<Path>)
  {
    forall i, j :: 0 <= i < j < |s| ==> ComparePaths(s[i], s[j]) <= 0
  }

  /** p inserted before the first path it does not compare greater than. */
  function Insert(p: Path, s: seq<Path>): (r: seq<Path>)
    ensures multiset(r) == multiset(s) + multiset{p}
    decreases |s|
  {
    if s == [] then [p]
    else if ComparePaths(p, s[0]) <= 0 then [p] + s
    else
      assert s == [s[0]] + s[1..];
      [s[0]] + Insert(p, s[1..])
  }

  /**
   * The arrangement qsort(itemPaths, itemCount, sizeof(char*),
   * comparePackItemPaths) produces. qsort promises only a sorted permutation;
   * this is one (an insertion sort), and SortPathsSorted proves it is one.
   */
  function SortPaths(s: seq<Path>): (r: seq<Path>)
    ensures multiset(r) == multiset(s) && |r| == |s|
  {
    if s == [] then []
    else
      assert s == [s[0]] + s[1..];
      Insert(s[0], SortPaths(s[1..]))
  }

  /** x compares no greater than any path in s. */
  predicate Below(x: Path, s: seq<Path>)
  {
    forall j :: 0 <= j < |s| ==> ComparePaths(x, s[j]) <= 0
  }

  lemma {:induction false} InsertBelow(x: Path, p: Path, s: seq<Path>)
    requires Below(x, s) && ComparePaths(x, p) <= 0
    ensures Below(x, Insert(p, s))
    decreases |s|
  {
    if s != [] && ComparePaths(p, s[0]) > 0 {
      InsertBelow(x, p, s[1..]);
      var r := Insert(p, s);
      assert r == [s[0]] + Insert(p, s[1..]);
      forall j | 0 < j < |r| ensures ComparePaths(x, r[j]) <= 0 {
        assert r[j] == Insert(p, s[1..])[j - 1];
      }
    }
  }

  lemma ConsSorted(x: Path, s: seq<Path>)
    requires Below(x, s) && SortedPaths(s)
    ensures SortedPaths([x] + s)
  {
    var r := [x] + s;
    forall i, j | 0 <= i < j < |r| ensures ComparePaths(r[i], r[j]) <= 0 {
      if i > 0 {
        assert r[i] == s[i - 1] && r[j] == s[j - 1];
      } else {
        assert r[j] == s[j - 1];
      }
    }
  }

  lemma {:induction false} InsertSorted(p: Path, s: seq<Path>)
    requires SortedPaths(s)
    ensures SortedPaths(Insert(p, s))
    decreases |s|
  {
    if s == [] {
    } else if ComparePaths(p, s[0]) <= 0 {
      forall j | 0 <= j < |s| ensures ComparePaths(p, s[j]) <= 0 {
        ComparePathsTransitive(p, s[0], s[j]);
      }
      ConsSorted(p, s);
    } else {
      InsertSorted(p, s[1..]);
      ComparePathsAntisymmetric(p, s[0]);
      assert Below(s[0], s[1..]) by {
        forall j | 0 <= j < |s[1..]| ensures ComparePaths(s[0], s[1..][j]) <= 0 {
          assert s[1..][j] == s[j + 1];
        }
      }
      InsertBelow(s[0], p, s[1..]);
      ConsSorted(s[0], Insert(p, s[1..]));
    }
  }

  lemma {:induction false} SortPathsSorted(s: seq<Path>)
    ensures SortedPaths(SortPaths(s))
  {
    if s != [] {
      SortPathsSorted(s[1..]);
      InsertSorted(s[0], SortPaths(s[1..]));
    }
  }

  // ---------------------------------------------------------------------
  // One item: the checks, the scratch buffers, the read and the compression

  /** The environment packItems works in: the build configuration, the files it reads, the codec. */
  datatype WriterEnv = WriterEnv(cfg: Config, fs: FileSystem, zstd: Zstd)

  /** The two scratch buffers of writePackItems (itemData, zipData) and the free memory. */
  datatype Scratch = Scratch(itemCap: nat, zipCap: nat, heap: nat)

  /** itemSize is a uint32_t: ftello's result is cut to its low 32 bits. */
  const U32Modulus: nat := 0x1_0000_0000

  /**
   * Lines 99-128: bufferSize is set to 1 and never updated, so both buffers
   * are resized to itemSize for every item of more than one byte.
   */
  function Regrow(s: Scratch, itemSize: nat): (r: Option<Scratch>)
    ensures itemSize <= 1 ==> r == Some(s)
    ensures itemSize > 1 && r.Some? ==> r.value.itemCap == itemSize && r.value.zipCap == itemSize
    ensures itemSize > 1 ==> (r.Some? <==> itemSize <= s.heap + s.itemCap && itemSize <= s.heap + s.itemCap + s.zipCap - itemSize)
  {
    if itemSize <= 1 then Some(s)
    else if itemSize > s.heap + s.itemCap then None
    else
      var heap := s.heap + s.itemCap - itemSize;
      if itemSize > heap + s.zipCap then None
      else Some(Scratch(itemSize, itemSize, heap + s.zipCap - itemSize))
  }

  /** An item's bytes, ready to be written, and the scratch state after reading it. */
  datatype Prepared = Prepared(zipSize: nat, itemSize: nat, payload: seq<uint8>, scratch: Scratch)

  /** ZSTD_compress into a buffer of itemSize bytes; zipSize 0 means "store raw". */
  function ZipSize(z: Zstd, data: seq<uint8>): (n: nat)
    ensures n == 0 || n < |data|
    ensures n > 0 ==> z.compress(data).Some? && |z.compress(data).value| == n
    ensures n == 0 <==> z.compress(data).None? || |z.compress(data).value| == 0 || |z.compress(data).value| >= |data|
  {
    match Compress(z, data, |data|)
    case None => 0
    case Some(frame) => if |frame| >= |data| then 0 else |frame|
  }

  /**
   * Lines 43-156 for one path: the length check, open, size, the buffers,
   * the read, and the choice between compressed and raw.
   */
  function PrepareItem(env: WriterEnv, path: Path, s: Scratch): (r: Result<Prepared>)
    ensures r.Err? ==> r.error != Success
    ensures r.Ok? ==> |path| <= 255 && path in env.fs
    ensures r.Ok? ==> 0 < r.value.itemSize == |env.fs[path].content| % U32Modulus
    ensures r.Ok? ==> r.value.zipSize == 0 || r.value.zipSize < r.value.itemSize
    ensures r.Ok? && r.value.zipSize == 0 ==> r.value.payload == env.fs[path].content[..r.value.itemSize]
    ensures r.Ok? && r.value.zipSize > 0 ==>
      |r.value.payload| == r.value.zipSize
      && env.zstd.compress(env.fs[path].content[..r.value.itemSize]) == Some(r.value.payload)
    ensures r.Ok? && s.itemCap >= 1 && s.zipCap >= 1 ==>
      r.value.scratch.itemCap >= r.value.itemSize && r.value.scratch.zipCap >= r.value.itemSize
  {
    if |path| > 255 then Err(BadDataSize)
    else if path !in env.fs then Err(FailedToOpenFile)
    else
      var node := env.fs[path];
      if !node.seekable then Err(FailedToSeekFile)
      else
        var itemSize := |node.content| % U32Modulus;
        if itemSize == 0 then Err(BadDataSize)
        else
          match Regrow(s, itemSize)
          case None => Err(FailedToAllocate)
          case Some(grown) =>
            var data := Fread(node, 0, itemSize);
            if |data| != itemSize then Err(FailedToReadFile)
            else
              var zipSize := ZipSize(env.zstd, data);
              var payload := if zipSize == 0 then data else env.zstd.compress(data).value;
              Ok(Prepared(zipSize, itemSize, payload, grown))
  }

  /** The failures of one item before anything is written, and when each happens. */
  lemma PrepareItemErrors(env: WriterEnv, path: Path, s: Scratch)
    ensures var r := PrepareItem(env, path, s);
      && (r == Err(BadDataSize) <==>
            |path| > 255 || (path in env.fs && env.fs[path].seekable && |env.fs[path].content| % U32Modulus == 0))
      && (r == Err(FailedToOpenFile) <==> |path| <= 255 && path !in env.fs)
      && (r == Err(FailedToSeekFile) <==> |path| <= 255 && path in env.fs && !env.fs[path].seekable)
      && (r == Err(FailedToAllocate) <==> ItemSized(env, path) && Regrow(s, |env.fs[path].content| % U32Modulus).None?)
      && (r == Err(FailedToReadFile) <==>
            ItemSized(env, path) && Regrow(s, |env.fs[path].content| % U32Modulus).Some? && !env.fs[path].readable)
      && (r.Ok? <==>
            ItemSized(env, path) && Regrow(s, |env.fs[path].content| % U32Modulus).Some? && env.fs[path].readable)
      && (r.Err? ==> r.error in {BadDataSize, FailedToOpenFile, FailedToSeekFile, FailedToAllocate, FailedToReadFile})
  {
    if ItemSized(env, path) {
      var node := env.fs[path];
      var itemSize := |node.content| % U32Modulus;
      assert |Fread(node, 0, itemSize)| == itemSize <==> node.readable;
    }
  }

  /** The path is short enough, the file opens and seeks, and its size as a uint32 is not 0. */
  predicate ItemSized(env: WriterEnv, path: Path)
  {
    |path| <= 255 && path in env.fs && env.fs[path].seekable && |env.fs[path].content| % U32Modulus != 0
  }

  /** The record written for an item whose block starts at `offset` (ftello before the record). */
  function RecordFor(path: Path, p: Prepared, offset: uint64): ItemInfo
    requires |path| <= 255 && p.zipSize < U32Modulus && p.itemSize < U32Modulus
  {
    ItemInfo(p.zipSize, p.itemSize, offset, |path|)
  }

  /** What lines 158-220 append for one item: the record, the path bytes, the payload. */
  function BlockBytes(little: bool, path: Path, p: Prepared, offset: uint64): seq<uint8>
    requires |path| <= 255 && p.zipSize < U32Modulus && p.itemSize < U32Modulus
  {
    InfoBytes(RecordFor(path, p, offset), little) + path + p.payload
  }

  // ---------------------------------------------------------------------
  // Emitting items

  /** An item's outcome and the pack file contents after it. */
  datatype Emitted = Emitted(result: Result<Scratch>, data: seq<uint8>)

  /**
   * Lines 36-228 for one path, with `data` already in the pack file: prepare
   * the item, then write its block. The source writes the record, the path
   * and the payload with three fwrite calls and stops at the first short
   * one; the file then holds the same bytes as after one short write of the
   * whole block (OutStream.Write and EmitShort), which is what this states.
   */
  function WriteItem(env: WriterEnv, capacity: nat, path: Path, data: seq<uint8>, s: Scratch): (e: Emitted)
    requires |data| <= capacity <= MaxOffset
    ensures |data| <= |e.data| <= capacity && e.data[..|data|] == data
    ensures e.result.Err? ==> e.result.error != Success
    ensures PrepareItem(env, path, s).Err? ==> e == Emitted(Err(PrepareItem(env, path, s).error), data)
    ensures e.result.Ok? ==>
      var p := PrepareItem(env, path, s).value;
      && e.result.value == p.scratch
      && e.data == data + BlockBytes(env.cfg.littleEndian, path, p, |data|)
  {
    match PrepareItem(env, path, s)
    case Err(err) => Emitted(Err(err), data)
    case Ok(p) =>
      var block := BlockBytes(env.cfg.littleEndian, path, p, |data|);
      var written := Emit(data, capacity, block);
      if written != data + block then Emitted(Err(FailedToWriteFile), written)
      else Emitted(Ok(p.scratch), written)
  }

  /** An item is written exactly when it can be prepared and its whole block fits in the file. */
  lemma WriteItemFits(env: WriterEnv, capacity: nat, path: Path, data: seq<uint8>, s: Scratch)
    requires |data| <= capacity <= MaxOffset
    ensures var e := WriteItem(env, capacity, path, data, s);
      var p := PrepareItem(env, path, s);
      && (e.result.Ok? <==> p.Ok? && |data| + |BlockBytes(env.cfg.littleEndian, path, p.value, |data|)| <= capacity)
      && (e.result.Err? && p.Ok? ==> e.result.error == FailedToWriteFile)
  {
  }

  /** The outcome of the items loop and the pack file contents after it. */
  datatype Outcome = Outcome(result: PackResult, data: seq<uint8>)

  /** The loop of writePackItems over the sorted paths: the first failure ends it. */
  function WriteItems(env: WriterEnv, capacity: nat, paths: seq<Path>, data: seq<uint8>, s: Scratch): (o: Outcome)
    requires |data| <= capacity <= MaxOffset
    ensures |data| <= |o.data| <= capacity && o.data[..|data|] == data
    decreases |paths|, 1
  {
    if paths == [] then Outcome(Success, data) else WriteItemsPass(env, capacity, paths, data, s)
  }

  /** A pass of the loop with paths left: the first item, then the loop over the rest. */
  function WriteItemsPass(env: WriterEnv, capacity: nat, paths: seq<Path>, data: seq<uint8>, s: Scratch): (o: Outcome)
    requires paths != [] && |data| <= capacity <= MaxOffset
    ensures |data| <= |o.data| <= capacity && o.data[..|data|] == data
    decreases |paths|, 0
  {
    var e := WriteItem(env, capacity, paths[0], data, s);
    match e.result
    case Err(err) => Outcome(err, e.data)
    case Ok(next) =>
      var o := WriteItems(env, capacity, paths[1..], e.data, next);
      assert o.data[..|data|] == o.data[..|e.data|][..|data|];
      o
  }

  /**
   * The blocks the items occupy when nothing goes wrong, the first one at
   * `offset`: each block records the offset it starts at, which is `offset`
   * plus the sizes of the blocks before it. A block that would end past the
   * largest file offset cannot be written.
   */
  function Blocks(env: WriterEnv, paths: seq<Path>, offset: nat, s: Scratch): (r: Result<seq<uint8>>)
    requires offset <= MaxOffset
    ensures r.Err? ==> r.error != Success
    ensures r.Ok? ==> offset + |r.value| <= MaxOffset
    decreases |paths|, 1
  {
    if paths == [] then Ok([]) else BlocksFrom(env, paths, offset, s)
  }

  /** The blocks of a non-empty list: the first item's block, then the blocks after it. */
  function BlocksFrom(env: WriterEnv, paths: seq<Path>, offset: nat, s: Scratch): (r: Result<seq<uint8>>)
    requires paths != [] && offset <= MaxOffset
    ensures r.Err? ==> r.error != Success
    ensures r.Ok? ==> offset + |r.value| <= MaxOffset
    decreases |paths|, 0
  {
    match PrepareItem(env, paths[0], s)
    case Err(err) => Err(err)
    case Ok(p) =>
      var block := BlockBytes(env.cfg.littleEndian, paths[0], p, offset);
      if offset + |block| > MaxOffset then Err(FailedToWriteFile)
      else
        match Blocks(env, paths[1..], offset + |block|, p.scratch)
        case Err(err) => Err(err)
        case Ok(rest) => Ok(block + rest)
  }

  /**
   * When the loop succeeds every item could be prepared and the file holds
   * the blocks after what was there.
   */
  lemma {:induction false} WriteItemsLayout(env: WriterEnv, capacity: nat, paths: seq<Path>, data: seq<uint8>, s: Scratch)
    requires |data| <= capacity <= MaxOffset
    requires WriteItems(env, capacity, paths, data, s).result == Success
    ensures Blocks(env, paths, |data|, s).Ok?
    ensures WriteItems(env, capacity, paths, data, s).data == data + Blocks(env, paths, |data|, s).value
    decreases |paths|
  {
    if paths != [] {
      WriteItemsHead(env, capacity, paths, data, s);
      var p := PrepareItem(env, paths[0], s).value;
      var block := BlockBytes(env.cfg.littleEndian, paths[0], p, |data|);
      WriteItemsLayout(env, capacity, paths[1..], data + block, p.scratch);
      BlocksHead(env, paths, |data|, s);
      AppendAssociative(data, block, Blocks(env, paths[1..], |data| + |block|, p.scratch).value);
    }
  }

  /** A loop that succeeds wrote its first item's block, and the rest of the loop starts after it. */
  lemma WriteItemsHead(env: WriterEnv, capacity: nat, paths: seq<Path>, data: seq<uint8>, s: Scratch)
    requires paths != [] && |data| <= capacity <= MaxOffset
    requires WriteItems(env, capacity, paths, data, s).result == Success
    ensures PrepareItem(env, paths[0], s).Ok?
    ensures var p := PrepareItem(env, paths[0], s).value;
      var block := BlockBytes(env.cfg.littleEndian, paths[0], p, |data|);
      && |data| + |block| <= capacity
      && WriteItems(env, capacity, paths, data, s) == WriteItems(env, capacity, paths[1..], data + block, p.scratch)
  {
    var e := WriteItem(env, capacity, paths[0], data, s);
    assert e.result.Ok?;
  }

  /** The blocks of a list are its first item's block followed by the blocks after it. */
  lemma BlocksHead(env: WriterEnv, paths: seq<Path>, offset: nat, s: Scratch)
    requires paths != [] && offset <= MaxOffset && PrepareItem(env, paths[0], s).Ok?
    requires var p := PrepareItem(env, paths[0], s).value;
      var block := BlockBytes(env.cfg.littleEndian, paths[0], p, offset as uint64);
      offset + |block| <= MaxOffset && Blocks(env, paths[1..], offset + |block|, p.scratch).Ok?
    ensures var p := PrepareItem(env, paths[0], s).value;
      var block := BlockBytes(env.cfg.littleEndian, paths[0], p, offset as uint64);
      Blocks(env, paths, offset, s) == Ok(block + Blocks(env, paths[1..], offset + |block|, p.scratch).value)
  {
  }

  lemma AppendAssociative(a: seq<uint8>, b: seq<uint8>, c: seq<uint8>)
    ensures a + b + c == a + (b + c)
  {
  }

  /** Conversely, when every item can be prepared and all the blocks fit, the loop succeeds. */
  lemma {:induction false} BlocksWritten(env: WriterEnv, capacity: nat, paths: seq<Path>, data: seq<uint8>, s: Scratch)
    requires |data| <= capacity <= MaxOffset
    requires Blocks(env, paths, |data|, s).Ok?
    requires |data| + |Blocks(env, paths, |data|, s).value| <= capacity
    ensures WriteItems(env, capacity, paths, data, s).result == Success
    decreases |paths|
  {
    if paths != [] {
      var p := PrepareItem(env, paths[0], s).value;
      var block := BlockBytes(env.cfg.littleEndian, paths[0], p, |data|);
      var rest := Blocks(env, paths[1..], |data| + |block|, p.scratch);
      assert Blocks(env, paths, |data|, s).value == block + rest.value;
      WriteItemFits(env, capacity, paths[0], data, s);
      var e := WriteItem(env, capacity, paths[0], data, s);
      assert e == Emitted(Ok(p.scratch), data + block);
      BlocksWritten(env, capacity, paths[1..], data + block, p.scratch);
    }
  }

  /** Once an item fails, the paths after it are not looked at: the outcome ignores them. */
  lemma {:induction false} FirstFailureStops(env: WriterEnv, capacity: nat, paths: seq<Path>, more: seq<Path>,
                                             data: seq<uint8>, s: Scratch)
    requires |data| <= capacity <= MaxOffset
    requires WriteItems(env, capacity, paths, data, s).result != Success
    ensures WriteItems(env, capacity, paths + more, data, s) == WriteItems(env, capacity, paths, data, s)
    decreases |paths|
  {
    assert (paths + more)[0] == paths[0];
    var e := WriteItem(env, capacity, paths[0], data, s);
    WriteItemsStep(env, capacity, paths, data, s, e);
    WriteItemsStep(env, capacity, paths + more, data, s, e);
    if e.result.Ok? {
      assert (paths + more)[1..] == paths[1..] + more;
      FirstFailureStops(env, capacity, paths[1..], more, e.data, e.result.value);
    }
  }

  // ---------------------------------------------------------------------
  // The whole pack

  /** The result of packItems and the pack file it leaves: none when it fails. */
  datatype Archive = Archive(result: PackResult, file: Option<seq<uint8>>)

  /** sizeof(const char*) on an LP64 host. */
  const PointerSize: nat := 8

  /** writePackItems' two one-byte scratch buffers, taken from `heap` bytes of free memory. */
  function InitialScratch(heap: nat): (r: Option<Scratch>)
    ensures r.Some? <==> heap >= 2
    ensures r.Some? ==> r.value == Scratch(1, 1, heap - 2)
  {
    if heap < 1 then None
    else if heap - 1 < 1 then None
    else Some(Scratch(1, 1, heap - 2))
  }

  /**
   * packItems: copy the path array, sort the copy, create the pack file,
   * write the header and the count, then the items. Any failure after the
   * file is created removes it.
   */
  function PackSpec(env: WriterEnv, paths: seq<Path>, canCreate: bool, capacity: nat, heap: nat): (a: Archive)
    requires 0 < |paths| < 0x1_0000_0000_0000_0000 && capacity <= MaxOffset
    ensures a.result == Success <==> a.file.Some?
  {
    if |paths| * PointerSize > heap then Archive(FailedToAllocate, None)
    else if !canCreate then Archive(FailedToOpenFile, None)
    else
      var header := HeaderBytes(env.cfg);
      var d1 := Emit([], capacity, header);
      if d1 != header then Archive(FailedToWriteFile, None)
      else
        var count := U64Bytes(|paths|, env.cfg.littleEndian);
        var d2 := Emit(d1, capacity, count);
        if d2 != d1 + count then Archive(FailedToWriteFile, None)
        else
          match InitialScratch(heap - |paths| * PointerSize)
          case None => Archive(FailedToAllocate, None)
          case Some(s) =>
            var o := WriteItems(env, capacity, SortPaths(paths), d2, s);
            if o.result == Success then Archive(Success, Some(o.data))
            else Archive(o.result, None)
  }

  /**
   * A pack that is kept holds the header, the item count and the blocks of
   * the paths in sorted order, the first block right after the count.
   */
  lemma PackLayout(env: WriterEnv, paths: seq<Path>, canCreate: bool, capacity: nat, heap: nat)
    requires 0 < |paths| < 0x1_0000_0000_0000_0000 && capacity <= MaxOffset
    requires PackSpec(env, paths, canCreate, capacity, heap).result == Success
    ensures canCreate && |paths| * PointerSize + 2 <= heap
    ensures var s := Scratch(1, 1, heap - |paths| * PointerSize - 2);
      var blocks := Blocks(env, SortPaths(paths), HeaderSize + CountSize, s);
      && blocks.Ok?
      && PackSpec(env, paths, canCreate, capacity, heap).file
         == Some(HeaderBytes(env.cfg) + U64Bytes(|paths|, env.cfg.littleEndian) + blocks.value)
  {
    var header := HeaderBytes(env.cfg);
    var count := U64Bytes(|paths|, env.cfg.littleEndian);
    var s := Scratch(1, 1, heap - |paths| * PointerSize - 2);
    assert Emit([], capacity, header) == header;
    assert Emit(header, capacity, count) == header + count;
    WriteItemsLayout(env, capacity, SortPaths(paths), header + count, s);
  }

  /** Conversely, the pack is kept whenever memory suffices, the file can be created and everything fits. */
  lemma PackKept(env: WriterEnv, paths: seq<Path>, canCreate: bool, capacity: nat, heap: nat)
    requires 0 < |paths| < 0x1_0000_0000_0000_0000 && capacity <= MaxOffset
    requires canCreate && |paths| * PointerSize + 2 <= heap
    requires var s := Scratch(1, 1, heap - |paths| * PointerSize - 2);
      var blocks := Blocks(env, SortPaths(paths), HeaderSize + CountSize, s);
      blocks.Ok? && HeaderSize + CountSize + |blocks.value| <= capacity
    ensures PackSpec(env, paths, canCreate, capacity, heap).result == Success
  {
    var header := HeaderBytes(env.cfg);
    var count := U64Bytes(|paths|, env.cfg.littleEndian);
    var s := Scratch(1, 1, heap - |paths| * PointerSize - 2);
    assert Emit([], capacity, header) == header;
    assert Emit(header, capacity, count) == header + count;
    BlocksWritten(env, capacity, SortPaths(paths), header + count, s);
  }

  /** The failures of packItems before any item is looked at. */
  lemma PackEarlyErrors(env: WriterEnv, paths: seq<Path>, canCreate: bool, capacity: nat, heap: nat)
    requires 0 < |paths| < 0x1_0000_0000_0000_0000 && capacity <= MaxOffset
    ensures var a := PackSpec(env, paths, canCreate, capacity, heap);
      && (|paths| * PointerSize > heap ==> a == Archive(FailedToAllocate, None))
      && (|paths| * PointerSize <= heap && !canCreate ==> a == Archive(FailedToOpenFile, None))
      && (|paths| * PointerSize <= heap && canCreate && capacity < HeaderSize + CountSize
          ==> a == Archive(FailedToWriteFile, None))
      && ((|paths| * PointerSize <= heap && canCreate && capacity >= HeaderSize + CountSize
           && |paths| * PointerSize + 2 > heap) ==> a == Archive(FailedToAllocate, None))
  {
  }

  // ---------------------------------------------------------------------
  // The C procedures, over an output stream and scratch arrays

  /**
   * Lines 165-220: the record, the path and the payload, each with its own
   * fwrite; a short write ends the item. The file then holds what one write
   * of the whole block would have stored.
   */
  method WriteBlock(out: OutStream, record: seq<uint8>, path: seq<uint8>, payload: seq<uint8>) returns (ok: bool)
    requires out.Valid()
    modifies out`data
    ensures out.Valid()
    ensures out.data == Emit(old(out.data), out.capacity, record + path + payload)
    ensures ok <==> out.data == old(out.data) + (record + path + payload)
  {
    ghost var data := out.data;
    var n := out.Write(record);
    if n != |record| {
      EmitShort(data, out.capacity, record, path + payload);
      assert record + (path + payload) == record + path + payload;
      return false;
    }
    EmitTwice(data, out.capacity, record, path + payload);
    assert record + (path + payload) == record + path + payload;
    n := out.Write(path);
    if n != |path| {
      EmitShort(data + record, out.capacity, path, payload);
      return false;
    }
    EmitTwice(data + record, out.capacity, path, payload);
    n := out.Write(payload);
    assert data + record + path + payload == data + (record + path + payload);
    ok := n == |payload|;
  }

  /**
   * One iteration of writePackItems' loop (lines 38-221): the buffers are
   * arrays, replaced by new ones when they are reallocated.
   */
  method WriteItemTo(env: WriterEnv, out: OutStream, path: Path, itemData: array<uint8>, zipData: array<uint8>, s: Scratch)
    returns (result: Result<Scratch>, items: array<uint8>, zips: array<uint8>)
    requires out.Valid() && out.capacity <= MaxOffset
    requires itemData.Length == s.itemCap >= 1 && zipData.Length == s.zipCap >= 1 && itemData != zipData
    modifies out`data, itemData, zipData
    ensures out.Valid()
    ensures Emitted(result, out.data) == WriteItem(env, out.capacity, path, old(out.data), s)
    ensures result.Ok? ==> items.Length == result.value.itemCap && zips.Length == result.value.zipCap && items != zips
    ensures (items == itemData || fresh(items)) && (zips == zipData || fresh(zips))
  {
    items, zips := itemData, zipData;
    if |path| > 255 {
      return Err(BadDataSize), items, zips;
    }
    if path !in env.fs {
      return Err(FailedToOpenFile), items, zips;
    }
    var file := new Stream.Open(env.fs[path]);
    var ok := file.SeekEnd();
    if !ok {
      file.Close();
      return Err(FailedToSeekFile), items, zips;
    }
    var itemSize := file.pos % U32Modulus;
    if itemSize == 0 {
      file.Close();
      return Err(BadDataSize), items, zips;
    }
    ok := file.Seek(0);
    var grown := s;
    if itemSize > 1 {
      if itemSize > s.heap + s.itemCap {
        file.Close();
        return Err(FailedToAllocate), items, zips;
      }
      items := new uint8[itemSize];
      var heap := s.heap + s.itemCap - itemSize;
      if itemSize > heap + s.zipCap {
        file.Close();
        return Err(FailedToAllocate), items, zips;
      }
      zips := new uint8[itemSize];
      grown := Scratch(itemSize, itemSize, heap + s.zipCap - itemSize);
    }
    assert Regrow(s, itemSize) == Some(grown);
    var bytes := file.Read(itemSize);
    file.Close();
    if |bytes| != itemSize {
      return Err(FailedToReadFile), items, zips;
    }
    Fill(items, bytes);
    assert items[..itemSize] == bytes;
    var zipSize := 0;
    var frame := Compress(env.zstd, items[..itemSize], itemSize);
    if frame.Some? && |frame.value| < itemSize {
      zipSize := |frame.value|;
      Fill(zips, frame.value);
      assert zips[..zipSize] == frame.value;
    }
    var p := Prepared(zipSize, itemSize, if zipSize != 0 then zips[..zipSize] else items[..itemSize], grown);
    assert PrepareItem(env, path, s) == Ok(p);
    var record := InfoBytes(ItemInfo(zipSize, itemSize, out.Tell(), |path|), env.cfg.littleEndian);
    var written := WriteBlock(out, record, path, p.payload);
    if !written {
      return Err(FailedToWriteFile), items, zips;
    }
    return Ok(grown), items, zips;
  }

  /** One item of the loop: an item that succeeds hands its scratch state to the rest. */
  lemma WriteItemsStep(env: WriterEnv, capacity: nat, paths: seq<Path>, data: seq<uint8>, s: Scratch, e: Emitted)
    requires |data| <= capacity <= MaxOffset && paths != []
    requires e == WriteItem(env, capacity, paths[0], data, s)
    ensures e.result.Err? ==> WriteItems(env, capacity, paths, data, s) == Outcome(e.result.error, e.data)
    ensures e.result.Ok? ==>
      WriteItems(env, capacity, paths, data, s) == WriteItems(env, capacity, paths[1..], e.data, e.result.value)
  {
  }

  /**
   * writePackItems (lines 13-233) on an open pack file: allocate the two
   * one-byte scratch buffers, then write the items in order until one fails.
   */
  method WritePackItems(env: WriterEnv, out: OutStream, paths: seq<Path>, heap: nat) returns (result: PackResult)
    requires out.Valid() && out.capacity <= MaxOffset
    modifies out`data
    ensures out.Valid()
    ensures InitialScratch(heap).None? ==> result == FailedToAllocate && out.data == old(out.data)
    ensures InitialScratch(heap).Some? ==>
      Outcome(result, out.data) == WriteItems(env, out.capacity, paths, old(out.data), InitialScratch(heap).value)
  {
    if heap < 1 {
      return FailedToAllocate;
    }
    var itemData := new uint8[1];
    if heap - 1 < 1 {
      return FailedToAllocate;
    }
    var zipData := new uint8[1];
    var s := Scratch(1, 1, heap - 2);
    ghost var whole := WriteItems(env, out.capacity, paths, out.data, s);
    ghost var rest := paths;
    var i := 0;
    while i < |paths|
      invariant 0 <= i <= |paths| && rest == paths[i..]
      invariant out.Valid()
      invariant itemData.Length == s.itemCap >= 1 && zipData.Length == s.zipCap >= 1 && itemData != zipData
      invariant fresh(itemData) && fresh(zipData)
      invariant WriteItems(env, out.capacity, rest, out.data, s) == whole
    {
      ghost var data := out.data;
      var r;
      r, itemData, zipData := WriteItemTo(env, out, paths[i], itemData, zipData, s);
      WriteItemsStep(env, out.capacity, rest, data, s, Emitted(r, out.data));
      if r.Err? {
        return r.error;
      }
      s := r.value;
      rest := rest[1..];
      i := i + 1;
    }
    return Success;
  }

  /** qsort over the copied paths: the array ends up in the order SortPaths gives. */
  method SortPathArray(a: array<Path>)
    modifies a
    ensures a[..] == SortPaths(old(a[..]))
    ensures SortedPaths(a[..]) && multiset(a[..]) == multiset(old(a[..]))
  {
    var sorted := SortPaths(a[..]);
    SortPathsSorted(a[..]);
    forall i | 0 <= i < a.Length {
      a[i] := sorted[i];
    }
    assert a[..] == sorted;
  }

  /** The copy of the caller's path array (the memcpy loop of packItems). */
  method CopyPaths(itemPaths: array<Path>) returns (paths: array<Path>)
    ensures fresh(paths) && paths[..] == itemPaths[..]
  {
    paths := new Path[itemPaths.Length];
    for i := 0 to itemPaths.Length
      invariant paths[..i] == itemPaths[..i]
    {
      paths[i] := itemPaths[i];
    }
    assert paths[..] == itemPaths[..];
  }

  /**
   * packItems (lines 250-335): the caller's path array is copied, not
   * reordered. The pack file is the returned contents, and is absent when
   * packItems fails, as the source removes it.
   */
  method PackItems(env: WriterEnv, itemPaths: array<Path>, canCreate: bool, capacity: nat, heap: nat)
    returns (result: PackResult, file: Option<seq<uint8>>)
    requires 0 < itemPaths.Length < 0x1_0000_0000_0000_0000 && capacity <= MaxOffset
    ensures Archive(result, file) == PackSpec(env, itemPaths[..], canCreate, capacity, heap)
  {
    var count := itemPaths.Length;
    if count * PointerSize > heap {
      return FailedToAllocate, None;
    }
    var paths := CopyPaths(itemPaths);
    SortPathArray(paths);
    assert paths[..] == SortPaths(itemPaths[..]);
    if !canCreate {
      return FailedToOpenFile, None;
    }
    var out := new OutStream.Create(capacity);
    var n := out.Write(HeaderBytes(env.cfg));
    if n != HeaderSize {
      out.Close();
      return FailedToWriteFile, None;
    }
    n := out.Write(U64Bytes(count, env.cfg.littleEndian));
    if n != CountSize {
      out.Close();
      return FailedToWriteFile, None;
    }
    ghost var counted := out.data;
    assert counted == HeaderBytes(env.cfg) + U64Bytes(count, env.cfg.littleEndian);
    result := WritePackItems(env, out, paths[..], heap - count * PointerSize);
    out.Close();
    if result != Success {
      return result, None;
    }
    return Success, Some(out.data);
  }
}
