/**
 * getPackInfo (source/common.c): open a pack, read its header and item
 * count, and report them without checking versions or byte order.
 *
 * The item count read is compared with sizeof(uint64_t) where fread returns
 * an element count; `Checks` selects that comparison (`AsWritten`) or the
 * comparison with 1 (`Intended`). The file is read in the host's byte
 * order, given as `little`.
 */
module PackCommon {
  import opened PackFormat
  import opened CFile

  /** The five values getPackInfo hands back on success. */
  datatype PackInfo = PackInfo(major: uint8, minor: uint8, patch: uint8, isLittleEndian: bool, itemCount: uint64)

  /**
   * getPackInfo: open, read the 8-byte header, check the magic, read the
   * count, close. A failure reports nothing but its code, so the caller's
   * out-parameters are left as they were.
   */
  function GetPackInfo(c: Checks, fs: FileSystem, path: Path, little: bool): (r: Result<PackInfo>)
    ensures r == Err(FailedToOpenFile) <==> path !in fs
    ensures r.Ok? ==> c.Intended? && path in fs
    ensures r.Ok? ==>
      var content := fs[path].content;
      && fs[path].readable && |content| >= HeaderSize + CountSize && HasMagic(content)
      && r.value.major == content[4] && r.value.minor == content[5] && r.value.patch == content[6]
      && (r.value.isLittleEndian <==> content[7] == 0)
      && U64Bytes(r.value.itemCount, little) == content[HeaderSize..HeaderSize + CountSize]
  {
    if path !in fs then Err(FailedToOpenFile)
    else
      var node := fs[path];
      var header := Fread(node, 0, HeaderSize);
      if |header| != HeaderSize then Err(FailedToReadFile)
      else if header[0] != 'P' as uint8 || header[1] != 'A' as uint8
           || header[2] != 'C' as uint8 || header[3] != 'K' as uint8 then
        Err(BadFileType)
      else
        var countBytes := Fread(node, HeaderSize, CountSize);
        if Elements(countBytes, CountSize) != CountCheck(c) then Err(FailedToReadFile)
        else
          var count := U64Value(countBytes, little);
          U64ValueBytes(countBytes, little);
          assert header[..4] == Magic;
          Ok(PackInfo(header[4], header[5], header[6], header[7] == 0, count))
  }

  /** A file shorter than the header, or one that cannot be read, gives FAILED_TO_READ_FILE. */
  lemma ShortHeaderInfo(c: Checks, fs: FileSystem, path: Path, little: bool)
    requires path in fs && (!fs[path].readable || |fs[path].content| < HeaderSize)
    ensures GetPackInfo(c, fs, path, little) == Err(FailedToReadFile)
  {
  }

  /** A full header without "PACK" gives BAD_FILE_TYPE, whatever follows it. */
  lemma BadMagicInfo(c: Checks, fs: FileSystem, path: Path, little: bool)
    requires path in fs && fs[path].readable && |fs[path].content| >= HeaderSize
    requires !HasMagic(fs[path].content)
    ensures GetPackInfo(c, fs, path, little) == Err(BadFileType)
  {
    assert Fread(fs[path], 0, HeaderSize)[..4] == fs[path].content[..4];
  }

  /**
   * As written, no file is ever reported: a header that has the magic is
   * followed by the count check, which fails.
   */
  lemma InfoNeverReported(fs: FileSystem, path: Path, little: bool)
    ensures GetPackInfo(AsWritten, fs, path, little).Err?
    ensures path in fs && fs[path].readable && |fs[path].content| >= HeaderSize && HasMagic(fs[path].content)
      ==> GetPackInfo(AsWritten, fs, path, little) == Err(FailedToReadFile)
  {
    if path in fs && fs[path].readable && |fs[path].content| >= HeaderSize && HasMagic(fs[path].content) {
      var header := Fread(fs[path], 0, HeaderSize);
      assert header[..4] == fs[path].content[..4];
    }
  }

  /**
   * As intended, every readable file with the magic and a full count is
   * reported, whatever its version and byte-order bytes hold.
   */
  lemma VersionsNotChecked(fs: FileSystem, path: Path, little: bool)
    requires path in fs && fs[path].readable && |fs[path].content| >= HeaderSize + CountSize
    requires HasMagic(fs[path].content)
    ensures GetPackInfo(Intended, fs, path, little).Ok?
  {
    var header := Fread(fs[path], 0, HeaderSize);
    assert header[..4] == fs[path].content[..4];
  }

  /** The same header with any patch byte is reported alike, apart from the patch it shows. */
  lemma PatchReported(fs: FileSystem, path: Path, little: bool, patch: uint8)
    requires path in fs && |fs[path].content| >= HeaderSize
    ensures var node := fs[path];
      var fs' := fs[path := node.(content := node.content[6 := patch])];
      var r := GetPackInfo(Intended, fs, path, little);
      var r' := GetPackInfo(Intended, fs', path, little);
      && r.Ok? == r'.Ok?
      && (r.Ok? ==> r'.value == r.value.(patch := patch))
      && (r.Err? ==> r' == r)
  {
    var node := fs[path];
    var node' := node.(content := node.content[6 := patch]);
    var h := Fread(node, 0, HeaderSize);
    var h' := Fread(node', 0, HeaderSize);
    if |h| == HeaderSize {
      assert h'[..4] == h[..4];
    }
    assert Fread(node', HeaderSize, CountSize) == Fread(node, HeaderSize, CountSize);
  }
}
