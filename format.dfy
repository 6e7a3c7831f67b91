/**
 * Definitions shared by the pack engine: fixed-width integers, the result
 * codes, the build configuration (version triple and host byte order), the
 * host-order integer codec and the on-disk item record.
 *
 * The header that declares these (pack/defines.h) is not part of this model;
 * what is written here is what the reader, writer and info sources rely on.
 */
module PackFormat {

  type uint8 = x: int | 0 <= x < 0x100
  type uint32 = x: int | 0 <= x < 0x1_0000_0000
  type uint64 = x: int | 0 <= x < 0x1_0000_0000_0000_0000

  /** Bytes of a path string, without its NUL terminator unless stated otherwise. */
  type Path = seq<uint8>

  /** The result codes the C engine returns (the `*_PACK_RESULT` symbols). */
  datatype PackResult =
    | Success
    | FailedToAllocate
    | FailedToCreateZstd
    | FailedToOpenFile
    | FailedToWriteFile
    | FailedToReadFile
    | FailedToSeekFile
    | FailedToDecompress
    | BadDataSize
    | UnknownFileType
    | BadFileType
    | BadFileVersion
    | BadFileEndianness

  type Failure = r: PackResult | r != Success witness FailedToAllocate

  /** A value, or the failure code that replaced it. */
  datatype Result<T> = Ok(value: T) | Err(error: Failure)
  {
    function Code(): (r: PackResult)
      ensures r == Success <==> Ok?
    {
      if Ok? then Success else error
    }
  }

  datatype Option<T> = None | Some(value: T)

  /**
   * A version number as the header's plain `char` holds it and compares it
   * with the version macro: below 128, the values on which a signed and an
   * unsigned `char` agree.
   */
  type Version = b: uint8 | b < 0x80

  /**
   * The build configuration the library is compiled with: PACK_VERSION_MAJOR,
   * PACK_VERSION_MINOR, PACK_VERSION_PATCH and PACK_LITTLE_ENDIAN.
   */
  datatype Config = Config(major: Version, minor: Version, patch: uint8, littleEndian: bool)

  /** The header byte `!PACK_LITTLE_ENDIAN`: 0 on a little-endian host, 1 otherwise. */
  function EndianFlag(cfg: Config): (b: uint8)
    ensures b == 0 <==> cfg.littleEndian
  {
    if cfg.littleEndian then 0 else 1
  }

  const HeaderSize: nat := 8
  const CountSize: nat := 8
  /** 'P', 'A', 'C', 'K' */
  const Magic: seq<uint8> := [0x50, 0x41, 0x43, 0x4B]

  predicate HasMagic(h: seq<uint8>)
  {
    |h| >= 4 && h[..4] == Magic
  }

  // ---------------------------------------------------------------------
  // Host-order integers

  function Pow256(k: nat): (p: nat)
    ensures p > 0
  {
    if k == 0 then 1 else 256 * Pow256(k - 1)
  }

  lemma Pow256Eight()
    ensures Pow256(8) == 0x1_0000_0000_0000_0000
  {
    calc {
      Pow256(8);
      256 * Pow256(7);
      256 * 256 * Pow256(6);
      256 * 256 * 256 * 256 * Pow256(4);
      256 * 256 * 256 * 256 * 256 * 256 * 256 * 256 * Pow256(0);
    }
  }

  /** The k least significant base-256 digits of n, least significant first. */
  function LeBytes(n: nat, k: nat): (r: seq<uint8>)
    ensures |r| == k
  {
    if k == 0 then [] else [n % 256] + LeBytes(n / 256, k - 1)
  }

  function LeValue(s: seq<uint8>): (v: nat)
    ensures v < Pow256(|s|)
  {
    if s == [] then 0 else s[0] + 256 * LeValue(s[1..])
  }

  lemma {:induction false} LeRoundTrip(n: nat, k: nat)
    requires n < Pow256(k)
    ensures LeValue(LeBytes(n, k)) == n
  {
    if k > 0 {
      var r := LeBytes(n, k);
      assert r[1..] == LeBytes(n / 256, k - 1);
      LeRoundTrip(n / 256, k - 1);
    }
  }

  function Reverse(s: seq<uint8>): (r: seq<uint8>)
    ensures |r| == |s|
  {
    if s == [] then [] else Reverse(s[1..]) + [s[0]]
  }

  /** Byte i of the reversal is byte |s| - 1 - i of the original. */
  lemma {:induction false} ReverseAt(s: seq<uint8>)
    ensures forall i :: 0 <= i < |s| ==> Reverse(s)[i] == s[|s| - 1 - i]
  {
    if s != [] {
      ReverseAt(s[1..]);
    }
  }

  lemma ReverseReverse(s: seq<uint8>)
    ensures Reverse(Reverse(s)) == s
  {
    ReverseAt(s);
    ReverseAt(Reverse(s));
    assert forall i :: 0 <= i < |s| ==> Reverse(Reverse(s))[i] == s[i];
  }

  /** The k bytes of n as a host with the given byte order stores them. */
  function HostBytes(n: nat, k: nat, little: bool): (r: seq<uint8>)
    ensures |r| == k
  {
    if little then LeBytes(n, k) else Reverse(LeBytes(n, k))
  }

  function HostValue(s: seq<uint8>, little: bool): (v: nat)
    ensures v < Pow256(|s|)
  {
    if little then LeValue(s) else LeValue(Reverse(s))
  }

  lemma HostRoundTrip(n: nat, k: nat, little: bool)
    requires n < Pow256(k)
    ensures HostValue(HostBytes(n, k, little), little) == n
  {
    LeRoundTrip(n, k);
    if !little {
      ReverseReverse(LeBytes(n, k));
    }
  }

  function U64Bytes(n: uint64, little: bool): (r: seq<uint8>)
    ensures |r| == 8
  {
    HostBytes(n, 8, little)
  }

  /** The uint64 stored in eight host-order bytes. */
  function U64Value(s: seq<uint8>, little: bool): uint64
    requires |s| == 8
  {
    Pow256Eight();
    HostValue(s, little)
  }

  /** Every eight bytes are the encoding of the value read from them. */
  lemma U64ValueBytes(s: seq<uint8>, little: bool)
    requires |s| == 8
    ensures U64Bytes(U64Value(s, little), little) == s
  {
    U64BytesValue(s, little);
  }

  lemma U64BytesValue(s: seq<uint8>, little: bool)
    requires |s| == 8
    ensures HostValue(s, little) < 0x1_0000_0000_0000_0000
    ensures HostBytes(HostValue(s, little), 8, little) == s
  {
    Pow256Eight();
    if little {
      LeValueBytes(s);
    } else {
      LeValueBytes(Reverse(s));
      ReverseReverse(s);
    }
  }

  lemma {:induction false} LeValueBytes(s: seq<uint8>)
    ensures LeBytes(LeValue(s), |s|) == s
  {
    if s != [] {
      var v := LeValue(s);
      assert v % 256 == s[0] && v / 256 == LeValue(s[1..]);
      LeValueBytes(s[1..]);
    }
  }

  lemma U64RoundTrip(n: uint64, little: bool)
    ensures U64Value(U64Bytes(n, little), little) == n
  {
    Pow256Eight();
    HostRoundTrip(n, 8, little);
  }

  // ---------------------------------------------------------------------
  // The item record (PackItemInfo)

  /**
   * One item record as the writer fills it and the reader loads it:
   * compressed size (0 = stored raw), item size, file offset, path length.
   */
  datatype ItemInfo = ItemInfo(zipSize: uint64, itemSize: uint64, fileOffset: uint64, pathSize: uint8)

  /** sizeof(PackItemInfo): three 8-byte fields, one byte, 7 bytes of padding. */
  const InfoSize: nat := 32

  /** n zero bytes. */
  function Zeros(n: nat): (r: seq<uint8>)
    ensures |r| == n
  {
    if n == 0 then [] else [0] + Zeros(n - 1)
  }

  /** uint64 values stored one after the other in host order. */
  function WordBytes(words: seq<uint64>, little: bool): (r: seq<uint8>)
    ensures |r| == 8 * |words|
  {
    if words == [] then [] else U64Bytes(words[0], little) + WordBytes(words[1..], little)
  }

  /** The 32 bytes of a record: the three sizes, the path length, zeroed padding. */
  function InfoBytes(info: ItemInfo, little: bool): (r: seq<uint8>)
    ensures |r| == InfoSize
  {
    WordBytes([info.zipSize, info.itemSize, info.fileOffset], little) + [info.pathSize] + Zeros(7)
  }

  /** The record stored in 32 bytes; the padding bytes are ignored. */
  function DecodeInfo(s: seq<uint8>, little: bool): (info: ItemInfo)
    requires |s| == InfoSize
    ensures info.pathSize == s[24]
  {
    ItemInfo(U64Value(s[0..8], little), U64Value(s[8..16], little),
             U64Value(s[16..24], little), s[24])
  }

  /** Three words are their three encodings one after the other. */
  lemma WordBytesThree(a: uint64, b: uint64, c: uint64, little: bool)
    ensures WordBytes([a, b, c], little) == U64Bytes(a, little) + U64Bytes(b, little) + U64Bytes(c, little)
  {
    var words := [a, b, c];
    assert words[1..] == [b, c] && words[1..][1..] == [c];
    assert WordBytes([c], little) == U64Bytes(c, little);
  }

  lemma InfoRoundTrip(info: ItemInfo, little: bool)
    ensures DecodeInfo(InfoBytes(info, little), little) == info
  {
    var s := InfoBytes(info, little);
    WordBytesThree(info.zipSize, info.itemSize, info.fileOffset, little);
    assert s[0..8] == U64Bytes(info.zipSize, little);
    assert s[8..16] == U64Bytes(info.itemSize, little);
    assert s[16..24] == U64Bytes(info.fileOffset, little);
    U64RoundTrip(info.zipSize, little);
    U64RoundTrip(info.itemSize, little);
    U64RoundTrip(info.fileOffset, little);
  }
}
