/**
 * The zstd library as the engine uses it: one-shot compression into a buffer
 * of bounded capacity (ZSTD_compress) and one-shot decompression into a
 * buffer of bounded capacity (ZSTD_decompressDCtx). What the codec computes
 * is not modelled; a `Zstd` value is any pair of functions, each either
 * producing bytes or failing (ZSTD_isError).
 */
module Zstd {
  import opened PackFormat

  datatype Zstd = Zstd(
    compress: seq<uint8> -> Option<seq<uint8>>,
    decompress: seq<uint8> -> Option<seq<uint8>>)

  /** ZSTD_compress(dst, capacity, src, |src|, level): fails when the frame does not fit. */
  function Compress(z: Zstd, src: seq<uint8>, capacity: nat): (r: Option<seq<uint8>>)
    ensures r.Some? ==> |r.value| <= capacity
    ensures r.Some? ==> z.compress(src) == r
    ensures z.compress(src).Some? && |z.compress(src).value| <= capacity ==> r == z.compress(src)
  {
    match z.compress(src)
    case Some(frame) => if |frame| <= capacity then Some(frame) else None
    case None => None
  }

  /** ZSTD_decompressDCtx(ctx, dst, capacity, src, |src|): fails when the content does not fit. */
  function Decompress(z: Zstd, src: seq<uint8>, capacity: nat): (r: Option<seq<uint8>>)
    ensures r.Some? ==> |r.value| <= capacity
    ensures r.Some? ==> z.decompress(src) == r
    ensures z.decompress(src).Some? && |z.decompress(src).value| <= capacity ==> r == z.decompress(src)
  {
    match z.decompress(src)
    case Some(content) => if |content| <= capacity then Some(content) else None
    case None => None
  }
}
