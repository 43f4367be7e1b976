/** The external compressor (`paq.compress` / `paq.decompress`). It is not
    part of this model: callers supply it as a pair of functions, and the
    properties that depend on it assume only that it is lossless. */
module Compression {
  import opened Basics
  import Metadata

  /** `decompress` yields `None` where the library would raise on malformed input. */
  datatype Compressor = Compressor(
    compress: seq<byte> -> seq<byte>,
    decompress: seq<byte> -> Option<seq<byte>>)

  /** Decompressing what was compressed gives back the input. */
  ghost predicate Lossless(c: Compressor)
  {
    forall x :: c.decompress(c.compress(x)) == Some(x)
  }

  /** `paq.compress(metadata + reversed_data)`: the header and the transformed
      bytes are compressed together, so a lossless compressor gives back
      both, header first. */
  function Container(c: Compressor, reversed: seq<byte>, cs: nat, positions: seq<nat>, originalSize: nat)
    : (r: seq<byte>)
    requires Metadata.Encodable(Metadata.Header(originalSize, cs, positions))
    ensures Lossless(c) ==>
      c.decompress(r) == Some(Metadata.Encode(Metadata.Header(originalSize, cs, positions)) + reversed)
  {
    c.compress(Metadata.Encode(Metadata.Header(originalSize, cs, positions)) + reversed)
  }
}
