/** The self-describing header that every container starts with:
    `>Q original_size`, `>I chunk_size`, `>I count`, then `count` times
    `>I position`, all big-endian, `16 + 4 * count` bytes in all. */
module Metadata {
  import opened Basics
  import Positional

  /** `2 ** 32`, the first value a `>I` field cannot hold. */
  const U32_LIMIT: nat := 0x1_0000_0000
  /** `2 ** 64`, the first value a `>Q` field cannot hold. */
  const U64_LIMIT: nat := 0x1_0000_0000_0000_0000
  /** Bytes before the position list: 8 + 4 + 4. */
  const FIXED_LENGTH: nat := 16

  datatype Header = Header(originalSize: nat, chunkSize: nat, positions: seq<nat>)

  /** Every field fits its width; `struct.pack` raises `struct.error` otherwise. */
  ghost predicate Encodable(h: Header)
  {
    && h.originalSize < U64_LIMIT
    && h.chunkSize < U32_LIMIT
    && |h.positions| < U32_LIMIT
    && forall i :: 0 <= i < |h.positions| ==> h.positions[i] < U32_LIMIT
  }

  /** `struct.pack(">I", v)` (width 4) or `struct.pack(">Q", v)` (width 8). */
  function BigEndian(v: nat, width: nat): (r: seq<byte>)
    requires v < Positional.Pow(256, width)
    ensures |r| == width
  {
    Positional.ToDigits(v, 256, width)
  }

  /** `struct.unpack(">I", s)[0]` / `struct.unpack(">Q", s)[0]` for `s` of the right width. */
  function ReadBigEndian(s: seq<byte>): (v: nat)
    ensures v < Positional.Pow(256, |s|)
  {
    Positional.FromDigitsBound(s, 256);
    Positional.FromDigits(s, 256)
  }

  /** `struct.pack(f">{len(ps)}I", *ps)` */
  function EncodePositions(ps: seq<nat>): (r: seq<byte>)
    requires forall i :: 0 <= i < |ps| ==> ps[i] < U32_LIMIT
    ensures |r| == 4 * |ps|
  {
    Limits();
    if |ps| == 0 then [] else BigEndian(ps[0], 4) + EncodePositions(ps[1..])
  }

  /** `list(struct.unpack(f">{n}I", s))` for `s` of exactly `4 * n` bytes. */
  function DecodePositions(s: seq<byte>, n: nat): (r: seq<nat>)
    requires |s| == 4 * n
    ensures |r| == n
  {
    if n == 0 then [] else [ReadBigEndian(s[..4])] + DecodePositions(s[4..], n - 1)
  }

  /** The header bytes, which the container puts in front of the payload. */
  function Encode(h: Header): (r: seq<byte>)
    requires Encodable(h)
    ensures |r| == FIXED_LENGTH + 4 * |h.positions|
  {
    Limits();
    BigEndian(h.originalSize, 8) + BigEndian(h.chunkSize, 4)
    + BigEndian(|h.positions|, 4) + EncodePositions(h.positions)
  }

  /** The count field: bytes 12..16 of the buffer. */
  function DeclaredCount(buf: seq<byte>): nat
    requires |buf| >= FIXED_LENGTH
  {
    ReadBigEndian(buf[12..16])
  }

  /** Reads the header at the front of `buf` and returns it with the rest of
      `buf` as the payload. `struct.unpack` raises when a field is cut
      short, which happens exactly when the buffer is shorter than 16 bytes
      or than the `16 + 4 * count` bytes its own count field declares. */
  function Decode(buf: seq<byte>): (r: Option<(Header, seq<byte>)>)
    ensures r.None? <==> |buf| < FIXED_LENGTH || |buf| < FIXED_LENGTH + 4 * DeclaredCount(buf)
    ensures r.Some? ==> |r.value.0.positions| == DeclaredCount(buf)
    ensures r.Some? ==> r.value.1 == buf[FIXED_LENGTH + 4 * |r.value.0.positions|..]
  {
    if |buf| < FIXED_LENGTH then None
    else
      var n := DeclaredCount(buf);
      if |buf| < FIXED_LENGTH + 4 * n then None
      else
        var h := Header(ReadBigEndian(buf[..8]), ReadBigEndian(buf[8..12]),
                        DecodePositions(buf[16..16 + 4 * n], n));
        Some((h, buf[16 + 4 * n..]))
  }

  lemma BigEndianRoundTrip(v: nat, width: nat)
    requires v < Positional.Pow(256, width)
    ensures ReadBigEndian(BigEndian(v, width)) == v
  {
    Positional.FromToDigits(v, 256, width);
  }

  lemma ReadBigEndianRoundTrip(s: seq<byte>)
    ensures BigEndian(ReadBigEndian(s), |s|) == s
  {
    Positional.ToFromDigits(s, 256);
  }

  lemma Limits()
    ensures Positional.Pow(256, 4) == U32_LIMIT
    ensures Positional.Pow(256, 8) == U64_LIMIT
  {
  }

  lemma {:induction false} PositionsRoundTrip(ps: seq<nat>)
    requires forall i :: 0 <= i < |ps| ==> ps[i] < U32_LIMIT
    ensures DecodePositions(EncodePositions(ps), |ps|) == ps
  {
    if |ps| > 0 {
      var e := EncodePositions(ps);
      assert e[..4] == BigEndian(ps[0], 4) && e[4..] == EncodePositions(ps[1..]);
      Limits();
      BigEndianRoundTrip(ps[0], 4);
      PositionsRoundTrip(ps[1..]);
    }
  }

  lemma {:induction false} PositionsRoundTripBack(s: seq<byte>, n: nat)
    requires |s| == 4 * n
    ensures forall i :: 0 <= i < n ==> DecodePositions(s, n)[i] < U32_LIMIT
    ensures EncodePositions(DecodePositions(s, n)) == s
  {
    if n > 0 {
      var ps := DecodePositions(s, n);
      Limits();
      ReadBigEndianRoundTrip(s[..4]);
      PositionsRoundTripBack(s[4..], n - 1);
      assert ps[1..] == DecodePositions(s[4..], n - 1);
      assert s == s[..4] + s[4..];
    }
  }

  /** Decoding a header followed by any payload gives back that header and payload. */
  lemma DecodeEncode(h: Header, payload: seq<byte>)
    requires Encodable(h)
    ensures Decode(Encode(h) + payload) == Some((h, payload))
  {
    var buf := Encode(h) + payload;
    var n := |h.positions|;
    Limits();
    assert buf[..8] == BigEndian(h.originalSize, 8);
    assert buf[8..12] == BigEndian(h.chunkSize, 4);
    assert buf[12..16] == BigEndian(n, 4);
    assert buf[16..16 + 4 * n] == EncodePositions(h.positions);
    assert buf[16 + 4 * n..] == payload;
    BigEndianRoundTrip(h.originalSize, 8);
    BigEndianRoundTrip(h.chunkSize, 4);
    BigEndianRoundTrip(n, 4);
    PositionsRoundTrip(h.positions);
  }

  /** A successful decode is the only way to read that buffer: the header it
      returns is representable and re-encodes to the bytes it was read from. */
  lemma EncodeDecode(buf: seq<byte>)
    requires Decode(buf).Some?
    ensures Encodable(Decode(buf).value.0)
    ensures Encode(Decode(buf).value.0) + Decode(buf).value.1 == buf
  {
    var h := Decode(buf).value.0;
    var n := DeclaredCount(buf);
    Limits();
    ReadBigEndianRoundTrip(buf[..8]);
    ReadBigEndianRoundTrip(buf[8..12]);
    ReadBigEndianRoundTrip(buf[12..16]);
    PositionsRoundTripBack(buf[16..16 + 4 * n], n);
    Reassemble(buf, 16 + 4 * n);
  }

  lemma Reassemble(buf: seq<byte>, k: nat)
    requires 16 <= k <= |buf|
    ensures buf == buf[..8] + buf[8..12] + buf[12..16] + buf[16..k] + buf[k..]
  {
    assert buf[..8] + buf[8..12] + buf[12..16] == buf[..16];
    assert buf[..16] + buf[16..k] == buf[..k];
  }
}
