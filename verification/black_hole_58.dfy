/** Black_Hole_58: the same zero-padded chunk reversal as Black_Hole_60
    (its `reverse_chunks_at_positions` is the same code), but the header is
    compressed together with the payload, decoding keeps only the complete
    chunks (`len // chunk_size`), and the search tries chunk sizes 1..255. */
module BlackHole58 {
  import opened Basics
  import opened Chunking
  import Metadata
  import Sampling
  import Compression
  import BlackHole60

  /** The container made from a file for chunk size `cs` and sampled
      positions. With a lossless compressor it restores to the file. */
  function Candidate(c: Compression.Compressor, data: seq<byte>, cs: nat, positions: seq<nat>): (r: seq<byte>)
    requires |data| < Metadata.U32_LIMIT && cs > 0 && |data| / cs > 0
    requires Sampling.SampledPositions(positions, |data| / cs)
    ensures Compression.Lossless(c) ==> Restored(c, r) == Some(data)
  {
    Sampling.WindowCount(|data|, cs);
    Sampling.SampledHeaderEncodable(|data|, cs, positions, |data| / cs);
    assert Compression.Lossless(c) ==> Restored(c, Compression.Container(c, BlackHole60.Transformed(data, cs, positions), cs, positions, |data|)) == Some(data) by {
      if Compression.Lossless(c) {
        RoundTrip(c, data, cs, positions);
      }
    }
    Compression.Container(c, BlackHole60.Transformed(data, cs, positions), cs, positions, |data|)
  }

  /** `decompress_and_restore_paq` on the file contents: decompress, read the
      header, cut the rest into `len // chunk_size` complete chunks, reverse
      the listed ones again, join and truncate. `None` where the source
      raises: the decompressor rejects the input, the buffer is shorter than
      its header, or the chunk size is zero (`len // 0`). */
  function Restored(c: Compression.Compressor, container: seq<byte>): (r: Option<seq<byte>>)
    ensures c.decompress(container).None? ==> r.None?
    ensures c.decompress(container).Some? ==>
      (r.None? <==> Metadata.Decode(c.decompress(container).value).None?
                    || Metadata.Decode(c.decompress(container).value).value.0.chunkSize == 0)
  {
    match c.decompress(container)
    case None => None
    case Some(decompressed) =>
      match Metadata.Decode(decompressed)
      case None => None
      case Some((h, payload)) =>
        if h.chunkSize == 0 then None
        else Some(Take(Flatten(Parity(SplitFloor(payload, h.chunkSize), h.positions)), h.originalSize))
  }

  method DecompressAndRestore(c: Compression.Compressor, container: seq<byte>)
    returns (restored: Option<seq<byte>>)
    ensures restored == Restored(c, container)
  {
    var decompressed := c.decompress(container);
    if decompressed.None? {
      return None;
    }
    var decoded := Metadata.Decode(decompressed.value);
    if decoded.None? {
      return None;
    }
    var h, payload := decoded.value.0, decoded.value.1;
    if h.chunkSize == 0 {
      return None;
    }
    var chunks := SplitFloor(payload, h.chunkSize);
    chunks := ReverseListed(chunks, h.positions);
    restored := Some(Take(Flatten(chunks), h.originalSize));
  }

  /** With a lossless compressor, restoring a container built from `data`
      gives back exactly `data`: the padded payload is a whole number of
      chunks, so the floor count drops nothing. */
  lemma RoundTrip(c: Compression.Compressor, data: seq<byte>, cs: nat, positions: seq<nat>)
    requires Compression.Lossless(c)
    requires |data| > 0 && cs > 0
    requires Metadata.Encodable(Metadata.Header(|data|, cs, positions))
    ensures Restored(c, Compression.Container(c, BlackHole60.Transformed(data, cs, positions), cs, positions, |data|)) == Some(data)
  {
    var h := Metadata.Header(|data|, cs, positions);
    var payload := BlackHole60.Transformed(data, cs, positions);
    assert c.decompress(c.compress(Metadata.Encode(h) + payload)) == Some(Metadata.Encode(h) + payload);
    Metadata.DecodeEncode(h, payload);
    PadLastSplit(data, cs);
    var p := Split(Padded(data, cs), cs);
    var q := Parity(p, positions);
    assert AllFull(q, cs);
    SplitFloorFlatten(q, cs);
    ParityInvolution(p, positions);
    SplitShape(Padded(data, cs), cs);
  }

  /** `compress_with_paq`'s result: the size it returns and the file it writes, if any. */
  datatype Outcome = Outcome(size: nat, written: Option<seq<byte>>)

  /** `compress_with_paq`: the container is written only when it is strictly
      smaller than `previousSize`, and the smaller of the two sizes is returned. */
  function CompressWithPaq(c: Compression.Compressor, reversed: seq<byte>, cs: nat, positions: seq<nat>,
                           previousSize: nat, originalSize: nat): (r: Outcome)
    requires Metadata.Encodable(Metadata.Header(originalSize, cs, positions))
    ensures r.written.Some? <==> |Compression.Container(c, reversed, cs, positions, originalSize)| < previousSize
    ensures r.written.Some? ==> r.written.value == Compression.Container(c, reversed, cs, positions, originalSize)
    ensures r.size == Min(|Compression.Container(c, reversed, cs, positions, originalSize)|, previousSize)
  {
    var compressed := Compression.Container(c, reversed, cs, positions, originalSize);
    if |compressed| < previousSize then Outcome(|compressed|, Some(compressed))
    else Outcome(previousSize, None)
  }

  /** `previous_size = 10**12` before the first attempt. */
  const INITIAL_PREVIOUS_SIZE: nat := 1_000_000_000_000

  /** `previous_size`, and the content of `compressed_file.bin` (`None` before it is first written). */
  datatype SearchState = SearchState(previousSize: nat, written: Option<seq<byte>>)

  /** What holds of the search state between attempts on `data`: the file on
      disk has exactly the recorded size and restores to the input. */
  ghost predicate SearchInv(c: Compression.Compressor, data: seq<byte>, s: SearchState)
  {
    && s.previousSize <= INITIAL_PREVIOUS_SIZE
    && (s.written.None? ==> s.previousSize == INITIAL_PREVIOUS_SIZE)
    && (s.written.Some? ==> |s.written.value| == s.previousSize < INITIAL_PREVIOUS_SIZE)
    && (s.written.Some? ==> Restored(c, s.written.value) == Some(data))
  }

  /** The positions drawn in round `r` for chunk size `cs` are a valid sample. */
  ghost predicate ValidDraws(fileSize: nat, draw: (nat, nat) -> seq<nat>)
  {
    forall r: nat, cs: nat :: 1 <= cs <= 255 && fileSize / cs > 0 ==>
      Sampling.SampledPositions(draw(r, cs), fileSize / cs)
  }

  /** The body of the inner loop for one chunk size: transform, compress, and
      assign the (already minimised) result to `previous_size` in both
      branches. The container replaces the file only when it is strictly
      smaller than `previous_size`. */
  method Attempt(c: Compression.Compressor, data: seq<byte>, s: SearchState, cs: nat, positions: seq<nat>)
    returns (s': SearchState)
    requires Compression.Lossless(c)
    requires SearchInv(c, data, s)
    requires |data| < Metadata.U32_LIMIT && cs > 0 && |data| / cs > 0
    requires Sampling.SampledPositions(positions, |data| / cs)
    ensures SearchInv(c, data, s')
    ensures s'.previousSize == Min(CandidateSize(c, data, cs, positions), s.previousSize)
    ensures s'.written ==
      if |Candidate(c, data, cs, positions)| < s.previousSize
      then Some(Candidate(c, data, cs, positions)) else s.written
  {
    Sampling.WindowCount(|data|, cs);
    Sampling.SampledHeaderEncodable(|data|, cs, positions, |data| / cs);
    var reversed := BlackHole60.ReverseChunksAtPositions(data, cs, positions);
    var outcome := CompressWithPaq(c, reversed, cs, positions, s.previousSize, |data|);
    RoundTrip(c, data, cs, positions);
    if outcome.size < s.previousSize {
      s' := SearchState(outcome.size, outcome.written);
    } else {
      s' := s.(previousSize := outcome.size);
    }
  }

  /** The size of the container the search builds for chunk size `cs` and
      positions `ps`, where it builds one (at least one full chunk, a valid
      sample); 0 elsewhere. */
  ghost function CandidateSize(c: Compression.Compressor, data: seq<byte>, cs: nat, ps: seq<nat>): nat
  {
    if |data| < Metadata.U32_LIMIT && cs > 0 && |data| / cs > 0 && Sampling.SampledPositions(ps, |data| / cs)
    then |Candidate(c, data, cs, ps)|
    else 0
  }

  /** The container size of pass `round`, by chunk size. */
  ghost function PassSizes(c: Compression.Compressor, data: seq<byte>, round: nat, draw: (nat, nat) -> seq<nat>)
    : nat -> nat
  {
    (cs: nat) => CandidateSize(c, data, cs, draw(round, cs))
  }

  /** The chunk sizes a pass tries: at least 1 and at most the file size. */
  ghost function Tried(fileSize: nat): nat -> bool
  {
    (cs: nat) => 1 <= cs <= fileSize
  }

  /** `w` is the container pass `r` builds for chunk size `cs`. */
  ghost predicate BuiltAt(c: Compression.Compressor, data: seq<byte>, w: seq<byte>, r: nat, cs: nat,
                          draw: (nat, nat) -> seq<nat>)
  {
    && 1 <= cs <= 255 && |data| < Metadata.U32_LIMIT && |data| / cs > 0
    && Sampling.SampledPositions(draw(r, cs), |data| / cs)
    && w == Candidate(c, data, cs, draw(r, cs))
  }

  /** `prev` is at most the size of every container pass `round` builds for a chunk size below `hi`. */
  ghost predicate BoundedBy(c: Compression.Compressor, data: seq<byte>, prev: nat, round: nat, hi: nat,
                            draw: (nat, nat) -> seq<nat>)
  {
    AtMostAll(prev, hi, PassSizes(c, data, round, draw), Tried(|data|))
  }

  /** A smaller `prev` keeps the bound for every pass made so far. */
  lemma RoundsWeaken(c: Compression.Compressor, data: seq<byte>, prev: nat, prev': nat, round: nat,
                     draw: (nat, nat) -> seq<nat>)
    requires forall r: nat :: r < round ==> BoundedBy(c, data, prev, r, 256, draw)
    requires prev' <= prev && BoundedBy(c, data, prev', round, 256, draw)
    ensures forall r: nat :: r < round + 1 ==> BoundedBy(c, data, prev', r, 256, draw)
  {
    forall r: nat | r < round
      ensures BoundedBy(c, data, prev', r, 256, draw)
    {
      assert BoundedBy(c, data, prev, r, 256, draw);
      AtMostAllWeaken(prev, prev', 256, PassSizes(c, data, r, draw), Tried(|data|));
    }
  }

  /** `find_best_chunk_strategy`, with its endless `while True` cut to
      `rounds` passes over chunk sizes 1..255, and `draw(r, cs)` standing for
      the positions sampled in pass `r` for chunk size `cs`. `previous_size`
      ends at most the size of every container tried, and whatever file the
      search leaves behind is one of those containers, has that size and
      restores to the input. */
  method FindBestChunkStrategy(c: Compression.Compressor, data: seq<byte>, rounds: nat,
                               draw: (nat, nat) -> seq<nat>)
    returns (s: SearchState)
    requires Compression.Lossless(c)
    requires |data| < Metadata.U32_LIMIT
    requires ValidDraws(|data|, draw)
    ensures SearchInv(c, data, s)
    ensures forall r: nat, cs: nat :: r < rounds && 1 <= cs <= 255 && |data| / cs > 0 ==>
      s.previousSize <= |Candidate(c, data, cs, draw(r, cs))|
    ensures s.written.Some? ==> exists r: nat, cs: nat :: r < rounds && BuiltAt(c, data, s.written.value, r, cs, draw)
  {
    s := SearchState(INITIAL_PREVIOUS_SIZE, None);
    var round := 0;
    ghost var keptRound, keptSize := 0, 0;
    while round < rounds
      invariant round <= rounds
      invariant SearchInv(c, data, s)
      invariant forall r: nat :: r < round ==> BoundedBy(c, data, s.previousSize, r, 256, draw)
      invariant s.written.Some? ==> keptRound < round && BuiltAt(c, data, s.written.value, keptRound, keptSize, draw)
    {
      ghost var before := s;
      ghost var cs;
      s, cs := Pass(c, data, s, round, draw);
      if s.written != before.written {
        keptRound, keptSize := round, cs;
      }
      RoundsWeaken(c, data, before.previousSize, s.previousSize, round, draw);
      round := round + 1;
    }
    BoundedByAll(c, data, s.previousSize, rounds, draw);
  }

  lemma BoundedByAll(c: Compression.Compressor, data: seq<byte>, prev: nat, rounds: nat,
                     draw: (nat, nat) -> seq<nat>)
    requires |data| < Metadata.U32_LIMIT && ValidDraws(|data|, draw)
    requires forall r: nat :: r < rounds ==> BoundedBy(c, data, prev, r, 256, draw)
    ensures forall r: nat, cs: nat :: r < rounds && 1 <= cs <= 255 && |data| / cs > 0 ==>
      prev <= |Candidate(c, data, cs, draw(r, cs))|
  {
    forall r: nat, cs: nat | r < rounds && 1 <= cs <= 255 && |data| / cs > 0
      ensures prev <= |Candidate(c, data, cs, draw(r, cs))|
    {
      assert BoundedBy(c, data, prev, r, 256, draw);
      var size := PassSizes(c, data, r, draw);
      Sampling.WindowCount(|data|, cs);
      assert Tried(|data|)(cs);
      assert prev <= size(cs);
      assert size(cs) == CandidateSize(c, data, cs, draw(r, cs));
    }
  }

  /** One pass of `for chunk_size in range(1, 256)`. `keptSize` names the
      chunk size whose container the file holds when the pass replaced it. */
  method Pass(c: Compression.Compressor, data: seq<byte>, s0: SearchState, round: nat,
              draw: (nat, nat) -> seq<nat>)
    returns (s: SearchState, ghost keptSize: nat)
    requires Compression.Lossless(c)
    requires |data| < Metadata.U32_LIMIT
    requires ValidDraws(|data|, draw)
    requires SearchInv(c, data, s0)
    ensures SearchInv(c, data, s)
    ensures s.previousSize <= s0.previousSize
    ensures BoundedBy(c, data, s.previousSize, round, 256, draw)
    ensures s.written == s0.written || (s.written.Some? && BuiltAt(c, data, s.written.value, round, keptSize, draw))
  {
    s := s0;
    keptSize := 0;
    for chunkSize := 1 to 256
      invariant SearchInv(c, data, s)
      invariant s.previousSize <= s0.previousSize
      invariant BoundedBy(c, data, s.previousSize, round, chunkSize, draw)
      invariant s.written == s0.written || (s.written.Some? && BuiltAt(c, data, s.written.value, round, keptSize, draw))
    {
      ghost var before := s;
      s := Step(c, data, s, round, chunkSize, draw);
      if s.written != before.written {
        keptSize := chunkSize;
      }
    }
  }

  /** The body of the inner loop for chunk size `chunkSize`: an attempt when
      the file holds at least one full chunk, nothing otherwise. */
  method Step(c: Compression.Compressor, data: seq<byte>, s0: SearchState, round: nat, chunkSize: nat,
              draw: (nat, nat) -> seq<nat>)
    returns (s: SearchState)
    requires Compression.Lossless(c)
    requires |data| < Metadata.U32_LIMIT && ValidDraws(|data|, draw)
    requires 1 <= chunkSize <= 255
    requires SearchInv(c, data, s0)
    requires BoundedBy(c, data, s0.previousSize, round, chunkSize, draw)
    ensures SearchInv(c, data, s)
    ensures s.previousSize <= s0.previousSize
    ensures BoundedBy(c, data, s.previousSize, round, chunkSize + 1, draw)
    ensures s.written == s0.written || (s.written.Some? && BuiltAt(c, data, s.written.value, round, chunkSize, draw))
  {
    s := s0;
    var maxPositions := |data| / chunkSize;
    Sampling.WindowCount(|data|, chunkSize);
    if maxPositions > 0 {
      var positions := draw(round, chunkSize);
      s := Attempt(c, data, s, chunkSize, positions);
    }
    BoundedByExtend(c, data, s0.previousSize, s.previousSize, round, chunkSize, draw);
  }

  lemma BoundedByExtend(c: Compression.Compressor, data: seq<byte>, prev: nat, prev': nat, round: nat, hi: nat,
                        draw: (nat, nat) -> seq<nat>)
    requires BoundedBy(c, data, prev, round, hi, draw) && prev' <= prev
    requires hi <= |data| ==> prev' <= CandidateSize(c, data, hi, draw(round, hi))
    ensures BoundedBy(c, data, prev', round, hi + 1, draw)
  {
    var size := PassSizes(c, data, round, draw);
    assert Tried(|data|)(hi) ==> prev' <= size(hi);
    AtMostAllExtend(prev, prev', hi, size, Tried(|data|));
  }
}
