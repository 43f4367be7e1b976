/** Black_Hole_60: zero-padded chunk reversal, the header in front of the
    transformed bytes with no compressor at all (the "compressed" container
    is header ++ payload), and a search over power-of-two chunk sizes. */
module BlackHole60 {
  import opened Basics
  import opened Chunking
  import Metadata
  import Sampling
  import Positional

  /** The padded data with every chunk listed an odd number of times
      reversed. Reversing a chunk keeps its length, so the output is as long
      as the padded data. */
  function Transformed(data: seq<byte>, cs: nat, positions: seq<int>): (r: seq<byte>)
    requires cs > 0
    ensures |r| == |Padded(data, cs)|
  {
    var p := Split(Padded(data, cs), cs);
    SplitRejoins(Padded(data, cs), cs);
    FlattenLength(Parity(p, positions), p);
    Flatten(Parity(p, positions))
  }

  /** `reverse_chunks_at_positions`: split, zero-pad the last chunk, reverse
      the listed chunks, join. An empty input raises (`chunked_data[-1]`)
      and so does a zero chunk size (`range` with step 0). */
  method ReverseChunksAtPositions(data: seq<byte>, chunkSize: nat, positions: seq<int>)
    returns (reversed: seq<byte>)
    requires |data| > 0 && chunkSize > 0
    ensures reversed == Transformed(data, chunkSize, positions)
    ensures |reversed| == CeilDiv(|data|, chunkSize) * chunkSize
  {
    var chunks := Split(data, chunkSize);
    PadLastSplit(data, chunkSize);
    var last := chunks[|chunks| - 1];
    if |last| < chunkSize {
      chunks := chunks[|chunks| - 1 := last + Zeros(chunkSize - |last|)];
    }
    chunks := ReverseListed(chunks, positions);
    reversed := Flatten(chunks);
    TransformedShape(data, chunkSize, positions);
  }

  /** The transform keeps the zero-padded length, and cutting its output
      into chunks again shows chunk `i` of the padded data reversed exactly
      when `i` is listed an odd number of times, and every other chunk as it was. */
  lemma TransformedShape(data: seq<byte>, cs: nat, positions: seq<int>)
    requires |data| > 0 && cs > 0
    ensures |Transformed(data, cs, positions)| == CeilDiv(|data|, cs) * cs
    ensures Split(Transformed(data, cs, positions), cs) == Parity(Split(Padded(data, cs), cs), positions)
  {
    PadLastSplit(data, cs);
    var q := Parity(Split(Padded(data, cs), cs), positions);
    assert AllFull(q, cs);
    FullLength(q, cs);
    SplitFlatten(q, cs);
  }

  /** The container: header followed by the transformed bytes (line 37 stands in
      `metadata + reversed_data` for a compressor). */
  function Container(reversed: seq<byte>, cs: nat, positions: seq<nat>, originalSize: nat): (c: seq<byte>)
    requires Metadata.Encodable(Metadata.Header(originalSize, cs, positions))
    ensures |c| == Metadata.FIXED_LENGTH + 4 * |positions| + |reversed|
  {
    Metadata.Encode(Metadata.Header(originalSize, cs, positions)) + reversed
  }

  /** Size of the container built for a file of `fileSize` bytes: header plus padded payload. */
  function ContainerSize(fileSize: nat, cs: nat, count: nat): nat
    requires cs > 0
  {
    Metadata.FIXED_LENGTH + 4 * count + CeilDiv(fileSize, cs) * cs
  }

  /** The container made from a file with the given parameters. */
  function Candidate(data: seq<byte>, cs: nat, positions: seq<nat>): (c: seq<byte>)
    requires |data| > 0 && cs > 0
    requires Metadata.Encodable(Metadata.Header(|data|, cs, positions))
    ensures |c| == ContainerSize(|data|, cs, |positions|)
  {
    TransformedShape(data, cs, positions);
    Container(Transformed(data, cs, positions), cs, positions, |data|)
  }

  /** `decompress_and_restore_paq` on the file contents: read the header,
      re-chunk the rest, reverse the listed chunks again, truncate to the
      recorded size. `None` where the source raises: a buffer shorter than
      its header, or a zero chunk size (`range` with step 0). */
  function Restored(container: seq<byte>): (r: Option<seq<byte>>)
    ensures r.None? <==> Metadata.Decode(container).None? || Metadata.Decode(container).value.0.chunkSize == 0
  {
    match Metadata.Decode(container)
    case None => None
    case Some((h, payload)) =>
      if h.chunkSize == 0 then None
      else Some(Take(Flatten(Parity(Split(payload, h.chunkSize), h.positions)), h.originalSize))
  }

  method DecompressAndRestore(container: seq<byte>) returns (restored: Option<seq<byte>>)
    ensures restored == Restored(container)
  {
    var decoded := Metadata.Decode(container);
    if decoded.None? {
      return None;
    }
    var h, payload := decoded.value.0, decoded.value.1;
    if h.chunkSize == 0 {
      return None;
    }
    var chunks := Split(payload, h.chunkSize);
    chunks := ReverseListed(chunks, h.positions);
    restored := Some(Take(Flatten(chunks), h.originalSize));
  }

  /** Restoring a container built from `data` gives back exactly `data`:
      the second reversal undoes the first and truncation drops the padding. */
  lemma RoundTrip(data: seq<byte>, cs: nat, positions: seq<nat>)
    requires |data| > 0 && cs > 0
    requires Metadata.Encodable(Metadata.Header(|data|, cs, positions))
    ensures Restored(Candidate(data, cs, positions)) == Some(data)
  {
    var h := Metadata.Header(|data|, cs, positions);
    var payload := Transformed(data, cs, positions);
    Metadata.DecodeEncode(h, payload);
    TransformedShape(data, cs, positions);
    var p := Split(Padded(data, cs), cs);
    ParityInvolution(p, positions);
    SplitShape(Padded(data, cs), cs);
  }

  /** What `compress_with_paq` returns and whether it writes the container. */
  datatype Outcome = Outcome(size: nat, firstAttempt: bool, written: Option<seq<byte>>)

  /** `compress_with_paq`: the first attempt is always written; after that a
      container is written only when it is strictly smaller than `previousSize`. */
  function CompressWithPaq(reversed: seq<byte>, cs: nat, positions: seq<nat>, previousSize: nat,
                           originalSize: nat, firstAttempt: bool): (r: Outcome)
    requires Metadata.Encodable(Metadata.Header(originalSize, cs, positions))
    ensures !r.firstAttempt
    ensures r.written.Some? <==> firstAttempt || |Container(reversed, cs, positions, originalSize)| < previousSize
    ensures r.written.Some? ==> r.written.value == Container(reversed, cs, positions, originalSize)
    ensures r.size == if r.written.Some? then |r.written.value| else previousSize
    ensures !firstAttempt ==> r.size <= previousSize
  {
    var compressed := Container(reversed, cs, positions, originalSize);
    if firstAttempt then Outcome(|compressed|, false, Some(compressed))
    else if |compressed| < previousSize then Outcome(|compressed|, firstAttempt, Some(compressed))
    else Outcome(previousSize, firstAttempt, None)
  }

  /** `previous_size = 10**12` before the first attempt. */
  const INITIAL_PREVIOUS_SIZE: nat := 1_000_000_000_000

  /** The variables `find_best_chunk_strategy` threads through its loop; `written`
      is the content of the `.compressed.bin` file, `None` before it is first written. */
  datatype SearchState = SearchState(
    previousSize: nat, firstAttempt: bool, written: Option<seq<byte>>,
    bestChunkSize: nat, bestPositions: seq<nat>)

  /** What holds of the search state between attempts on `data`. */
  ghost predicate SearchInv(data: seq<byte>, s: SearchState)
  {
    && s.previousSize <= INITIAL_PREVIOUS_SIZE
    && (s.firstAttempt <==> s.written.None?)
    && (s.written.None? ==> s.previousSize == INITIAL_PREVIOUS_SIZE)
    && (s.written.Some? ==> s.previousSize == Min(INITIAL_PREVIOUS_SIZE, |s.written.value|))
    && (s.written.Some? ==> Restored(s.written.value) == Some(data))
    && (s.previousSize < INITIAL_PREVIOUS_SIZE ==>
          && |data| > 0 && s.bestChunkSize > 0
          && Metadata.Encodable(Metadata.Header(|data|, s.bestChunkSize, s.bestPositions))
          && s.written == Some(Candidate(data, s.bestChunkSize, s.bestPositions)))
  }

  /** One attempt of the search loop: transform, build the container, apply the
      acceptance rule, and keep the smaller size. The new container replaces
      the file on the first attempt or when it is strictly smaller; only a
      strictly smaller one becomes the best chunk size and positions. */
  method Attempt(data: seq<byte>, s: SearchState, cs: nat, positions: seq<nat>) returns (s': SearchState)
    requires SearchInv(data, s)
    requires 0 < cs <= |data| && Metadata.Encodable(Metadata.Header(|data|, cs, positions))
    ensures SearchInv(data, s')
    ensures !s'.firstAttempt
    ensures s'.written ==
      if s.firstAttempt || ContainerSize(|data|, cs, |positions|) < s.previousSize
      then Some(Candidate(data, cs, positions)) else s.written
    ensures s'.previousSize == Min(s.previousSize, ContainerSize(|data|, cs, |positions|))
    ensures if ContainerSize(|data|, cs, |positions|) < s.previousSize
      then s'.bestChunkSize == cs && s'.bestPositions == positions
      else s'.bestChunkSize == s.bestChunkSize && s'.bestPositions == s.bestPositions
  {
    var reversed := ReverseChunksAtPositions(data, cs, positions);
    var outcome := CompressWithPaq(reversed, cs, positions, s.previousSize, |data|, s.firstAttempt);
    RoundTrip(data, cs, positions);
    s' := s.(firstAttempt := outcome.firstAttempt);
    if outcome.written.Some? {
      s' := s'.(written := outcome.written);
    }
    if outcome.size < s.previousSize {
      s' := s'.(previousSize := outcome.size, bestChunkSize := cs, bestPositions := positions);
    }
  }

  /** Chunk size `2 ** exp` of the schedule `for exp in range(31)`. */
  function ChunkSizeAt(exp: nat): nat
  {
    Positional.Pow(2, exp)
  }

  lemma ChunkSizeGrows(e: nat, f: nat)
    requires e <= f
    ensures 0 < ChunkSizeAt(e) <= ChunkSizeAt(f)
    decreases f
  {
    if e < f {
      ChunkSizeGrows(e, f - 1);
    }
  }

  /** The positions drawn in round `r` for chunk size `2 ** e` are a valid sample. */
  ghost predicate ValidDraws(fileSize: nat, draw: (nat, nat) -> seq<nat>)
  {
    forall r: nat, e: nat :: e < 31 && ChunkSizeAt(e) <= fileSize ==>
      Sampling.SampledPositions(draw(r, e), fileSize / ChunkSizeAt(e))
  }

  /** The container size of pass `round`, by exponent. */
  ghost function PassSizes(fileSize: nat, round: nat, draw: (nat, nat) -> seq<nat>): nat -> nat
  {
    (e: nat) => ContainerSize(fileSize, ChunkSizeAt(e), |draw(round, e)|)
  }

  /** The exponents a pass tries: those whose chunk size is at most the file size. */
  ghost function Tried(fileSize: nat): nat -> bool
  {
    (e: nat) => ChunkSizeAt(e) <= fileSize
  }

  /** `w` is the container pass `r` builds for chunk size `2 ** e`. */
  ghost predicate BuiltAt(data: seq<byte>, w: seq<byte>, r: nat, e: nat, draw: (nat, nat) -> seq<nat>)
  {
    && e < 31 && 0 < ChunkSizeAt(e) <= |data|
    && Metadata.Encodable(Metadata.Header(|data|, ChunkSizeAt(e), draw(r, e)))
    && w == Candidate(data, ChunkSizeAt(e), draw(r, e))
  }

  /** `prev` is at most the size of every container pass `round` builds for
      an exponent below `hi`. */
  ghost predicate BoundedBy(fileSize: nat, prev: nat, round: nat, hi: nat, draw: (nat, nat) -> seq<nat>)
  {
    AtMostAll(prev, hi, PassSizes(fileSize, round, draw), Tried(fileSize))
  }

  /** A smaller `prev` keeps the bound for every pass made so far. */
  lemma RoundsWeaken(fileSize: nat, prev: nat, prev': nat, round: nat, draw: (nat, nat) -> seq<nat>)
    requires forall r: nat :: r < round ==> BoundedBy(fileSize, prev, r, 31, draw)
    requires prev' <= prev && BoundedBy(fileSize, prev', round, 31, draw)
    ensures forall r: nat :: r < round + 1 ==> BoundedBy(fileSize, prev', r, 31, draw)
  {
    forall r: nat | r < round
      ensures BoundedBy(fileSize, prev', r, 31, draw)
    {
      assert BoundedBy(fileSize, prev, r, 31, draw);
      AtMostAllWeaken(prev, prev', 31, PassSizes(fileSize, r, draw), Tried(fileSize));
    }
  }

  lemma BoundedByExtend(fileSize: nat, prev: nat, prev': nat, round: nat, hi: nat, draw: (nat, nat) -> seq<nat>)
    requires BoundedBy(fileSize, prev, round, hi, draw) && prev' <= prev
    requires ChunkSizeAt(hi) <= fileSize ==> prev' <= ContainerSize(fileSize, ChunkSizeAt(hi), |draw(round, hi)|)
    ensures BoundedBy(fileSize, prev', round, hi + 1, draw)
  {
    var size := PassSizes(fileSize, round, draw);
    assert Tried(fileSize)(hi) ==> prev' <= size(hi);
    AtMostAllExtend(prev, prev', hi, size, Tried(fileSize));
  }

  /** `find_best_chunk_strategy`, with its endless `while True` cut to `rounds`
      passes over the chunk sizes `1, 2, 4, ...` up to the file size (at most
      `2 ** 30`), and `draw(r, e)` standing for the positions sampled in pass
      `r` for chunk size `2 ** e`. The search keeps the smallest container
      size seen (capped at the initial `10**12`), the file it leaves behind
      always restores to the input, and it is one of the containers built:
      the first one written, or a later one strictly smaller than every
      container written before it. */
  method FindBestChunkStrategy(data: seq<byte>, rounds: nat, draw: (nat, nat) -> seq<nat>)
    returns (s: SearchState)
    requires |data| < Metadata.U32_LIMIT
    requires ValidDraws(|data|, draw)
    ensures SearchInv(data, s)
    ensures s.written.Some? <==> rounds > 0 && |data| > 0
    ensures forall r: nat, e: nat :: r < rounds && e < 31 && ChunkSizeAt(e) <= |data| ==>
      s.previousSize <= ContainerSize(|data|, ChunkSizeAt(e), |draw(r, e)|)
    ensures s.written.Some? ==> exists r: nat, e: nat :: r < rounds && BuiltAt(data, s.written.value, r, e, draw)
  {
    s := SearchState(INITIAL_PREVIOUS_SIZE, true, None, 1, []);
    var round := 0;
    ghost var keptRound, keptExp := 0, 0;
    while round < rounds
      invariant round <= rounds
      invariant SearchInv(data, s)
      invariant s.written.Some? <==> round > 0 && |data| > 0
      invariant forall r: nat :: r < round ==> BoundedBy(|data|, s.previousSize, r, 31, draw)
      invariant s.written.Some? ==> keptRound < round && BuiltAt(data, s.written.value, keptRound, keptExp, draw)
    {
      ghost var before := s;
      ghost var e;
      s, e := Pass(data, s, round, draw);
      if s.written != before.written {
        keptRound, keptExp := round, e;
      }
      RoundsWeaken(|data|, before.previousSize, s.previousSize, round, draw);
      round := round + 1;
    }
    BoundedByAll(|data|, s.previousSize, rounds, draw);
  }

  lemma BoundedByAll(fileSize: nat, prev: nat, rounds: nat, draw: (nat, nat) -> seq<nat>)
    requires forall r: nat :: r < rounds ==> BoundedBy(fileSize, prev, r, 31, draw)
    ensures forall r: nat, e: nat :: r < rounds && e < 31 && ChunkSizeAt(e) <= fileSize ==>
      prev <= ContainerSize(fileSize, ChunkSizeAt(e), |draw(r, e)|)
  {
    forall r: nat, e: nat | r < rounds && e < 31 && ChunkSizeAt(e) <= fileSize
      ensures prev <= ContainerSize(fileSize, ChunkSizeAt(e), |draw(r, e)|)
    {
      assert BoundedBy(fileSize, prev, r, 31, draw);
      var size := PassSizes(fileSize, r, draw);
      assert Tried(fileSize)(e);
      assert prev <= size(e);
    }
  }

  /** One pass of `for exp in range(31)`: chunk size `2 ** exp` until it
      exceeds the file size. `keptExp` names the exponent whose container
      the file holds when the pass replaced it. */
  method Pass(data: seq<byte>, s0: SearchState, round: nat, draw: (nat, nat) -> seq<nat>)
    returns (s: SearchState, ghost keptExp: nat)
    requires |data| < Metadata.U32_LIMIT
    requires ValidDraws(|data|, draw)
    requires SearchInv(data, s0)
    ensures SearchInv(data, s)
    ensures s.previousSize <= s0.previousSize
    ensures s.written.Some? <==> s0.written.Some? || |data| > 0
    ensures BoundedBy(|data|, s.previousSize, round, 31, draw)
    ensures s.written == s0.written || (s.written.Some? && BuiltAt(data, s.written.value, round, keptExp, draw))
  {
    s := s0;
    keptExp := 0;
    var exp := 0;
    while exp < 31
      invariant exp <= 31
      invariant SearchInv(data, s)
      invariant s.previousSize <= s0.previousSize
      invariant s.written.Some? <==> s0.written.Some? || (exp > 0 && |data| > 0)
      invariant BoundedBy(|data|, s.previousSize, round, exp, draw)
      invariant s.written == s0.written || (s.written.Some? && BuiltAt(data, s.written.value, round, keptExp, draw))
    {
      var cs := ChunkSizeAt(exp);
      if cs > |data| {
        BeyondFile(|data|, s.previousSize, round, exp, draw);
        break;
      }
      ghost var before := s;
      s := Step(data, s, round, exp, draw);
      if s.written != before.written {
        keptExp := exp;
      }
      exp := exp + 1;
    }
  }

  /** Once `2 ** exp` exceeds the file size, so does every later chunk size:
      the bound for the exponents tried already covers the whole schedule. */
  lemma BeyondFile(fileSize: nat, prev: nat, round: nat, exp: nat, draw: (nat, nat) -> seq<nat>)
    requires ChunkSizeAt(exp) > fileSize
    requires BoundedBy(fileSize, prev, round, exp, draw)
    ensures BoundedBy(fileSize, prev, round, 31, draw)
  {
    forall e: nat | exp <= e
      ensures ChunkSizeAt(e) > fileSize
    {
      ChunkSizeGrows(exp, e);
    }
  }

  /** The body of the inner loop for `2 ** exp` at most the file size. */
  method Step(data: seq<byte>, s0: SearchState, round: nat, exp: nat, draw: (nat, nat) -> seq<nat>)
    returns (s: SearchState)
    requires |data| < Metadata.U32_LIMIT && ValidDraws(|data|, draw)
    requires exp < 31 && ChunkSizeAt(exp) <= |data|
    requires SearchInv(data, s0)
    requires BoundedBy(|data|, s0.previousSize, round, exp, draw)
    ensures SearchInv(data, s)
    ensures s.written.Some?
    ensures s.previousSize <= s0.previousSize
    ensures BoundedBy(|data|, s.previousSize, round, exp + 1, draw)
    ensures s.written == s0.written || BuiltAt(data, s.written.value, round, exp, draw)
  {
    var cs := ChunkSizeAt(exp);
    ChunkSizeGrows(0, exp);
    var maxPositions := |data| / cs;
    Sampling.WindowCount(|data|, cs);
    s := s0;
    if maxPositions > 0 {
      var positions := draw(round, exp);
      Sampling.SampledHeaderEncodable(|data|, cs, positions, maxPositions);
      s := Attempt(data, s, cs, positions);
    }
    BoundedByExtend(|data|, s0.previousSize, s.previousSize, round, exp, draw);
  }
}
