/** Black_Hole_64: chunk reversal without padding, streamed one chunk at a
    time, with the positions drawn inside the transform over all
    `ceil(size / cs)` chunks (the short last one included); the header goes
    inside the compressor, decoding uses the ceiling chunk count, and the
    search draws a fresh chunk size every round. */
module BlackHole64 {
  import opened Basics
  import opened Chunking
  import Metadata
  import Sampling
  import Compression
  import Positional

  /** `(file_size + chunk_size - 1) // chunk_size`: every chunk, the short last one included. */
  function TotalChunks(fileSize: nat, cs: nat): (n: nat)
    requires cs > 0
    ensures n <= fileSize
    ensures n > 0 <==> fileSize > 0
  {
    Positional.CeilDivAtMost(fileSize, cs);
    Positional.CeilDivPositive(fileSize, cs);
    CeilDiv(fileSize, cs)
  }

  /** What `random.sample(range(total_chunks), min(num_positions, total_chunks))` can return. */
  ghost predicate ChunkSample(fileSize: nat, cs: nat, numPositions: nat, positions: seq<nat>)
    requires cs > 0
    ensures ChunkSample(fileSize, cs, numPositions, positions) ==>
      forall i :: 0 <= i < |positions| ==> positions[i] < fileSize
    ensures ChunkSample(fileSize, cs, numPositions, positions) && fileSize > 0 && numPositions > 0 ==>
      |positions| > 0
  {
    && Sampling.SampleOf(positions, TotalChunks(fileSize, cs))
    && |positions| == Min(numPositions, TotalChunks(fileSize, cs))
  }

  /** The transform as a value: chunk `i` reversed exactly when `i` is
      listed, the rest unchanged. Nothing is padded, so the output is exactly
      as long as the input. */
  function Transformed(data: seq<byte>, cs: nat, positions: seq<int>): (r: seq<byte>)
    requires cs > 0
    ensures |r| == |data|
  {
    var p := Split(data, cs);
    SplitRejoins(data, cs);
    FlattenLength(Select(p, positions), p);
    Flatten(Select(p, positions))
  }

  /** `reverse_chunks_at_positions`: read `chunk_size` bytes at a time for
      `total_chunks` steps (the last read may be short), reverse the chunks
      whose index was sampled, and append each to the output. The output is
      exactly as long as the input. `positions` is the sample the source
      draws and returns. */
  method ReverseChunksAtPositions(data: seq<byte>, chunkSize: nat, numPositions: nat, positions: seq<nat>)
    returns (out: seq<byte>)
    requires chunkSize > 0
    requires ChunkSample(|data|, chunkSize, numPositions, positions)
    ensures out == Transformed(data, chunkSize, positions)
    ensures |out| == |data|
  {
    var total := TotalChunks(|data|, chunkSize);
    ghost var chunks := Split(data, chunkSize);
    SplitShape(data, chunkSize);
    var rest := data;
    out := [];
    var i := 0;
    while i < total
      invariant i <= total == |chunks|
      invariant Split(rest, chunkSize) == chunks[i..]
      invariant out == Flatten(Select(chunks, positions)[..i])
    {
      ReadChunk(chunks, rest, chunkSize, i);
      var chunk := Take(rest, chunkSize);
      rest := rest[|chunk|..];
      if i in positions {
        chunk := Reverse(chunk);
      }
      ReadStep(Select(chunks, positions), i);
      out := out + chunk;
      i := i + 1;
    }
    assert Select(chunks, positions)[..total] == Select(chunks, positions);
    FlattenLength(Select(chunks, positions), chunks);
  }

  /** Reading `cs` bytes from the unread rest gives the next chunk, and
      leaves the chunks after it unread. */
  lemma ReadChunk(chunks: Chunks, rest: seq<byte>, cs: nat, i: nat)
    requires cs > 0 && i < |chunks| && Split(rest, cs) == chunks[i..]
    ensures |rest| > 0
    ensures chunks[i] == Take(rest, cs)
    ensures Split(rest[|Take(rest, cs)|..], cs) == chunks[i + 1..]
  {
    assert |Split(rest, cs)| > 0;
    SplitFront(rest, cs);
  }

  /** Joining one more chunk onto the output. */
  lemma ReadStep(c: Chunks, i: nat)
    requires i < |c|
    ensures Flatten(c[..i + 1]) == Flatten(c[..i]) + c[i]
  {
    assert c[..i + 1] == c[..i] + [c[i]];
    FlattenAppend(c[..i], [c[i]]);
  }

  /** The short last chunk is a candidate too: in a 5-byte file with chunk
      size 3 the sample may name chunk 1, which holds only 2 bytes, and
      reversing it swaps them. */
  lemma ShortLastChunkMayBeSelected()
    ensures ChunkSample(5, 3, 1, [1])
    ensures Transformed([10, 20, 30, 40, 50], 3, [1]) == [10, 20, 30, 50, 40]
  {
    var data: seq<byte> := [10, 20, 30, 40, 50];
    assert TotalChunks(5, 3) == 2;
    assert data[..3] == [10, 20, 30];
    assert data[3..] == [40, 50];
    assert Split(data[3..], 3) == [[40, 50]];
    assert Split(data, 3) == [[10, 20, 30], [40, 50]];
    var sel: Chunks := Select(Split(data, 3), [1]);
    assert sel[0] == [10, 20, 30];
    assert sel[1] == Reverse([40, 50]) == [50, 40];
    assert sel == [[10, 20, 30], [50, 40]];
    assert sel[1..] == [[50, 40]];
  }

  /** `decompress_and_restore_paq` on the file contents: decompress, read the
      header, cut the rest into `ceil(len / chunk_size)` chunks (the short
      last one kept), reverse the listed ones again, join and truncate.
      `None` where the source raises: the decompressor rejects the input,
      the buffer is shorter than its header, or the chunk size is zero. */
  function Restored(c: Compression.Compressor, container: seq<byte>): (r: Option<seq<byte>>)
    ensures c.decompress(container).None? ==> r.None?
    ensures c.decompress(container).Some? ==>
      (r.None? <==> Metadata.Decode(c.decompress(container).value).None?
                    || Metadata.Decode(c.decompress(container).value).value.0.chunkSize == 0)
  {
    match c.decompress(container)
    case None => None
    case Some(decompressed) =>
      match Metadata.Decode(decompressed)
      case None => None
      case Some((h, payload)) =>
        if h.chunkSize == 0 then None
        else Some(Take(Flatten(Parity(Split(payload, h.chunkSize), h.positions)), h.originalSize))
  }

  method DecompressAndRestore(c: Compression.Compressor, container: seq<byte>)
    returns (restored: Option<seq<byte>>)
    ensures restored == Restored(c, container)
  {
    var decompressed := c.decompress(container);
    if decompressed.None? {
      return None;
    }
    var decoded := Metadata.Decode(decompressed.value);
    if decoded.None? {
      return None;
    }
    var h, payload := decoded.value.0, decoded.value.1;
    if h.chunkSize == 0 {
      return None;
    }
    var chunks := Split(payload, h.chunkSize);
    chunks := ReverseListed(chunks, h.positions);
    restored := Some(Take(Flatten(chunks), h.originalSize));
  }

  /** With a lossless compressor and distinct positions (as `random.sample`
      gives), restoring gives back exactly the input: the ceiling count
      re-cuts the same chunks, the short last one included, and reversing
      the same ones again undoes the transform. */
  lemma RoundTrip(c: Compression.Compressor, data: seq<byte>, cs: nat, positions: seq<nat>)
    requires Compression.Lossless(c)
    requires cs > 0 && Distinct(positions)
    requires Metadata.Encodable(Metadata.Header(|data|, cs, positions))
    ensures Restored(c, Compression.Container(c, Transformed(data, cs, positions), cs, positions, |data|)) == Some(data)
  {
    var h := Metadata.Header(|data|, cs, positions);
    var payload := Transformed(data, cs, positions);
    assert c.decompress(c.compress(Metadata.Encode(h) + payload)) == Some(Metadata.Encode(h) + payload);
    Metadata.DecodeEncode(h, payload);
    Undo(data, cs, positions);
  }

  /** Re-cutting the output with the ceiling count and reversing the same
      distinct positions again gives back the input. */
  lemma Undo(data: seq<byte>, cs: nat, positions: seq<nat>)
    requires cs > 0 && Distinct(positions)
    ensures Take(Flatten(Parity(Split(Transformed(data, cs, positions), cs), positions)), |data|) == data
  {
    var p := Split(data, cs);
    SplitShape(data, cs);
    SelectIsParity(p, positions);
    var q := Parity(p, positions);
    assert WellChunked(q, cs);
    SplitFlatten(q, cs);
    assert Split(Transformed(data, cs, positions), cs) == q;
    ParityInvolution(p, positions);
    assert Flatten(Parity(q, positions)) == data;
  }

  /** `compress_with_paq`'s result: the new `previous_size` (`None` for the
      initial `float('inf')`), the new `first_attempt`, and the file it writes, if any. */
  datatype Outcome = Outcome(size: Option<nat>, firstAttempt: bool, written: Option<seq<byte>>)

  /** Whether `size < previous_size`, with `None` standing for infinity. */
  predicate Below(size: nat, previousSize: Option<nat>)
  {
    previousSize.None? || size < previousSize.value
  }

  /** `compress_with_paq`: on the first attempt, or when the container is
      strictly smaller, it is written and `(size, False)` returned;
      otherwise both values come back unchanged. */
  function CompressWithPaq(c: Compression.Compressor, reversed: seq<byte>, cs: nat, positions: seq<nat>,
                           previousSize: Option<nat>, originalSize: nat, firstAttempt: bool): (r: Outcome)
    requires Metadata.Encodable(Metadata.Header(originalSize, cs, positions))
    ensures r.written.Some? <==> firstAttempt || Below(|Compression.Container(c, reversed, cs, positions, originalSize)|, previousSize)
    ensures r.written.Some? ==> r.written.value == Compression.Container(c, reversed, cs, positions, originalSize)
    ensures r.written.Some? ==> r.size == Some(|r.written.value|) && !r.firstAttempt
    ensures r.written.None? ==> r.size == previousSize && r.firstAttempt == firstAttempt
    ensures !firstAttempt && previousSize.Some? ==> r.size.Some? && r.size.value <= previousSize.value
  {
    var compressed := Compression.Container(c, reversed, cs, positions, originalSize);
    if firstAttempt || Below(|compressed|, previousSize) then Outcome(Some(|compressed|), false, Some(compressed))
    else Outcome(previousSize, firstAttempt, None)
  }

  /** `2 ** 31`, the cap on the chunk size the search draws. */
  const MAX_CHUNK_SIZE: nat := 0x8000_0000

  /** One round's random choices: `chunk_size`, `num_positions`, and the
      positions `reverse_chunks_at_positions` samples. */
  datatype Draw = Draw(chunkSize: nat, numPositions: nat, positions: seq<nat>)

  /** The upper end of `num_positions`' range: `min(64, max_positions)`, or
      1 when `max_positions` is 0. */
  function NumPositionsLimit(fileSize: nat, cs: nat): (n: nat)
    requires cs > 0
    ensures 1 <= n <= 64
    ensures fileSize / cs > 0 ==> n <= fileSize / cs
  {
    var maxPositions := fileSize / cs;
    if maxPositions > 0 then Min(64, maxPositions) else 1
  }

  /** A draw the search can make: `randint(1, min(file_size, 2**31))`,
      then `randint(1, ...)` for the count, then the sample. */
  ghost predicate ValidDraw(fileSize: nat, d: Draw)
  {
    && 1 <= d.chunkSize <= Min(fileSize, MAX_CHUNK_SIZE)
    && 1 <= d.numPositions <= NumPositionsLimit(fileSize, d.chunkSize)
    && ChunkSample(fileSize, d.chunkSize, d.numPositions, d.positions)
  }

  /** An empty file has no draw: `randint(1, 0)` raises. For any other file
      the chunk size never exceeds it, so `max_positions` is positive, the
      `else 1` branch is never taken, and between 1 and 64 positions are
      sampled, each below the chunk count. */
  lemma DrawBounds(fileSize: nat, d: Draw)
    requires ValidDraw(fileSize, d)
    ensures fileSize > 0
    ensures fileSize / d.chunkSize > 0
    ensures 1 <= |d.positions| <= 64
    ensures forall i :: 0 <= i < |d.positions| ==> d.positions[i] < TotalChunks(fileSize, d.chunkSize) <= fileSize
  {
    Sampling.WindowCount(fileSize, d.chunkSize);
  }

  /** The parameters of a draw always fit the header of a file below 4 GiB. */
  lemma DrawEncodable(fileSize: nat, d: Draw)
    requires fileSize < Metadata.U32_LIMIT && ValidDraw(fileSize, d)
    ensures Metadata.Encodable(Metadata.Header(fileSize, d.chunkSize, d.positions))
  {
    DrawBounds(fileSize, d);
    Sampling.SampledHeaderEncodable(fileSize, d.chunkSize, d.positions, TotalChunks(fileSize, d.chunkSize));
  }

  /** The container the search builds from `data` for draw `d`. With a
      lossless compressor it restores to the file. */
  function Candidate(c: Compression.Compressor, data: seq<byte>, d: Draw): (r: seq<byte>)
    requires |data| < Metadata.U32_LIMIT && ValidDraw(|data|, d)
    ensures Compression.Lossless(c) ==> Restored(c, r) == Some(data)
  {
    DrawEncodable(|data|, d);
    assert Compression.Lossless(c) ==> Restored(c, Compression.Container(c, Transformed(data, d.chunkSize, d.positions), d.chunkSize, d.positions, |data|)) == Some(data) by {
      if Compression.Lossless(c) {
        RoundTrip(c, data, d.chunkSize, d.positions);
      }
    }
    Compression.Container(c, Transformed(data, d.chunkSize, d.positions), d.chunkSize, d.positions, |data|)
  }

  /** The variables `find_best_chunk_strategy` threads through its loop, and
      the content of the `.compressed.bin` file (`None` before it is written). */
  datatype SearchState = SearchState(previousSize: Option<nat>, firstAttempt: bool, written: Option<seq<byte>>)

  /** Between rounds: `previous_size` is infinite exactly while nothing has
      been written, and otherwise it is the size of the file on disk, which
      restores to the input. */
  ghost predicate SearchInv(c: Compression.Compressor, data: seq<byte>, s: SearchState)
  {
    && (s.firstAttempt <==> s.previousSize.None?)
    && (s.firstAttempt <==> s.written.None?)
    && (s.written.Some? ==> s.previousSize == Some(|s.written.value|))
    && (s.written.Some? ==> Restored(c, s.written.value) == Some(data))
  }

  /** One round of the search: transform with the drawn parameters, then
      apply the acceptance rule. The first round always writes; a later one
      writes only a strictly smaller container and otherwise keeps the old
      file, so `previous_size` becomes the smaller of the two sizes. */
  method Round(c: Compression.Compressor, data: seq<byte>, s0: SearchState, d: Draw)
    returns (s: SearchState)
    requires Compression.Lossless(c)
    requires |data| < Metadata.U32_LIMIT && ValidDraw(|data|, d)
    requires SearchInv(c, data, s0)
    ensures SearchInv(c, data, s)
    ensures !s.firstAttempt
    ensures s.written ==
      if s0.firstAttempt || Below(CandidateSize(c, data, d), s0.previousSize)
      then Some(Candidate(c, data, d)) else s0.written
    ensures s.previousSize == Some(
      if s0.firstAttempt then CandidateSize(c, data, d)
      else Min(CandidateSize(c, data, d), s0.previousSize.value))
  {
    DrawEncodable(|data|, d);
    DrawBounds(|data|, d);
    var positions := d.positions;
    var reversed := ReverseChunksAtPositions(data, d.chunkSize, d.numPositions, positions);
    ghost var built := Candidate(c, data, d);
    assert built == Compression.Container(c, reversed, d.chunkSize, positions, |data|);
    assert CandidateSize(c, data, d) == |built|;
    var outcome := CompressWithPaq(c, reversed, d.chunkSize, positions, s0.previousSize, |data|, s0.firstAttempt);
    s := SearchState(outcome.size, outcome.firstAttempt, if outcome.written.Some? then outcome.written else s0.written);
  }

  /** The size of the container round `r` builds; 0 for a draw the search cannot make. */
  ghost function CandidateSize(c: Compression.Compressor, data: seq<byte>, d: Draw): nat
  {
    if |data| < Metadata.U32_LIMIT && ValidDraw(|data|, d) then |Candidate(c, data, d)| else 0
  }

  /** The container size of each round, by round number. */
  ghost function Sizes(c: Compression.Compressor, data: seq<byte>, draw: nat -> Draw): nat -> nat
  {
    (r: nat) => CandidateSize(c, data, draw(r))
  }

  /** `prev` is at most the size of the container of every round before `rounds`. */
  ghost predicate BoundedBy(c: Compression.Compressor, data: seq<byte>, prev: nat, rounds: nat, draw: nat -> Draw)
  {
    AtMostAll(prev, rounds, Sizes(c, data, draw), r => true)
  }

  /** `find_best_chunk_strategy`, with its endless `while True` cut to
      `rounds` rounds and `draw(r)` standing for the random choices of round
      `r`. After the first round `previous_size` is finite, at most the
      size of every container built, and the file left behind is one of
      those containers, has that size and restores to the input. */
  method FindBestChunkStrategy(c: Compression.Compressor, data: seq<byte>, rounds: nat, draw: nat -> Draw)
    returns (s: SearchState)
    requires Compression.Lossless(c)
    requires |data| < Metadata.U32_LIMIT
    requires forall r: nat :: ValidDraw(|data|, draw(r))
    ensures SearchInv(c, data, s)
    ensures s.firstAttempt <==> rounds == 0
    ensures forall r: nat :: r < rounds ==> s.previousSize.Some? && s.previousSize.value <= |Candidate(c, data, draw(r))|
    ensures s.written.Some? ==> exists r: nat :: r < rounds && s.written.value == Candidate(c, data, draw(r))
  {
    s := SearchState(None, true, None);
    var round := 0;
    ghost var kept := 0;
    while round < rounds
      invariant round <= rounds
      invariant SearchInv(c, data, s)
      invariant s.firstAttempt <==> round == 0
      invariant round > 0 ==> BoundedBy(c, data, s.previousSize.value, round, draw)
      invariant s.written.Some? ==> kept < round && s.written.value == Candidate(c, data, draw(kept))
    {
      ghost var before := s;
      s := Round(c, data, s, draw(round));
      if s.written != before.written {
        kept := round;
      }
      ghost var prev := if round == 0 then s.previousSize.value else before.previousSize.value;
      BoundedByExtend(c, data, prev, s.previousSize.value, round, draw);
      round := round + 1;
    }
    if rounds > 0 {
      BoundedByAll(c, data, s.previousSize.value, rounds, draw);
    }
  }

  lemma BoundedByExtend(c: Compression.Compressor, data: seq<byte>, prev: nat, prev': nat, round: nat,
                        draw: nat -> Draw)
    requires BoundedBy(c, data, prev, round, draw) && prev' <= prev
    requires prev' <= CandidateSize(c, data, draw(round))
    ensures BoundedBy(c, data, prev', round + 1, draw)
  {
    AtMostAllExtend(prev, prev', round, Sizes(c, data, draw), r => true);
  }

  lemma BoundedByAll(c: Compression.Compressor, data: seq<byte>, prev: nat, rounds: nat, draw: nat -> Draw)
    requires |data| < Metadata.U32_LIMIT
    requires forall r: nat :: ValidDraw(|data|, draw(r))
    requires BoundedBy(c, data, prev, rounds, draw)
    ensures forall r: nat :: r < rounds ==> prev <= |Candidate(c, data, draw(r))|
  {
    forall r: nat | r < rounds
      ensures prev <= |Candidate(c, data, draw(r))|
    {
      var size := Sizes(c, data, draw);
      assert prev <= size(r);
      assert size(r) == CandidateSize(c, data, draw(r));
    }
  }
}
