/** What the random draws of the parameter search can produce. The draws
    themselves (`random.randint`, `random.sample`) are not modelled: the
    search takes them as inputs constrained by these predicates. */
module Sampling {
  import opened Basics
  import Metadata
  import Positional

  /** A result of `random.sample(range(bound), k)`: distinct values below `bound`. */
  ghost predicate SampleOf(ps: seq<nat>, bound: int)
  {
    Distinct(ps) && forall i :: 0 <= i < |ps| ==> ps[i] < bound
  }

  /** `random.sample(range(m), random.randint(1, min(m, 64)))` with `m = max_positions`. */
  ghost predicate SampledPositions(ps: seq<nat>, maxPositions: int)
  {
    1 <= |ps| <= Min(maxPositions, 64) && SampleOf(ps, maxPositions)
  }

  /** `file_size // cs` is positive exactly when the chunk size is at most the file size. */
  lemma WindowCount(fileSize: nat, cs: nat)
    requires cs > 0
    ensures fileSize / cs <= fileSize
    ensures fileSize / cs > 0 <==> cs <= fileSize
  {
    Positional.DivMod(fileSize, cs);
    if cs > fileSize {
      Positional.DivModUnique(fileSize, cs, 0, fileSize);
    }
    if fileSize / cs > fileSize {
      Positional.MulAtLeast(cs, fileSize / cs);
    }
  }

  /** Sampled parameters of a file below 4 GiB always fit the header fields. */
  lemma SampledHeaderEncodable(fileSize: nat, cs: nat, ps: seq<nat>, bound: int)
    requires fileSize < Metadata.U32_LIMIT && cs <= fileSize && bound <= fileSize
    requires SampleOf(ps, bound) && |ps| <= 64
    ensures Metadata.Encodable(Metadata.Header(fileSize, cs, ps))
  {
  }
}
