/** Cutting a byte sequence into fixed-size windows ("chunks"), padding the
    last one, reversing selected windows, and putting the windows back
    together. Every variant of the transform is assembled from these. */
module Chunking {
  import opened Basics
  import Positional

  type Chunks = seq<seq<byte>>

  /** `[s[i:i + cs] for i in range(0, len(s), cs)]`: consecutive windows of
      `cs` bytes, the last one shorter when `cs` does not divide `|s|`. */
  function Split(s: seq<byte>, cs: nat): (r: Chunks)
    requires cs > 0
    ensures WellChunked(r, cs)
    decreases |s|
  {
    if |s| == 0 then []
    else if |s| <= cs then [s]
    else [s[..cs]] + Split(s[cs..], cs)
  }

  /** `[s[i * cs:(i + 1) * cs] for i in range(len(s) // cs)]`: only the
      complete windows; a trailing partial window is dropped. */
  function SplitFloor(s: seq<byte>, cs: nat): (r: Chunks)
    requires cs > 0
    ensures AllFull(r, cs)
    ensures |r| == |s| / cs
    decreases |s|
  {
    if |s| < cs then
      Positional.DivModUnique(|s|, cs, 0, |s|);
      []
    else
      Positional.DivShift(|s| - cs, cs);
      [s[..cs]] + SplitFloor(s[cs..], cs)
  }

  /** Every window is non-empty and holds at most `cs` bytes; all but the last hold exactly `cs`. */
  ghost predicate WellChunked(c: Chunks, cs: nat)
  {
    forall i :: 0 <= i < |c| ==> 0 < |c[i]| <= cs && (i < |c| - 1 ==> |c[i]| == cs)
  }

  /** Every window holds exactly `cs` bytes. */
  ghost predicate AllFull(c: Chunks, cs: nat)
  {
    forall i :: 0 <= i < |c| ==> |c[i]| == cs
  }

  /** `if len(c[-1]) < cs: c[-1] += b'\x00' * (cs - len(c[-1]))` */
  function PadLast(c: Chunks, cs: nat): (r: Chunks)
    requires |c| > 0 && |c[|c| - 1]| <= cs
    ensures |r| == |c|
  {
    var last := c[|c| - 1];
    if |last| < cs then c[|c| - 1 := last + Zeros(cs - |last|)] else c
  }

  /** The data followed by zero bytes up to the next multiple of `cs`. */
  function Padded(s: seq<byte>, cs: nat): (r: seq<byte>)
    requires cs > 0
    ensures |s| <= |r| < |s| + cs
    ensures |r| == CeilDiv(|s|, cs) * cs
    ensures r[..|s|] == s
  {
    s + Zeros(CeilDiv(|s|, cs) * cs - |s|)
  }

  /** Whether `i` occurs an odd number of times in `positions`: each
      occurrence flips it once more. */
  function OddCount(positions: seq<int>, i: int): bool
  {
    if |positions| == 0 then false
    else OddCount(positions[..|positions| - 1], i) != (positions[|positions| - 1] == i)
  }

  /** Chunk `i` is reversed exactly when `i` occurs an odd number of times
      in `positions`: each occurrence reverses it once more. Entries that
      are not chunk indices (negative or too large) have no effect. */
  function Parity(c: Chunks, positions: seq<int>): (r: Chunks)
    ensures |r| == |c|
    ensures forall i :: 0 <= i < |c| ==> |r[i]| == |c[i]|
  {
    seq(|c|, i requires 0 <= i < |c| =>
      if OddCount(positions, i) then Reverse(c[i]) else c[i])
  }

  /** Chunk `i` is reversed exactly when `i` is one of `positions`. */
  function Select(c: Chunks, positions: seq<int>): (r: Chunks)
    ensures |r| == |c|
    ensures forall i :: 0 <= i < |c| ==> |r[i]| == |c[i]|
  {
    seq(|c|, i requires 0 <= i < |c| => if i in positions then Reverse(c[i]) else c[i])
  }

  /** The loop `for pos in positions: if 0 <= pos < len(c): c[pos] = c[pos][::-1]`,
      run on a local copy of the chunk list. */
  method ReverseListed(chunks: Chunks, positions: seq<int>) returns (r: Chunks)
    ensures r == Parity(chunks, positions)
  {
    r := chunks;
    assert r == Parity(chunks, positions[..0]);
    for k := 0 to |positions|
      invariant r == Parity(chunks, positions[..k])
    {
      var pos := positions[k];
      assert positions[..k + 1] == positions[..k] + [pos];
      ParitySnoc(chunks, positions[..k], pos);
      if 0 <= pos < |r| {
        r := r[pos := Reverse(r[pos])];
      }
    }
    assert positions[..|positions|] == positions;
  }

  /** One more listed position reverses that chunk once more, if it is an index. */
  lemma ParitySnoc(c: Chunks, positions: seq<int>, pos: int)
    ensures Parity(c, positions + [pos]) ==
      if 0 <= pos < |c| then Parity(c, positions)[pos := Reverse(Parity(c, positions)[pos])]
      else Parity(c, positions)
  {
    var ps := positions + [pos];
    var before, after := Parity(c, positions), Parity(c, ps);
    var target := if 0 <= pos < |c| then before[pos := Reverse(before[pos])] else before;
    forall i | 0 <= i < |c|
      ensures after[i] == target[i]
    {
      ParitySnocAt(c, positions, pos, i);
    }
    assert after == target;
  }

  lemma ParitySnocAt(c: Chunks, positions: seq<int>, pos: int, i: nat)
    requires i < |c|
    ensures Parity(c, positions + [pos])[i] ==
      if i == pos then Reverse(Parity(c, positions)[i]) else Parity(c, positions)[i]
  {
    assert (positions + [pos])[..|positions|] == positions;
    if i == pos {
      ReverseReverse(c[i]);
    }
  }

  /** With distinct positions, an index occurs an odd number of times exactly when it occurs. */
  lemma {:induction false} OddCountDistinct(positions: seq<int>, i: int)
    requires Distinct(positions)
    ensures OddCount(positions, i) <==> i in positions
  {
    if |positions| > 0 {
      var init := positions[..|positions| - 1];
      assert Distinct(init);
      OddCountDistinct(init, i);
      assert positions == init + [positions[|positions| - 1]];
    }
  }

  /** Reversing the same chunks twice restores every chunk. */
  lemma ParityInvolution(c: Chunks, positions: seq<int>)
    ensures Parity(Parity(c, positions), positions) == c
  {
    forall i | 0 <= i < |c|
      ensures Parity(Parity(c, positions), positions)[i] == c[i]
    {
      ReverseReverse(c[i]);
    }
  }

  /** With distinct positions, reversing listed chunks and reversing chunks
      an odd number of times are the same thing. */
  lemma SelectIsParity(c: Chunks, positions: seq<int>)
    requires Distinct(positions)
    ensures Select(c, positions) == Parity(c, positions)
  {
    var sel, par := Select(c, positions), Parity(c, positions);
    forall i | 0 <= i < |c|
      ensures sel[i] == par[i]
    {
      OddCountDistinct(positions, i);
      if i in positions {
        assert sel[i] == Reverse(c[i]);
      } else {
        assert sel[i] == c[i];
      }
    }
  }

  /** Splitting loses nothing: the windows put back together are the data,
      they are well formed, and there are `ceil(|s| / cs)` of them. */
  lemma SplitShape(s: seq<byte>, cs: nat)
    requires cs > 0
    ensures Flatten(Split(s, cs)) == s
    ensures WellChunked(Split(s, cs), cs)
    ensures |Split(s, cs)| == CeilDiv(|s|, cs)
  {
    SplitRejoins(s, cs);
    SplitCount(s, cs);
  }

  lemma {:induction false} SplitRejoins(s: seq<byte>, cs: nat)
    requires cs > 0
    ensures Flatten(Split(s, cs)) == s
    decreases |s|
  {
    if |s| > cs {
      SplitRejoins(s[cs..], cs);
      assert Split(s, cs)[1..] == Split(s[cs..], cs);
    }
  }

  lemma {:induction false} SplitCount(s: seq<byte>, cs: nat)
    requires cs > 0
    ensures |Split(s, cs)| == CeilDiv(|s|, cs)
    decreases |s|
  {
    if |s| == 0 {
      Positional.DivModUnique(cs - 1, cs, 0, cs - 1);
    } else if |s| <= cs {
      Positional.DivModUnique(|s| + cs - 1, cs, 1, |s| - 1);
    } else {
      SplitCount(s[cs..], cs);
      Positional.DivShift(|s| - 1, cs);
    }
  }

  /** The first window is the first `cs` bytes (or all of them), and the
      rest are the windows of what follows: reading `cs` bytes at a time. */
  lemma SplitFront(s: seq<byte>, cs: nat)
    requires cs > 0 && |s| > 0
    ensures Split(s, cs) == [Take(s, cs)] + Split(s[|Take(s, cs)|..], cs)
  {
    if |s| <= cs {
      assert Take(s, cs) == s;
      assert Split(s[|s|..], cs) == [];
    } else {
      assert Take(s, cs) == s[..cs];
    }
  }

  /** Windows of the same lengths join to sequences of the same length. */
  lemma {:induction false} FlattenLength(a: Chunks, b: Chunks)
    requires |a| == |b| && forall i :: 0 <= i < |a| ==> |a[i]| == |b[i]|
    ensures |Flatten(a)| == |Flatten(b)|
  {
    if |a| > 0 {
      FlattenLength(a[1..], b[1..]);
    }
  }

  /** Windows that are well formed are exactly what splitting their concatenation gives. */
  lemma {:induction false} SplitFlatten(c: Chunks, cs: nat)
    requires cs > 0 && WellChunked(c, cs)
    ensures Split(Flatten(c), cs) == c
  {
    if |c| == 1 {
      assert Flatten(c) == c[0] + Flatten(c[1..]);
      assert Flatten(c) == c[0];
    } else if |c| > 1 {
      var rest := c[1..];
      assert WellChunked(rest, cs);
      SplitFlatten(rest, cs);
      assert Flatten(c) == c[0] + Flatten(rest);
      assert Flatten(rest) == rest[0] + Flatten(rest[1..]);
      assert Flatten(c)[..cs] == c[0] && Flatten(c)[cs..] == Flatten(rest);
    }
  }

  /** Full windows put together have `|c| * cs` bytes. */
  lemma {:induction false} FullLength(c: Chunks, cs: nat)
    requires AllFull(c, cs)
    ensures |Flatten(c)| == |c| * cs
  {
    if |c| > 0 {
      assert AllFull(c[1..], cs);
      FullLength(c[1..], cs);
      Positional.Distribute(|c|, 1, cs);
    }
  }

  /** Full windows are exactly what the floor-count split of their concatenation gives. */
  lemma {:induction false} SplitFloorFlatten(c: Chunks, cs: nat)
    requires cs > 0 && AllFull(c, cs)
    ensures SplitFloor(Flatten(c), cs) == c
  {
    if |c| > 0 {
      var rest := c[1..];
      assert AllFull(rest, cs);
      SplitFloorFlatten(rest, cs);
      assert Flatten(c) == c[0] + Flatten(rest);
      assert Flatten(c)[..cs] == c[0] && Flatten(c)[cs..] == Flatten(rest);
    }
  }

  /** The floor-count split keeps `|s| / cs` full windows, which are a
      prefix of `s`, and drops fewer than `cs` trailing bytes. */
  lemma {:induction false} SplitFloorShape(s: seq<byte>, cs: nat)
    requires cs > 0
    ensures |Flatten(SplitFloor(s, cs))| <= |s|
    ensures Flatten(SplitFloor(s, cs)) == s[..|Flatten(SplitFloor(s, cs))|]
    ensures |s| - |Flatten(SplitFloor(s, cs))| < cs
    decreases |s|
  {
    var c := SplitFloor(s, cs);
    if |s| < cs {
      Positional.DivModUnique(|s|, cs, 0, |s|);
    } else {
      SplitFloorShape(s[cs..], cs);
      var rest := SplitFloor(s[cs..], cs);
      assert c == [s[..cs]] + rest;
      assert c[1..] == rest;
      assert Flatten(c) == s[..cs] + Flatten(rest);
      FullLength(c, cs);
      Positional.DivModUnique(|s|, cs, |c|, |s| - |Flatten(c)|);
    }
  }

  /** Padding the last window of the split is the same as splitting the
      zero-padded data; only the last window receives zeros. */
  lemma PadLastSplit(s: seq<byte>, cs: nat)
    requires |s| > 0 && cs > 0
    ensures |Split(s, cs)| > 0
    ensures PadLast(Split(s, cs), cs) == Split(Padded(s, cs), cs)
    ensures AllFull(Split(Padded(s, cs), cs), cs)
    ensures |Split(Padded(s, cs), cs)| == CeilDiv(|s|, cs)
  {
    SplitShape(s, cs);
    var p := PadLast(Split(s, cs), cs);
    var k := PadLastFlatten(s, cs);
    FullLength(p, cs);
    assert Flatten(p) == Padded(s, cs);
    SplitFlatten(p, cs);
  }

  /** Padding the last window appends `k < cs` zero bytes to the data and makes every window full. */
  lemma PadLastFlatten(s: seq<byte>, cs: nat) returns (k: nat)
    requires |s| > 0 && cs > 0
    ensures |Split(s, cs)| > 0
    ensures k < cs
    ensures Flatten(PadLast(Split(s, cs), cs)) == s + Zeros(k)
    ensures AllFull(PadLast(Split(s, cs), cs), cs)
  {
    SplitRejoins(s, cs);
    var c := Split(s, cs);
    var n := |c|;
    var last := c[n - 1];
    k := cs - |last|;
    var padded := last + Zeros(k);
    var init := c[..n - 1];
    assert c == init + [last];
    FlattenSnoc(init, last);
    var p := PadLast(c, cs);
    assert p == init + [padded] by {
      if |last| == cs {
        assert padded == last;
      }
    }
    FlattenSnoc(init, padded);
    PadLastFull(c, cs);
  }

  /** After padding, every window of a well-formed split is full. */
  lemma PadLastFull(c: Chunks, cs: nat)
    requires |c| > 0 && WellChunked(c, cs)
    ensures AllFull(PadLast(c, cs), cs)
  {
    var p := PadLast(c, cs);
    forall i | 0 <= i < |p|
      ensures |p[i]| == cs
    {
      if i < |c| - 1 {
        assert p[i] == c[i];
      }
    }
  }
}
