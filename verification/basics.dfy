/** Values shared by every part of the model: bytes, optional results and
    the handful of sequence operations that the Python code spells with
    slices (`s[::-1]`, `s[:n]`, `b"".join(...)`). */
module Basics {

  import Positional

  /** One byte, as Python's `bytes` elements are: an int in 0..255. */
  type byte = x: int | 0 <= x < 256

  /** A decimal digit value, as `int(d)` yields for a character of a digit string. */
  type digit = d: int | 0 <= d <= 9

  /** The result of an operation that raises in the source on some inputs. */
  datatype Option<T> = None | Some(value: T)

  function Min(a: int, b: int): int
  {
    if a <= b then a else b
  }

  /** `(n + d - 1) // d`, the number of `d`-sized windows that cover `n` items. */
  function CeilDiv(n: nat, d: nat): (q: nat)
    requires d > 0
    ensures n <= q * d < n + d
  {
    Positional.DivMod(n + d - 1, d);
    (n + d - 1) / d
  }

  /** `b'\x00' * n` */
  function Zeros(n: nat): (z: seq<byte>)
    ensures |z| == n
    ensures forall i :: 0 <= i < n ==> z[i] == 0
  {
    seq(n, _ => 0)
  }

  /** `s[::-1]` */
  function Reverse<T>(s: seq<T>): (r: seq<T>)
    ensures |r| == |s|
    ensures forall i :: 0 <= i < |s| ==> r[i] == s[|s| - 1 - i]
  {
    seq(|s|, i requires 0 <= i < |s| => s[|s| - 1 - i])
  }

  lemma ReverseReverse<T>(s: seq<T>)
    ensures Reverse(Reverse(s)) == s
  {
    assert forall i :: 0 <= i < |s| ==> Reverse(Reverse(s))[i] == s[i];
  }

  /** `s[:n]`: the first `n` elements, or all of `s` when it is shorter. */
  function Take<T>(s: seq<T>, n: nat): (r: seq<T>)
    ensures |r| == Min(n, |s|)
    ensures r == s[..|r|]
  {
    s[..Min(n, |s|)]
  }

  /** `b"".join(chunks)` */
  function Flatten<T>(chunks: seq<seq<T>>): (r: seq<T>)
    ensures |r| == TotalLength(chunks)
  {
    if |chunks| == 0 then [] else chunks[0] + Flatten(chunks[1..])
  }

  /** The number of items in all of `chunks` together. */
  function TotalLength<T>(chunks: seq<seq<T>>): nat
  {
    if |chunks| == 0 then 0 else |chunks[0]| + TotalLength(chunks[1..])
  }

  lemma {:induction false} FlattenAppend<T>(a: seq<seq<T>>, b: seq<seq<T>>)
    ensures Flatten(a + b) == Flatten(a) + Flatten(b)
  {
    if |a| == 0 {
      assert a + b == b;
    } else {
      assert (a + b)[1..] == a[1..] + b;
      FlattenAppend(a[1..], b);
    }
  }

  /** Joining one more window appends it. */
  lemma FlattenSnoc<T>(front: seq<seq<T>>, x: seq<T>)
    ensures Flatten(front + [x]) == Flatten(front) + x
  {
    FlattenAppend(front, [x]);
    assert Flatten([x]) == x;
  }

  /** No element occurs twice, as in the result of `random.sample`. */
  ghost predicate Distinct<T>(s: seq<T>)
  {
    forall i, j :: 0 <= i < j < |s| ==> s[i] != s[j]
  }

  /** `bound` is at most `size(r)` for every `r` below `n` that was `tried`,
      as the running minimum of a search is for every attempt made so far. */
  ghost predicate AtMostAll(bound: nat, n: nat, size: nat -> nat, tried: nat -> bool)
  {
    forall r: nat :: r < n && tried(r) ==> bound <= size(r)
  }

  lemma AtMostAllWeaken(bound: nat, bound': nat, n: nat, size: nat -> nat, tried: nat -> bool)
    requires AtMostAll(bound, n, size, tried) && bound' <= bound
    ensures AtMostAll(bound', n, size, tried)
  {
  }

  lemma AtMostAllExtend(bound: nat, bound': nat, n: nat, size: nat -> nat, tried: nat -> bool)
    requires AtMostAll(bound, n, size, tried) && bound' <= bound
    requires tried(n) ==> bound' <= size(n)
    ensures AtMostAll(bound', n + 1, size, tried)
  {
  }
}
