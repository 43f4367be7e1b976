/** Fixed-width positional notation, most significant digit first. The
    header's big-endian integers (`struct.pack(">I", v)`) are base-256
    digit strings of width 4 or 8, and `format(b, '08b')` is a base-2 digit
    string of width 8. */
module Positional {

  function Pow(base: nat, n: nat): (p: nat)
    ensures base > 0 ==> p > 0
  {
    if n == 0 then 1 else base * Pow(base, n - 1)
  }

  /** The `n` lowest base-`base` digits of `v`, most significant first. */
  function ToDigits(v: nat, base: nat, n: nat): (r: seq<nat>)
    requires base > 1
    ensures |r| == n
    ensures forall i :: 0 <= i < n ==> r[i] < base
    decreases n
  {
    if n == 0 then [] else DivMod(v, base); ToDigits(v / base, base, n - 1) + [v % base]
  }

  lemma DivMod(v: nat, base: nat)
    requires base > 0
    ensures 0 <= v / base && 0 <= v % base < base
    ensures v == v / base * base + v % base
  {
  }

  /** The value of a digit string read most significant first. */
  function FromDigits(s: seq<nat>, base: nat): nat
  {
    if |s| == 0 then 0 else FromDigits(s[..|s| - 1], base) * base + s[|s| - 1]
  }

  ghost predicate DigitsIn(s: seq<nat>, base: nat)
  {
    forall i :: 0 <= i < |s| ==> s[i] < base
  }

  lemma {:induction false} FromDigitsBound(s: seq<nat>, base: nat)
    requires base > 1 && DigitsIn(s, base)
    ensures FromDigits(s, base) < Pow(base, |s|)
  {
    if |s| > 0 {
      var init := s[..|s| - 1];
      FromDigitsBound(init, base);
      var q := FromDigits(init, base);
      // q <= Pow(base, |init|) - 1, so q * base + d < Pow(base, |s|)
      assert q * base <= (Pow(base, |init|) - 1) * base by {
        MulMonotone(q, Pow(base, |init|) - 1, base);
      }
    }
  }

  /** The value of `x + y` is `x` shifted left by `|y|` digits plus `y`. */
  lemma {:induction false} FromDigitsAppend(x: seq<nat>, y: seq<nat>, base: nat)
    ensures FromDigits(x + y, base) == FromDigits(x, base) * Pow(base, |y|) + FromDigits(y, base)
    decreases |y|
  {
    if |y| == 0 {
      assert x + y == x;
    } else {
      var init, d := y[..|y| - 1], y[|y| - 1];
      assert (x + y)[..|x + y| - 1] == x + init;
      assert (x + y)[|x + y| - 1] == d;
      FromDigitsAppend(x, init, base);
      var fx, fi, p := FromDigits(x, base), FromDigits(init, base), Pow(base, |init|);
      assert FromDigits(x + y, base) == (fx * p + fi) * base + d;
      Regroup(fx, p, fi, base, d);
    }
  }

  lemma Regroup(a: nat, p: nat, f: nat, base: nat, d: nat)
    ensures (a * p + f) * base + d == a * (base * p) + (f * base + d)
  {
  }

  lemma MulMonotone(a: nat, b: nat, c: nat)
    requires a <= b
    ensures a * c <= b * c
  {
  }

  /** Reading back the `n` digits written for `v` gives `v` when it fits. */
  lemma {:induction false} FromToDigits(v: nat, base: nat, n: nat)
    requires base > 1 && v < Pow(base, n)
    ensures FromDigits(ToDigits(v, base, n), base) == v
    decreases n
  {
    if n > 0 {
      DivMod(v, base);
      var q := v / base;
      QuotientFits(v, base, n);
      FromToDigits(q, base, n - 1);
      var r := ToDigits(v, base, n);
      assert r[..n - 1] == ToDigits(q, base, n - 1);
      assert FromDigits(r, base) == q * base + v % base;
    }
  }

  lemma QuotientFits(v: nat, base: nat, n: nat)
    requires base > 1 && n > 0 && v < Pow(base, n)
    ensures v / base < Pow(base, n - 1)
  {
    DivMod(v, base);
    var q, p := v / base, Pow(base, n - 1);
    assert Pow(base, n) == base * p;
    if q >= p {
      MulMonotone(p, q, base);
    }
  }

  /** Writing the value of a digit string back at its own width gives the string. */
  lemma {:induction false} ToFromDigits(s: seq<nat>, base: nat)
    requires base > 1 && DigitsIn(s, base)
    ensures ToDigits(FromDigits(s, base), base, |s|) == s
  {
    if |s| > 0 {
      var init := s[..|s| - 1];
      var v := FromDigits(s, base);
      var q := FromDigits(init, base);
      assert v / base == q && v % base == s[|s| - 1] by {
        DivModUnique(v, base, q, s[|s| - 1]);
      }
      ToFromDigits(init, base);
      assert s == init + [s[|s| - 1]];
    }
  }

  lemma DivModUnique(v: nat, base: nat, q: nat, d: nat)
    requires base > 0 && d < base && v == q * base + d
    ensures v / base == q && v % base == d
  {
    DivMod(v, base);
    var q', d' := v / base, v % base;
    if q' < q {
      Distribute(q, q', base);
      MulAtLeast(q - q', base);
    } else if q' > q {
      Distribute(q', q, base);
      MulAtLeast(q' - q, base);
    }
  }

  /** Adding the divisor adds one to the quotient. */
  lemma DivShift(v: nat, base: nat)
    requires base > 0
    ensures (v + base) / base == v / base + 1
  {
    DivMod(v, base);
    MulSucc(v / base, base);
    DivModUnique(v + base, base, v / base + 1, v % base);
  }

  /** `ceil(n / d)` windows never outnumber the `n` items they cover. */
  lemma CeilDivAtMost(n: nat, d: nat)
    requires d > 0
    ensures (n + d - 1) / d <= n
  {
    DivMod(n + d - 1, d);
    var q := (n + d - 1) / d;
    if q > n {
      MulMonotone(n + 1, q, d);
      MulSucc(n, d);
      MulAtLeast(d, n);
    }
  }

  /** `ceil(n / d)` is zero only for no items. */
  lemma CeilDivPositive(n: nat, d: nat)
    requires d > 0
    ensures (n + d - 1) / d > 0 <==> n > 0
  {
    if n > 0 {
      DivShift(n - 1, d);
    } else {
      DivModUnique(d - 1, d, 0, d - 1);
    }
  }

  lemma MulSucc(q: nat, b: nat)
    ensures (q + 1) * b == q * b + b
  {
  }

  lemma MulAtLeast(k: nat, b: nat)
    requires k >= 1
    ensures k * b >= b
  {
  }

  lemma Distribute(a: int, b: int, c: int)
    ensures (a - b) * c == a * c - b * c
  {
  }
}
