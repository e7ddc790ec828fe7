/** Binary strings read as binary fractions 0.bs, and the dyadic intervals
    [n/d, (n+1)/d), d = 2^|bs|, that they stand for. */
module Dyadic {

  /** A binary string; `true` is the bit '1', `false` the bit '0'. */
  type Bits = seq<bool>

  function Pow2(k: nat): (r: nat)
    ensures r >= 1
  {
    if k == 0 then 1 else 2 * Pow2(k - 1)
  }

  /** 2^|bs| as a real: the number of strings of the length of `bs`, and the
      reciprocal of the width of their intervals. */
  function Scale(bs: Bits): real
  {
    Pow2(|bs|) as real
  }

  /** 2^-|bs|: the width of the interval of `bs`. */
  function Width(bs: Bits): (w: real)
    ensures w > 0.0
  {
    1.0 / Scale(bs)
  }

  /** The integer value of one bit, as `int(b)` gives it. */
  function Bit(b: bool): nat
  {
    if b then 1 else 0
  }

  /** The integer whose base-2 numeral, most significant bit first, is `bs`:
      the sum of 2^(|bs|-1-i) over the positions i that hold a '1'. */
  function Value(bs: Bits): (n: nat)
    ensures n < Pow2(|bs|)
  {
    if bs == [] then 0 else (if bs[0] then Pow2(|bs| - 1) else 0) + Value(bs[1..])
  }

  lemma {:induction false} Pow2Add(a: nat, b: nat)
    ensures Pow2(a + b) == Pow2(a) * Pow2(b)
  {
    if a > 0 {
      Pow2Add(a - 1, b);
      assert Pow2(a + b) == 2 * Pow2(a - 1 + b);
    }
  }

  lemma {:induction false} Pow2Monotone(a: nat, b: nat)
    requires a <= b
    ensures Pow2(a) <= Pow2(b)
  {
    if a < b {
      Pow2Monotone(a, b - 1);
    }
  }

  /** 2^k grows faster than k. */
  lemma {:induction false} Pow2Exceeds(k: nat)
    ensures k < Pow2(k)
  {
    if k > 0 {
      Pow2Exceeds(k - 1);
    }
  }

  /** Concatenating numerals shifts the first by the length of the second. */
  lemma {:induction false} ValueConcat(a: Bits, b: Bits)
    ensures Value(a + b) == Value(a) * Pow2(|b|) + Value(b)
  {
    if a == [] {
      assert a + b == b;
    } else {
      assert (a + b)[0] == a[0];
      assert (a + b)[1..] == a[1..] + b;
      ValueConcat(a[1..], b);
      Pow2Add(|a| - 1, |b|);
      var top := if a[0] then 1 else 0;
      assert Value(a + b) == top * Pow2(|a| - 1 + |b|) + Value(a[1..] + b);
      assert Value(a) == top * Pow2(|a| - 1) + Value(a[1..]);
      Regroup(top, Pow2(|a| - 1), Pow2(|b|), Value(a[1..]));
    }
  }

  /** Horner's rule: appending a bit doubles the value and adds the bit. */
  lemma {:induction false} Horner(bs: Bits, b: bool)
    ensures Value(bs + [b]) == 2 * Value(bs) + Bit(b)
  {
    ValueConcat(bs, [b]);
    assert Value([b]) == Bit(b) by {
      assert [b][1..] == [];
    }
  }

  /** Two numerals of one length with one value are the same string. */
  lemma {:induction false} ValueInjective(a: Bits, b: Bits)
    requires |a| == |b| && Value(a) == Value(b)
    ensures a == b
  {
    if a != [] {
      assert Value(a[1..]) < Pow2(|a| - 1) && Value(b[1..]) < Pow2(|b| - 1);
      assert a[0] == b[0];
      ValueInjective(a[1..], b[1..]);
      assert a == [a[0]] + a[1..] && b == [b[0]] + b[1..];
    }
  }

  /** `to_rational`: the numerator and denominator of 0.bs, the numerator
      accumulated bit by bit, most significant bit first. */
  method ToRational(bs: Bits) returns (n: nat, d: nat)
    ensures n == Value(bs) && d == Pow2(|bs|)
    ensures n < d
  {
    n := 0;
    for i := 0 to |bs|
      invariant n == Value(bs[..i])
    {
      Horner(bs[..i], bs[i]);
      assert bs[..i + 1] == bs[..i] + [bs[i]];
      n := n * 2;
      n := n + Bit(bs[i]);
    }
    assert bs[..|bs|] == bs;
    d := Pow2(|bs|);
  }

  /** The dyadic interval [n/d, m/d) of a binary string. */
  datatype Interval = Interval(n: nat, m: nat, d: nat)

  /** `binary_interval`: the interval [n/d, m/d) of `bs`; it has width 1/d,
      lies within [0, 1), and d is 2^|bs|. */
  function BinaryInterval(bs: Bits): (iv: Interval)
    ensures iv.m == iv.n + 1 && iv.m <= iv.d
    ensures iv.d == Pow2(|bs|)
  {
    Interval(Value(bs), Value(bs) + 1, Pow2(|bs|))
  }

  /** Appending '0' selects the lower half of the interval, '1' the upper half. */
  lemma {:induction false} BinaryIntervalAppend(bs: Bits, b: bool)
    ensures var iv := BinaryInterval(bs);
            BinaryInterval(bs + [b]) == Interval(2 * iv.n + Bit(b), 2 * iv.n + Bit(b) + 1, 2 * iv.d)
  {
    Horner(bs, b);
  }

  /** The interval of `bs + ext` in terms of the intervals of `bs` and `ext`. */
  lemma {:induction false} BinaryIntervalConcat(bs: Bits, ext: Bits)
    ensures BinaryInterval(bs + ext).n == BinaryInterval(bs).n * Pow2(|ext|) + Value(ext)
    ensures BinaryInterval(bs + ext).d == BinaryInterval(bs).d * Pow2(|ext|)
  {
    ValueConcat(bs, ext);
    Pow2Add(|bs|, |ext|);
  }

  /** [n/d, m/d) contains [u, v). */
  predicate Contains(n: int, m: int, d: int, u: real, v: real)
  {
    (n as real) <= u * (d as real) && v * (d as real) <= (m as real)
  }

  /** [n/d, m/d) lies within [u, v). */
  predicate Within(n: int, m: int, d: int, u: real, v: real)
  {
    u * (d as real) <= (n as real) && (m as real) <= v * (d as real)
  }

  /** [n/d, m/d) and [u, v) have a point in common. */
  predicate Meets(n: int, m: int, d: int, u: real, v: real)
  {
    u * (d as real) < (m as real) && (n as real) < v * (d as real)
  }

  /** `around`: the interval of `bs` contains [u, v). */
  predicate Around(bs: Bits, u: real, v: real)
  {
    var iv := BinaryInterval(bs);
    Contains(iv.n, iv.m, iv.d, u, v)
  }

  /** `inside`: the interval of `bs` lies within [u, v). */
  predicate Inside(bs: Bits, u: real, v: real)
  {
    var iv := BinaryInterval(bs);
    Within(iv.n, iv.m, iv.d, u, v)
  }

  /** The interval of `bs` and [u, v) have a point in common. */
  predicate Overlaps(bs: Bits, u: real, v: real)
  {
    var iv := BinaryInterval(bs);
    Meets(iv.n, iv.m, iv.d, u, v)
  }

  /** A bound on 2^|bs| · (v - u) counts the width of [u, v) in widths of
      the interval of `bs`. */
  lemma InWidths(bs: Bits, u: real, v: real)
    requires Scale(bs) * (v - u) < 8.0
    ensures v - u < 8.0 * Width(bs)
  {
    Reciprocate(Scale(bs), u, v, Width(bs));
  }

  // Arithmetic on the numbers n, m, d, u, v alone.

  /** A sub-interval [(N*E+X)/(D*E), (N*E+X+1)/(D*E)) of [N/D, (N+1)/D) that
      contains [u, v) makes [N/D, (N+1)/D) contain it. */
  lemma ContainsNested(n: int, m: int, d: int, N: int, M: int, D: int, X: int, E: int, u: real, v: real)
    requires n == N * E + X && m == n + 1 && M == N + 1 && d == D * E
    requires 0 <= X < E && 0 < D
    requires Contains(n, m, d, u, v)
    ensures Contains(N, M, D, u, v)
  {
    var rN, rD, rX, rE := N as real, D as real, X as real, E as real;
    assert (n as real) == rN * rE + rX;
    assert (d as real) == rD * rE;
    assert u * (rD * rE) == (u * rD) * rE;
    assert v * (rD * rE) == (v * rD) * rE;
    CancelFactor(rN, u * rD, rE);
    assert (M as real) * rE == rN * rE + rE;
    CancelFactor(v * rD, M as real, rE);
  }

  lemma ContainsWidth(n: int, m: int, d: int, u: real, v: real)
    requires m == n + 1 && Contains(n, m, d, u, v)
    ensures (d as real) * (v - u) <= 1.0
  {
    assert (d as real) * (v - u) == v * (d as real) - u * (d as real);
  }

  lemma ContainsNarrower(n: int, m: int, d: int, u: real, v: real, u': real, v': real)
    requires d >= 0 && Contains(n, m, d, u, v) && u <= u' && v' <= v
    ensures Contains(n, m, d, u', v')
  {
    ScaleLe(u, u', d as real);
    ScaleLe(v', v, d as real);
  }

  /** Two intervals [n/d, (n+1)/d) of one level that contain a non-empty [u, v)
      are the same interval. */
  lemma ContainsSameLevel(n1: int, n2: int, d: int, u: real, v: real)
    requires u < v && d > 0
    requires Contains(n1, n1 + 1, d, u, v) && Contains(n2, n2 + 1, d, u, v)
    ensures n1 == n2
  {
    ScaleLt(u, v, d as real);
    var U, V := u * (d as real), v * (d as real);
    assert U < V;
    assert (n1 as real) < ((n2 + 1) as real);
    assert (n2 as real) < ((n1 + 1) as real);
  }

  // The same facts about binary strings.

  /** Extending a string shrinks its interval: every string whose extension
      surrounds [u, v) surrounds it too. */
  lemma {:induction false} AroundPrefix(bs: Bits, ext: Bits, u: real, v: real)
    requires Around(bs + ext, u, v)
    ensures Around(bs, u, v)
  {
    var iv, jv := BinaryInterval(bs + ext), BinaryInterval(bs);
    BinaryIntervalConcat(bs, ext);
    ContainsNested(iv.n, iv.m, iv.d, jv.n, jv.m, jv.d, Value(ext), Pow2(|ext|), u, v);
  }

  /** A string whose interval surrounds [u, v) has width at least v - u. */
  lemma {:induction false} AroundWidth(bs: Bits, u: real, v: real)
    requires Around(bs, u, v)
    ensures (Pow2(|bs|) as real) * (v - u) <= 1.0
    ensures Scale(bs) * (v - u) <= 1.0
  {
    var iv := BinaryInterval(bs);
    ContainsWidth(iv.n, iv.m, iv.d, u, v);
  }

  /** A string surrounding [u, v) surrounds every sub-interval of it. */
  lemma {:induction false} AroundNarrower(bs: Bits, u: real, v: real, u': real, v': real)
    requires Around(bs, u, v) && u <= u' && v' <= v
    ensures Around(bs, u', v')
  {
    var iv := BinaryInterval(bs);
    ContainsNarrower(iv.n, iv.m, iv.d, u, v, u', v');
  }

  /** At each length at most one string surrounds a non-empty [u, v). */
  lemma {:induction false} AroundUnique(a: Bits, b: Bits, u: real, v: real)
    requires u < v && |a| == |b|
    requires Around(a, u, v) && Around(b, u, v)
    ensures a == b
  {
    var ia, ib := BinaryInterval(a), BinaryInterval(b);
    ContainsSameLevel(ia.n, ib.n, ia.d, u, v);
    ValueInjective(a, b);
  }

  /** The strings surrounding a non-empty [u, v) form a chain under the
      prefix order. */
  lemma {:induction false} AroundChain(a: Bits, b: Bits, u: real, v: real)
    requires u < v && |a| <= |b|
    requires Around(a, u, v) && Around(b, u, v)
    ensures a <= b
  {
    assert b == b[..|a|] + b[|a|..];
    AroundPrefix(b[..|a|], b[|a|..], u, v);
    AroundUnique(a, b[..|a|], u, v);
  }

  /** A number of halvings that takes every dyadic interval below width `w`:
      k > 1/w, hence 2^k > 1/w. */
  function Horizon(w: real): (k: nat)
    requires w > 0.0
    ensures (k as real) > 1.0 / w
  {
    Reciprocal(w);
    FloorAbove(1.0 / w);
    (1.0 / w).Floor + 1
  }

  lemma HorizonOrder(w: real, k: int, n: int, p: int, q: int)
    requires w > 0.0 && (k as real) > 1.0 / w && k < p
    requires n >= k ==> p <= q
    requires (q as real) * w <= 1.0
    ensures n < k
  {
    Reciprocal(w);
    ScaleLt(1.0 / w, q as real, w);
  }

  /** A level n at which the dyadic intervals are no wider than `w` lies below
      the horizon of `w`. */
  lemma BelowHorizon(w: real, n: nat)
    requires w > 0.0 && (Pow2(n) as real) * w <= 1.0
    ensures n < Horizon(w)
  {
    var k := Horizon(w);
    Pow2Exceeds(k);
    if n >= k {
      Pow2Monotone(k, n);
    }
    HorizonOrder(w, k, n, Pow2(k), Pow2(n));
  }

  /** Strings that surround a non-empty [u, v) are shorter than `Horizon(v - u)`. */
  lemma {:induction false} AroundWithinHorizon(bs: Bits, u: real, v: real)
    requires u < v && Around(bs, u, v)
    ensures |bs| < Horizon(v - u)
  {
    AroundWidth(bs, u, v);
    BelowHorizon(v - u, |bs|);
  }

  // Helpers for nonlinear arithmetic.  Each states one step, over
  // plain numbers, that the solver does not find by itself inside the
  // proofs above: they are called with products and quotients as arguments
  // so that those proofs stay linear.

  lemma Regroup(x: int, p: int, q: int, r: int)
    ensures x * (p * q) + r * q == (x * p + r) * q
  {
  }

  lemma CancelFactor(x: real, y: real, e: real)
    requires e > 0.0 && x * e <= y * e
    ensures x <= y
  {
  }

  lemma ScaleLe(x: real, y: real, e: real)
    requires e >= 0.0 && x <= y
    ensures x * e <= y * e
  {
    assert (y - x) * e >= 0.0;
  }

  lemma ScaleLt(x: real, y: real, e: real)
    ensures e > 0.0 && x < y ==> x * e < y * e
  {
    if e > 0.0 && x < y {
      assert (y - x) * e > 0.0;
    }
  }

  lemma Reciprocate(s: real, u: real, v: real, x: real)
    requires s > 0.0 && s * (v - u) < 8.0 && x == 1.0 / s
    ensures v - u < 8.0 * x
  {
    assert s * (8.0 * x) == 8.0;
  }

  lemma Reciprocal(w: real)
    requires w > 0.0
    ensures (1.0 / w) * w == 1.0 && 1.0 / w > 0.0
  {
  }

  lemma FloorAbove(y: real)
    requires y > 0.0
    ensures ((y.Floor + 1) as real) > y && y.Floor + 1 >= 1
  {
  }
}
