/** Extending a binary string: the longest extension whose interval still
    surrounds a message interval (`extend_around`), and the greedy extension
    whose interval fits inside a target interval (`extend_inside`). */
module Extension {
  import opened Dyadic

  // ---------------------------------------------------------------------
  // extend_around

  /** The string `extend_around` returns: `bs` followed by every bit whose
      half still surrounds [u, v), the lower half tried first. */
  function LongestAround(bs: Bits, u: real, v: real): (r: Bits)
    requires u < v
    ensures bs <= r
    ensures Around(r, u, v) <==> Around(bs, u, v)
    ensures !Around(r + [false], u, v) && !Around(r + [true], u, v)
    decreases Horizon(v - u) - |bs|
  {
    if Around(bs + [false], u, v) then
      AroundWithinHorizon(bs + [false], u, v);
      AroundPrefix(bs, [false], u, v);
      LongestAround(bs + [false], u, v)
    else if Around(bs + [true], u, v) then
      AroundWithinHorizon(bs + [true], u, v);
      AroundPrefix(bs, [true], u, v);
      LongestAround(bs + [true], u, v)
    else
      bs
  }

  /** Starting from a string that surrounds [u, v), the result is the
      longest string of all that surround [u, v): every other one is a
      prefix of it. */
  lemma {:induction false} LongestAroundIsLongest(bs: Bits, t: Bits, u: real, v: real)
    requires u < v && Around(bs, u, v) && Around(t, u, v)
    ensures t <= LongestAround(bs, u, v)
  {
    var r := LongestAround(bs, u, v);
    if |t| <= |r| {
      AroundChain(t, r, u, v);
    } else {
      LongerAroundExtends(r, t, u, v);
    }
  }

  /** Of two strings surrounding [u, v), the longer one continues the shorter
      by a bit whose half still surrounds [u, v). */
  lemma {:induction false} LongerAroundExtends(r: Bits, t: Bits, u: real, v: real)
    requires u < v && |r| < |t| && Around(r, u, v) && Around(t, u, v)
    ensures Around(r + [t[|r|]], u, v)
    ensures Around(r + [false], u, v) || Around(r + [true], u, v)
  {
    var t' := t[..|r| + 1];
    assert t == t' + t[|r| + 1..];
    AroundPrefix(t', t[|r| + 1..], u, v);
    AroundChain(r, t', u, v);
    assert t' == r + [t[|r|]];
    if t[|r|] {
      assert t' == r + [true];
    } else {
      assert t' == r + [false];
    }
  }

  /** The result depends only on [u, v), not on which surrounding string
      the search starts from. */
  lemma {:induction false} LongestAroundCanonical(s: Bits, t: Bits, u: real, v: real)
    requires u < v && Around(s, u, v) && Around(t, u, v)
    ensures LongestAround(s, u, v) == LongestAround(t, u, v)
  {
    var rs, rt := LongestAround(s, u, v), LongestAround(t, u, v);
    LongestAroundIsLongest(s, rt, u, v);
    LongestAroundIsLongest(t, rs, u, v);
  }

  /** Conversely, a string that surrounds [u, v) while neither of its halves
      does is the result from every surrounding start. */
  lemma MaximalAround(bs: Bits, t: Bits, u: real, v: real)
    requires u < v && Around(bs, u, v) && Around(t, u, v)
    requires !Around(t + [false], u, v) && !Around(t + [true], u, v)
    ensures LongestAround(bs, u, v) == t
  {
    LongestAroundCanonical(bs, t, u, v);
  }

  /** `extend_around`: a loop that appends '0' while the lower half surrounds
      [u, v), else '1' while the upper half does, and stops otherwise. */
  method ExtendAround(bs: Bits, u: real, v: real) returns (r: Bits)
    requires u < v
    ensures r == LongestAround(bs, u, v)
  {
    ghost var bound := Horizon(v - u) + |bs|;
    r := bs;
    var contained := true;
    while contained
      invariant |r| <= bound
      invariant contained ==> LongestAround(r, u, v) == LongestAround(bs, u, v)
      invariant !contained ==> r == LongestAround(bs, u, v)
      decreases bound - |r| + (if contained then 1 else 0)
    {
      if Around(r + [false], u, v) {
        AroundWithinHorizon(r + [false], u, v);
        r := r + [false];
      } else if Around(r + [true], u, v) {
        AroundWithinHorizon(r + [true], u, v);
        r := r + [true];
      } else {
        contained := false;
      }
    }
  }

  // ---------------------------------------------------------------------
  // extend_inside

  /** The bit `extend_inside` appends: '1' when the gap between the interval
      of `bs` and [u, v) is larger at the bottom than at the top. */
  predicate NextBit(bs: Bits, u: real, v: real)
  {
    var iv := BinaryInterval(bs);
    Lopsided(iv.n, iv.m, iv.d, u, v)
  }

  /** The gap u*d - n below exceeds the gap m - v*d above. */
  predicate Lopsided(n: int, m: int, d: int, u: real, v: real)
  {
    u * (d as real) - (n as real) > (m as real) - v * (d as real)
  }

  /** [n/d, m/d) overlaps [u, v) by at least `c` at each of its ends, and
      [u, v) is at least 2c wide.  The greedy halving keeps this up. */
  predicate Slack(n: int, m: int, d: int, u: real, v: real, c: real)
  {
    && 0.0 < c && 2.0 * c <= v - u
    && c * (d as real) <= (m as real) - u * (d as real)
    && c * (d as real) <= v * (d as real) - (n as real)
  }

  /** The greedy walk from `bs` towards [u, v) keeps a slack of `c`. */
  predicate Reaches(bs: Bits, u: real, v: real, c: real)
  {
    var iv := BinaryInterval(bs);
    Slack(iv.n, iv.m, iv.d, u, v, c)
  }

  lemma SlackUnits(n: int, d: int, u: real, v: real, c: real) returns (U: real, V: real, C: real)
    requires d > 0 && Slack(n, n + 1, d, u, v, c)
    ensures U == u * (d as real) && V == v * (d as real) && C == c * (d as real)
    ensures 2.0 * C <= V - U && C <= (n as real) + 1.0 - U && C <= V - (n as real)
  {
    var e := d as real;
    U, V, C := u * e, v * e, c * e;
    ScaleLe(2.0 * c, v - u, e);
    assert (2.0 * c) * e == 2.0 * C;
    assert (v - u) * e == V - U;
  }

  lemma SlackStepArith(n: int, d: int, u: real, v: real, c: real, b: bool)
    requires d > 0 && Slack(n, n + 1, d, u, v, c) && b == Lopsided(n, n + 1, d, u, v)
    ensures Slack(2 * n + Bit(b), 2 * n + Bit(b) + 1, 2 * d, u, v, c)
  {
    var U, V, C := SlackUnits(n, d, u, v, c);
    SlackStepLinear(n as real, U, V, C, b, Bit(b) as real);
    Doubled(u, d);
    Doubled(v, d);
    Doubled(c, d);
  }

  /** One greedy step keeps the slack. */
  lemma {:induction false} SlackStep(bs: Bits, u: real, v: real, c: real)
    requires Reaches(bs, u, v, c)
    ensures Reaches(bs + [NextBit(bs, u, v)], u, v, c)
  {
    var iv := BinaryInterval(bs);
    BinaryIntervalAppend(bs, NextBit(bs, u, v));
    SlackStepArith(iv.n, iv.d, u, v, c, NextBit(bs, u, v));
  }

  lemma SlackWidthArith(n: int, d: int, u: real, v: real, c: real)
    requires Slack(n, n + 1, d, u, v, c) && !Within(n, n + 1, d, u, v)
    ensures c * (d as real) < 1.0
  {
  }

  /** While the interval of `bs` is not yet inside [u, v), its width 1/2^|bs|
      exceeds the slack, so `bs` is shorter than `Horizon(c)`. */
  lemma {:induction false} SlackBelowHorizon(bs: Bits, u: real, v: real, c: real)
    requires Reaches(bs, u, v, c) && !Inside(bs, u, v)
    ensures |bs| < Horizon(c)
  {
    var iv := BinaryInterval(bs);
    SlackWidthArith(iv.n, iv.d, u, v, c);
    BelowHorizon(c, |bs|);
  }

  /** The greedy walk from `bs`, under a slack `c` that proves it ends. */
  function InsideFrom(bs: Bits, u: real, v: real, c: real): (r: Bits)
    requires Reaches(bs, u, v, c)
    ensures bs <= r && Inside(r, u, v)
    decreases Horizon(c) - |bs|
  {
    if Inside(bs, u, v) then
      bs
    else
      SlackBelowHorizon(bs, u, v, c);
      SlackStep(bs, u, v, c);
      InsideFrom(bs + [NextBit(bs, u, v)], u, v, c)
  }

  /** A slack for [n/d, m/d) and [u, v) when the two meet: the smaller of
      the two overlaps and half the width of [u, v). */
  function SlackOf(n: int, m: int, d: int, u: real, v: real): (c: real)
    requires d > 0 && u < v && Meets(n, m, d, u, v)
    ensures Slack(n, m, d, u, v, c)
  {
    var rd := d as real;
    var lo, hi := ((m as real) - u * rd) / rd, (v * rd - (n as real)) / rd;
    var c := if lo <= hi && lo <= (v - u) / 2.0 then lo else if hi <= (v - u) / 2.0 then hi else (v - u) / 2.0;
    Quotient((m as real) - u * rd, rd);
    Quotient(v * rd - (n as real), rd);
    SlackOfBounds(n, m, d, u, v, lo, hi, c);
    c
  }

  lemma SlackOfBounds(n: int, m: int, d: int, u: real, v: real, lo: real, hi: real, c: real)
    requires d > 0 && u < v && Meets(n, m, d, u, v)
    requires lo * (d as real) == (m as real) - u * (d as real)
    requires hi * (d as real) == v * (d as real) - (n as real)
    requires c == lo || c == hi || c == (v - u) / 2.0
    requires c <= lo && c <= hi && c <= (v - u) / 2.0
    ensures Slack(n, m, d, u, v, c)
  {
    var rd := d as real;
    ScaleLe(c, lo, rd);
    ScaleLe(c, hi, rd);
    PositiveFactor(lo, rd);
    PositiveFactor(hi, rd);
  }

  /** A slack for the walk from `bs` when its interval meets [u, v). */
  function InitialSlack(bs: Bits, u: real, v: real): (c: real)
    requires u < v && Overlaps(bs, u, v)
    ensures Reaches(bs, u, v, c)
  {
    var iv := BinaryInterval(bs);
    SlackOf(iv.n, iv.m, iv.d, u, v)
  }

  /** The string `extend_inside` returns: the first string on the greedy
      walk from `bs` whose interval lies inside [u, v). */
  function GreedyInside(bs: Bits, u: real, v: real): (r: Bits)
    requires u < v && Overlaps(bs, u, v)
    ensures bs <= r && Inside(r, u, v)
  {
    InsideFrom(bs, u, v, InitialSlack(bs, u, v))
  }

  /** Every bit the walk appends is the greedy bit of the string before
      it, and no string before the result lies inside [u, v). */
  lemma {:induction false} InsideFromSteps(bs: Bits, u: real, v: real, c: real, i: nat)
    requires Reaches(bs, u, v, c) && |bs| <= i < |InsideFrom(bs, u, v, c)|
    ensures var r := InsideFrom(bs, u, v, c);
            !Inside(r[..i], u, v) && r[i] == NextBit(r[..i], u, v)
    decreases i - |bs|
  {
    var r := InsideFrom(bs, u, v, c);
    var bs' := bs + [NextBit(bs, u, v)];
    SlackStep(bs, u, v, c);
    assert r == InsideFrom(bs', u, v, c);
    if i == |bs| {
      assert r[..i] == bs;
      assert r[..i + 1] == bs';
    } else {
      InsideFromSteps(bs', u, v, c, i);
    }
  }

  /** The result of the walk does not depend on the slack that bounds it. */
  lemma {:induction false} InsideFromAnySlack(bs: Bits, u: real, v: real, c: real, c': real)
    requires Reaches(bs, u, v, c) && Reaches(bs, u, v, c')
    ensures InsideFrom(bs, u, v, c) == InsideFrom(bs, u, v, c')
    decreases Horizon(c) - |bs|
  {
    if !Inside(bs, u, v) {
      SlackBelowHorizon(bs, u, v, c);
      SlackStep(bs, u, v, c);
      SlackStep(bs, u, v, c');
      InsideFromAnySlack(bs + [NextBit(bs, u, v)], u, v, c, c');
    }
  }

  /** Conversely, a string that lies inside [u, v) and that the greedy steps
      reach from `bs` with no stop on the way is the result of the walk. */
  lemma {:induction false} InsideFromWalk(bs: Bits, r: Bits, u: real, v: real, c: real)
    requires Reaches(bs, u, v, c) && bs <= r && Inside(r, u, v)
    requires forall i :: |bs| <= i < |r| ==> !Inside(r[..i], u, v) && r[i] == NextBit(r[..i], u, v)
    ensures InsideFrom(bs, u, v, c) == r
    decreases |r| - |bs|
  {
    if |bs| == |r| {
      assert bs == r;
    } else {
      var i := |bs|;
      assert r[..i] == bs;
      var bs' := bs + [NextBit(bs, u, v)];
      assert bs' == r[..i + 1];
      SlackStep(bs, u, v, c);
      InsideFromWalk(bs', r, u, v, c);
    }
  }

  /** The walk under a slack of `c` stops at once, or at a string `r` with
      2^|r| · c < 2: the string before the last bit was not yet inside, so
      its width still exceeded c. */
  lemma {:induction false} InsideFromLength(bs: Bits, u: real, v: real, c: real, r: Bits)
    requires Reaches(bs, u, v, c) && r == InsideFrom(bs, u, v, c)
    ensures |r| == |bs| || Scale(r) * c < 2.0
    decreases Horizon(c) - |bs|
  {
    if !Inside(bs, u, v) {
      SlackBelowHorizon(bs, u, v, c);
      SlackStep(bs, u, v, c);
      var next := bs + [NextBit(bs, u, v)];
      assert r == InsideFrom(next, u, v, c);
      InsideFromLength(next, u, v, c, r);
      if |r| == |next| {
        ScaleAfterStep(bs, u, v, c, r);
      }
    }
  }

  /** A string one bit longer than one not yet inside [u, v) under a slack
      of `c` has 2^|r| · c < 2. */
  lemma ScaleAfterStep(bs: Bits, u: real, v: real, c: real, r: Bits)
    requires Reaches(bs, u, v, c) && !Inside(bs, u, v) && |r| == |bs| + 1
    ensures Scale(r) * c < 2.0
  {
    var iv := BinaryInterval(bs);
    SlackWidthArith(iv.n, iv.d, u, v, c);
    var x := c * (iv.d as real);
    assert Scale(r) == 2.0 * (iv.d as real);
    assert Scale(r) * c == 2.0 * x;
    Twice(x, Scale(r) * c);
  }

  /** From a string surrounding [u, v), the walk into the top half ends at
      a string `r` with 2^|r| · (v - u) < 8: either `r` is the surrounding
      string itself, at most as wide as [u, v), or the walk stopped with
      2^|r| · (v - u)/4 < 2. */
  lemma GreedyLength(bs: Bits, u: real, v: real, mid: real, r: Bits)
    requires u < v && Around(bs, u, v) && mid == u + (v - u) / 2.0 && Overlaps(bs, mid, v)
    requires r == GreedyInside(bs, mid, v)
    ensures Scale(r) * (v - u) < 8.0
  {
    var c := (v - u) / 4.0;
    QuarterSlack(bs, u, v, mid, c);
    AroundWidth(bs, u, v);
    QuarterWalkLength(bs, u, v, mid, c, r);
  }

  lemma QuarterWalkLength(bs: Bits, u: real, v: real, mid: real, c: real, r: Bits)
    requires c == (v - u) / 4.0 && Reaches(bs, mid, v, c) && r == InsideFrom(bs, mid, v, c)
    requires Scale(bs) * (v - u) <= 1.0
    ensures Scale(r) * (v - u) < 8.0
  {
    InsideFromLength(bs, mid, v, c, r);
    if |r| == |bs| {
      SameScale(r, bs, u, v);
    } else {
      Quarter(r, c, u, v);
    }
  }

  lemma SameScale(r: Bits, bs: Bits, u: real, v: real)
    requires |r| == |bs| && Scale(bs) * (v - u) <= 1.0
    ensures Scale(r) * (v - u) < 8.0
  {
    assert Scale(r) == Scale(bs);
  }

  lemma Quarter(r: Bits, c: real, u: real, v: real)
    requires c == (v - u) / 4.0 && Scale(r) * c < 2.0
    ensures Scale(r) * (v - u) < 8.0
  {
    assert Scale(r) * (v - u) == 4.0 * (Scale(r) * c);
    Fourfold(Scale(r) * c, Scale(r) * (v - u));
  }

  /** The walk into the top half may be bounded by a quarter of v - u. */
  lemma QuarterSlack(bs: Bits, u: real, v: real, mid: real, c: real)
    requires u < v && Around(bs, u, v) && mid == u + (v - u) / 2.0 && Overlaps(bs, mid, v)
    requires c == (v - u) / 4.0
    ensures Reaches(bs, mid, v, c)
    ensures GreedyInside(bs, mid, v) == InsideFrom(bs, mid, v, c)
  {
    TopSlack(bs, u, v, mid);
    InsideFromAnySlack(bs, mid, v, InitialSlack(bs, mid, v), c);
  }

  /** A string surrounding [u, v) reaches the top half [mid, v) with a slack
      of a quarter of v - u. */
  lemma TopSlack(bs: Bits, u: real, v: real, mid: real)
    requires u < v && Around(bs, u, v) && mid == u + (v - u) / 2.0
    ensures Reaches(bs, mid, v, (v - u) / 4.0)
  {
    var iv := BinaryInterval(bs);
    TopSlackArith(iv.n, iv.d, u, v, mid, (v - u) / 4.0);
  }

  lemma TopSlackArith(n: int, d: int, u: real, v: real, mid: real, c: real)
    requires d > 0 && u < v && Contains(n, n + 1, d, u, v)
    requires mid == u + (v - u) / 2.0 && c == (v - u) / 4.0
    ensures Slack(n, n + 1, d, mid, v, c)
  {
    var U, V, M, C := HalfUnits(u, v, mid, c, d);
    ScaleLe(u, v, d as real);
  }

  /** `extend_inside`: while the interval of the string is not inside
      [u, v), append '1' when the gap below is the larger, else '0'. */
  method ExtendInside(bs: Bits, u: real, v: real) returns (r: Bits)
    requires u < v && Overlaps(bs, u, v)
    ensures r == GreedyInside(bs, u, v)
  {
    ghost var c := InitialSlack(bs, u, v);
    r := bs;
    while !Inside(r, u, v)
      invariant Reaches(r, u, v, c)
      invariant InsideFrom(r, u, v, c) == InsideFrom(bs, u, v, c)
      decreases Horizon(c) - |r|
    {
      SlackBelowHorizon(r, u, v, c);
      SlackStep(r, u, v, c);
      ghost var next := r + [NextBit(r, u, v)];
      var n, d := ToRational(r);
      var m := n + 1;
      assert NextBit(r, u, v) == Lopsided(n, m, d, u, v);
      if Lopsided(n, m, d, u, v) {
        r := r + [true];
      } else {
        r := r + [false];
      }
      assert r == next;
    }
  }

  lemma WithinNestedReal(n: real, d: real, N: real, D: real, X: real, E: real, u: real, v: real)
    requires n == N * E + X && d == D * E && 0.0 <= X < E && 0.0 < D
    requires u * d <= n && n + 1.0 <= v * d
    ensures u < v && u * D < N + 1.0 && N < v * D
  {
    Associate(u, D, E);
    Associate(v, D, E);
    CancelLt(u, v, D * E);
    assert (N + 1.0) * E == N * E + E;
    CancelLt(u * D, N + 1.0, E);
    CancelLt(N, v * D, E);
  }

  lemma WithinNested(n: int, d: int, N: int, D: int, X: int, E: int, u: real, v: real)
    requires n == N * E + X && d == D * E && 0 <= X < E && 0 < D
    requires Within(n, n + 1, d, u, v)
    ensures u < v && Meets(N, N + 1, D, u, v)
  {
    CastAffine(N, E, X);
    CastAffine(D, E, 0);
    WithinNestedReal(n as real, d as real, N as real, D as real, X as real, E as real, u, v);
  }

  /** Only a string whose interval meets a non-empty [u, v) has an
      extension inside [u, v); from any other string `extend_inside`
      would append bits forever. */
  lemma {:induction false} InsideNeedsOverlap(bs: Bits, ext: Bits, u: real, v: real)
    requires Inside(bs + ext, u, v)
    ensures u < v && Overlaps(bs, u, v)
  {
    var iv, jv := BinaryInterval(bs + ext), BinaryInterval(bs);
    BinaryIntervalConcat(bs, ext);
    WithinNested(iv.n, iv.d, jv.n, jv.d, Value(ext), Pow2(|ext|), u, v);
  }

  // Helpers for nonlinear arithmetic.  Each states one step, over
  // plain numbers, that the solver does not find by itself inside the
  // proofs above: they are called with products and quotients as arguments
  // so that those proofs stay linear.

  /** The greedy step at level d, in units of 1/d: lower gap g = U - n,
      upper gap h = n + 1 - V; the slack C is at most (V - U)/2. */
  lemma SlackStepLinear(rn: real, U: real, V: real, C: real, b: bool, k: real)
    requires 2.0 * C <= V - U && C <= rn + 1.0 - U && C <= V - rn
    requires b <==> U - rn > rn + 1.0 - V
    requires k == (if b then 1.0 else 0.0)
    ensures 2.0 * C <= (2.0 * rn + k + 1.0) - 2.0 * U
    ensures 2.0 * C <= 2.0 * V - (2.0 * rn + k)
  {
  }

  lemma Doubled(x: real, d: int)
    ensures x * ((2 * d) as real) == 2.0 * (x * (d as real))
  {
  }

  lemma PositiveFactor(x: real, e: real)
    ensures e > 0.0 && x * e > 0.0 ==> x > 0.0
  {
  }

  lemma Quotient(x: real, e: real)
    requires e > 0.0
    ensures (x / e) * e == x
  {
  }

  lemma Twice(x: real, y: real)
    requires x < 1.0 && y == 2.0 * x
    ensures y < 2.0
  {
  }

  lemma Fourfold(x: real, y: real)
    requires x < 2.0 && y == 4.0 * x
    ensures y < 8.0
  {
  }

  lemma CancelLt(x: real, y: real, e: real)
    requires e > 0.0 && x * e < y * e
    ensures x < y
  {
  }

  lemma CastAffine(N: int, E: int, X: int)
    ensures ((N * E + X) as real) == (N as real) * (E as real) + (X as real)
  {
  }

  lemma Associate(x: real, y: real, z: real)
    ensures x * (y * z) == (x * y) * z
  {
  }

  /** [u, v), its midpoint and its quarter width, scaled by `d`. */
  lemma HalfUnits(u: real, v: real, mid: real, c: real, d: int) returns (U: real, V: real, M: real, C: real)
    requires mid == u + (v - u) / 2.0 && c == (v - u) / 4.0
    ensures U == u * (d as real) && V == v * (d as real) && M == mid * (d as real) && C == c * (d as real)
    ensures M == U + (V - U) / 2.0 && C == (V - U) / 4.0
  {
    var e := d as real;
    U, V, M, C := u * e, v * e, mid * e, c * e;
    assert mid * e == u * e + ((v - u) * e) / 2.0;
    assert (v - u) * e == V - U;
  }
}
