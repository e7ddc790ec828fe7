/** Symbol distributions: the cumulative interval of a symbol under a
    distribution (`cdf_interval`) and the Dirichlet model (`dirichlet`). */
module Distribution {

  /** A distribution over symbols, as the source's `{symbol: probability}`
      dictionaries; probabilities are exact reals. */
  type Dist = map<char, real>

  predicate StrictlySorted(A: seq<char>)
  {
    forall i, j :: 0 <= i < j < |A| ==> A[i] < A[j]
  }

  lemma {:induction false} LeastExists(s: set<char>)
    requires s != {}
    ensures exists x :: x in s && forall y :: y in s ==> x <= y
  {
    var x :| x in s;
    if s != {x} {
      LeastExists(s - {x});
      var z :| z in s - {x} && forall y :: y in s - {x} ==> z <= y;
      var w := if x < z then x else z;
      forall y | y in s
        ensures w <= y
      {
        if y != x {
          assert y in s - {x};
        }
      }
    } else {
      assert forall y :: y in s ==> x <= y;
    }
  }

  /** The smallest symbol of a non-empty set. */
  function Least(s: set<char>): (x: char)
    requires s != {}
    ensures x in s && forall y :: y in s ==> x <= y
  {
    LeastExists(s);
    var x :| x in s && forall y :: y in s ==> x <= y;
    x
  }

  /** `sorted(p)`: the keys of a dictionary in increasing order (that
      order is `SortedKeysSorted`, that every key occurs `SortedKeysComplete`). */
  function SortedKeys(s: set<char>): (A: seq<char>)
    ensures |A| == |s|
    ensures forall i :: 0 <= i < |A| ==> A[i] in s
    decreases |s|
  {
    if s == {} then
      []
    else
      var x := Least(s);
      [x] + SortedKeys(s - {x})
  }

  lemma {:induction false} SortedKeysSorted(s: set<char>)
    ensures StrictlySorted(SortedKeys(s))
    decreases |s|
  {
    if s != {} {
      var x := Least(s);
      var rest := SortedKeys(s - {x});
      SortedKeysSorted(s - {x});
      var A := SortedKeys(s);
      assert A == [x] + rest;
      forall i, j | 0 <= i < j < |A|
        ensures A[i] < A[j]
      {
        assert A[j] == rest[j - 1] && rest[j - 1] in s - {x};
        if i > 0 {
          assert A[i] == rest[i - 1];
        }
      }
    }
  }

  lemma {:induction false} SortedKeysComplete(s: set<char>, y: char)
    requires y in s
    ensures y in SortedKeys(s)
    decreases |s|
  {
    var x := Least(s);
    var A := SortedKeys(s);
    assert A[0] == x;
    if y != x {
      var rest := SortedKeys(s - {x});
      SortedKeysComplete(s - {x}, y);
      var k :| 0 <= k < |rest| && rest[k] == y;
      assert A == [x] + rest;
      assert A[k + 1] == y;
    }
  }

  /** Every symbol of `A` is a key of `p`. */
  predicate KeysOf<V>(A: seq<char>, p: map<char, V>)
  {
    forall i :: 0 <= i < |A| ==> A[i] in p
  }

  /** The total probability of the symbols in `A`. */
  function Mass(A: seq<char>, p: Dist): real
    requires KeysOf(A, p)
  {
    if A == [] then 0.0 else Mass(A[..|A| - 1], p) + p[A[|A| - 1]]
  }

  predicate NonNegative(p: Dist)
  {
    forall a :: a in p ==> p[a] >= 0.0
  }

  /** Non-negative probabilities that sum to one over all symbols. */
  predicate IsDistribution(p: Dist)
  {
    NonNegative(p) && Mass(SortedKeys(p.Keys), p) == 1.0
  }

  /** The position of `a` in `A`, or |A| when `a` does not occur. */
  function IndexOf(A: seq<char>, a: char): (k: nat)
    ensures k <= |A|
    ensures k < |A| ==> A[k] == a
    ensures forall i :: 0 <= i < k ==> A[i] != a
  {
    if A == [] then 0 else if A[0] == a then 0 else 1 + IndexOf(A[1..], a)
  }

  /** A key has a position among the sorted keys. */
  lemma RankOfKey(s: set<char>, a: char)
    requires a in s
    ensures IndexOf(SortedKeys(s), a) < |SortedKeys(s)|
  {
    SortedKeysComplete(s, a);
  }

  /** The interval of the k-th smallest symbol, in closed form. */
  lemma CdfAt(p: Dist, k: nat)
    requires k < |SortedKeys(p.Keys)|
    ensures var A := SortedKeys(p.Keys);
            Cdf(p, A[k]) == (Mass(A[..k], p), Mass(A[..k + 1], p))
  {
    var A := SortedKeys(p.Keys);
    SortedKeysSorted(p.Keys);
    assert IndexOf(A, A[k]) == k;
  }

  /** The interval [F(a'), F(a)) of `cdf_interval`: the probability of the
      symbols sorted before `a`, and that plus the probability of `a`.  For a
      symbol outside the distribution the scan runs off the end and yields
      the interval of the last symbol. */
  function Cdf(p: Dist, a: char): (r: (real, real))
    ensures a in p ==> r.1 == r.0 + p[a]
  {
    var A := SortedKeys(p.Keys);
    var k := IndexOf(A, a);
    if k < |A| then
      assert A[..k + 1][..k] == A[..k];
      (Mass(A[..k], p), Mass(A[..k + 1], p))
    else if A == [] then
      (0.0, 0.0)
    else
      assert a in p ==> false by {
        if a in p {
          RankOfKey(p.Keys, a);
        }
      }
      assert A[..|A|][..|A| - 1] == A[..|A| - 1];
      (Mass(A[..|A| - 1], p), Mass(A[..|A|], p))
  }

  /** `cdf_interval`: scan the sorted symbols, accumulating probability,
      and stop after `a`. */
  method CdfInterval(p: Dist, a: char) returns (lo: real, hi: real)
    ensures (lo, hi) == Cdf(p, a)
  {
    lo, hi := 0.0, 0.0;
    var A := SortedKeys(p.Keys);
    for i := 0 to |A|
      invariant hi == Mass(A[..i], p)
      invariant lo == if i == 0 then 0.0 else Mass(A[..i - 1], p)
      invariant forall j :: 0 <= j < i ==> A[j] != a
    {
      assert A[..i + 1][..i] == A[..i];
      lo, hi := hi, hi + p[A[i]];
      if A[i] == a {
        assert IndexOf(A, a) == i;
        return;
      }
    }
    assert IndexOf(A, a) == |A|;
  }

  lemma {:induction false} MassNonNegative(A: seq<char>, p: Dist)
    requires KeysOf(A, p) && NonNegative(p)
    ensures Mass(A, p) >= 0.0
  {
    if A != [] {
      MassNonNegative(A[..|A| - 1], p);
    }
  }

  /** With non-negative probabilities the mass of a prefix grows with it. */
  lemma {:induction false} MassMonotone(A: seq<char>, p: Dist, i: nat, j: nat)
    requires KeysOf(A, p) && NonNegative(p) && i <= j <= |A|
    ensures Mass(A[..i], p) <= Mass(A[..j], p)
    decreases j
  {
    if i < j {
      assert A[..j][..j - 1] == A[..j - 1];
      MassMonotone(A, p, i, j - 1);
    }
  }

  /** Under a distribution, the interval of a symbol lies in [0, 1]. */
  lemma CdfWithinUnit(p: Dist, a: char)
    requires IsDistribution(p) && a in p
    ensures 0.0 <= Cdf(p, a).0 <= Cdf(p, a).1 <= 1.0
  {
    var A := SortedKeys(p.Keys);
    RankOfKey(p.Keys, a);
    var k := IndexOf(A, a);
    MassNonNegative(A[..k], p);
    MassMonotone(A, p, k + 1, |A|);
    assert A[..|A|] == A;
  }

  /** The intervals of the symbols, taken in sorted order, tile [0, total
      mass), which is [0, 1) under a distribution: the first starts at 0,
      each ends where the next starts, and the last ends at the total mass. */
  lemma CdfTiles(p: Dist, k: nat)
    requires k < |SortedKeys(p.Keys)|
    ensures var A := SortedKeys(p.Keys);
            && (k == 0 ==> Cdf(p, A[k]).0 == 0.0)
            && (k + 1 < |A| ==> Cdf(p, A[k]).1 == Cdf(p, A[k + 1]).0)
            && (k + 1 == |A| ==> Cdf(p, A[k]).1 == Mass(A, p))
  {
    var A := SortedKeys(p.Keys);
    CdfAt(p, k);
    if k + 1 < |A| {
      CdfAt(p, k + 1);
    }
    if k + 1 == |A| {
      assert A[..k + 1] == A;
    }
  }

  lemma IndexOrder(A: seq<char>, a: char, b: char)
    requires StrictlySorted(A) && IndexOf(A, a) < |A| && IndexOf(A, b) < |A| && a < b
    ensures IndexOf(A, a) < IndexOf(A, b)
  {
  }

  /** Distinct symbols get disjoint intervals, in the order of the symbols. */
  lemma CdfOrdered(p: Dist, a: char, b: char)
    requires NonNegative(p) && a in p && b in p && a < b
    ensures Cdf(p, a).1 <= Cdf(p, b).0
  {
    var A := SortedKeys(p.Keys);
    RankOfKey(p.Keys, a);
    RankOfKey(p.Keys, b);
    var i, j := IndexOf(A, a), IndexOf(A, b);
    SortedKeysSorted(p.Keys);
    IndexOrder(A, a, b);
    CdfAt(p, i);
    CdfAt(p, j);
    MassMonotone(A, p, i + 1, j);
  }

  // ---------------------------------------------------------------------
  // The Dirichlet model

  /** The number of times `a` occurs in `xs`. */
  function Occurrences(xs: seq<char>, a: char): nat
  {
    if xs == [] then 0 else Occurrences(xs[..|xs| - 1], a) + (if xs[|xs| - 1] == a then 1 else 0)
  }

  /** The sum of the counts of the symbols in `A`. */
  function SumCounts(A: seq<char>, c: map<char, nat>): nat
    requires KeysOf(A, c)
  {
    if A == [] then 0 else SumCounts(A[..|A| - 1], c) + c[A[|A| - 1]]
  }

  /** `sum(counts.values())`. */
  function Total(c: map<char, nat>): nat
  {
    SumCounts(SortedKeys(c.Keys), c)
  }

  /** Every symbol of `xs` has a prior count. */
  predicate Known(m: map<char, nat>, xs: seq<char>)
  {
    forall i :: 0 <= i < |xs| ==> xs[i] in m
  }

  /** P(a | xs) of the Dirichlet model with prior counts `m`: the prior
      count of `a` plus its occurrences in `xs`, over the total count.  With
      no prior counts the result is empty and nothing is divided. */
  function Predictive(m: map<char, nat>, xs: seq<char>): (p: Dist)
    requires m.Keys == {} || Total(m) + |xs| > 0
    ensures p.Keys == m.Keys
  {
    map a | a in m :: ((m[a] + Occurrences(xs, a)) as real) / ((Total(m) + |xs|) as real)
  }

  /** `c` holds the counts `m` raised by the occurrences in `xs`. */
  predicate CountsAfter(c: map<char, nat>, m: map<char, nat>, xs: seq<char>)
  {
    c.Keys == m.Keys && forall a :: a in c ==> c[a] == m[a] + Occurrences(xs, a)
  }

  lemma {:induction false} SumCountsAgree(A: seq<char>, c: map<char, nat>, c': map<char, nat>)
    requires KeysOf(A, c) && KeysOf(A, c')
    requires forall i :: 0 <= i < |A| ==> c[A[i]] == c'[A[i]]
    ensures SumCounts(A, c) == SumCounts(A, c')
  {
    if A != [] {
      SumCountsAgree(A[..|A| - 1], c, c');
    }
  }

  /** Raising one count by one raises the sum by one. */
  lemma {:induction false} SumCountsBump(A: seq<char>, c: map<char, nat>, c': map<char, nat>, k: nat)
    requires StrictlySorted(A) && k < |A| && KeysOf(A, c) && KeysOf(A, c')
    requires forall i :: 0 <= i < |A| ==> c'[A[i]] == c[A[i]] + (if i == k then 1 else 0)
    ensures SumCounts(A, c') == SumCounts(A, c) + 1
  {
    var init := A[..|A| - 1];
    if k == |A| - 1 {
      SumCountsAgree(init, c, c');
    } else {
      SumCountsBump(init, c, c', k);
    }
  }

  lemma {:induction false} MassOfRatios(A: seq<char>, c: map<char, nat>, p: Dist, t: real)
    requires t > 0.0 && KeysOf(A, c) && KeysOf(A, p)
    requires forall i :: 0 <= i < |A| ==> p[A[i]] == (c[A[i]] as real) / t
    ensures Mass(A, p) == (SumCounts(A, c) as real) / t
  {
    if A != [] {
      MassOfRatios(A[..|A| - 1], c, p, t);
      DivAdd(SumCounts(A[..|A| - 1], c) as real, c[A[|A| - 1]] as real, t);
    }
  }

  /** Raising the count of one symbol by one raises the sum by one. */
  lemma SumCountsBumpSymbol(A: seq<char>, c: map<char, nat>, c': map<char, nat>, x: char)
    requires StrictlySorted(A) && x in A && KeysOf(A, c) && KeysOf(A, c')
    requires forall i :: 0 <= i < |A| ==> c'[A[i]] == c[A[i]] + (if A[i] == x then 1 else 0)
    ensures SumCounts(A, c') == SumCounts(A, c) + 1
  {
    var k := IndexOf(A, x);
    forall i | 0 <= i < |A|
      ensures c'[A[i]] == c[A[i]] + (if i == k then 1 else 0)
    {
      if i < k {
        assert A[i] != x;
      } else if k < i {
        assert A[k] < A[i];
      }
    }
    SumCountsBump(A, c, c', k);
  }

  /** Counting the symbols of `xs` onto the prior counts adds |xs| to
      their total. */
  lemma {:induction false} CountsTotal(m: map<char, nat>, c: map<char, nat>, xs: seq<char>)
    requires Known(m, xs) && CountsAfter(c, m, xs)
    ensures Total(c) == Total(m) + |xs|
    decreases |xs|
  {
    var A := SortedKeys(m.Keys);
    assert SortedKeys(c.Keys) == A;
    if xs == [] {
      SumCountsAgree(A, c, m);
    } else {
      var init, x := xs[..|xs| - 1], xs[|xs| - 1];
      var c0 := map a | a in m :: m[a] + Occurrences(init, a);
      assert Known(m, init);
      CountsTotal(m, c0, init);
      assert SortedKeys(c0.Keys) == A;
      SortedKeysSorted(m.Keys);
      SortedKeysComplete(m.Keys, x);
      SumCountsBumpSymbol(A, c0, c, x);
    }
  }

  /** The Dirichlet model gives a distribution: its probabilities are
      non-negative and sum to one. */
  lemma DirichletIsDistribution(m: map<char, nat>, xs: seq<char>)
    requires Known(m, xs) && Total(m) + |xs| > 0
    ensures IsDistribution(Predictive(m, xs))
  {
    var p := Predictive(m, xs);
    var A := SortedKeys(m.Keys);
    var t := (Total(m) + |xs|) as real;
    var c := map a | a in m :: m[a] + Occurrences(xs, a);
    CountsTotal(m, c, xs);
    assert SortedKeys(c.Keys) == A && SortedKeys(p.Keys) == A;
    forall i | 0 <= i < |A|
      ensures p[A[i]] == (c[A[i]] as real) / t
    {
    }
    MassOfRatios(A, c, p, t);
    Ratio(Total(c) as real, t);
    forall a | a in p
      ensures p[a] >= 0.0
    {
      Ratio((m[a] + Occurrences(xs, a)) as real, t);
    }
  }

  /** A symbol has positive probability exactly when its prior count or
      its number of occurrences so far is positive. */
  lemma DirichletPositive(m: map<char, nat>, xs: seq<char>, a: char)
    requires Total(m) + |xs| > 0 && a in m
    ensures Predictive(m, xs)[a] > 0.0 <==> m[a] + Occurrences(xs, a) > 0
  {
    var t := (Total(m) + |xs|) as real;
    var c := (m[a] + Occurrences(xs, a)) as real;
    assert Predictive(m, xs)[a] == c / t;
    PositiveRatio(c, t);
  }

  /** Counting one more symbol of `xs` keeps the counts in step. */
  lemma CountStep(counts: map<char, nat>, m: map<char, nat>, xs: seq<char>, i: nat)
    requires Known(m, xs) && i < |xs| && CountsAfter(counts, m, xs[..i])
    ensures CountsAfter(counts[xs[i] := counts[xs[i]] + 1], m, xs[..i + 1])
  {
    assert xs[..i + 1][..i] == xs[..i];
  }

  /** Dividing the final counts by their total gives the predictive
      distribution, and there is a total to divide by whenever there are
      counts at all. */
  lemma Normalized(counts: map<char, nat>, m: map<char, nat>, xs: seq<char>)
    requires Known(m, xs) && (m.Keys == {} || Total(m) + |xs| > 0)
    requires CountsAfter(counts, m, xs)
    ensures counts.Keys == {} || Total(counts) > 0
    ensures (map a | a in counts :: (counts[a] as real) / (Total(counts) as real)) == Predictive(m, xs)
  {
    CountsTotal(m, counts, xs);
  }

  /** `dirichlet(m)(xs)`: copy the prior counts, add one for each symbol of
      `xs`, and divide every count by the total. */
  method Dirichlet(m: map<char, nat>, xs: seq<char>) returns (p: Dist)
    requires Known(m, xs) && (m.Keys == {} || Total(m) + |xs| > 0)
    ensures p == Predictive(m, xs)
  {
    var counts := m;
    for i := 0 to |xs|
      invariant CountsAfter(counts, m, xs[..i])
    {
      CountStep(counts, m, xs, i);
      counts := counts[xs[i] := counts[xs[i]] + 1];
    }
    assert xs[..|xs|] == xs;
    var total := Total(counts);
    Normalized(counts, m, xs);
    p := map a | a in counts :: (counts[a] as real) / (total as real);
  }

  // Helpers for nonlinear arithmetic.  Each states one step, over
  // plain numbers, that the solver does not find by itself inside the
  // proofs above: they are called with products and quotients as arguments
  // so that those proofs stay linear.

  lemma DivAdd(x: real, y: real, t: real)
    requires t > 0.0
    ensures x / t + y / t == (x + y) / t
  {
  }

  lemma Ratio(x: real, t: real)
    requires t > 0.0 && x >= 0.0
    ensures x / t >= 0.0 && (x == t ==> x / t == 1.0)
  {
  }

  lemma PositiveRatio(c: real, t: real)
    requires t > 0.0 && c >= 0.0
    ensures c / t > 0.0 <==> c > 0.0
  {
    var q := c / t;
    assert q * t == c;
    if q < 0.0 {
      assert q * t < 0.0;
    }
  }
}
