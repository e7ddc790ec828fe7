/** The worked example in the usage notes of `arithmetic.py`: under the
    Dirichlet model with prior counts {a: 1, b: 1, c: 1}, the message
    "aabbaacc" is coded as "00011110011110010". */
module Example {
  import opened Dyadic
  import opened Extension
  import opened Distribution
  import opened Encoder

  const Message: seq<char> := "aabbaacc"

  /** "00011110011110010", with `true` for '1'. */
  const Code: Bits := [false, false, false, true, true, true, true, false, false,
                       true, true, true, true, false, false, true, false]

  /** The prior counts of the example: one for each of a, b and c. */
  predicate UniformPriors(m: map<char, nat>)
  {
    m.Keys == {'a', 'b', 'c'} && m['a'] == 1 && m['b'] == 1 && m['c'] == 1
  }

  // ---------------------------------------------------------------------
  // The distributions over a, b and c

  lemma SortedSymbols()
    ensures SortedKeys({'a', 'b', 'c'}) == ['a', 'b', 'c']
  {
    var s := {'a', 'b', 'c'};
    assert Least(s) == 'a';
    assert s - {'a'} == {'b', 'c'};
    assert Least({'b', 'c'}) == 'b';
    assert {'b', 'c'} - {'b'} == {'c'};
    SortedSingleton('c');
  }

  lemma TotalOfPriors(m: map<char, nat>)
    requires UniformPriors(m)
    ensures Total(m) == 3
  {
    var A := ['a', 'b', 'c'];
    SortedSymbols();
    assert SortedKeys(m.Keys) == A;
    assert A[..2] == ['a', 'b'] && A[..2][..1] == ['a'] && A[..2][..1][..0] == [];
    assert SumCounts(A[..2][..1][..0], m) == 0;
    assert SumCounts(A[..2][..1], m) == 1;
    assert SumCounts(A[..2], m) == 2;
    assert SumCounts(A, m) == 3;
  }

  lemma MassSnoc(A: seq<char>, x: char, p: Dist)
    requires KeysOf(A, p) && x in p
    ensures KeysOf(A + [x], p) && Mass(A + [x], p) == Mass(A, p) + p[x]
  {
    assert (A + [x])[..|A|] == A;
  }

  /** The running sums of the probabilities of a, b and c. */
  lemma MassesOfSymbols(p: Dist, pa: real, pb: real, pc: real)
    requires p.Keys == {'a', 'b', 'c'} && p['a'] == pa && p['b'] == pb && p['c'] == pc
    ensures KeysOf(['a', 'b', 'c'], p)
    ensures Mass([], p) == 0.0 && Mass(['a'], p) == pa
    ensures Mass(['a', 'b'], p) == pa + pb && Mass(['a', 'b', 'c'], p) == pa + pb + pc
  {
    MassSnoc([], 'a', p);
    assert [] + ['a'] == ['a'];
    MassSnoc(['a'], 'b', p);
    assert ['a'] + ['b'] == ['a', 'b'];
    MassSnoc(['a', 'b'], 'c', p);
    assert ['a', 'b'] + ['c'] == ['a', 'b', 'c'];
  }

  /** The cdf interval of `x` among a < b < c with the given probabilities. */
  function SymbolCdf(x: char, pa: real, pb: real, pc: real): (real, real)
  {
    if x == 'a' then (0.0, pa) else if x == 'b' then (pa, pa + pb) else (pa + pb, pa + pb + pc)
  }

  /** Over the symbols a < b < c, `cdf_interval` gives each symbol the
      probability of the symbols before it and that plus its own. */
  lemma CdfOfSymbol(p: Dist, x: char, pa: real, pb: real, pc: real)
    requires p.Keys == {'a', 'b', 'c'} && p['a'] == pa && p['b'] == pb && p['c'] == pc
    requires x in {'a', 'b', 'c'}
    ensures Cdf(p, x) == SymbolCdf(x, pa, pb, pc)
  {
    var A := ['a', 'b', 'c'];
    SortedSymbols();
    assert SortedKeys(p.Keys) == A;
    MassesOfSymbols(p, pa, pb, pc);
    if x == 'a' {
      assert A[..0] == [] && A[..1] == ['a'];
      CdfAt(p, 0);
    } else if x == 'b' {
      assert A[..1] == ['a'] && A[..2] == ['a', 'b'];
      CdfAt(p, 1);
    } else {
      assert A[..2] == ['a', 'b'] && A[..3] == A;
      CdfAt(p, 2);
    }
  }

  lemma PredictiveAt(m: map<char, nat>, xs: seq<char>, a: char, c: nat, t: nat)
    requires a in m && m[a] + Occurrences(xs, a) == c && Total(m) + |xs| == t && t > 0
    ensures Predictive(m, xs)[a] == c as real / t as real
  {
  }

  /** After a message with `na`, `nb`, `nc` occurrences of a, b and c, the
      Dirichlet model gives each symbol its count plus one over the length
      plus three. */
  lemma Probabilities(m: map<char, nat>, xs: seq<char>, t: nat, na: nat, nb: nat, nc: nat)
    requires UniformPriors(m) && t == 3 + |xs|
    requires Occurrences(xs, 'a') == na && Occurrences(xs, 'b') == nb && Occurrences(xs, 'c') == nc
    ensures Total(m) + |xs| > 0
    ensures var p := Predictive(m, xs);
            && p['a'] == (1 + na) as real / t as real
            && p['b'] == (1 + nb) as real / t as real
            && p['c'] == (1 + nc) as real / t as real
  {
    TotalOfPriors(m);
    PredictiveAt(m, xs, 'a', 1 + na, t);
    PredictiveAt(m, xs, 'b', 1 + nb, t);
    PredictiveAt(m, xs, 'c', 1 + nc, t);
  }

  /** After a message with `na`, `nb`, `nc` occurrences of a, b and c, the
      cdf interval of each of a, b and c. */
  lemma SymbolIntervals(m: map<char, nat>, xs: seq<char>, x: char, t: nat, na: nat, nb: nat, nc: nat,
                        pa: real, pb: real, pc: real)
    requires UniformPriors(m) && DirichletModel(m).requires(xs) && t == 3 + |xs| && x in {'a', 'b', 'c'}
    requires Occurrences(xs, 'a') == na && Occurrences(xs, 'b') == nb && Occurrences(xs, 'c') == nc
    requires pa == (1 + na) as real / t as real && pb == (1 + nb) as real / t as real
    requires pc == (1 + nc) as real / t as real
    ensures Cdf(DirichletModel(m)(xs), x) == SymbolCdf(x, pa, pb, pc)
  {
    Probabilities(m, xs, t, na, nb, nc);
    var p := DirichletModel(m)(xs);
    assert p == Predictive(m, xs);
    assert p.Keys == {'a', 'b', 'c'};
    assert p['a'] == pa && p['b'] == pb && p['c'] == pc;
    CdfOfSymbol(p, x, pa, pb, pc);
  }

  // ---------------------------------------------------------------------
  // The message interval, symbol by symbol

  /** Appending `x` adds one occurrence of `x` and none of any other symbol. */
  lemma OccurrencesSnoc(xs: seq<char>, x: char, a: char)
    ensures Occurrences(xs + [x], a) == Occurrences(xs, a) + (if x == a then 1 else 0)
  {
    assert (xs + [x])[..|xs|] == xs;
  }

  /** Appending `x` narrows the message interval by the cdf interval of `x`. */
  lemma Advance(G: Model, xs: seq<char>, x: char, u: real, v: real, lo: real, hi: real)
    requires Covers(G, xs) && Covers(G, xs + [x])
    requires MessageInterval(G, xs) == (u, v)
    requires Cdf(G(xs), x) == (lo, hi)
    ensures MessageInterval(G, xs + [x]) == Narrow(u, v, lo, hi)
  {
    var ys := xs + [x];
    assert ys[..|ys| - 1] == xs && ys[|ys| - 1] == x;
    MessageStep(G, ys);
  }

  /** The Dirichlet model can be asked about every prefix of the message. */
  lemma PrefixCovered(m: map<char, nat>, k: nat)
    requires UniformPriors(m) && k <= |Message|
    ensures Covers(DirichletModel(m), Message[..k])
  {
    TotalOfPriors(m);
    assert Known(m, Message[..k]) by {
      forall i | 0 <= i < k
        ensures Message[..k][i] in m
      {
        assert Message[..k][i] == Message[i];
      }
    }
    DirichletCovers(m, Message[..k]);
  }

  /** The message interval after the first k + 1 symbols of the message,
      from that after its first k and the cdf interval of the next symbol. */
  lemma Step(m: map<char, nat>, k: nat, x: char, u: real, v: real, lo: real, hi: real)
    requires UniformPriors(m) && k < |Message| && Message[k] == x
    requires Covers(DirichletModel(m), Message[..k])
    requires MessageInterval(DirichletModel(m), Message[..k]) == (u, v)
    requires Cdf(DirichletModel(m)(Message[..k]), x) == (lo, hi)
    ensures Covers(DirichletModel(m), Message[..k + 1])
    ensures MessageInterval(DirichletModel(m), Message[..k + 1]) == Narrow(u, v, lo, hi)
  {
    var xs := Message[..k];
    Snoc(Message, k);
    PrefixCovered(m, k + 1);
    Advance(DirichletModel(m), xs, x, u, v, lo, hi);
  }

  /** The counts of a, b and c in the first k symbols of the message. */
  const Counts: seq<(nat, nat, nat)> :=
    [(0, 0, 0), (1, 0, 0), (2, 0, 0), (2, 1, 0), (2, 2, 0), (3, 2, 0), (4, 2, 0), (4, 2, 1), (4, 2, 2)]

  /** The Dirichlet probabilities of a, b and c after the first k symbols. */
  const Probs: seq<(real, real, real)> :=
    [(1.0 / 3.0, 1.0 / 3.0, 1.0 / 3.0), (2.0 / 4.0, 1.0 / 4.0, 1.0 / 4.0),
     (3.0 / 5.0, 1.0 / 5.0, 1.0 / 5.0), (3.0 / 6.0, 2.0 / 6.0, 1.0 / 6.0),
     (3.0 / 7.0, 3.0 / 7.0, 1.0 / 7.0), (4.0 / 8.0, 3.0 / 8.0, 1.0 / 8.0),
     (5.0 / 9.0, 3.0 / 9.0, 1.0 / 9.0), (5.0 / 10.0, 3.0 / 10.0, 2.0 / 10.0)]

  /** The message interval after the first k symbols. */
  const Intervals: seq<(real, real)> :=
    [(0.0, 1.0), (0.0, 1.0 / 3.0), (0.0, 1.0 / 6.0), (1.0 / 10.0, 2.0 / 15.0),
     (7.0 / 60.0, 23.0 / 180.0), (7.0 / 60.0, 17.0 / 140.0), (7.0 / 60.0, 5.0 / 42.0),
     (449.0 / 3780.0, 5.0 / 42.0), (2249.0 / 18900.0, 5.0 / 42.0)]

  lemma MessageSymbols(k: nat)
    requires k < |Message|
    ensures Message[k] in {'a', 'b', 'c'}
  {
    if k == 0 {} else if k == 1 {} else if k == 2 {} else if k == 3 {}
    else if k == 4 {} else if k == 5 {} else if k == 6 {} else {}
  }

  /** One more symbol adds one to its own count and nothing to the others. */
  lemma CountsTable(k: nat)
    requires k < |Message|
    ensures Counts[k + 1].0 == Counts[k].0 + (if Message[k] == 'a' then 1 else 0)
    ensures Counts[k + 1].1 == Counts[k].1 + (if Message[k] == 'b' then 1 else 0)
    ensures Counts[k + 1].2 == Counts[k].2 + (if Message[k] == 'c' then 1 else 0)
  {
    if k == 0 {} else if k == 1 {} else if k == 2 {} else if k == 3 {}
    else if k == 4 {} else if k == 5 {} else if k == 6 {} else {}
  }

  lemma {:induction false} CountsOfMessage(k: nat)
    requires k <= |Message|
    ensures Occurrences(Message[..k], 'a') == Counts[k].0
    ensures Occurrences(Message[..k], 'b') == Counts[k].1
    ensures Occurrences(Message[..k], 'c') == Counts[k].2
  {
    if k == 0 {
      assert Message[..0] == [];
    } else {
      CountsOfMessage(k - 1);
      CountsTable(k - 1);
      Snoc(Message, k - 1);
      OccurrencesSnoc(Message[..k - 1], Message[k - 1], 'a');
      OccurrencesSnoc(Message[..k - 1], Message[k - 1], 'b');
      OccurrencesSnoc(Message[..k - 1], Message[k - 1], 'c');
    }
  }

  /** The probabilities are the counts plus one over the length plus three. */
  lemma ProbsTable(k: nat)
    requires k < |Message|
    ensures Probs[k].0 == (1 + Counts[k].0) as real / (3 + k) as real
    ensures Probs[k].1 == (1 + Counts[k].1) as real / (3 + k) as real
    ensures Probs[k].2 == (1 + Counts[k].2) as real / (3 + k) as real
  {
    if k == 0 {} else if k == 1 {} else if k == 2 {} else if k == 3 {}
    else if k == 4 {} else if k == 5 {} else if k == 6 {} else {}
  }

  /** Each interval is the previous one narrowed by the cdf interval of the
      next symbol. */
  lemma IntervalsTable(k: nat)
    requires k < |Message|
    ensures Message[k] in {'a', 'b', 'c'}
    ensures var c := SymbolCdf(Message[k], Probs[k].0, Probs[k].1, Probs[k].2);
            Narrow(Intervals[k].0, Intervals[k].1, c.0, c.1) == Intervals[k + 1]
  {
    if k == 0 {} else if k == 1 {} else if k == 2 {} else if k == 3 {}
    else if k == 4 {} else if k == 5 {} else if k == 6 {} else {}
  }

  /** The cdf interval of symbol k of "aabbaacc" after the symbols before
      it. */
  lemma StageCdf(m: map<char, nat>, k: nat)
    requires UniformPriors(m) && k < |Message|
    requires Covers(DirichletModel(m), Message[..k])
    ensures Message[k] in {'a', 'b', 'c'}
    ensures Cdf(DirichletModel(m)(Message[..k]), Message[k]) == SymbolCdf(Message[k], Probs[k].0, Probs[k].1, Probs[k].2)
  {
    CountsOfMessage(k);
    ProbsTable(k);
    MessageSymbols(k);
    var (pa, pb, pc) := Probs[k];
    SymbolIntervals(m, Message[..k], Message[k], 3 + k, Counts[k].0, Counts[k].1, Counts[k].2, pa, pb, pc);
  }

  /** Symbol k of "aabbaacc" narrows the k-th interval to the next one. */
  lemma Stage(m: map<char, nat>, k: nat)
    requires UniformPriors(m) && k < |Message|
    requires Covers(DirichletModel(m), Message[..k])
    requires MessageInterval(DirichletModel(m), Message[..k]) == Intervals[k]
    ensures Covers(DirichletModel(m), Message[..k + 1])
    ensures MessageInterval(DirichletModel(m), Message[..k + 1]) == Intervals[k + 1]
  {
    StageCdf(m, k);
    IntervalsTable(k);
    var c := SymbolCdf(Message[k], Probs[k].0, Probs[k].1, Probs[k].2);
    Step(m, k, Message[k], Intervals[k].0, Intervals[k].1, c.0, c.1);
  }

  /** The message interval after the first k symbols of "aabbaacc". */
  lemma {:induction false} Reach(m: map<char, nat>, k: nat)
    requires UniformPriors(m) && k <= |Message|
    ensures Covers(DirichletModel(m), Message[..k])
    ensures MessageInterval(DirichletModel(m), Message[..k]) == Intervals[k]
  {
    if k == 0 {
      PrefixCovered(m, 0);
      assert Message[..0] == [];
    } else {
      Reach(m, k - 1);
      Stage(m, k - 1);
    }
  }

  /** The message interval of "aabbaacc" is [2249/18900, 5/42). */
  lemma MessageIntervalOfExample(m: map<char, nat>)
    requires UniformPriors(m)
    ensures Covers(DirichletModel(m), Message)
    ensures MessageInterval(DirichletModel(m), Message) == (2249.0 / 18900.0, 5.0 / 42.0)
  {
    Reach(m, 8);
    assert Message[..8] == Message;
  }

  // ---------------------------------------------------------------------
  // The bits

  /** The ends of the message interval of "aabbaacc", and the midpoint the
      final extension aims above. */
  const Low: real := 2249.0 / 18900.0
  const High: real := 5.0 / 42.0
  const Mid: real := Low + (High - Low) / 2.0

  /** The values of the prefixes of the code, shortest first. */
  const PrefixValues: seq<nat> :=
    [0, 0, 0, 0, 1, 3, 7, 15, 30, 60, 121, 243, 487, 975, 1950, 3900, 7801, 15602]

  /** The denominators of their intervals. */
  const Levels: seq<nat> :=
    [1, 2, 4, 8, 16, 32, 64, 128, 256, 512, 1024, 2048, 4096, 8192, 16384, 32768, 65536, 131072]

  lemma PrefixValuesTable(i: nat)
    requires i < |Code|
    ensures PrefixValues[i + 1] == 2 * PrefixValues[i] + Bit(Code[i])
    ensures Levels[i + 1] == 2 * Levels[i]
  {
    if i == 0 {} else if i == 1 {} else if i == 2 {} else if i == 3 {}
    else if i == 4 {} else if i == 5 {} else if i == 6 {} else if i == 7 {}
    else if i == 8 {} else if i == 9 {} else if i == 10 {} else if i == 11 {}
    else if i == 12 {} else if i == 13 {} else if i == 14 {} else if i == 15 {} else {}
  }

  /** The dyadic interval of each prefix of the code. */
  lemma {:induction false} PrefixIntervals(i: nat)
    requires i <= |Code|
    ensures BinaryInterval(Code[..i]) == Interval(PrefixValues[i], PrefixValues[i] + 1, Levels[i])
  {
    if i == 0 {
      assert Code[..0] == [];
    } else {
      PrefixIntervals(i - 1);
      PrefixValuesTable(i - 1);
      assert Code[..i] == Code[..i - 1] + [Code[i - 1]];
      BinaryIntervalAppend(Code[..i - 1], Code[i - 1]);
    }
  }

  /** The first twelve bits surround [Low, High) and neither of their halves
      does. */
  lemma SurroundingPrefix()
    ensures Around(Code[..12], Low, High)
    ensures !Around(Code[..12] + [false], Low, High) && !Around(Code[..12] + [true], Low, High)
  {
    PrefixIntervals(12);
    BinaryIntervalAppend(Code[..12], false);
    BinaryIntervalAppend(Code[..12], true);
  }

  /** Each of the last five bits is the greedy bit towards [Mid, High), and
      no prefix before the whole code lies inside it. */
  lemma GreedySuffix(i: nat)
    requires 12 <= i < |Code|
    ensures !Inside(Code[..i], Mid, High) && Code[i] == NextBit(Code[..i], Mid, High)
  {
    PrefixIntervals(i);
    if i == 12 {} else if i == 13 {} else if i == 14 {} else if i == 15 {} else {}
  }

  /** The whole code lies inside [Mid, High). */
  lemma CodeInside()
    ensures Inside(Code, Mid, High)
  {
    PrefixIntervals(|Code|);
    assert Code[..|Code|] == Code;
  }

  /** From [Low, High), `extend_around` yields the first twelve bits and
      `extend_inside` towards [Mid, High) the whole code. */
  lemma CodeOfInterval()
    ensures Low < High && Around([], Low, High) && LongestAround([], Low, High) == Code[..12]
    ensures Overlaps(Code[..12], Mid, High) && GreedyInside(Code[..12], Mid, High) == Code
  {
    AroundEmpty(Low, High);
    SurroundingPrefix();
    MaximalAround([], Code[..12], Low, High);
    AroundOverlapsTop(Code[..12], Low, High, Mid);
    forall i | 12 <= i < |Code|
      ensures !Inside(Code[..i], Mid, High) && Code[i] == NextBit(Code[..i], Mid, High)
    {
      GreedySuffix(i);
    }
    CodeInside();
    InsideFromWalk(Code[..12], Code, Mid, High, InitialSlack(Code[..12], Mid, High));
  }

  /** The documented example: with one prior count for each of a, b and c,
      "aabbaacc" is coded as "00011110011110010". */
  lemma UniformCode(m: map<char, nat>)
    requires UniformPriors(m)
    ensures Serves(DirichletModel(m), Message)
    ensures Codeword(DirichletModel(m), Message) == Code
  {
    TotalOfPriors(m);
    DirichletServes(m, Message);
    MessageIntervalOfExample(m);
    CodeOfInterval();
  }

  lemma DocumentedExample()
    ensures Serves(DirichletModel(map['a' := 1, 'b' := 1, 'c' := 1]), "aabbaacc")
    ensures Codeword(DirichletModel(map['a' := 1, 'b' := 1, 'c' := 1]), "aabbaacc") == Code
  {
    UniformCode(map['a' := 1, 'b' := 1, 'c' := 1]);
  }
}
