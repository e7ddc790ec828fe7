/** The arithmetic encoder `encode`: narrow the message interval symbol by
    symbol, keep the longest binary string whose interval surrounds it, and
    finish with a string whose interval sits inside its top half. */
module Encoder {
  import opened Dyadic
  import opened Extension
  import opened Distribution

  /** A guesser G: the distribution P(x | xs) of the next symbol given the
      message so far. */
  type Model = seq<char> --> Dist

  /** G can be asked about `xs` and each of its prefixes, and each symbol
      is one of those G gives a probability for after the symbols before
      it. */
  ghost predicate Covers(G: Model, xs: seq<char>)
    decreases |xs|
  {
    && G.requires(xs)
    && (xs != [] ==> Covers(G, xs[..|xs| - 1]) && xs[|xs| - 1] in G(xs[..|xs| - 1]))
  }

  /** Moreover each of those answers is a distribution, and it gives the
      symbol that follows a positive probability. */
  ghost predicate Serves(G: Model, xs: seq<char>)
    decreases |xs|
  {
    && Covers(G, xs)
    && (xs != [] ==>
          var prefix, x := xs[..|xs| - 1], xs[|xs| - 1];
          && Serves(G, prefix)
          && IsDistribution(G(prefix)) && G(prefix)[x] > 0.0)
  }

  lemma {:induction false} CoversPrefix(G: Model, xs: seq<char>, k: nat)
    requires Covers(G, xs) && k <= |xs|
    ensures Covers(G, xs[..k])
    decreases |xs|
  {
    if k < |xs| {
      var prefix := xs[..|xs| - 1];
      assert prefix[..k] == xs[..k];
      CoversPrefix(G, prefix, k);
    } else {
      assert xs[..k] == xs;
    }
  }

  lemma {:induction false} ServesPrefix(G: Model, xs: seq<char>, k: nat)
    requires Serves(G, xs) && k <= |xs|
    ensures Serves(G, xs[..k])
    decreases |xs|
  {
    if k < |xs| {
      var prefix := xs[..|xs| - 1];
      assert prefix[..k] == xs[..k];
      ServesPrefix(G, prefix, k);
    } else {
      assert xs[..k] == xs;
    }
  }

  /** `dirichlet(m)`: the guesser whose answer for `xs` is the predictive
      distribution of the Dirichlet model with prior counts `m`; it can be
      asked about messages of known symbols with a positive total count.
      With no prior counts at all only the empty message is known, and the
      answer is the empty distribution: nothing is divided. */
  function DirichletModel(m: map<char, nat>): Model
  {
    xs requires Known(m, xs) && (m.Keys == {} || Total(m) + |xs| > 0) => Predictive(m, xs)
  }

  /** The Dirichlet model can be asked about every message of known
      symbols, when the prior counts are not all zero. */
  lemma {:induction false} DirichletCovers(m: map<char, nat>, xs: seq<char>)
    requires Known(m, xs) && Total(m) > 0
    ensures Covers(DirichletModel(m), xs)
    decreases |xs|
  {
    if xs != [] {
      var prefix := xs[..|xs| - 1];
      assert Known(m, prefix) by {
        forall i | 0 <= i < |prefix|
          ensures prefix[i] in m
        {
          assert prefix[i] == xs[i];
        }
      }
      DirichletCovers(m, prefix);
      assert DirichletModel(m)(prefix) == Predictive(m, prefix);
    }
  }

  /** The Dirichlet model serves every message of known symbols, when the
      prior counts are not all zero and each symbol has a positive prior
      count or has occurred before. */
  lemma {:induction false} DirichletServes(m: map<char, nat>, stream: seq<char>)
    requires Known(m, stream) && Total(m) > 0
    requires forall i :: 0 <= i < |stream| ==> m[stream[i]] + Occurrences(stream[..i], stream[i]) > 0
    ensures Serves(DirichletModel(m), stream)
    decreases |stream|
  {
    DirichletCovers(m, stream);
    if stream != [] {
      var n := |stream| - 1;
      var prefix, x := stream[..n], stream[n];
      forall i | 0 <= i < n
        ensures prefix[i] == stream[i] && prefix[..i] == stream[..i]
      {
      }
      DirichletServes(m, prefix);
      DirichletAnswer(m, prefix, x);
      ServesSnoc(DirichletModel(m), stream);
    }
  }

  /** After `xs`, the Dirichlet model answers with a distribution that
      gives `x` a positive probability, when `x` has a positive prior count
      or occurs in `xs`. */
  lemma DirichletAnswer(m: map<char, nat>, xs: seq<char>, x: char)
    requires Known(m, xs) && Total(m) > 0 && x in m && m[x] + Occurrences(xs, x) > 0
    ensures DirichletModel(m).requires(xs)
    ensures IsDistribution(DirichletModel(m)(xs))
    ensures x in DirichletModel(m)(xs) && DirichletModel(m)(xs)[x] > 0.0
  {
    assert DirichletModel(m)(xs) == Predictive(m, xs);
    DirichletIsDistribution(m, xs);
    DirichletPositive(m, xs, x);
  }

  /** A message is served when its prefix is, and the answer after the
      prefix is a distribution giving the last symbol a positive
      probability. */
  lemma ServesSnoc(G: Model, xs: seq<char>)
    requires xs != [] && Covers(G, xs) && Serves(G, xs[..|xs| - 1])
    requires IsDistribution(G(xs[..|xs| - 1])) && G(xs[..|xs| - 1])[xs[|xs| - 1]] > 0.0
    ensures Serves(G, xs)
  {
  }

  /** The sub-interval [u + (v-u)lo, u + (v-u)hi) of [u, v). */
  function Narrow(u: real, v: real, lo: real, hi: real): (r: (real, real))
  {
    (u + (v - u) * lo, u + (v - u) * hi)
  }

  /** Narrowing [u, v) by a sub-interval of [0, 1) of positive width gives
      a non-empty interval inside [u, v). */
  lemma NarrowNested(u: real, v: real, lo: real, hi: real)
    requires u < v && 0.0 <= lo < hi && hi <= 1.0
    ensures var r := Narrow(u, v, lo, hi);
            u <= r.0 < r.1 <= v
  {
    var w := v - u;
    NarrowArith(w, lo, hi);
    Shifted(u, w, w * lo, w * hi);
  }

  /** Narrowing scales the width of [u, v) by the width of [lo, hi). */
  lemma NarrowWidth(u: real, v: real, lo: real, hi: real)
    ensures Narrow(u, v, lo, hi).1 - Narrow(u, v, lo, hi).0 == (v - u) * (hi - lo)
  {
    var w := v - u;
    assert w * hi - w * lo == w * (hi - lo);
  }

  /** The interval [u, v) of the message `xs`: [0, 1) narrowed, symbol by
      symbol, by the cumulative interval of each symbol under the
      distribution G gives after the symbols before it. */
  function MessageInterval(G: Model, xs: seq<char>): (r: (real, real))
    requires Covers(G, xs)
    decreases |xs|
  {
    if xs == [] then
      (0.0, 1.0)
    else
      var prefix, x := xs[..|xs| - 1], xs[|xs| - 1];
      var (u, v) := MessageInterval(G, prefix);
      var (lo, hi) := Cdf(G(prefix), x);
      Narrow(u, v, lo, hi)
  }

  /** The interval of a message is that of the message without its last
      symbol, narrowed by the cumulative interval of that symbol. */
  lemma MessageStep(G: Model, xs: seq<char>)
    requires Covers(G, xs) && xs != []
    ensures var prefix, x := xs[..|xs| - 1], xs[|xs| - 1];
            && Covers(G, prefix)
            && var (u, v) := MessageInterval(G, prefix);
               var (lo, hi) := Cdf(G(prefix), x);
               MessageInterval(G, xs) == Narrow(u, v, lo, hi)
  {
  }

  /** When G serves the message, its interval is a non-empty part of [0, 1). */
  lemma {:induction false} MessageBounds(G: Model, xs: seq<char>)
    requires Serves(G, xs)
    ensures 0.0 <= MessageInterval(G, xs).0 < MessageInterval(G, xs).1 <= 1.0
    decreases |xs|
  {
    if xs != [] {
      var prefix, x := xs[..|xs| - 1], xs[|xs| - 1];
      MessageBounds(G, prefix);
      var (u, v) := MessageInterval(G, prefix);
      var p := G(prefix);
      CdfWithinUnit(p, x);
      var (lo, hi) := Cdf(p, x);
      NarrowNested(u, v, lo, hi);
    }
  }

  /** The product of two probabilities.  `Likelihood` multiplies through
      `Times` rather than `*` so that the lemmas about it can equate its
      terms by matching `Times` terms, which are equal whenever their
      arguments are, instead of by nonlinear arithmetic. */
  function Times(a: real, b: real): real
  {
    a * b
  }

  /** P(xs): the product of the probabilities G gives each symbol. */
  function Likelihood(G: Model, xs: seq<char>): real
    requires Covers(G, xs)
    decreases |xs|
  {
    if xs == [] then
      1.0
    else
      var prefix, x := xs[..|xs| - 1], xs[|xs| - 1];
      Times(Likelihood(G, prefix), G(prefix)[x])
  }

  /** Narrowing by an interval of width q scales the width by q. */
  lemma NarrowBy(u: real, v: real, lo: real, hi: real, q: real)
    requires hi - lo == q
    ensures Narrow(u, v, lo, hi).1 - Narrow(u, v, lo, hi).0 == Times(v - u, q)
  {
    NarrowWidth(u, v, lo, hi);
  }

  /** One symbol narrows the message interval by its probability. */
  lemma MessageWidthStep(G: Model, xs: seq<char>)
    requires Covers(G, xs) && xs != []
    ensures var prefix, x := xs[..|xs| - 1], xs[|xs| - 1];
            && Covers(G, prefix)
            && MessageInterval(G, xs).1 - MessageInterval(G, xs).0
               == Times(MessageInterval(G, prefix).1 - MessageInterval(G, prefix).0, G(prefix)[x])
  {
    var prefix, x := xs[..|xs| - 1], xs[|xs| - 1];
    var (u, v) := MessageInterval(G, prefix);
    var p := G(prefix);
    var (lo, hi) := Cdf(p, x);
    MessageStep(G, xs);
    NarrowBy(u, v, lo, hi, p[x]);
  }

  /** The message interval is as wide as the message is likely. */
  lemma {:induction false} MessageWidth(G: Model, xs: seq<char>)
    requires Covers(G, xs)
    ensures MessageInterval(G, xs).1 - MessageInterval(G, xs).0 == Likelihood(G, xs)
    decreases |xs|
  {
    if xs != [] {
      var prefix, x := xs[..|xs| - 1], xs[|xs| - 1];
      MessageWidthStep(G, xs);
      MessageWidth(G, prefix);
      WidthStep(MessageInterval(G, xs).1 - MessageInterval(G, xs).0,
                MessageInterval(G, prefix).1 - MessageInterval(G, prefix).0,
                Likelihood(G, xs), Likelihood(G, prefix), G(prefix)[x]);
    }
  }

  /** The interval of a message lies within the interval of each of its
      prefixes. */
  lemma {:induction false} MessageNested(G: Model, xs: seq<char>, k: nat)
    requires Serves(G, xs) && k <= |xs|
    ensures Serves(G, xs[..k])
    ensures MessageInterval(G, xs[..k]).0 <= MessageInterval(G, xs).0
    ensures MessageInterval(G, xs).1 <= MessageInterval(G, xs[..k]).1
    decreases |xs|
  {
    ServesPrefix(G, xs, k);
    if k < |xs| {
      var prefix, x := xs[..|xs| - 1], xs[|xs| - 1];
      ServesPrefix(G, xs, |xs| - 1);
      assert prefix[..k] == xs[..k];
      MessageNested(G, prefix, k);
      MessageBounds(G, prefix);
      var (u, v) := MessageInterval(G, prefix);
      var p := G(prefix);
      CdfWithinUnit(p, x);
      var (lo, hi) := Cdf(p, x);
      NarrowNested(u, v, lo, hi);
    } else {
      assert xs[..k] == xs;
    }
  }

  lemma AroundEmpty(u: real, v: real)
    requires 0.0 <= u && v <= 1.0
    ensures Around([], u, v)
  {
    assert BinaryInterval([]) == Interval(0, 1, 1);
  }

  lemma ContainsMeetsTop(n: int, m: int, d: int, u: real, v: real, mid: real)
    requires d > 0 && Contains(n, m, d, u, v) && u <= mid < v
    ensures Meets(n, m, d, mid, v)
  {
    var e := d as real;
    ScaleLe(u, mid, e);
    ScaleLt(mid, v, e);
    Chain(n as real, u * e, mid * e, v * e, m as real);
  }

  /** A string whose interval surrounds [u, v) meets its top part [mid, v). */
  lemma AroundOverlapsTop(bs: Bits, u: real, v: real, mid: real)
    requires Around(bs, u, v) && u <= mid < v
    ensures Overlaps(bs, mid, v)
  {
    var iv := BinaryInterval(bs);
    ContainsMeetsTop(iv.n, iv.m, iv.d, u, v, mid);
  }

  lemma WithinWider(n: int, m: int, d: int, u: real, mid: real, v: real)
    requires d > 0 && Within(n, m, d, mid, v) && u <= mid
    ensures Within(n, m, d, u, v)
  {
    ScaleLe(u, mid, d as real);
  }

  /** An interval inside [mid, v) is inside any wider [u, v). */
  lemma InsideWider(bs: Bits, u: real, mid: real, v: real)
    requires Inside(bs, mid, v) && u <= mid
    ensures Inside(bs, u, v)
  {
    var iv := BinaryInterval(bs);
    WithinWider(iv.n, iv.m, iv.d, u, mid, v);
  }

  /** The code `encode` outputs for `stream`: the longest string whose
      interval surrounds the message interval [u, v), extended greedily
      until its interval sits inside the top half of [u, v). */
  function Codeword(G: Model, stream: seq<char>): Bits
    requires Serves(G, stream)
  {
    MessageBounds(G, stream);
    var (u, v) := MessageInterval(G, stream);
    var mid := u + (v - u) / 2.0;
    AroundEmpty(u, v);
    var b0 := LongestAround([], u, v);
    AroundOverlapsTop(b0, u, v, mid);
    GreedyInside(b0, mid, v)
  }

  /** The code extends the longest string surrounding the message interval,
      and its own interval lies inside the top half of the message interval,
      hence inside the message interval itself. */
  lemma CodewordInside(G: Model, stream: seq<char>)
    requires Serves(G, stream)
    ensures var (u, v) := MessageInterval(G, stream);
            && 0.0 <= u < v <= 1.0
            && LongestAround([], u, v) <= Codeword(G, stream)
            && Inside(Codeword(G, stream), u + (v - u) / 2.0, v)
            && Inside(Codeword(G, stream), u, v)
  {
    MessageBounds(G, stream);
    var (u, v) := MessageInterval(G, stream);
    var mid := u + (v - u) / 2.0;
    AroundEmpty(u, v);
    var b0 := LongestAround([], u, v);
    AroundOverlapsTop(b0, u, v, mid);
    var c := GreedyInside(b0, mid, v);
    assert Codeword(G, stream) == c;
    InsideWider(c, u, mid, v);
  }

  /** The length promise of arithmetic coding: P(stream), the product of the
      probabilities the guesser gave each symbol, is below 8 · 2^-|code|, so
      the code is less than -log2 P(stream) + 3 bits long. */
  lemma CodewordLength(G: Model, stream: seq<char>)
    requires Serves(G, stream)
    ensures Likelihood(G, stream) < 8.0 * Width(Codeword(G, stream))
  {
    MessageBounds(G, stream);
    MessageWidth(G, stream);
    var u, v := MessageInterval(G, stream).0, MessageInterval(G, stream).1;
    CodeWidth(G, stream, u, v, Codeword(G, stream));
  }

  /** The message interval [u, v) is less than 8 code-interval widths wide. */
  lemma CodeWidth(G: Model, stream: seq<char>, u: real, v: real, code: Bits)
    requires Serves(G, stream) && (u, v) == MessageInterval(G, stream) && u < v
    requires code == Codeword(G, stream)
    ensures v - u < 8.0 * Width(code)
  {
    var mid := u + (v - u) / 2.0;
    var b0 := LongestAround([], u, v);
    EncodeFinish(G, stream, u, v, b0, mid);
    MessageBounds(G, stream);
    AroundEmpty(u, v);
    GreedyLength(b0, u, v, mid, code);
    InWidths(code, u, v);
  }

  /** Narrowing [u, v) does not change where the search for the longest
      surrounding string ends when it starts from that of [u, v). */
  lemma LongestAroundNarrower(bs: Bits, u: real, v: real, u': real, v': real)
    requires 0.0 <= u <= u' < v' <= v <= 1.0 && bs == LongestAround([], u, v)
    ensures LongestAround(bs, u', v') == LongestAround([], u', v')
  {
    AroundEmpty(u, v);
    AroundEmpty(u', v');
    AroundNarrower(bs, u, v, u', v');
    LongestAroundCanonical(bs, [], u', v');
  }

  /** One symbol of `encode`: the symbol has positive probability, the
      interval narrowed by its cdf interval is the interval of the longer
      message, and the string kept so far still surrounds it, so extending
      it gives the longest string that does. */
  lemma EncodeStep(G: Model, stream: seq<char>, i: nat, bs: Bits, u: real, v: real)
    requires Serves(G, stream) && i < |stream| && Covers(G, stream[..i])
    requires (u, v) == MessageInterval(G, stream[..i]) && u < v
    requires bs == LongestAround([], u, v)
    ensures Covers(G, stream[..i + 1])
    ensures stream[i] in G(stream[..i]) && G(stream[..i])[stream[i]] > 0.0
    ensures var (lo, hi) := Cdf(G(stream[..i]), stream[i]);
            var r := Narrow(u, v, lo, hi);
            && r == MessageInterval(G, stream[..i + 1])
            && 0.0 <= r.0 < r.1 <= 1.0
            && LongestAround(bs, r.0, r.1) == LongestAround([], r.0, r.1)
  {
    var xs := stream[..i + 1];
    ServesPrefix(G, stream, i);
    ServesPrefix(G, stream, i + 1);
    assert xs[..i] == stream[..i] && xs[i] == stream[i];
    var (lo, hi) := Cdf(G(stream[..i]), stream[i]);
    var r := Narrow(u, v, lo, hi);
    MessageStep(G, xs);
    MessageBounds(G, stream[..i]);
    MessageBounds(G, xs);
    MessageNested(G, xs, i);
    LongestAroundNarrower(bs, u, v, r.0, r.1);
  }

  /** Appending the next symbol of a stream to its prefix. */
  lemma Snoc(s: seq<char>, i: nat)
    requires i < |s|
    ensures s[..i] + [s[i]] == s[..i + 1]
  {
    assert s[..i + 1][..i] == s[..i];
  }

  /** The state (u, v, bs) of `encode` after the first `i` symbols of the
      stream, step by step as its loop computes it. */
  ghost function Progress(G: Model, stream: seq<char>, i: nat): (real, real, Bits)
    requires Covers(G, stream) && i <= |stream|
    decreases i
  {
    if i == 0 then
      (0.0, 1.0, [])
    else
      var (u, v, bs) := Progress(G, stream, i - 1);
      CoversPrefix(G, stream, i - 1);
      var (lo, hi) := Cdf(G(stream[..i - 1]), stream[i - 1]);
      var (u', v') := Narrow(u, v, lo, hi);
      // Under Serves the narrowed interval is never empty (ProgressIs), so
      // the `else` branch, which only makes the function total, is never taken.
      (u', v', if u' < v' then LongestAround(bs, u', v') else bs)
  }

  /** Nothing surrounds [0, 1) but the empty string. */
  lemma AroundUnit()
    ensures LongestAround([], 0.0, 1.0) == []
  {
    assert !Around([false], 0.0, 1.0) && !Around([true], 0.0, 1.0);
  }

  /** After `i` symbols, `encode` holds the interval of those symbols and
      the longest string surrounding it. */
  lemma {:induction false} ProgressIs(G: Model, stream: seq<char>, i: nat)
    requires Serves(G, stream) && i <= |stream|
    ensures Covers(G, stream[..i])
    ensures var (u, v) := MessageInterval(G, stream[..i]);
            && 0.0 <= u < v <= 1.0
            && Progress(G, stream, i) == (u, v, LongestAround([], u, v))
    decreases i
  {
    if i == 0 {
      assert stream[..0] == [];
      AroundUnit();
    } else {
      ProgressIs(G, stream, i - 1);
      var (u, v) := MessageInterval(G, stream[..i - 1]);
      EncodeStep(G, stream, i - 1, LongestAround([], u, v), u, v);
    }
    ServesPrefix(G, stream, i);
  }

  /** After every symbol the string `encode` keeps surrounds the interval
      it holds, and neither of its one-bit extensions does. */
  lemma ProgressAround(G: Model, stream: seq<char>, i: nat)
    requires Serves(G, stream) && i <= |stream|
    ensures var (u, v, bs) := Progress(G, stream, i);
            && 0.0 <= u < v <= 1.0
            && Around(bs, u, v) && !Around(bs + [false], u, v) && !Around(bs + [true], u, v)
  {
    ProgressIs(G, stream, i);
    var (u, v) := MessageInterval(G, stream[..i]);
    AroundEmpty(u, v);
  }

  /** Before each symbol, the interval `encode` holds is not empty and the
      symbol has positive probability. */
  lemma ProgressNext(G: Model, stream: seq<char>, i: nat)
    requires Serves(G, stream) && i < |stream|
    ensures var (u, v, bs) := Progress(G, stream, i);
            && u < v
            && Covers(G, stream[..i])
            && stream[i] in G(stream[..i]) && G(stream[..i])[stream[i]] > 0.0
  {
    ProgressIs(G, stream, i);
    var (u, v) := MessageInterval(G, stream[..i]);
    EncodeStep(G, stream, i, LongestAround([], u, v), u, v);
  }

  /** At the end of the stream, `encode` holds the interval of the whole
      message and the longest string surrounding it. */
  lemma ProgressEnd(G: Model, stream: seq<char>)
    requires Serves(G, stream)
    ensures var (u, v) := MessageInterval(G, stream);
            && 0.0 <= u < v <= 1.0
            && Progress(G, stream, |stream|) == (u, v, LongestAround([], u, v))
  {
    ProgressIs(G, stream, |stream|);
    assert stream[..|stream|] == stream;
  }

  /** The end of `encode`: the top half of the message interval is not
      empty, the longest string surrounding the message interval meets it,
      and extending that string greedily into it gives the code. */
  lemma EncodeFinish(G: Model, stream: seq<char>, u: real, v: real, bs: Bits, mid: real)
    requires Serves(G, stream)
    requires (u, v) == MessageInterval(G, stream) && u < v && bs == LongestAround([], u, v)
    requires mid == u + (v - u) / 2.0
    ensures mid < v && Overlaps(bs, mid, v)
    ensures GreedyInside(bs, mid, v) == Codeword(G, stream)
  {
    MessageBounds(G, stream);
    TopOverlap(u, v, bs, mid);
  }

  /** The longest string surrounding [u, v) within [0, 1] meets its top half. */
  lemma TopOverlap(u: real, v: real, bs: Bits, mid: real)
    requires 0.0 <= u < v <= 1.0 && bs == LongestAround([], u, v)
    requires mid == u + (v - u) / 2.0
    ensures mid < v && Overlaps(bs, mid, v)
  {
    AroundEmpty(u, v);
    AroundOverlapsTop(bs, u, v, mid);
  }

  /** Narrowing a non-empty interval by a non-empty one keeps it non-empty. */
  lemma NarrowNonEmpty(u: real, v: real, lo: real, hi: real)
    requires u < v && lo < hi
    ensures Narrow(u, v, lo, hi).0 < Narrow(u, v, lo, hi).1
  {
    var w := v - u;
    ScaleLt(lo, hi, w);
    var r := Narrow(u, v, lo, hi);
    assert r.0 == u + w * lo && r.1 == u + w * hi;
  }

  /** The body of the loop of `encode` for the symbol `x`: narrow the message
      interval by the cdf interval of `x` and extend the code as far as it
      still surrounds the narrowed interval. */
  method EncodeSymbol(p: Dist, x: char, u: real, v: real, bs: Bits) returns (u': real, v': real, bs': Bits)
    requires u < v && x in p && p[x] > 0.0
    ensures (u', v') == Narrow(u, v, Cdf(p, x).0, Cdf(p, x).1) && u' < v'
    ensures bs' == LongestAround(bs, u', v')
  {
    var lo, hi := CdfInterval(p, x);
    u', v' := u + (v - u) * lo, u + (v - u) * hi;
    NarrowNonEmpty(u, v, lo, hi);
    bs' := ExtendAround(bs, u', v');
  }

  /** `encode(G, stream)`. */
  method Encode(G: Model, stream: seq<char>) returns (bs: Bits)
    requires Serves(G, stream)
    ensures bs == Codeword(G, stream)
  {
    var u, v := 0.0, 1.0;
    var xs: seq<char> := [];
    bs := [];
    CoversPrefix(G, stream, 0);
    assert stream[..0] == xs;
    var p := G(xs);
    for i := 0 to |stream|
      invariant xs == stream[..i] && G.requires(xs) && p == G(xs)
      invariant (u, v, bs) == Progress(G, stream, i)
    {
      var x := stream[i];
      ProgressNext(G, stream, i);
      u, v, bs := EncodeSymbol(p, x, u, v, bs);
      Snoc(stream, i);
      xs := xs + [x];
      CoversPrefix(G, stream, i + 1);
      p := G(xs);
    }
    var mid := u + (v - u) / 2.0;
    ProgressEnd(G, stream);
    EncodeFinish(G, stream, u, v, bs, mid);
    bs := ExtendInside(bs, mid, v);
  }

  // ---------------------------------------------------------------------
  // The code of a message with only one possible symbol

  /** From [0, 1), extending the empty string into the top half [1/2, 1)
      takes the single bit '1'. */
  lemma UnitCode()
    ensures GreedyInside([], 0.5, 1.0) == [true]
  {
    var c := InitialSlack([], 0.5, 1.0);
    assert BinaryInterval([]) == Interval(0, 1, 1);
    assert !Inside([], 0.5, 1.0) && NextBit([], 0.5, 1.0);
    SlackStep([], 0.5, 1.0, c);
    assert [] + [true] == [true];
    assert BinaryInterval([true]) == Interval(1, 2, 2) by {
      BinaryIntervalAppend([], true);
    }
    assert Inside([true], 0.5, 1.0);
  }

  /** The code of the empty stream is "1", whatever the guesser. */
  lemma EmptyStreamCode(G: Model)
    requires G.requires([])
    ensures Serves(G, []) && Codeword(G, []) == [true]
  {
    AroundUnit();
    UnitCode();
  }

  /** `dirichlet({})` answers the empty message with the empty distribution,
      and the empty stream is coded as "1" under it. */
  lemma EmptyPriorsCode()
    ensures DirichletModel(map[])([]) == map[]
    ensures Serves(DirichletModel(map[]), []) && Codeword(DirichletModel(map[]), []) == [true]
  {
    EmptyStreamCode(DirichletModel(map[]));
  }

  lemma SortedSingleton(x: char)
    ensures SortedKeys({x}) == [x]
  {
    assert Least({x}) == x;
    assert {x} - {x} == {};
  }

  lemma TotalSingleton(k: nat, x: char)
    ensures Total(map[x := k]) == k
  {
    var m := map[x := k];
    assert m.Keys == {x};
    SortedSingleton(x);
    assert [x][..0] == [];
    assert SumCounts([x], m) == SumCounts([], m) + m[x];
  }

  /** With prior counts for `x` alone, the Dirichlet model gives `x`
      probability one after any message made of `x`. */
  lemma SingleSymbolPredictive(k: nat, x: char, xs: seq<char>)
    requires k > 0 && Only(xs, x)
    ensures Total(map[x := k]) + |xs| > 0
    ensures var p := Predictive(map[x := k], xs);
            p.Keys == {x} && p[x] == 1.0
  {
    var m := map[x := k];
    TotalSingleton(k, x);
    OccurrencesOnly(xs, x);
    var t := (k + |xs|) as real;
    assert m.Keys == {x};
    assert Predictive(m, xs)[x] == t / t;
    Ratio(t, t);
  }

  /** With prior counts for `x` alone, the Dirichlet model serves every
      message made of `x`. */
  lemma SingleSymbolServes(k: nat, x: char, stream: seq<char>)
    requires k > 0 && Only(stream, x)
    ensures Serves(DirichletModel(map[x := k]), stream)
  {
    TotalSingleton(k, x);
    DirichletServes(map[x := k], stream);
  }

  /** A distribution that puts all its mass on one symbol gives that
      symbol the whole of [0, 1). */
  lemma SoleSymbolCdf(p: Dist, x: char)
    requires p.Keys == {x} && p[x] == 1.0
    ensures Cdf(p, x) == (0.0, 1.0)
  {
    SortedSingleton(x);
    assert IndexOf([x], x) == 0;
    assert [x][..0] == [] && [x][..1] == [x];
  }

  /** A stream made of one symbol `x` only. */
  predicate Only(stream: seq<char>, x: char)
  {
    forall i :: 0 <= i < |stream| ==> stream[i] == x
  }

  lemma {:induction false} OccurrencesOnly(xs: seq<char>, x: char)
    requires Only(xs, x)
    ensures Occurrences(xs, x) == |xs|
    decreases |xs|
  {
    if xs != [] {
      OccurrencesOnly(xs[..|xs| - 1], x);
    }
  }

  /** With prior counts for `x` alone, every message made of `x` keeps the
      whole interval [0, 1). */
  lemma {:induction false} SingleSymbolInterval(k: nat, x: char, stream: seq<char>)
    requires k > 0 && Only(stream, x)
    ensures Serves(DirichletModel(map[x := k]), stream)
    ensures MessageInterval(DirichletModel(map[x := k]), stream) == (0.0, 1.0)
    decreases |stream|
  {
    var m := map[x := k];
    var G := DirichletModel(m);
    SingleSymbolServes(k, x, stream);
    if stream != [] {
      var prefix := stream[..|stream| - 1];
      SingleSymbolInterval(k, x, prefix);
      SingleSymbolPredictive(k, x, prefix);
      var p := G(prefix);
      assert p == Predictive(m, prefix);
      SoleSymbolCdf(p, x);
      MessageStep(G, stream);
    }
  }

  /** With prior counts for `x` alone, every stream made of `x` is coded
      as "1". */
  lemma SingleSymbolCode(k: nat, x: char, stream: seq<char>)
    requires k > 0 && Only(stream, x)
    ensures Serves(DirichletModel(map[x := k]), stream)
    ensures Codeword(DirichletModel(map[x := k]), stream) == [true]
  {
    SingleSymbolInterval(k, x, stream);
    AroundUnit();
    UnitCode();
  }

  // Helpers for nonlinear arithmetic.  Each states one step, over
  // plain numbers, that the solver does not find by itself inside the
  // proofs above: they are called with products and quotients as arguments
  // so that those proofs stay linear.

  lemma NarrowArith(w: real, lo: real, hi: real)
    requires w > 0.0 && 0.0 <= lo < hi && hi <= 1.0
    ensures 0.0 <= w * lo
    ensures w * lo < w * hi
    ensures w * hi <= w
    ensures w * hi - w * lo == w * (hi - lo)
  {
    ScaleLe(0.0, lo, w);
    ScaleLt(lo, hi, w);
    ScaleLe(hi, 1.0, w);
  }

  lemma Shifted(u: real, w: real, a: real, b: real)
    requires 0.0 <= a < b <= w
    ensures u <= u + a < u + b <= u + w
  {
  }

  lemma Chain(a: real, b: real, c: real, d: real, f: real)
    requires a <= b <= c < d <= f
    ensures a < d && c < f
  {
  }

  lemma WidthStep(w: real, w0: real, l: real, l0: real, q: real)
    requires w == Times(w0, q) && w0 == l0 && l == Times(l0, q)
    ensures w == l
  {
  }
}
