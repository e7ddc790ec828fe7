# A verified model of a simple arithmetic encoder

This project models `arithmetic.py`, a small binary arithmetic encoder after
Witten, Neal and Cleary ("Arithmetic Coding for Data Compression", CACM 30(6),
1987). The encoder keeps a message interval `[u, v)` inside `[0, 1)`. For each
symbol it narrows `[u, v)` to the part that the symbol's cumulative interval
selects. It then extends the binary code as far as the code's own dyadic
interval still surrounds `[u, v)`. At the end it appends bits until the code's
interval sits inside the top half of `[u, v)`.

The model has five modules, one file each:

- `dyadic.dfy` (`Dyadic`): `to_rational` as the loop `ToRational`, proved
  against the numeral value `Value`. `binary_interval` is `BinaryInterval`.
  `around` and `inside` are the predicates `Around` and `Inside`. The lemmas
  cover the halving of intervals and the prefix order on surrounding strings.
- `extension.dfy` (`Extension`): `extend_around` as the loop `ExtendAround`,
  proved against the function `LongestAround`. `extend_inside` as the loop
  `ExtendInside`, proved against the greedy walk `GreedyInside`. Its
  termination rests on a slack that every greedy bit keeps.
- `distribution.dfy` (`Distribution`): `cdf_interval` as the loop
  `CdfInterval` with its early exit, proved against `Cdf`. The closed form of
  `Cdf` is the probability mass of the symbols sorted before the symbol.
  `dirichlet`'s inner `p` is the loop `Dirichlet`, proved against `Predictive`,
  which is a probability distribution whenever every symbol is a key and the
  total count is positive (`DirichletIsDistribution`). With the empty prior
  map, `p("")` is the empty map, which is not one.
- `encoder.dfy` (`Encoder`): `encode` as the loop `Encode`. It is proved to
  return `Codeword`, the code defined from the message interval
  `MessageInterval`. The guesser `G` is a partial function from messages to
  distributions. `dirichlet(m)` is the guesser `DirichletModel(m)`.
  `CodewordLength` bounds the code's length: it is shorter than
  -log2 P(stream) + 3 bits, where P(stream) is the product of the
  probabilities the guesser gave each symbol.
- `example.dfy` (`Example`): the usage session at the top of the file. With
  the priors `{a: 1, b: 1, c: 1}`, `"aabbaacc"` is coded as
  `"00011110011110010"`. The proof follows the message interval symbol by
  symbol to `[2249/18900, 5/42)`, then the twelve bits that surround it, then
  the five greedy bits towards its top half.

Numbers are exact: `u`, `v` and the probabilities are `real`, and the prior
counts are `nat`. Bit strings are `seq<bool>`, with `true` for `'1'`.

For the prior `{a: 1}` and the stream `"aaaa"` the interval stays `[0, 1)`,
the longest surrounding string is empty, and `extend_inside` appends `'1'` to
reach the top half `[1/2, 1)`, so the code is `"1"` (`SingleSymbolCode`). The
empty stream is coded as `"1"` under every guesser (`EmptyStreamCode`).

## Model

| member | source | states |
|---|---|---|
| Dyadic.Value | arithmetic.py:119-126 | the numerator of 0.bs is below 2^\|bs\| |
| Dyadic.Horner | arithmetic.py:122-124 | appending a bit doubles the numerator and adds the bit |
| Dyadic.ValueConcat | arithmetic.py:119-126 | the numerator of a concatenation is the first numerator shifted by the second's length, plus the second |
| Dyadic.ValueInjective | arithmetic.py:119-126 | two strings of one length with one numerator are equal |
| Dyadic.ToRational | arithmetic.py:119-126 | the loop returns the numeral value of bs and d = 2^\|bs\|, with n < d |
| Dyadic.BinaryInterval | arithmetic.py:110-117 | m = n + 1, m <= d, and d = 2^\|bs\| |
| Dyadic.BinaryIntervalAppend | arithmetic.py:110-126 | appending '0' gives (2n, 2n+1, 2d); appending '1' gives (2n+1, 2n+2, 2d) |
| Dyadic.BinaryIntervalConcat | arithmetic.py:110-126 | the interval of bs + ext is the interval of bs refined by ext |
| Dyadic.Around | arithmetic.py:128-131 | `around`: the interval [n/d, m/d) of bs contains [u, v), that is n <= u·d and v·d <= m |
| Dyadic.Inside | arithmetic.py:148-151 | `inside`: [u, v) contains the interval of bs, that is u·d <= n and m <= v·d |
| Dyadic.Bit | arithmetic.py:124 | int(b): 1 for '1', 0 for '0' |
| Dyadic.Width | arithmetic.py:110-126 | the width 2^-\|bs\| of the interval of bs is positive |
| Dyadic.AroundPrefix | arithmetic.py:128-131 | when an extension of bs surrounds [u, v), so does bs |
| Dyadic.AroundWidth | arithmetic.py:128-131 | a surrounding string has 2^\|bs\|·(v − u) <= 1 |
| Dyadic.AroundNarrower | arithmetic.py:128-131 | a string surrounding [u, v) surrounds every sub-interval |
| Dyadic.AroundUnique | arithmetic.py:128-131 | at one length, at most one string surrounds a non-empty [u, v) |
| Dyadic.AroundChain | arithmetic.py:128-131 | the strings surrounding a non-empty [u, v) are prefixes of one another |
| Dyadic.AroundWithinHorizon | arithmetic.py:133-146 | strings surrounding [u, v) are shorter than a bound fixed by v − u; this bounds extend_around's loop |
| Extension.LongestAround | arithmetic.py:133-146 | the result extends bs; it surrounds [u, v) exactly when bs does; neither one-bit extension surrounds [u, v) |
| Extension.LongestAroundIsLongest | arithmetic.py:133-146 | from a surrounding bs, every string that surrounds [u, v) is a prefix of the result |
| Extension.LongerAroundExtends | arithmetic.py:139-142 | a longer surrounding string shows that one of the two one-bit extensions surrounds [u, v) |
| Extension.LongestAroundCanonical | arithmetic.py:133-146 | the result does not depend on which surrounding string the search starts from |
| Extension.MaximalAround | arithmetic.py:133-146 | a string that surrounds [u, v) while neither one-bit extension does is the result from every surrounding start |
| Extension.ExtendAround | arithmetic.py:133-146 | the while loop terminates when u < v and returns LongestAround(bs, u, v) |
| Extension.Lopsided | arithmetic.py:161 | the gap at the bottom, u·d − n, exceeds the gap at the top, m − v·d |
| Extension.NextBit | arithmetic.py:160-164 | the bit extend_inside appends: '1' exactly when the interval of bs is lopsided towards the bottom |
| Extension.SlackStep | arithmetic.py:157-164 | the bit the loop appends keeps a slack c between the code's interval and [u, v) |
| Extension.SlackBelowHorizon | arithmetic.py:157-164 | with slack c, a string not yet inside [u, v) is shorter than a bound fixed by c |
| Extension.InsideFrom | arithmetic.py:153-166 | the greedy walk returns an extension of bs whose interval is inside [u, v) |
| Extension.InitialSlack | arithmetic.py:153-166 | a string whose interval meets a non-empty [u, v) has a slack |
| Extension.GreedyInside | arithmetic.py:153-166 | the result extends bs and its interval lies inside [u, v) |
| Extension.InsideFromSteps | arithmetic.py:157-164 | each appended bit is '1' exactly when u·d − n > m − v·d; no earlier string on the walk is inside [u, v) |
| Extension.InsideFromAnySlack | arithmetic.py:153-166 | the walk's result does not depend on the slack that bounds it |
| Extension.InsideFromWalk | arithmetic.py:153-166 | conversely, a string inside [u, v) reached from bs by greedy bits, with no string inside [u, v) on the way, is the walk's result |
| Extension.ExtendInside | arithmetic.py:153-166 | the while loop terminates and returns GreedyInside(bs, u, v) |
| Extension.InsideFromLength | arithmetic.py:157-166 | the walk under a slack c either appends nothing or ends at a string r with 2^\|r\|·c < 2 |
| Extension.ScaleAfterStep | arithmetic.py:157-164 | one bit past a string not yet inside [u, v) under a slack c, 2^\|r\|·c < 2 |
| Extension.TopSlack | arithmetic.py:60-62 | a string surrounding [u, v) reaches the top half [mid, v) with a slack of (v − u)/4 |
| Extension.TopSlackArith | arithmetic.py:60-62 | the same in numbers: an interval [n/d, (n+1)/d) containing [u, v) keeps a slack of (v − u)/4 towards [mid, v) |
| Extension.QuarterSlack | arithmetic.py:153-166 | from a string surrounding [u, v), the walk into the top half keeps a slack of (v − u)/4 and returns GreedyInside |
| Extension.QuarterWalkLength | arithmetic.py:153-166 | a walk with slack (v − u)/4 from a string with 2^\|bs\|·(v − u) <= 1 ends at r with 2^\|r\|·(v − u) < 8 |
| Extension.GreedyLength | arithmetic.py:153-166 | from a string surrounding [u, v), extend_inside into the top half ends at r with 2^\|r\|·(v − u) < 8 |
| Extension.InsideNeedsOverlap | arithmetic.py:153-166 | only a string whose interval meets a non-empty [u, v) has an extension inside it |
| Distribution.Least | arithmetic.py:102 | the smallest symbol of a non-empty set |
| Distribution.SortedKeys | arithmetic.py:102 | sorted(p) has one entry per key, and every entry is a key |
| Distribution.SortedKeysSorted | arithmetic.py:102 | sorted(p) is strictly increasing |
| Distribution.SortedKeysComplete | arithmetic.py:102 | every key occurs in sorted(p) |
| Distribution.IndexOf | arithmetic.py:103-106 | the position where the scan stops: the first occurrence of a, or the end |
| Distribution.RankOfKey | arithmetic.py:103-106 | the scan stops at a key of p before running off the end |
| Distribution.Cdf | arithmetic.py:93-108 | F_hi = F_lo + p[a] for every symbol of p |
| Distribution.CdfAt | arithmetic.py:100-108 | for the k-th smallest symbol, F_lo is the mass of the k symbols before it and F_hi the mass up to it |
| Distribution.CdfInterval | arithmetic.py:93-108 | the loop with its early break returns Cdf(p, a) |
| Distribution.MassNonNegative | arithmetic.py:103-104 | non-negative probabilities have a non-negative running sum |
| Distribution.MassMonotone | arithmetic.py:103-104 | with non-negative probabilities the running sum only grows |
| Distribution.CdfWithinUnit | arithmetic.py:93-108 | under a distribution, 0 <= F_lo <= F_hi <= 1 |
| Distribution.CdfTiles | arithmetic.py:93-108 | the intervals of the sorted symbols start at 0, abut, and end at the total mass |
| Distribution.CdfOrdered | arithmetic.py:93-108 | a smaller symbol's interval ends before a larger symbol's starts |
| Distribution.Mass | arithmetic.py:103-104 | the running sum F_hi: the probabilities of a sequence of symbols added up in order |
| Distribution.Total | arithmetic.py:84 | sum(counts.values()): the counts added up over the sorted keys |
| Distribution.Predictive | arithmetic.py:79-85 | the distribution has exactly the keys of the prior counts; it is defined when there are no prior counts or the total count is positive, which excludes only a division by zero |
| Distribution.CountsTotal | arithmetic.py:80-84 | counting xs onto the priors raises the total by \|xs\| |
| Distribution.SumCountsBump | arithmetic.py:82-84 | raising one count by one raises the sum by one |
| Distribution.MassOfRatios | arithmetic.py:84-85 | the mass of counts divided by t is their sum divided by t |
| Distribution.DirichletIsDistribution | arithmetic.py:79-85 | with known symbols and a positive total, the probabilities are non-negative and sum to 1 |
| Distribution.DirichletPositive | arithmetic.py:79-85 | a symbol's probability is positive exactly when its prior count plus its occurrences is positive |
| Distribution.CountStep | arithmetic.py:81-82 | `counts[x] += 1` keeps each count equal to its prior plus its occurrences in the symbols read so far |
| Distribution.Normalized | arithmetic.py:84-85 | dividing the final counts by their total gives Predictive(m, xs), and there is a positive total whenever there are counts |
| Distribution.Dirichlet | arithmetic.py:79-85 | the copy-and-count loop returns (m[a] + occurrences of a) / (Total(m) + \|xs\|) for each key a, and the empty distribution for empty priors |
| Encoder.DirichletModel | arithmetic.py:69-88 | dirichlet(m) as a guesser: it answers messages of known symbols when there are no priors or the total count is positive, with Predictive(m, xs) |
| Encoder.Narrow | arithmetic.py:52 | u, v become u + (v − u)·F_lo and u + (v − u)·F_hi |
| Encoder.MessageInterval | arithmetic.py:40-58 | the message interval: [0, 1) narrowed by each symbol's cdf interval in turn |
| Encoder.Likelihood | arithmetic.py:42-58 | the product of the probabilities P(x_i \| x_<i) the guesser gave the symbols |
| Encoder.CoversPrefix | arithmetic.py:42-58 | a guesser that can be asked about a message can be asked about each of its prefixes |
| Encoder.ServesPrefix | arithmetic.py:42-58 | a guesser that serves a message serves each of its prefixes |
| Encoder.DirichletServes | arithmetic.py:69-88 | dirichlet(m) serves a stream of known symbols when the priors are not all zero and each symbol has a positive prior or has occurred before |
| Encoder.DirichletAnswer | arithmetic.py:79-85 | after known symbols with a positive prior total, dirichlet(m) answers with a distribution that gives a symbol positive probability when its prior count plus occurrences is positive |
| Encoder.ServesSnoc | arithmetic.py:46-58 | a message is served when its prefix is and the answer after the prefix is a distribution giving the last symbol positive probability |
| Encoder.DirichletCovers | arithmetic.py:69-88 | dirichlet(m) answers every message of known symbols when the priors are not all zero |
| Encoder.NarrowNested | arithmetic.py:52 | narrowing [u, v) by [lo, hi) within [0, 1] with lo < hi gives a non-empty sub-interval of [u, v) |
| Encoder.NarrowWidth | arithmetic.py:52 | narrowing scales the width by hi − lo |
| Encoder.NarrowNonEmpty | arithmetic.py:52 | narrowing a non-empty interval by a non-empty one keeps it non-empty |
| Encoder.MessageStep | arithmetic.py:50-52 | a message's interval is its prefix's interval narrowed by the last symbol's cdf interval |
| Encoder.MessageBounds | arithmetic.py:40-58 | a served message has a non-empty interval within [0, 1] |
| Encoder.MessageWidthStep | arithmetic.py:52 | one symbol multiplies the width by its probability |
| Encoder.MessageWidth | arithmetic.py:40-58 | the message interval is exactly as wide as the product of the symbols' probabilities |
| Encoder.MessageNested | arithmetic.py:46-58 | a message's interval lies within the interval of each of its prefixes |
| Encoder.AroundEmpty | arithmetic.py:41 | the empty code surrounds every interval within [0, 1] |
| Encoder.AroundOverlapsTop | arithmetic.py:60-62 | a string surrounding [u, v) meets its top half, so extend_inside can start from it |
| Encoder.InsideWider | arithmetic.py:60-64 | an interval inside the top half of [u, v) is inside [u, v) |
| Encoder.CodewordInside | arithmetic.py:60-64 | the code extends the longest string around the message interval and sits inside both the top half and the whole interval |
| Encoder.Codeword | arithmetic.py:34-64 | the code: extend_inside into the top half, from the longest string surrounding the message interval |
| Encoder.CodeWidth | arithmetic.py:60-64 | the message interval is less than 8 widths of the code's interval wide |
| Encoder.CodewordLength | arithmetic.py:34-64 | P(stream) < 8 · 2^-\|code\|: the code is shorter than −log2 P(stream) + 3 bits |
| Encoder.EncodeStep | arithmetic.py:46-58 | each symbol has positive probability, the narrowed interval is the longer message's, and extending the kept string gives the longest one around it |
| Encoder.AroundUnit | arithmetic.py:40-41 | no string but the empty one surrounds [0, 1) |
| Encoder.Progress | arithmetic.py:46-55 | the loop state after i symbols: one narrowing and one extend_around per symbol; the branch for an empty interval is never taken under Serves (ProgressIs) |
| Encoder.ProgressIs | arithmetic.py:40-58 | after i symbols the loop holds the interval of the first i symbols and the longest string surrounding it |
| Encoder.ProgressAround | arithmetic.py:54-55 | after every iteration the kept code surrounds [u, v) and neither one-bit extension does |
| Encoder.ProgressNext | arithmetic.py:46-52 | before each symbol the held interval is non-empty and the symbol has positive probability |
| Encoder.ProgressEnd | arithmetic.py:46-58 | after the loop, the state is the whole message's interval and its longest surrounding string |
| Encoder.TopOverlap | arithmetic.py:60-62 | the top half of a non-empty [u, v) within [0, 1] is non-empty, and the longest string around [u, v) meets it |
| Encoder.EncodeFinish | arithmetic.py:60-64 | the top half is non-empty, the kept code meets it, and extending it greedily gives the code |
| Encoder.EncodeSymbol | arithmetic.py:50-55 | one pass of the loop: the interval narrowed by the symbol's cdf interval, still non-empty, and the code extended around it |
| Encoder.Encode | arithmetic.py:34-64 | encode returns Codeword(G, stream) |
| Encoder.UnitCode | arithmetic.py:153-166 | from the empty string, extend_inside into [1/2, 1) appends exactly '1' |
| Encoder.EmptyStreamCode | arithmetic.py:34-64 | the empty stream is coded as "1" under any guesser |
| Encoder.SoleSymbolCdf | arithmetic.py:93-108 | a distribution with all mass on one symbol gives it the interval [0, 1) |
| Encoder.SingleSymbolPredictive | arithmetic.py:79-85 | with priors for x alone, dirichlet gives x probability 1 after any run of x |
| Encoder.SingleSymbolServes | arithmetic.py:69-88 | with priors for x alone, dirichlet serves every run of x |
| Encoder.SingleSymbolInterval | arithmetic.py:40-58 | with priors for x alone, every run of x keeps the message interval [0, 1) |
| Encoder.SingleSymbolCode | arithmetic.py:34-64 | with priors for x alone, every run of x, "aaaa" included, is coded as "1" |
| Encoder.LongestAroundNarrower | arithmetic.py:52-55 | after narrowing [u, v), extend_around from the previous code ends where a search from the empty string would |
| Encoder.EmptyPriorsCode | arithmetic.py:69-88 | dirichlet({}) answers the empty message with the empty distribution, and the empty stream is coded as "1" under it |
| Example.CdfOfSymbol | arithmetic.py:93-108 | over a < b < c, cdf_interval gives a [0, pa), b [pa, pa+pb) and c [pa+pb, pa+pb+pc) |
| Example.SymbolIntervals | arithmetic.py:79-108 | with priors {a: 1, b: 1, c: 1}, after na, nb, nc occurrences each symbol's interval uses probabilities (1 + count)/(3 + length) |
| Example.CountsOfMessage | arithmetic.py:80-82 | the counts of a, b and c in each prefix of "aabbaacc" |
| Example.Stage | arithmetic.py:49-53 | each symbol of "aabbaacc" narrows the message interval to the next one in the table of intervals |
| Example.Reach | arithmetic.py:40-58 | after each prefix of "aabbaacc" the message interval is the tabulated one |
| Example.MessageIntervalOfExample | arithmetic.py:40-58 | the message interval of "aabbaacc" is [2249/18900, 5/42) |
| Example.PrefixIntervals | arithmetic.py:110-126 | the dyadic interval of each prefix of "00011110011110010" |
| Example.SurroundingPrefix | arithmetic.py:128-146 | "000111100111" surrounds [2249/18900, 5/42) and neither of its one-bit extensions does |
| Example.GreedySuffix | arithmetic.py:148-166 | each of the last five bits is the greedy bit towards the top half, and no shorter prefix lies inside it |
| Example.CodeInside | arithmetic.py:148-151 | the 17-bit code lies inside the top half of [2249/18900, 5/42) |
| Example.CodeOfInterval | arithmetic.py:55-62 | extend_around gives "000111100111" and extend_inside then gives "00011110011110010" |
| Example.UniformCode | arithmetic.py:3-9 | with one prior count each for a, b and c, "aabbaacc" is coded as "00011110011110010" |
| Example.DocumentedExample | arithmetic.py:6-9 | encode(dirichlet({'a': 1, 'b': 1, 'c': 1}), "aabbaacc") is "00011110011110010" |

## Left out

- Floating point: the model uses exact reals, so rounding in `0.0`, `1.0`,
  `(v-u)*F_lo` and `float(c)/total` is not captured, and neither is the limit
  on message length that machine precision imposes.
- Out-of-model symbols: `counts[x] += 1` raises `KeyError` for a symbol that
  is not a key of `m`. The model requires every symbol to be a key (`Known`).
- A zero total count: `float(c)/total` divides by zero when `m` has keys,
  all of them with count zero, and `xs` is empty. `Predictive`, `Dirichlet`
  and `DirichletModel` exclude exactly that case. The empty prior map is
  allowed: `p("")` is then `{}`, and the empty stream is coded as `"1"`
  (`EmptyPriorsCode`).
- Encode: requires `Serves(G, stream)`. Each distribution must sum to one, and
  each symbol must have positive probability. For a symbol outside the
  distribution, `cdf_interval` falls through to the last symbol's interval.
  `Cdf` models that fall-through, but `encode` is not modelled on it.
  With probability zero, `[u, v)` becomes empty and `extend_around` never
  stops.
- ExtendInside: requires that the string's interval meets `[u, v)`. From any
  other string the source loops forever (`InsideNeedsOverlap`).
- Extension.GreedyInside: the docstring of `extend_inside` calls its result
  the shortest extension inside `[u, v)`. The model proves the greedy
  characterisation of the walk (`InsideFromSteps`), not minimality. From a
  string surrounding `[u, v)` it does bound the length of the walk into the
  top half (`GreedyLength`), which gives `CodewordLength`.
- Dyadic.Value: the source builds the string's numeral with Python's unbounded
  integers. The model does the same, so there is no overflow to model.
- The closure `dirichlet(m)` is the higher-order value `DirichletModel(m)`. The
  model does not capture the Python dictionary's identity or its copy.
- There is no decoder in the source, so none is modelled.
