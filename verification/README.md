# GoTSP permutations and exhaustive search, modelled in Dafny

GoTSP solves the travelling salesman problem over a point set. A tour is a
permutation of the point indices {0, ..., n-1}. This project models the exact
solver and the permutation utilities it is built on:

- `permutation.go`: `basePerm` (the identity), `copyPerm`, `comparePerms`
  and `nextPerm`. `nextPerm` is the lexicographic "next permutation" step,
  Knuth's Algorithm L (The Art of Computer Programming, Vol. 4A,
  section 7.2.1.2). It wraps round to the identity after the last
  permutation.
- `main.go`: `factorial` on a 64-bit Go `int`, and the loop of `naiveSoln`.
  That loop starts at the identity, applies the successor until the identity
  comes back, and keeps the cheapest permutation seen. It refuses more than
  15 points.

Modules, one per concept:

| module | file | contents |
|---|---|---|
| `Factorials` | `factorials.dfy` | `Fact` (mathematical n!), `Wrap64` (Go `int` wrap-around), the Go loop `Factorial` |
| `Permutations` | `permutations.dfy` | `IsPerm`, `BasePerm`, `CopyPerm`, `ComparePerms`; the bridge between the element-wise and the multiset view of a permutation |
| `LexOrder` | `lex_order.dfy` | lexicographic order `LexLess`; sorted sequences are the first and last arrangements of their values |
| `Successors` | `successors.dfy` | `Successor` (the result of `nextPerm`, stated as a whole) and `NextPerm` (the Go procedure: two backward scans, a swap on a copy, an in-place reversal), plus the successor's properties |
| `Ranking` | `ranking.dfy` | `Rank`, the Lehmer code read as a factorial-base number: the base permutation has rank 0, each `nextPerm` step adds exactly 1, the last permutation has rank n! - 1, and rank order is lexicographic order |
| `Enumeration` | `enumeration.dfy` | `Advance` (`nextPerm` followed by the `isBase` test), `CountPerms` (the loop alone, which goes round exactly n! times) and `NaiveSoln` (the loop with a cost) |

Modelling choices:

- Go slices become `seq<int>`. Sequences are values, so `nextPerm` cannot
  change its argument, and a copy cannot alias its original.
- The tour length `totalDist(ps, perm)` is a `float64` in Go. Here it is an
  arbitrary integer-valued function `cost` of the permutation. The initial
  `math.MaxFloat64` is a sentinel `Dist.Infinite` that every cost is below.
- `naiveSoln` calls `basePermutation`, `copyPermutation`, `nextPermutation`
  and `isBase`, which are not defined in `permutation.go`. They are taken to
  be `basePerm`, `copyPerm`, `nextPerm`, and a `comparePerms` with
  `basePerm(n)`.
- `log.Fatalf` for more than 15 points becomes the outcome
  `Outcome.TooManyPoints`.
- `factorial` multiplies in Go's wrapping `int` arithmetic, taken to be 64 bits wide. `Wrap64` writes
  that wrap-around out. `Factorial` is proved equal to n! whenever
  n <= 20, and `WrapsAfter20` shows it is not n! at n = 21.

The n! cycle length is proved through the rank rather than by counting sets.
After t steps from the base permutation, the walk stands on the permutation of
rank t. It therefore passes ranks 0, 1, ..., n! - 1 once each, and then wraps.
Since the rank is injective on permutations of one length and every one of
them has a rank below n!, every permutation is visited exactly once
(`Enumeration.CountPerms`).

The usual statement of the second step of Algorithm L picks the smallest
suffix value above p[k]. The Go loop (`permutation.go:27-34`) takes the
rightmost index holding a value above p[k]. `Successors.RearrangeShape`
proves the two choices give the same value, because the suffix after the
pivot is non-increasing.

## Model

| member | source | states |
|---|---|---|
| Permutations.BasePerm | permutation.go:54-61 | the result has length n, holds i at every index i, and is a permutation of {0, ..., n-1} |
| Permutations.IsPermIffBaseMultiset | permutation.go:3-4 | a sequence is an ordering of {0, ..., n-1} (entries in range and pairwise distinct) exactly when it holds the same values as the identity |
| Permutations.CopyPerm | permutation.go:79-84 | the copy has the same length and the same value at every index, and a permutation stays a permutation when copied |
| Permutations.ComparePerms | permutation.go:86-98 | true exactly when the lengths agree and every index holds equal values, which is sequence equality |
| Permutations.CopyComparesEqual | permutation.go:79-98 | comparePerms is reflexive and holds between any x and copyPerm(x) |
| Permutations.PermsSameMultiset | permutation.go:3-4 | any two permutations of one length are rearrangements of each other |
| Successors.FindLastAscent | permutation.go:10-20 | the first loop finds the largest k with p[k] < p[k+1], and ends with -1 exactly when there is no such k |
| Successors.LastAscent | permutation.go:10-20 | the scan result is -1 or an ascent, it is -1 exactly when p has no ascent, and no ascent lies to its right |
| Successors.FindPartner | permutation.go:27-34 | when k is an ascent, the second loop finds the largest j > k with p[k] < p[j]; it stops at k+1 at the latest, so j is never -1 |
| Successors.ScanAbove | permutation.go:27-34 | the index found lies in (k, i], holds a value above p[k], and every later index holds a value at most p[k] |
| Successors.SwapAndReverse | permutation.go:36-49 | copying, swapping positions k and j, then reversing after k gives the prefix before k, then p[j], then the rest in reverse with p[k] in place of p[j] |
| Successors.ReverseFrom | permutation.go:42-49 | the two-pointer loop keeps every entry before `from` and leaves the part from `from` on reversed |
| Successors.NextPerm | permutation.go:9-52 | the Go procedure returns the successor, of the same length; the base permutation when there is no ascent, in particular for every p of length at most 1 |
| Successors.NoAscentWrapsToBase | permutation.go:22-25 | a sequence of length at most 1 has no ascent, and without an ascent the result is basePerm(n) |
| Successors.SuccessorSameValues | permutation.go:36-49 | when an ascent exists, the swap and the reversal keep the multiset of values |
| Successors.SuccessorIsPerm | permutation.go:36-49 | the successor of a permutation of {0, ..., n-1} is again one, of the same length |
| Successors.SuccessorIncreases | permutation.go:36-40 | entries before the pivot k are kept, the entry at k grows, and the result is strictly lexicographically greater |
| Successors.RearrangeShape | permutation.go:27-49 | the partner holds the smallest value above p[k] in the suffix, and the suffix after k ends up non-decreasing, holding the suffix's values with p[k] traded for p[j] |
| Successors.SuccessorIsImmediate | permutation.go:6-8 | no rearrangement of p's values lies strictly between p and its successor in lexicographic order |
| Successors.LastIffNoAscent | permutation.go:10-12 | p has no ascent exactly when no rearrangement of its values comes after it: the final permutation n-1 ... 1 0 |
| Successors.TailDescendingAll | permutation.go:10-12 | a sequence without an ascent is non-increasing |
| LexOrder.LexIrreflexive | permutation.go:6-8 | no sequence is lexicographically before itself |
| LexOrder.LexTransitive | permutation.go:6-8 | lexicographic order is transitive, so with irreflexivity it is a strict order and "next lexicographical permutation" is well defined |
| LexOrder.AscendingIsLexFirst | permutation.go:54-61 | a non-decreasing sequence, such as the base permutation, has no rearrangement before it |
| LexOrder.DescendingIsLexLast | permutation.go:10-12 | a non-increasing sequence has no rearrangement after it |
| Ranking.Rank | main.go:87 | every rank of a sequence of length n is below n! |
| Ranking.BaseRank | permutation.go:54-61 | the base permutation has rank 0 |
| Ranking.LastRank | permutation.go:10-12 | distinct non-negative values without an ascent, such as the last permutation n-1 ... 1 0, have rank n! - 1 |
| Ranking.SuccessorRank | permutation.go:9-52 | on a permutation with an ascent, nextPerm raises the rank by exactly one |
| Ranking.PivotStep | permutation.go:36-49 | from the pivot on, the step goes from the last arrangement headed by p[k] to the first one headed by p[j], one rank further, with the same values |
| Ranking.RankMonotone | permutation.go:6-8 | among rearrangements of non-negative values, lexicographically smaller means smaller rank |
| Ranking.RankInjective | main.go:87 | two rearrangements of the same non-negative values with equal rank are equal, so no two permutations of one length share a rank |
| Ranking.NoAscentAtTop | permutation.go:10-25 | a permutation of rank n! - 1 has no ascent, so nextPerm wraps it to the base |
| Ranking.WalkStep | permutation.go:9-52 | below rank n! - 1, one step gives a permutation of the next rank that is not the base permutation; at rank n! - 1 it gives the base permutation |
| Enumeration.Advance | main.go:95-98 | after the step, isBase holds exactly when the result is basePerm(n), which is exactly when the permutation left behind had rank n! - 1; otherwise the result is a permutation of the next rank |
| Enumeration.CountPerms | main.go:82-99 | from basePerm(n), the loop that applies nextPerm until the base permutation returns goes round exactly n! times; its first round is on basePerm(n), round t is on the permutation of rank t, no permutation is seen twice, and every permutation of {0, ..., n-1} is seen |
| Enumeration.AllRanksVisited | main.go:87 | the permutations of ranks 0, 1, ..., n! - 1 are pairwise distinct and include every permutation of length n |
| Enumeration.AtMostExtended | main.go:89-93 | a minimum that bounds every permutation visited so far and the current one bounds everything visited one step later |
| Enumeration.NaiveSoln | main.go:77-102 | more than 15 points gives the fatal outcome, otherwise a solution; the solution is a permutation of {0, ..., n-1} whose cost is the returned minimum; no permutation costs less; and every permutation lexicographically before it costs strictly more, because only a strictly smaller cost replaces the minimum |
| Factorials.Fact | main.go:104-112 | n! is at least 1 for every n, and at least n for n >= 2 |
| Factorials.FactMonotone | main.go:104-112 | `Fact`, the mathematical n!, never decreases; Go's `factorial` equals it only for n <= 20 |
| Factorials.WrapsAfter20 | main.go:104-112 | the 64-bit `factorial` of 21 is -4249290049419214848: not 21!, not positive, and below the result for 20, so the doc comment's "returns n! for all n > 1" fails from n = 21 on |
| Factorials.Fact20 | main.go:105-112 | 20! = 2432902008176640000 fits in a 64-bit signed int, and 21! does not |
| Factorials.EnumerationCountFits | main.go:78-80 | for every point count the exhaustive solver accepts (at most 15), n! <= 15! = 1307674368000, which fits in a 64-bit Go int |
| Factorials.Wrap64 | main.go:108 | the wrapped value is an int64, equal to its argument modulo 2^64, and unchanged when the argument is already an int64 |
| Factorials.WrapMul | main.go:108 | wrapping after every multiplication gives the same result as wrapping once at the end |
| Factorials.Factorial | main.go:104-112 | the loop returns n! wrapped to 64 bits: 1 for every n < 2 (negative n included), and exactly n! for n <= 20 |

## Left out

- `point.go`: reading CSV files, parsing floats, `log.Fatal` on I/O errors. It is I/O with no logic to verify.
- `main`, `run` and `geneticSoln` in `main.go`: time-seeded randomness, file import and export, printing, and calls into genetic-algorithm code.
- The genetic-algorithm operators (`cross`, `mutate`, `reproduce`, `isPerm`, `totalDist`, population sorting and elitism): their implementations are not part of this model. `genetic_test.go` only calls them.
- `heapPermute`: Heap's algorithm, recursive and in place (its own comment asks for a functional rewrite). Nothing in the core calls it.
- `nextPerm2`: unfinished. It fills a factorial table, sets the last entry to 0 and runs a loop with an empty body. Nothing calls it.
- Enumeration.NaiveSoln: tour lengths are integers, not `float64`. A Go tour whose length is `+Inf`, `NaN` or exactly `math.MaxFloat64` would never replace the initial minimum, so Go's `minPerm` could stay at the identity with distance `MaxFloat64`. The integer model has no such costs.
- Enumeration.NaiveSoln: the point set enters only through its size n and through `cost`.
- Factorials.Factorial: assumes a 64-bit platform (Go's int is 32 or 64 bits). On a 32-bit target `factorial` wraps from 13! on, and 15! does not fit, so Factorials.EnumerationCountFits holds only for 64-bit `int`.
- Factorials.Factorial: the doc comment of `factorial` (main.go:104) promises n! for every n > 1, but 64-bit wrap-around breaks that from n = 21 on (Factorials.WrapsAfter20). The model returns the wrapped value, as the code does. naiveSoln never calls `factorial`, and the exhaustive solver's n <= 15 keeps n! well within range (Factorials.EnumerationCountFits).
- Factorials.Factorial: requires n < MaxInt64. For n == MaxInt64, Go's loop counter `i` would wrap before it could exceed n, so the loop would never end.
- Permutations.BasePerm: takes n as a natural number. Go's `make(permutation, n)` panics for a negative n; no caller in the core passes one, so that panic is not modelled.
- Enumeration.CountPerms: naiveSoln keeps no counter; the count and the `visited` record exist only in the model, to state how many rounds the loop makes and which permutations they see.
- Fixing the helper names `basePermutation`, `copyPermutation`, `nextPermutation` and `isBase` to `basePerm`, `copyPerm`, `nextPerm` and a comparison with `basePerm(n)` is an assumption. Their definitions are not part of this model.
