# Pregnancy-length statistics (week 3 exercises), modelled in Dafny

This project models the computational part of `week3.py`, a course exercise
over the NSFG pregnancy survey. It covers three pieces:

- `PmfMean`: the mean of a probability mass function (PMF), Σ p·x over the
  PMF's value-to-probability table. It is modelled as a loop over a sequence
  of `PmfItem(value, prob)` entries. Values, probabilities and the mean are
  exact `real`s.
- `Difference`: one respondent's first pregnancy length minus each later one,
  in order.
- The loop inside `PairWiseDifferences`. It drops pregnancies shorter than 37
  weeks and walks the respondents' groups. For each group with at least two
  surviving lengths, it extends `diffs` by that group's differences.

Everything is in `week3.dfy`, module `Week3`. Lengths are whole weeks (`int`).

The aggregation loop is `Week3.PairWiseDifferences`. It takes the groups as a
`seq<seq<int>>` and applies the 37-week filter to each group. The groups must
come in the order of the respondent map built from the already filtered table;
that order is an input. Within one respondent, filtering the table first and
then collecting that respondent's rows gives the same lengths, in the same
order, as collecting the rows first and filtering them, even when respondents'
rows are interleaved in the table (`FilterThenGroup`, over a table of
`Row(caseid, prglngth)`). A group whose lengths are all filtered out would be
absent from the map; such a group contributes nothing either way.

The source's loop calls `Diffs`, a name defined nowhere in scope. The model
uses `Difference` as the callee, which is evidently what was meant. It also
models the loop as written (see "## Findings").

## Model

| member | source | states |
|---|---|---|
| `Week3.PmfMean` | week3.py:11-15 | the returned mean is Σ prob·value over all entries, accumulated from 0.0; an empty table gives 0.0 |
| `Week3.WeightedSumAppend` | week3.py:12-14 | the accumulated sum over two runs of entries is the sum of the two runs' sums |
| `Week3.WeightedSumReorder` | week3.py:13 | visiting the table's entries in any other order gives the same mean |
| `Week3.WeightedSumRemove` | week3.py:13-14 | taking one entry out of the table takes exactly its p·x out of the sum |
| `Week3.WeightedSumBounds` | week3.py:12-14 | with non-negative probabilities and values in [lo, hi], the sum lies between lo and hi times the total probability |
| `Week3.MeanWithinRange` | week3.py:11-15 | the mean of a PMF whose probabilities are non-negative and sum to 1 lies between its smallest and largest value |
| `Week3.SubtractEach` | week3.py:20 | the comprehension `[first - x for x in others]` has one element per element of `others`, the i-th being `first - others[i]` |
| `Week3.Difference` | week3.py:17-21 | needs a non-empty sequence (the first element is read unconditionally); the result has one fewer element, its i-th element is `t[0] - t[i+1]`, and a single length gives the empty list |
| `Week3.DifferenceExample` | week3.py:17-21 | `[5, 3, 1]` gives `[2, 4]` and `[38]` gives `[]` |
| `Week3.DifferenceRoundTrip` | week3.py:17-21 | the first length together with the differences determines the whole sequence: restoring `t[0] - d` for each difference gives back `t` |
| `Week3.Keep` | week3.py:25 | the surviving lengths are no more than the originals and every one is at least 37 weeks |
| `Week3.KeepMembers` | week3.py:25 | a length survives exactly when it is in the group and is at least 37 weeks |
| `Week3.KeepAppend` | week3.py:25 | filtering a concatenation gives the filtered parts, concatenated in the same order |
| `Week3.FilterThenGroup` | week3.py:25-30 | for every respondent, the lengths of their rows in the filtered table equal their rows' lengths in the whole table with the short ones dropped, order kept, however the rows are interleaved |
| `Week3.PairWiseDifferences` | week3.py:24-32 | `diffs` is the concatenation, in group order, of the differences of every group with at least two surviving lengths (its length and contents are then given by the lemmas below) |
| `Week3.AllDifferencesLength` | week3.py:28-32 | the number of differences is the sum of `len - 1` over the groups with at least two surviving lengths |
| `Week3.AllDifferencesAppend` | week3.py:28-32 | aggregating two runs of groups gives the first run's differences followed by the second's |
| `Week3.ShortGroupContributesNothing` | week3.py:31 | a group with fewer than two surviving lengths, at any position, leaves the result unchanged |
| `Week3.DifferenceProvenance` | week3.py:25-32 | every difference is some group's first surviving length minus one of its later surviving lengths, both at least 37 weeks |
| `Week3.TwoRespondentsExample` | week3.py:28-32 | groups `[39, 40]` and `[38]` give `[-1]`: only the first group qualifies |
| `Week3.QualifyingGroupIffPairs` | week3.py:31 | there is at least one pair exactly when some group has at least two surviving lengths |
| `Week3.QualifyingGroupIffDifferences` | week3.py:28-32 | the differences are non-empty exactly when some group has at least two surviving lengths |
| `Week3.AsWrittenPairWiseDifferences` | week3.py:29-32 | the loop as written raises a NameError exactly when some group has at least two surviving lengths, and otherwise yields an empty list |
| `Week3.AsWrittenFailsWheneverIntendedProducesDifferences` | week3.py:32 | the loop as written fails on exactly the inputs where the intended loop produces a difference, and agrees with it (empty) otherwise |
| `Week3.AsWrittenCounterexample` | week3.py:32 | on groups `[39, 40]` and `[38]` the loop as written raises a NameError for `Diffs`, where `[-1]` is intended |

## Findings

| source | as written | input that shows it | evidently intended | confidence | as-written member | corrected member |
|---|---|---|---|---|---|---|
| week3.py:32 | `diffs.extend(Diffs(lengths))` calls `Diffs`, which no module in scope defines | groups `[39, 40]` and `[38]`: the first group qualifies and the call raises a NameError | call `Difference(lengths)`, giving `[-1]` | high (not executed) | `Week3.AsWrittenCounterexample` | `Week3.PairWiseDifferences` |

## Left out

- `week2.py` is not part of this model. It loads data files from hard-coded paths, calls foreign loaders, and its `CleanFemResp` is empty.
- Building the respondent map (`nsfg.MakePregMap`) and the pandas row selection and `.loc` lookups are foreign code. The groups are an input, in the iteration order of the map built from the filtered table. That order can differ from first appearance in the unfiltered table, and the model does not derive it.
- `thinkstats2.Mean` over `diffs` and the `thinkstats2.Pmf` construction are library code that is not shown. That includes what `Mean` does with an empty `diffs`.
- Plotting (`thinkplot.Hist`, `thinkplot.Show`) and the printing are output only.
- `PmfVar` is called but defined nowhere in scope, so there is nothing to model.
- The assertions comparing against `pmf.Mean()` and `pmf.Var()` compare with foreign code under floating-point rounding.
- `main` and the `sys.argv` handling are glue.
- `Week3.PmfMean`: computes in exact reals, not in floating point, so rounding and the order-dependence it brings are not modelled.
- `Week3.PmfMean`: the table is a sequence of entries and its values need not be distinct. A dictionary's distinct keys are not required, and the mean formula does not depend on them.
