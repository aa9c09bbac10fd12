# Nano Toxicity Calculator — scoring core in Dafny

The calculator scores a nanoelectronic device made of 1 to 10 nanoparticle
constituents. Each constituent has an element, a concentration level and a
percentage. The score works like this:

- Each constituent's unit toxicity is looked up in a hard-coded table.
- The unit toxicity is weighted by the constituent's percentage / 100, and the weights are summed.
- The sum is clamped to at most 10.
- The clamped score is shown as a coloured bar whose width is the clamped score times 10 percent.
- The colour is a step function of the clamped score: green, yellowgreen, yellow, orange or red, with thresholds at 2, 4, 6 and 8.

A calculation proceeds only when the percentages add up to exactly 100.
A pair that is missing from the table contributes nothing. It is reported,
and the sum carries on.

The model has four modules:

- `Wrappers` (`wrappers.dfy`): the `Option` type used for the lookup's
  "No data available" sentinel.
- `ToxicityTable` (`toxicity_table.dfy`): the literal table, the selectable
  elements and concentration levels, and `Lookup`. It also proves that the
  table is rectangular over the selectable levels and non-negative.
- `Selection` (`selection.dfy`): the particle-count and percentage input
  ranges, the default percentages and their re-initialisation across page
  re-runs (the session state becomes an explicit `Option` argument), and
  the exact sum-to-100 gate.
- `Scoring` (`scoring.dfy`): constituents and the weighted sum `WeightedSum`,
  the missing-pair list `MissingPairs`, the clamp `Normalize`, the bar width,
  the colour chain `ColourBand`, and the imperative pass `Calculate` and
  `Submit` proved equal to the functional definitions. It also holds the
  lemmas: concatenation, appending, skipping missing pairs, linearity in
  each percentage, bounds, idempotence of the clamp, and monotonicity of
  the band.

All arithmetic is over exact reals.

## Model

| member | source | states |
|---|---|---|
| ToxicityTable.Lookup | Nanotoxicity.py:110-111 | a value is returned exactly when the concentration is a key of the element's row, and it is that row's entry; otherwise the "no data" sentinel (None) |
| ToxicityTable.TableIsRectangular | Nanotoxicity.py:4-11 | every element of the literal table has exactly the selectable concentration levels as keys |
| ToxicityTable.TableIsNonNegative | Nanotoxicity.py:4-8 | every unit toxicity stored in the literal table is at least 0 |
| ToxicityTable.ElementsAreTableKeys | Nanotoxicity.py:4-8 | the element choices are exactly the table's keys, each listed once |
| ToxicityTable.ConcentrationsAscending | Nanotoxicity.py:11 | the selectable concentration levels are listed in strictly ascending order |
| ToxicityTable.SelectableLookupSucceeds | Nanotoxicity.py:110-111 | any element and level a user can select looks up successfully in the literal table, with a non-negative value |
| Selection.ValidCount | Nanotoxicity.py:122 | an accepted particle count is at least 1, and its default percentages pass the sum-to-100 gate |
| Selection.ValidPercentage | Nanotoxicity.py:147 | an accepted percentage gives a weight between 0 and 1 when divided by 100 |
| Selection.PassesGate | Nanotoxicity.py:152-153 | a selection that passes the exact sum-to-100 test has at least one constituent |
| Selection.DefaultPercentages | Nanotoxicity.py:125-127 | the defaults for n particles have length n, start with 100, are 0 elsewhere, lie in [0,100] and sum to exactly 100 |
| Selection.SyncPercentages | Nanotoxicity.py:125-127 | a stored list of the right length is kept; a missing list or one of the wrong length is replaced by exactly the defaults [100, 0, ..., 0] for n, which pass the gate |
| Selection.SyncIsStable | Nanotoxicity.py:125-127 | re-running the page with the same particle count keeps the synchronised percentages unchanged |
| Selection.DefaultsPassGate | Nanotoxicity.py:122-127 | for every allowed particle count (1 to 10) the default percentages pass the sum-to-100 gate |
| Selection.GateIsExact | Nanotoxicity.py:152-155 | sums of 99.9 and 100.1 are refused and 100 is accepted: exact equality, no tolerance; over exact reals 0.1 + 66.6 + 33.3 is accepted |
| Scoring.Contribution | Nanotoxicity.py:162-166 | a constituent whose pair has no data contributes 0 to the score |
| Scoring.WeightedSum | Nanotoxicity.py:160-164 | the score starts from 0, so an empty selection scores 0 |
| Scoring.NoDataScoresZero | Nanotoxicity.py:160-166 | a selection in which no pair has data scores 0 |
| Scoring.MissingPairs | Nanotoxicity.py:160-166 | at most one pair is reported per constituent |
| Scoring.MissingPairsExact | Nanotoxicity.py:160-166 | the reported pairs are exactly those of constituents without data: each such pair is listed, and each listed pair is absent from the table and comes from some constituent |
| Scoring.Normalize | Nanotoxicity.py:169 | the clamped score is the minimum of the score and 10: at most both, and equal to one of them |
| Scoring.ColourBand | Nanotoxicity.py:175-183 | the colour chain gives green iff x <= 2, yellowgreen iff 2 < x <= 4, yellow iff 4 < x <= 6, orange iff 6 < x <= 8, and red iff x > 8 |
| Scoring.BarWidth | Nanotoxicity.py:187 | a clamped score in [0, 10] gives a bar width in [0, 100], and the bar is full exactly when the score is 10 |
| Scoring.Classify | Nanotoxicity.py:169-183 | the shown result keeps the unclamped score, clamps it to 10 only from above, and colours the clamped value |
| Scoring.Calculate | Nanotoxicity.py:160-166 | the left-to-right pass over the constituents yields the weighted sum and the list of missing pairs |
| Scoring.Submit | Nanotoxicity.py:152-169 | it stops exactly when the percentages do not sum to 100; otherwise it returns the weighted sum, the missing pairs, the clamp of the sum and that clamp's colour |
| Scoring.ConcatConstituents | Nanotoxicity.py:160-166 | the score of two concatenated selections is the sum of their scores |
| Scoring.ConcatMissing | Nanotoxicity.py:160-166 | the missing list of two concatenated selections is the concatenation of their missing lists |
| Scoring.AppendConstituent | Nanotoxicity.py:160-166 | appending a constituent adds exactly its own contribution, and adds its pair to the missing list only when it has no data |
| Scoring.SplitAround | Nanotoxicity.py:160-166 | the score is the score before a constituent, plus that constituent's contribution, plus the score after it |
| Scoring.MissingContributesNothing | Nanotoxicity.py:163-166 | removing a constituent without data leaves the score unchanged, so a missing pair counts as zero and does not abort the sum |
| Scoring.ReplaceConstituent | Nanotoxicity.py:160-166 | replacing one constituent changes the score by the new contribution minus the old one |
| Scoring.ContributionShift | Nanotoxicity.py:164 | changing one constituent's percentage from p to p' changes its contribution by unit toxicity times (p' - p)/100, or not at all without data |
| Scoring.PercentageLinearity | Nanotoxicity.py:164 | changing one percentage from p to p' changes the score by unit toxicity times (p' - p)/100, and does not change it when the pair has no data |
| Scoring.ContributionNonNegative | Nanotoxicity.py:164 | with a non-negative table and a non-negative percentage, a constituent contributes at least 0 |
| Scoring.FinalNonNegative | Nanotoxicity.py:160-164 | with non-negative table values and percentages in [0,100], the score is at least 0 |
| Scoring.ContributionBounded | Nanotoxicity.py:164 | a constituent contributes at most m times its share when no unit toxicity exceeds m |
| Scoring.FinalBoundedByContributions | Nanotoxicity.py:160-164 | when no unit toxicity exceeds m, the score is at most the sum of m times each constituent's share |
| Scoring.MaxContributionsTotal | Nanotoxicity.py:160-164 | scoring every constituent with the same unit toxicity m gives m times the total percentage over 100 |
| Scoring.FinalBoundedByMax | Nanotoxicity.py:160-164 | when no unit toxicity exceeds m, the score is at most m times the total percentage over 100 |
| Scoring.GatedFinalAtMostMax | Nanotoxicity.py:152-164 | once the gate is passed, the score is at most the largest unit toxicity |
| Scoring.ScoreBounds | Nanotoxicity.py:164-187 | with valid inputs the clamped score lies in [0, 10] and the bar width in [0, 100] |
| Scoring.NormalizeIdempotent | Nanotoxicity.py:169 | clamping twice is the same as clamping once |
| Scoring.BandMonotone | Nanotoxicity.py:175-183 | a higher clamped score never gets a lower colour band |
| Scoring.BandBoundaries | Nanotoxicity.py:169-183 | exactly 2 is green and 2.01 is yellowgreen; 10 stays 10 and 15 clamps to 10, which is red |
| Scoring.SelectableNeverMissing | Nanotoxicity.py:145-166 | with the literal table, no selectable input is ever reported as missing, and the score is non-negative |
| Scoring.LiteralTableExample | Nanotoxicity.py:160-183 | 100% Element3 at level 250 scores 153.6, clamps to 10 and is red |
| Scoring.TwoElementExample | Nanotoxicity.py:160-183 | a 50/50 mix of unit toxicities 2 and 4 scores 3, is yellowgreen, and has no missing pairs |

## Left out

- Streamlit widgets, the CSS block, and the HTML/markdown rendering are presentation only and are not modelled. This includes the three-column row layout (`i % 3`) and the formatting of the score to two decimals.
- The "Calculate" button: `Submit` models a click. Without a click nothing is computed.
- `st.warning` + `st.stop()` become the `Stopped` outcome. Each `st.error` becomes one entry of the `missing` list.
- The session state becomes an explicit argument of `Selection.SyncPercentages`. The percentage input's initial value, taken from that list, and its 0.1 step are widget behaviour and are not modelled.
- IEEE-754 floats are not modelled. The model is over exact reals. The calculator compares a float sum to 100 exactly, so a split such as 0.1 + 66.6 + 33.3, which sums to 100 over the reals but to 99.99999999999999 in floats, passes the gate here and is refused by the calculator.
- ToxicityTable.Lookup: requires the element to be a key of the table. For any other element the calculator raises a key error instead of returning the sentinel. The element input only offers the table's keys, so that case never arises.
- Selection.DefaultPercentages: requires n >= 1. The calculator's `else 0.0` branch for n = 0 is dead code, because the count input has a minimum of 1. With n = 0 the calculator would in fact fail, by indexing an empty list.
- Loading the table from a spreadsheet is not part of this file's code, so it is not modelled.

Notes on the calculator's behaviour:

- A pair that is missing from the table is skipped and reported. It contributes 0, and scoring carries on. It is not rejected before scoring.
- The severity bands are the bar colours: green, yellowgreen, yellow, orange and red.
- The clamp is `min(final, 10)`. It bounds the score only from above. The lower bound of 0 is proved from non-negative inputs (`Scoring.ScoreBounds`), not enforced by the clamp.
