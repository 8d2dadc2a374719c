# LFD — Low Frequency Discretizer, modelled in Dafny

LFD turns the numerical attributes of a data set into categorical ones. It
works on a table of strings (records × attributes) plus an attribute-type row
("1" marks a numerical attribute). For each numerical attribute it runs these
steps:

1. It lists the distinct present values with their frequencies
   (`frequencyDistribution`, `findDomain`).
2. It sorts them (`SortAsc`).
3. It keeps the low-frequency values and both extremes as candidate
   cut-points (`findInitialCutpoints`).
4. It greedily activates candidates while the uncertainty-weighted CAIM score
   over the best-correlated categorical attributes (`findCatAttrs`) improves.
   This is the `while (tau == 1)` loop of `discretization`.
5. It relabels every present cell with the number of its interval
   (`discretizeX`).
6. It promotes the attribute to categorical, with domain `"0" .. "k-1"`.

Numerical attributes are processed in the order of their average correlation
with the categorical attributes (`calAvgEta`, `rankNAttributes`). The result is
written out as text, each cell followed by `", "` (`arrayToFile`). The
string and list helpers of `FileManager.java` that do not touch the file system
are modelled too.

The project has seven modules:

- `SeqUtil` (`seq_util.dfy`): Option, `Zip`, `Count`, `Sum`, and
  `FirstAppearance`, the order in which a left-to-right scan discovers
  distinct values.
- `Sorting` (`sorting.dfy`): the two in-place exchange sorts on parallel
  arrays. They are proved against `ExchangeSort`, a functional exchange sort
  on (key, partner) pairs, which is itself proved to permute and to sort.
- `Cutpoints` (`cutpoints.dfy`): `findInitialCutpoints` and the
  active-candidate filters of the greedy loop (tentative and final
  cut-points).
- `Binning` (`binning.dfy`): the interval rule of `discretizeX` and the
  decimal labels `t + ""`.
- `FileManager` (`file_manager.dfy`): file-name padding, join and tokenize,
  decimal places, the missing test, the `?` line filter, and the
  cross-validation fold arithmetic.
- `LfdSpec` (`lfd_spec.dfy`): value-level definitions the engine is proved
  against. It covers present values, counts, lambda, candidate cut-points,
  the predictor ranking, the score, the greedy state, the final cut-points,
  labels, the average correlation and the output text.
- `Lfd` (`lfd.dfy`): the engine itself. Class `Discretizer` carries the
  fields of `LFD.java` as arrays (`dataset`, `MV`, `attrNType`,
  `domainsize`, `domainValues`, `d`, `fqCount`, `iCutpoints`, `fCutpoints`,
  `RA`, `NumAttrs`, `CatAttrs`, ...). Its methods change them in place.
  - Loops that only read a snapshot of the state are module-level methods
    over a `View` value: the greedy loop, the score and `findCatAttrs`.

The floating-point statistics `calEta` and `CAIM_Uncertainty` are parameters of
the model (functions of a `View` of the state). So is `Double.parseDouble`
(`Parse`). Every property below holds for any such functions.

The whole of `discretization` is specified by `DiscretizeAllWith`. It makes
one pass per listed attribute, in order, and each pass relabels the
attribute's present cells with the cut-points a choice function picks in
the state the earlier passes left (`DiscretizeWith`). The engine's choice is
the ghost constant `Choice`. `IsGreedy` pins it to `ChosenCutpoints`: the
candidate cut-points of the attribute's present values, thinned by
`GreedyRun`, the functional form of the `while (tau == 1)` loop. With that
choice, `DiscretizeAllWith` is `DiscretizeAll` (`GreedyRunIsDiscretizeAll`).
`DiscretizedIn(w, a, vs)` says what a finished attribute looks like in state
`w`:
- it is categorical;
- its domain is `"0" .. "k-1"`;
- with two or more distinct values in `vs`, every present cell holds one of
  those labels.

## Model

| member | source | states |
|---|---|---|
| LfdSpec.IsMissing | LFD_project/src/lfd/LFD.java:473-481 | the result is 0 or 1, and 1 exactly for the five marker strings `""`, `"?"`, U+FFFD, `"NaN"`, `"  NaN"` (no trimming, no case folding) |
| FileManager.IsMissing | LFD_project/src/lfd/FileManager.java:831-839 | the result is 0 or 1, and 1 exactly for `""`, `"?"`, the three-character mis-decoding of U+FFFD, `"NaN"`, `"  NaN"` |
| LfdSpec.ClassifiersDiffer | LFD_project/src/lfd/FileManager.java:834 | the two classifiers disagree exactly on their two placeholders; U+FFFD is missing for the engine and present for the file helper |
| Lfd.Discretizer.ChkDomain | LFD_project/src/lfd/LFD.java:529-540 | flag is 0 or 1, and 1 exactly when the value is among the first domainSize domain values of the attribute |
| Lfd.Discretizer.FindDomainSize | LFD_project/src/lfd/LFD.java:513-528 | returns the number of distinct non-missing cells; the domain row starts with exactly those cells in order of first appearance; no other domain entry changes |
| Lfd.Discretizer.CollectDomain | LFD_project/src/lfd/LFD.java:147 | domainsize of the attribute becomes its number of distinct non-missing cells; other attributes' sizes and domains are unchanged |
| LfdSpec.KeptDomainStep | LFD_project/src/lfd/LFD.java:516-526 | one more record adds its cell to the domain exactly when it is present and not yet in it |
| LfdSpec.PresentValuesMember | LFD_project/src/lfd/LFD.java:379-382 | the parsed value of every non-missing cell is among the column's present values |
| Lfd.FindDomain | LFD_project/src/lfd/LFD.java:401-414 | -1 exactly when the value is not among dl[0..dsl), otherwise the first position holding it |
| Lfd.Tally | LFD_project/src/lfd/LFD.java:383-394 | after one present value, d[0..ds') lists the distinct values seen in first-appearance order and fqCount their occurrence counts; later entries untouched |
| Lfd.TallyRecord | LFD_project/src/lfd/LFD.java:379-395 | record i extends the present-value count, distinct values and counts from the first i records to the first i+1 |
| Lfd.Tabulate | LFD_project/src/lfd/LFD.java:377-396 | totalValue is the number of present cells, d[0..ds) their distinct values in first-appearance order, fqCount[k] the occurrences of d[k] |
| Lfd.Discretizer.FrequencyDistribution | LFD_project/src/lfd/LFD.java:372-399 | ds, d and fqCount are the distinct present values and their counts, lambda is Lambda of the values (totalValue/ds, or 0 when ds = 0); entries from ds on unchanged |
| LfdSpec.CountsSum | LFD_project/src/lfd/LFD.java:381-393 | every count is at least 1 and the counts add up to the number of present cells |
| LfdSpec.CountsStepSeen | LFD_project/src/lfd/LFD.java:393 | a value seen before raises its own count by one and leaves the list of distinct values alone |
| LfdSpec.CountsStepNew | LFD_project/src/lfd/LFD.java:386-388 | a new value is appended with count 1 |
| LfdSpec.Lambda | LFD_project/src/lfd/LFD.java:397 | lambda is 0 for no present value and otherwise satisfies lambda * ds = totalValue |
| Sorting.SwapEntries | LFD_project/src/lfd/LFD.java:453-458 | the pair sequence becomes the old one with entries i and j exchanged; nothing from n on changes |
| Sorting.SortAsc | LFD_project/src/lfd/LFD.java:445-463 | the first nA (value, count) pairs become the ascending exchange sort of the old pairs; entries from nA on unchanged |
| Sorting.RankNAttributes | LFD_project/src/lfd/LFD.java:421-439 | the first nA (score, attribute) pairs become the descending exchange sort of the old pairs; entries from nA on unchanged |
| Sorting.InnerPassFacts | LFD_project/src/lfd/LFD.java:449-460 | one inner pass permutes the pairs from i on, keeps those before i, and leaves at i a key in order with every later key |
| Sorting.InnerPassPermutes | LFD_project/src/lfd/LFD.java:449-460 | one inner pass permutes the pairs from i on and keeps those before i |
| Sorting.OuterPassFacts | LFD_project/src/lfd/LFD.java:447-461 | the outer passes from i on yield a permutation that is sorted, given a sorted prefix that precedes the rest |
| Sorting.ExchangeSortFacts | LFD_project/src/lfd/LFD.java:421-463 | the exchange sort is a permutation (multiset equality) of the pairs, sorted ascending or non-increasing, and keeps distinct keys and distinct partners distinct |
| Sorting.ExchangeSortEqualKeys | LFD_project/src/lfd/LFD.java:427 | with all keys equal no swap happens and the order is unchanged |
| Sorting.StrictlyAscendingKeys | LFD_project/src/lfd/LFD.java:445-463 | ascending and pairwise distinct keys are strictly ascending |
| LfdSpec.SortedFrequenciesFacts | LFD_project/src/lfd/LFD.java:162-163 | after sorting, the values are strictly ascending, are exactly the present values, and each carries its own occurrence count |
| Cutpoints.SelectedFacts | LFD_project/src/lfd/LFD.java:358-370 | the selected positions are increasing, include every marked position, and are as many as the marks |
| Cutpoints.SelectedEnds | LFD_project/src/lfd/LFD.java:362-368 | with the first and last marks set the selection begins with position 0, ends with the last position, and has two entries when there are two marks or more |
| Cutpoints.ScanStep | LFD_project/src/lfd/LFD.java:362-368 | one more step of the scan appends k exactly when k is marked, and never overshoots the full selection |
| Cutpoints.PickAscending | LFD_project/src/lfd/LFD.java:358-370 | increasing positions of a strictly ascending sequence give a strictly ascending subsequence |
| Cutpoints.KeptPositions | LFD_project/src/lfd/LFD.java:362-368 | the kept positions start at 0, end at dsl-1, increase, and every inner one has a count below lambda |
| Cutpoints.InitialCutpointsFacts | LFD_project/src/lfd/LFD.java:358-370 | the candidates hold d[0] and d[dsl-1], number between 1 (2 when dsl >= 2) and dsl, and are strictly ascending when d is |
| Cutpoints.FindInitialCutpoints | LFD_project/src/lfd/LFD.java:358-370 | ipoints[0..ticp) is the order-preserving selection of low-frequency values plus both extremes, ticp <= dsl, the rest of ipoints untouched |
| LfdSpec.CandidateCutpointsFacts | LFD_project/src/lfd/LFD.java:162-165 | the candidates of a column with a present value run strictly upwards from its minimum to its maximum, at least two when there are two distinct values |
| Lfd.SortedCandidates | LFD_project/src/lfd/LFD.java:163-165 | after SortAsc and findInitialCutpoints, iCutpoints[0..ticp) are the candidate cut-points of the values; ticp = 0 exactly when there is no present value |
| Lfd.Discretizer.Candidates | LFD_project/src/lfd/LFD.java:162-165 | the same for the attribute's current column, with iCutpoints of length ds |
| Lfd.StartFlags | LFD_project/src/lfd/LFD.java:166-171 | a fresh flag array with the first and last flags set and all others clear |
| Cutpoints.FlagMarksCount | LFD_project/src/lfd/LFD.java:183-188 | the active candidates are the set flags plus one for the tentative candidate when its flag is clear |
| Cutpoints.ActiveCutpointsFacts | LFD_project/src/lfd/LFD.java:183-192 | the active candidates number fcp (+1 tentative), begin with the first candidate and end with the last, and are ascending when the candidates are |
| Cutpoints.TentativeCutpoints | LFD_project/src/lfd/LFD.java:183-192 | tCP has length nc = fcp + 1 and holds the candidates with flag 1 or index t, in candidate order |
| LfdSpec.SubsetSize | LFD_project/src/lfd/LFD.java:633-636 | ncAttr is trunc(p * noCat) clamped into [1, noCat], and 0 when noCat = 0 |
| LfdSpec.Truncate | LFD_project/src/lfd/LFD.java:633 | Java's (int) cast: truncation toward zero, for either sign |
| Lfd.ShareOf | LFD_project/src/lfd/LFD.java:633-636 | ncAttr == SubsetSize(p, noCat) |
| Lfd.CollectEtas | LFD_project/src/lfd/LFD.java:619-630 | R and tmpcatIndex pair each categorical attribute, in increasing order, with its eta |
| Lfd.RankedCategorical | LFD_project/src/lfd/LFD.java:610-631 | tmpcatIndex is the categorical attributes in the descending exchange-sort order of their eta |
| Lfd.CopyPrefix | LFD_project/src/lfd/LFD.java:637-641 | a fresh array equal to the first n entries of the source |
| Lfd.RankCatAttrs | LFD_project/src/lfd/LFD.java:608-644 | the result is CatAttrsOf: the first SubsetSize of the ranked categorical attributes |
| Lfd.Discretizer.FindCatAttrs | LFD_project/src/lfd/LFD.java:608-644 | the same over the engine's current state |
| LfdSpec.RankedPairsFacts | LFD_project/src/lfd/LFD.java:619-631 | the ranked pairs are a non-increasing permutation of the collected pairs, each a categorical attribute with its own eta, no attribute twice |
| LfdSpec.CatAttrsFacts | LFD_project/src/lfd/LFD.java:608-644 | the selection has SubsetSize(p, noCat) entries, all categorical and distinct, in non-increasing eta, none weaker than an attribute left out |
| LfdSpec.CatAttrsTop | LFD_project/src/lfd/LFD.java:631-641 | a categorical attribute left out has eta at most that of every selected one |
| LfdSpec.WeightedCaimStep | LFD_project/src/lfd/LFD.java:196-205 | one more predictor adds weight * CAIM and weight when it is categorical, nothing otherwise |
| Lfd.WeightedScore | LFD_project/src/lfd/LFD.java:196-205 | twCaim and tUn are the weighted CAIM sum and weight sum over the categorical predictors |
| Lfd.TentativeScore | LFD_project/src/lfd/LFD.java:193-206 | tv is ScoreOf the tentative cut-points: twCaim/tUn when tUn > 0, else 0 |
| LfdSpec.WeightedCaimBounds | LFD_project/src/lfd/LFD.java:196-205 | with non-negative weights and every CAIM in [lo, hi], the weighted sum lies within [lo, hi] times the weight |
| LfdSpec.ScoreBounds | LFD_project/src/lfd/LFD.java:193-206 | with CAIM values in [lo, hi] (lo <= 0 <= hi) and non-negative weights, the score lies in [lo, hi] |
| Lfd.ScoreCandidate | LFD_project/src/lfd/LFD.java:183-206 | tv is the score of the active cut-points with candidate t added |
| Lfd.Leader | LFD_project/src/lfd/LFD.java:177-213 | over scores that agree with the tentative score of every candidate, the scan ends with the first clear candidate of the highest score above 0, or -1 and 0 when there is none |
| Lfd.BestCandidate | LFD_project/src/lfd/LFD.java:177-213 | mt = -1 and mV = 0 when no clear candidate scores above 0; otherwise mt is a clear candidate whose score mV > 0 is the maximum, and the first one reaching it |
| LfdSpec.LeaderOfLeads | LFD_project/src/lfd/LFD.java:177-213 | the leader LeaderOf computes is the first clear candidate of the highest score above 0, or none |
| LfdSpec.InitialGreedyState | LFD_project/src/lfd/LFD.java:166-174 | the two end flags and score 0 are a greedy state |
| LfdSpec.GreedyRunStep | LFD_project/src/lfd/LFD.java:175-221 | one round of the loop: when the leader scores above V the run goes on with its flag set and V raised to its score, otherwise it stops with the flags and V as they are |
| LfdSpec.GreedyRunOutcome | LFD_project/src/lfd/LFD.java:175-221 | from a greedy state the loop ends in a greedy outcome: no clear candidate scores above the final V |
| LfdSpec.GreedyStep | LFD_project/src/lfd/LFD.java:214-218 | accepting candidate t with mV > V keeps the ends set and the flags 0/1, raises V strictly to the new score, sets one more flag and clears one fewer |
| LfdSpec.EndsCount | LFD_project/src/lfd/LFD.java:171-172 | with the first and last of two or more flags set, at least two flags are set |
| LfdSpec.ActivateCandidate | LFD_project/src/lfd/LFD.java:214-216 | setting the flag of t gives the cut-points that were tried with t |
| Lfd.SelectCutpoints | LFD_project/src/lfd/LFD.java:166-222 | the loop ends (its measure is the number of clear flags) with (fcFlg, V) exactly GreedyRun from the two end flags and score 0, in a greedy outcome: ends set, V the score of the active candidates once one was added (0 while only the ends are active), no single clear candidate scoring above V; fcp = number of set flags (2 for one candidate) |
| Cutpoints.CollectCutpoints | LFD_project/src/lfd/LFD.java:223-231 | fCutpoints has length fcp, starts with the candidates whose flag is 1 in candidate order, and is 0.0 beyond them |
| LfdSpec.FinalCutpoints | LFD_project/src/lfd/LFD.java:223-231 | at least two entries: the active candidates, then 0.0 |
| LfdSpec.FinalCutpointsOf | LFD_project/src/lfd/LFD.java:223-231 | the collected array of length fcp equals FinalCutpoints of the flags |
| Lfd.CollectFinal | LFD_project/src/lfd/LFD.java:223-231 | fCutpoints, of length fcp, equals FinalCutpoints of the candidates and flags |
| Lfd.FinalSelection | LFD_project/src/lfd/LFD.java:166-231 | fCutpoints is ChosenCutpoints of the attribute: the final cut-points of the flags GreedyRun leaves, which end in a greedy outcome; with two or more distinct values they give every present value one of the fcp-1 labels; 2 <= fcp <= ticp + 1 |
| LfdSpec.ChosenOf | LFD_project/src/lfd/LFD.java:166-231 | the final cut-points of the flags GreedyRun leaves are ChosenCutpoints, and they label the attribute's values |
| LfdSpec.ChosenLabels | LFD_project/src/lfd/LFD.java:223-266 | with two or more distinct present values every present value gets one of the |ChosenCutpoints| - 1 labels |
| LfdSpec.ChosenLabelsValues | LFD_project/src/lfd/LFD.java:162-266 | the chosen cut-points label every value of an attribute with two or more distinct values |
| LfdSpec.GreedyLabels | LFD_project/src/lfd/LFD.java:162-266 | a choice that is the greedy one in every state labels the values of every attribute it is applied to |
| Lfd.Discretizer.ChooseCutpoints | LFD_project/src/lfd/LFD.java:162-231 | ok exactly when the attribute has a present value; then fCutpoints is ChosenCutpoints of the state (the candidates of its values thinned by the greedy run) and labels each of its values when there are two or more distinct ones; 2 <= fcp <= noOfRecords + 1 |
| Binning.FirstBinFrom | LFD_project/src/lfd/LFD.java:251-266 | the first interval from j that holds x (interval 0 closed, later ones open on the left), or none when no later interval holds x |
| Binning.Label | LFD_project/src/lfd/LFD.java:250-267 | the label is empty exactly when no interval holds the value |
| Binning.BinLabel | LFD_project/src/lfd/LFD.java:250-266 | cat is the label of nCV under the first nc cut-points |
| Binning.NatToString | LFD_project/src/lfd/LFD.java:237 | the decimal text of n is non-empty and all digits |
| Binning.ParseNatToString | LFD_project/src/lfd/LFD.java:237 | reading the decimal text of n back gives n |
| Binning.NatToStringInjective | LFD_project/src/lfd/LFD.java:235-238 | distinct interval numbers get distinct labels |
| Binning.BinCoverage | LFD_project/src/lfd/LFD.java:251-266 | under ascending cut-points, a value between the first and the last falls into an interval 0 .. n-2 |
| Binning.BinUnique | LFD_project/src/lfd/LFD.java:251-266 | under strictly ascending cut-points, an interval that holds x is the one found |
| Binning.BinOutside | LFD_project/src/lfd/LFD.java:251-266 | under ascending cut-points, a value outside [c0, c(n-1)] gets the empty label |
| Binning.SingleValueLabel | LFD_project/src/lfd/LFD.java:251-266 | with cut-points [v, 0.0], v is labelled "0" when v <= 0 and "" otherwise |
| Lfd.Discretizer.DiscretizeX | LFD_project/src/lfd/LFD.java:242-270 | the attribute's column becomes RelabelledColumn: each present cell replaced by its label, missing cells as they were; every other column unchanged |
| LfdSpec.LabelsCover | LFD_project/src/lfd/LFD.java:223-266 | with two distinct values, active cut-points that keep both ends give every present value a label 0 .. n-2 |
| LfdSpec.DiscretizedLabel | LFD_project/src/lfd/LFD.java:171-266 | every present value gets an interval label when there are two distinct values; a single value x leaves cut-points [x, 0.0] and is labelled "0" if x <= 0, else "" |
| LfdSpec.ManyValuesLabel | LFD_project/src/lfd/LFD.java:223-266 | with two distinct values every present value's label is one of the fcp-1 interval labels |
| LfdSpec.OneValueCutpoints | LFD_project/src/lfd/LFD.java:166-231 | a single distinct value x leaves the final cut-points [x, 0.0] |
| LfdSpec.ColumnLabels | LFD_project/src/lfd/LFD.java:242-270 | a relabelled column holds one of the k labels in every present cell |
| Lfd.Discretizer.Relabel | LFD_project/src/lfd/LFD.java:232 | the column becomes RelabelledColumn: each present cell the label of its value under fCutpoints, each missing cell as it was; with two distinct values every present cell holds one of the fcp-1 labels; every cell of another attribute unchanged |
| LfdSpec.Labels | LFD_project/src/lfd/LFD.java:235-238 | k labels, "0" .. "k-1" |
| LfdSpec.LabelsDistinct | LFD_project/src/lfd/LFD.java:235-238 | the labels are pairwise distinct |
| Lfd.AppendToRow | LFD_project/src/lfd/LFD.java:235-238 | entry k of the row is set, extending its first k entries by one; no other entry changes |
| Lfd.Discretizer.WriteLabels | LFD_project/src/lfd/LFD.java:235-238 | the first k domain values become "0" .. "k-1"; the rest of the row and every other row unchanged |
| Lfd.Discretizer.MarkCategorical | LFD_project/src/lfd/LFD.java:233-238 | attrNType[a] becomes 0, domainsize[a] k and the domain of a the labels "0" .. "k-1"; the types, sizes and domain rows of the other attributes unchanged |
| Lfd.Discretizer.ApplyCutpoints | LFD_project/src/lfd/LFD.java:232-238 | the state becomes DiscretizeWith of the old one: the column relabelled (missing cells kept), type 0, domainsize fcp-1 with domain "0" .. "fcp-2"; the types, domain sizes and columns of the other attributes unchanged |
| Lfd.Discretizer.ProcessAttribute | LFD_project/src/lfd/LFD.java:160-238 | ok exactly when the attribute has a present value; then the state is DiscretizeWith of the old state with the greedy cut-points Choice picks there, so only this attribute changes; otherwise table, types and domains are unchanged |
| Lfd.Discretizer.DiscretizeNext | LFD_project/src/lfd/LFD.java:159-239 | one iteration of the attribute loop: ok exactly when the attribute has a present value in the starting state; then the attributes done grow by one, otherwise the state is the one the earlier passes reached |
| Lfd.Discretizer.ListedRun | LFD_project/src/lfd/LFD.java:157-161 | distinct numerical attributes listed in nAttrs form a run from the current state |
| Lfd.Discretizer.Discretization | LFD_project/src/lfd/LFD.java:157-240 | the state ends as the passes over nAttrs[0 .. done) reach it from the old state, each pass with the greedy cut-points of the state it starts in; done = nA when every listed attribute has a present value, otherwise EmptyAttribute(j) names the first one without, and every attribute before it had values |
| LfdSpec.DiscretizeAllWithStep | LFD_project/src/lfd/LFD.java:159-239 | a run over attrs and then a is one more pass, its cut-points chosen in the state the run over attrs leaves |
| LfdSpec.NextPass | LFD_project/src/lfd/LFD.java:159-239 | at its turn a listed distinct numerical attribute is still numerical with the values it started with, and its pass extends the run by one |
| LfdSpec.DiscretizeAllTypes | LFD_project/src/lfd/LFD.java:233 | a run makes every listed attribute categorical, leaves the type of every other attribute, the missing flags and the number of records |
| LfdSpec.DiscretizeAllKeeps | LFD_project/src/lfd/LFD.java:232-238 | a run keeps the state rectangular, and each attribute it does not list keeps its cells and its domain |
| LfdSpec.RelabelTableColumns | LFD_project/src/lfd/LFD.java:242-270 | relabelling column a relabels its present cells and leaves every other column as it was |
| LfdSpec.PassColumn | LFD_project/src/lfd/LFD.java:232-238 | one pass relabels column a and gives it the |cps| - 1 labels as its domain; every other column and domain stays |
| LfdSpec.LastPassColumn | LFD_project/src/lfd/LFD.java:232-238 | the last pass of a run over distinct attributes relabels the cells its attribute had at the start, with the cut-points chosen at that pass |
| LfdSpec.DiscretizeAllColumn | LFD_project/src/lfd/LFD.java:157-240 | after a run over distinct attributes, each listed attribute holds its starting cells relabelled with the cut-points chosen at its pass (missing cells kept) and their labels as its domain |
| LfdSpec.DiscretizedCell | LFD_project/src/lfd/LFD.java:242-270 | after a run over distinct attributes, a present cell of a listed attribute holds the label of its starting value under the cut-points chosen at its pass, and a missing cell keeps its text |
| LfdSpec.StepLabels | LFD_project/src/lfd/LFD.java:157-240 | when the choice labels values, the cut-points chosen at a listed attribute's pass label the values it started with |
| LfdSpec.DiscretizeAllDiscretized | LFD_project/src/lfd/LFD.java:157-240 | each attribute of a run over distinct attributes ends DiscretizedIn its starting values: categorical, domain "0" .. "k-1", each present cell one of those labels when there were two distinct values |
| LfdSpec.GreedyRunIsDiscretizeAll | LFD_project/src/lfd/LFD.java:157-240 | a run whose every pass takes the greedy cut-points is DiscretizeAll |
| LfdSpec.AvgEta | LFD_project/src/lfd/LFD.java:655-660 | the average times the number of categorical attributes is the eta sum; 0 when there is none |
| LfdSpec.AvgEtaAsWritten | LFD_project/src/lfd/LFD.java:660 | calAvgEta as written: no value (NaN) exactly when there is no categorical attribute |
| LfdSpec.AvgEtaGuard | LFD_project/src/lfd/LFD.java:655-660 | with a categorical attribute the written and the guarded division agree; without one the written code gives NaN where 0.0 was meant |
| LfdSpec.EtaSumStep | LFD_project/src/lfd/LFD.java:656-659 | one more categorical attribute adds its eta to the sum |
| Lfd.MeanEta | LFD_project/src/lfd/LFD.java:655-660 | r is AvgEta of the numerical attribute over the categorical ones |
| Lfd.Discretizer.CalAvgEta | LFD_project/src/lfd/LFD.java:651-662 | RA[i] is the average eta of NumAttrs[i] over CatAttrs |
| LfdSpec.RankedByAvgEtaOf | LFD_project/src/lfd/LFD.java:69-70 | the ranked order is the descending exchange sort of (average eta, attribute) pairs |
| LfdSpec.RankedNumerical | LFD_project/src/lfd/LFD.java:421-439 | ranking the numerical attributes lists each of them exactly once and nothing else |
| LfdSpec.RankedRange | LFD_project/src/lfd/LFD.java:421-439 | every ranked attribute is a numerical attribute of the table |
| LfdSpec.RankedDistinct | LFD_project/src/lfd/LFD.java:421-439 | no attribute is ranked twice |
| LfdSpec.RankWithoutCategorical | LFD_project/src/lfd/LFD.java:427 | with all averages 0 (no categorical attribute) the ranking keeps the original order |
| Lfd.Discretizer.RankAttributes | LFD_project/src/lfd/LFD.java:69-70 | NumAttrs becomes the attributes ranked by average eta, still each numerical attribute once |
| Lfd.RankNumerical | LFD_project/src/lfd/LFD.java:70 | nAttrs becomes the descending exchange sort order, each numerical attribute exactly once |
| Lfd.ReadTypes | LFD_project/src/lfd/LFD.java:106-121 | types is 1 where the type row says "1" and 0 elsewhere; nNum and nCat count them |
| Lfd.MissingFlags | LFD_project/src/lfd/LFD.java:122-128 | MV[i, j] is isMissing of cell (i, j) |
| Lfd.ListAttributes | LFD_project/src/lfd/LFD.java:130-146 | the attributes of one type, each once, in increasing order |
| LfdSpec.TypeIndicesFacts | LFD_project/src/lfd/LFD.java:133-146 | the list has as many entries as attributes of the type, is increasing, holds only and every attribute of the type |
| SeqUtil.FirstAppearanceSpec | LFD_project/src/lfd/LFD.java:513-528 | the first-appearance list has no repeats and holds exactly the elements of the input |
| Lfd.Workspace | LFD_project/src/lfd/LFD.java:95-104 | fresh arrays of the sizes initialize allocates, domain sizes 0 and RA 0.0 |
| Lfd.Discretizer.CollectDomains | LFD_project/src/lfd/LFD.java:134-150 | numerical attributes get domain size 0, categorical ones their distinct non-missing cells in first-appearance order |
| Lfd.Discretizer.Initialize | LFD_project/src/lfd/LFD.java:89-152 | the engine state after initialize: types, missing flags, attribute lists, domains, names, as stated above |
| Lfd.Discretizer.NumericalListed | LFD_project/src/lfd/LFD.java:130-146 | NumAttrs lists exactly the attributes the type row marks "1", each once |
| Lfd.Discretizer.InitialState | LFD_project/src/lfd/LFD.java:89-152 | the state initialize leaves is InitialView of the rows of the data set and the type row |
| LfdSpec.InitialViewShape | LFD_project/src/lfd/LFD.java:122-128 | that state is rectangular and every cell carries its missing flag |
| LfdSpec.CategoricalKept | LFD_project/src/lfd/LFD.java:134-240 | a run over numerical attributes from that state keeps the missing flags, and each categorical attribute its type, cells and first-appearance domain |
| Lfd.Discretizer.CategoricalState | LFD_project/src/lfd/LFD.java:134-240 | the same read off the engine state: categorical attributes keep type 0, their cells and their collected domain |
| LfdSpec.ListedDiscretized | LFD_project/src/lfd/LFD.java:157-240 | a run over distinct numerical attributes from that state leaves each of them DiscretizedIn its values when the choice labels values |
| LfdSpec.AllCategorical | LFD_project/src/lfd/LFD.java:233 | a run listing every numerical attribute leaves every attribute categorical |
| LfdSpec.CompletedRun | LFD_project/src/lfd/LFD.java:157-240 | a run over every numerical attribute, each once, leaves every attribute categorical and each numerical one DiscretizedIn its present values |
| Lfd.Discretizer.RunState | LFD_project/src/lfd/LFD.java:65-74 | the engine state after the first k ranked passes: categorical attributes kept; when completed, every attribute categorical and each numerical one DiscretizedIn its present values |
| Lfd.Prepare | LFD_project/src/lfd/LFD.java:65-70 | initialize, calAvgEta and rankNAttributes leave the state InitialView builds from the table and the type row, with NumAttrs the numerical attributes in the descending exchange-sort order of their average eta |
| Lfd.Discretizer.DiscretizeRanked | LFD_project/src/lfd/LFD.java:71 | NumAttrs unchanged; the state is the greedy passes over NumAttrs[0 .. done) from the old state; EmptyAttribute(j) names a numerical attribute without a present value; Completed implies every numerical attribute has one |
| Lfd.RunDiscretization | LFD_project/src/lfd/LFD.java:65-74 | in terms of the input table and type row: NumAttrs is the average-eta ranking; the state is the greedy passes over its done prefix from InitialView; EmptyAttribute names a numerical attribute without a present value; Completed implies every numerical attribute has one, every attribute is categorical and each numerical one DiscretizedIn its present values; categorical attributes keep their cells and collected domain |
| LfdSpec.FileTextLines | LFD_project/src/lfd/LFD.java:493-507 | the written text is the joined records separated by single line breaks, none after the last |
| LfdSpec.RecordsTextJoinLines | LFD_project/src/lfd/LFD.java:493-507 | the text after the first i records is their joined cells separated by line breaks, with one more break exactly when records follow |
| LfdSpec.ReadBack | LFD_project/src/lfd/LFD.java:488-508 | splitting the written text at line breaks and tokenizing each line gives the table back when cells are non-empty and free of delimiters |
| LfdSpec.LinesJoinLines | LFD_project/src/lfd/LFD.java:501-502 | lines without line breaks, joined by line breaks, split back into the same lines |
| Lfd.ArrayToFile | LFD_project/src/lfd/LFD.java:488-508 | the text is FileText of the first totRec records cut to totAttr cells |
| Lfd.RunLfd | LFD_project/src/lfd/LFD.java:55-64 | no output exactly when some attribute the type row marks "1" has no present value; otherwise the output is the text of the table, the state is the greedy passes over every ranked numerical attribute (DiscretizeAll), every attribute is categorical and each numerical one DiscretizedIn its present values (each present cell one of its interval labels, missing cells kept) |
| FileManager.LastIndexOf | LFD_project/src/lfd/FileManager.java:641 | -1 when the character does not occur, otherwise its last position |
| FileManager.ChangedFileName | LFD_project/src/lfd/FileManager.java:635-646 | no result exactly when the name has no dot; otherwise the result is longer by the padding |
| FileManager.ChangedFileNameParts | LFD_project/src/lfd/FileManager.java:641-644 | the padded name's stem is the old stem plus padding and its extension is unchanged |
| FileManager.ChangedFileNameEmptyPadding | LFD_project/src/lfd/FileManager.java:635-646 | the empty padding gives the name back |
| FileManager.ArrayStr | LFD_project/src/lfd/FileManager.java:817-826 | rec is every cell followed by ", ", in order |
| FileManager.JoinedLength | LFD_project/src/lfd/FileManager.java:817-826 | its length is the sum of the cell lengths plus 2n |
| FileManager.StrArray | LFD_project/src/lfd/FileManager.java:803-813 | rec is the maximal runs of non-delimiters of str, in order |
| FileManager.TokensWellFormed | LFD_project/src/lfd/FileManager.java:805 | no token is empty or contains one of " ,\t\n\r\f" |
| FileManager.TokensConcat | LFD_project/src/lfd/FileManager.java:803-813 | the tokens together are the input without its delimiters, order preserved |
| FileManager.TokensOfJoined | LFD_project/src/lfd/FileManager.java:803-826 | tokenizing joined well-formed cells gives the cells back |
| FileManager.TokenizeJoined | LFD_project/src/lfd/FileManager.java:803-826 | scanning joined well-formed cells appends exactly those cells to the tokens found so far |
| FileManager.AttrMaxDecimalPlaces | LFD_project/src/lfd/FileManager.java:738-764 | 0 for a non-numerical column; for a numerical one the largest length after the last dot over the rows, attained by some row, or 0 when no cell has a dot |
| FileManager.DivideDataset | LFD_project/src/lfd/FileManager.java:489-505 | the lines without '?' and the lines with '?', each in input order |
| FileManager.RemoveMissingValuesFromFile | LFD_project/src/lfd/FileManager.java:316-331 | the lines without '?', in input order |
| FileManager.LinesMarkedSides | LFD_project/src/lfd/FileManager.java:492-500 | no kept line holds a '?', every removed line does |
| FileManager.LinesMarkedPartition | LFD_project/src/lfd/FileManager.java:489-505 | the two lists together hold every input line as often as the input does |
| FileManager.LinesMarkedAppend | LFD_project/src/lfd/FileManager.java:489-505 | filtering commutes with concatenation, so each list keeps input order |
| FileManager.FoldBlocks | LFD_project/src/lfd/FileManager.java:369-450 | every test block lies inside the records, each starts where the previous ends, and the last ends at totalRecords |
| FileManager.SplitFold | LFD_project/src/lfd/FileManager.java:383-414 | testing is records[lo..hi), training the rest in order, together all records |
| FileManager.MakeFold | LFD_project/src/lfd/FileManager.java:379-414 | fold i tests on [i*foldNum, i*foldNum + size_i) and trains on the rest |
| FileManager.GenerateCrossFoldValidation | LFD_project/src/lfd/FileManager.java:362-452 | num folds (none for a negative num), fold i as above, with foldNum = total/num truncated and the remainder in the last fold |
| FileManager.FoldsTesting | LFD_project/src/lfd/FileManager.java:379-414 | each fold's test block lies inside the records and holds exactly the records of its range |
| FileManager.FoldsTile | LFD_project/src/lfd/FileManager.java:379-450 | the test blocks of all folds, in fold order, are exactly the records |

## Left out

- File and console I/O is not modelled: reading the attribute and data files,
  `writeToFile`/`appendToFile`, and `Main.java`. `arrayToFile` and `runLFD`
  return the text they would write.
- The clock (`exeTime`, `getExeTime`) is not modelled, and neither is
  `getIntervals`.
- `calEta`, `eta_numerator`, `eta_denominator`, `calMean`,
  `calConditionalMean` and `CAIM_Uncertainty` are floating-point statistics.
  They are parameters of the model (functions of a `View` of the state).
  `calMean` fills `mean` (LFD.java:142), which `eta_denominator`
  (LFD.java:585) and `eta_numerator` (LFD.java:600) read. `mean[n]` is only
  read for a numerical attribute n that is not yet discretized, and it is a
  function of that attribute's column, which the `View` holds. So taking
  `calEta` as a function of the `View` loses nothing. The `mean` array
  itself is not modelled, and neither is `attrType`, which nothing reads.
- `Double.parseDouble` is a parameter `Parse`, assumed to be total on present
  cells. A malformed numeric cell, which makes the source throw, is not
  modelled.
- Numbers are mathematical reals and integers. There is no NaN, rounding or
  32-bit overflow.
  - The NaN that calAvgEta produces with no categorical attribute is modelled
    as 0.0 (see Findings).
  - `Truncate` has no saturation at the int range.
- Lfd.Discretizer.DiscretizeRanked: when a listed numerical attribute has no
  present value, the source fails on `fcFlg[0]` (an empty array). The model
  stops the run there with `EmptyAttribute` and writes no output.
- Lfd.SelectCutpoints: the tentative scores are computed over a snapshot
  (`View`) of the state taken before the greedy loop. The loop does not
  change the state those statistics read, so this is the same value.
- Lfd.Discretizer.Initialize: initialize's single attribute loop is split
  into a type loop, one listing loop per type, and the domain loop that runs
  after the object exists. The arrays are allocated together.
- Missing domain entries are the empty string where the source has `null`.
  The ragged `String[][]` tables are rectangular `array2`s.
- The parameters `Ra`, `cAttrs` and `nC` of `discretization` are unused by
  the source and not passed.
- `FormatDecimalPlaces` (`java.text.DecimalFormat`) is not modelled.
  `readFileAs2DArray` is I/O.
- Copying, removing and listing files are not modelled.
- `Collections.shuffle` is not modelled: the cross-validation split works on
  the records in the order given.
- FileManager.GenerateCrossFoldValidation: `num = 0` (a division by zero in the
  source) is excluded by its precondition. The training and testing files
  are returned as folds rather than written.
- FileManager.ChangedFileName: a name without a dot, for which the source
  throws, gives `None`.
- FileManager.ChangedFileName: the source first normalizes the name with
  `new File(filename).getPath()` (FileManager.java:639-640). The model works
  on the name as given. The two differ where `getPath` rewrites the name:
  repeated separators collapse and a trailing separator is dropped.
  For example, ("out//data.csv", "_1") gives "out/data_1.csv" in the source
  and "out//data_1.csv" here. ("a.b/", "_1") gives "a_1.b" in the source
  and "a_1.b/" here.
- Lfd.Discretizer.Initialize, Lfd.Prepare, Lfd.RunDiscretization,
  Lfd.RunLfd: these require at least one record. With none, the source
  throws on `dataset[0]` (LFD.java:94). They also require a type row and a
  name row at least as long as a record, because the source throws when it
  reads `attrInfo[1][i]` and `attrInfo[0][i]` (LFD.java:108-109). These
  failure paths are not modelled.
- FileManager.AttrMaxDecimalPlaces: requires every row to have a cell for
  each numerical column. On a ragged row the source throws at
  `dataF[r][c]` (FileManager.java:750). That failure path is not modelled.
- Lfd.RunDiscretization, Lfd.RunLfd: the cells of attribute a are stated as
  `CellColumn(old(Grid(data)), a, "")`, which `Lfd.GridColumn` proves equal
  to the column of the input array.

## Findings

| source | as written | input that shows it | evidently intended | confidence | as-written member | corrected member |
|---|---|---|---|---|---|---|
| LFD_project/src/lfd/LFD.java:660 | the `if` that tests `noOfCatAttrs > 0` ends in an empty statement, so the division of the eta sum by `noOfCatAttrs` always runs | a data set with no categorical attribute: every RA[i] becomes 0.0/0 (NaN) | divide only when there is a categorical attribute, leaving RA[i] = 0.0 otherwise | high (not executed) | LfdSpec.AvgEtaAsWritten, LfdSpec.AvgEtaGuard | LfdSpec.AvgEta, Lfd.MeanEta |
