# PRSice core: a Dafny model

PRSice computes polygenic risk scores (PRS) at a series of p-value
thresholds. It regresses the phenotype on each score together with the
covariates, keeps the threshold with the best model fit, and can attach an
empirical p-value, obtained by permuting the phenotype, to the best
threshold. With gene sets (PRSet) it also attaches a competitive p-value to
each set, obtained by drawing random background sets of the same size.

This project models the `PRSice` class of `src/prsice.cpp`:

- **Reading the phenotype.** Choosing phenotype columns (`pheno_check`).
  Decoding the phenotype vector, with every error it raises and the 1/2 to
  0/1 recoding of binary traits (`gen_pheno_vec`).
- **The covariate file.** The first pass over the file (`process_cov_file`):
  missing values, factor levels and the column layout. The removal of
  samples that have a missing covariate, then the in-place compaction of the
  phenotype vector.
- **The design matrix.** Filling it (`gen_cov_matrix`). The one-hot coding of
  factor covariates is proved to read back.
- **The regression rows.** The rows used in regression and the widths of the
  ID columns (`update_sample_included`).
- **The threshold scan.** `run_prsice` and `regress_score`: skipping a
  threshold that adds no SNP, recording a result, and choosing the best
  model as the first maximum of r².
- **The permutation null array.** How it is sized and folded, on the
  single-thread path (`run_null_perm_no_thread`) and on the
  producer/consumer path (`gen_null_pheno`/`consume_null_pheno`). Also its
  empirical p-value (`process_permutations`).
  - `thread_perm` is modelled as well, but nothing in `src/prsice.cpp`
    calls it. It min-folds permuted p-values (`obs_p`, lines 1265-1306)
    into the same array that `process_permutations` compares with a t
    statistic, so its values are of another kind than the other paths'.
- **The memory budgets.** For permuted phenotypes (`gen_perm_memory`) and for
  the competitive threads (`run_competitive`).
- **The competitive test.** `run_competitive`, `null_set_no_thread`,
  `produce_null_prs` and `consume_prs`: the ordered map from set size to
  sets, the partial Fisher–Yates shuffle of the background, and the
  per-set exceedance counts.
  - The counts are the same whether one thread counts or a producer feeds
    any number of consumers, whatever the queue's scheduling.

The model has no I/O. Inputs arrive as parameters, already tokenised:

- header columns and cells for the phenotype;
- rows of tokens for covariates;
- fits from the regression oracle;
- scores and null statistics per permutation;
- swap draws from the random engine;
- the queue's scheduling (which consumer pops which message); and
- the memory the system reports.

The `PRSice` object is a Dafny class (`PrsiceState.Prsice`). Its fields are
the member variables these functions update. Each method is proved against
a specification function of the old state — `Scan`, `RegressStep`,
`MinFoldAt`, `MaxMerge`, `PermFold`, `Resize`, `ResetResults`,
`PermPerSlice`, `ExceedCount` — and the lemmas beside those functions state
what the source promises.

One observation does not amount to a defect, because the source does not
say which behaviour is intended. The single-thread permutation path folds
every statistic into its slot with `std::min`
(`src/prsice.cpp:1128-1129`). The threaded path keeps the larger value
(`src/prsice.cpp:1247-1248`). Both start from the fill value 2 (line 836).
`PrsiceState.SequentialIsMinimum` and `PrsiceState.ThreadedIsMaximum` state
what each path computes. `PrsiceState.PathsDisagree` gives one statistic
that yields different empirical p-values on the two paths:

- the null statistic is 5 and the observed one is 3;
- the single-thread path keeps 2 in the slot, which is not above 3: the
  p-value is 1/2;
- the threaded path keeps 5, which is above 3: the p-value is 1.

The model keeps both behaviours as written.

Three more behaviours of the code may differ from what a reader expects.
The model follows the code each time.

- **Skipping a threshold.**
  - One might expect a threshold to be skipped when its SNP count equals
    the previous threshold's count.
  - The code (lines 977-978) compares the count with the count stored in
    the threshold's own slot, and the reset at line 847 has set that to 0.
  - So only thresholds with no SNP are skipped. `ThresholdScan.SkippedIffNoSnp`
    states this.
- **Too little memory for one replicate.**
  - One might expect the run to be rejected when the budget cannot hold one
    permuted replicate.
  - The code (lines 1653-1656) then uses one permutation per slice in
    `gen_perm_memory`. It fails only when the budget is negative.
  - `MemoryBudget.UncappedSlice` and `MemoryBudget.PermPerSlice` state this.
- **The null array.**
  - As the empirical p-value counts null statistics above the observed one
    (lines 1052-1053), one might expect the array to hold a running maximum.
  - The single-thread path and `thread_perm` keep the minimum, as described
    above.

## Model

| member | source | states |
|---|---|---|
| Results.Recorded | src/prsice.cpp:970-1016 | A fit that did not converge leaves every statistic at its initial 0. A converged fit keeps its r², p, coefficient and se. The adjusted r² is 0 for a logistic fit, or for one that did not converge, and otherwise comes from the linear fit. |
| Results.ResetResults | src/prsice.cpp:836-848 | The result vector has exactly one slot per threshold, and every slot is marked "not done" (threshold -1, r² 0, no SNP). A slot that already existed keeps its adjusted r², coefficient, p, empirical p, se and competitive p. A slot added by the resize is a value-initialised record apart from the reset threshold of -1. |
| ThresholdScan.RegressStep | src/prsice.cpp:970-1041 | A threshold with no SNP, or whose SNP count equals the count already stored in its slot, leaves the state unchanged. Otherwise its slot gets the fitted record, with the empirical and competitive p-values at -1. The best index and the best scores move to this threshold iff it is the first one, there is no best yet, or its r² is strictly larger. The state stays well formed. Scores as long as the current best scores keep that length. |
| ThresholdScan.Scan | src/prsice.cpp:881-913 | After any number of thresholds, the state is well formed and the result vector keeps its length. When every threshold's scores are as long as the initial best scores, the best scores keep that length. |
| ThresholdScan.ScanCorrect | src/prsice.cpp:881-913 | Starting from the reset state: every regressed slot holds the record of its own threshold, and the slots after the scan stay reset. The best index names the first threshold with a SNP whose r² is not exceeded by any regressed threshold, and the best scores are that threshold's scores. With no SNP anywhere, there is no best. |
| ThresholdScan.SkippedIffNoSnp | src/prsice.cpp:977-981 | After the scan, slot i records the SNP count of threshold i. Its threshold is -1 exactly when that count is 0. |
| ThresholdScan.BestIsFirstMaximum | src/prsice.cpp:1019-1029 | Once at least one threshold has been regressed, the best slot holds the maximum r² over the regressed thresholds, and no slot before it reaches that maximum. |
| ThresholdScan.NoSnpNoBest | src/prsice.cpp:1019-1023 | The best index stays -1 iff no threshold has a SNP. |
| NullStats.Resize | src/prsice.cpp:836 | `resize(n, fill)` gives length n. Existing slots below n are kept, and only new slots take the fill value. |
| NullStats.MinFoldAt | src/prsice.cpp:1128-1129 | The slots of the folded range hold the minimum of their old value and the statistic. Every other slot is unchanged. |
| NullStats.MinFoldSlices | src/prsice.cpp:1302-1307 | Folding two consecutive slices one after the other equals folding their concatenation. |
| NullStats.MinFoldDisjointCommute | src/prsice.cpp:1302-1307 | Two threads that fold disjoint ranges may flush in either order. |
| NullStats.Raise | src/prsice.cpp:1244-1249 | One locked step raises a single slot and keeps the length. |
| NullStats.MaxMerge | src/prsice.cpp:1243-1250 | Merging a consumer's buffer keeps the length of the null array. |
| NullStats.MaxMergeSlot | src/prsice.cpp:1243-1250 | After the merge a slot is the maximum of its old value and every buffered statistic for it. It is at least each of them. A slot with no buffered statistic is unchanged. |
| NullStats.SlotMaxRaise | src/prsice.cpp:1247-1248 | Raising the start value first and then taking the slot maximum equals raising the slot maximum. |
| NullStats.SlotMaxSwap | src/prsice.cpp:1243-1250 | Two buffers give the same slot maximum in either order. |
| NullStats.MaxMergeOrderIrrelevant | src/prsice.cpp:1243-1250 | The null array does not depend on the order in which consumers take the mutex. |
| NullStats.CountGreater | src/prsice.cpp:1052-1053 | The number of null statistics strictly above the observed one is at most the number of permutations. |
| NullStats.CountGreaterExtremes | src/prsice.cpp:1052-1053 | The count is 0 iff no null statistic exceeds the observed one. It equals the number of permutations iff every null statistic does. |
| NullStats.CountGreaterAntitone | src/prsice.cpp:1052-1053 | A larger observed statistic never gives a larger count. |
| NullStats.EmpiricalP | src/prsice.cpp:1055-1056 | (count+1)/(N+1) lies in (0, 1] and is at least 1/(N+1). It equals 1/(N+1) iff the count is 0, and equals 1 iff the count is N. |
| MemoryBudget.SizeSub | src/prsice.cpp:1648 | `size_t` subtraction: the exact difference when it is not negative, and otherwise the difference wrapped modulo 2^64. |
| MemoryBudget.FinalMbAsWritten | src/prsice.cpp:1648 | The budget as written: the wrapped difference, rounded to a double, halved and truncated to `intptr_t`. It is negative exactly when the wrapped difference is within 1024 of 2^64, where the half of the rounded value, 2^63, overflows `intptr_t` (the x86-64 result, INT64_MIN, is taken). Otherwise it is half of the rounded difference. |
| MemoryBudget.Ulp | src/prsice.cpp:1648 | The spacing of doubles at an integer: 1 below 2^53, and otherwise at most 2^-52 of the integer. |
| MemoryBudget.UlpTop | src/prsice.cpp:1648 | Between 2^63 and 2^64 the spacing of doubles is 2048. |
| MemoryBudget.RoundToDouble | src/prsice.cpp:1648 | The conversion of a `size_t` to double gives one of the two neighbouring multiples of the spacing, within half a spacing of the integer. Integers below 2^53 are exact. |
| MemoryBudget.RoundsToModulus | src/prsice.cpp:1648 | A `size_t` rounds to at most 2^64, and to 2^64 exactly when it is at least 2^64 - 1024 (ties to even included). |
| MemoryBudget.AsWrittenSignOfDeficit | src/prsice.cpp:1648-1652 | When use exceeds the limit, the as-written budget is negative iff the excess is at most 1024 bytes. For an excess between 1024 bytes and 2^63 bytes it is at least 2^62 - 512, so the check at 1650 passes. |
| MemoryBudget.FinalMb | src/prsice.cpp:1648 | The signed budget is negative iff the memory used exceeds the limit by 2 bytes or more. When the limit is not exceeded, it is half the difference, rounded down. |
| MemoryBudget.UncappedSlice | src/prsice.cpp:1653-1663 | With room for less than one phenotype vector, a slice holds one permutation. With room for all of them, it holds them all. Otherwise it holds as many as the budget allows and at least one. The slice never uses more than the budget, except in the one-permutation case. |
| MemoryBudget.PermPerSlice | src/prsice.cpp:1650-1665 | The call fails with the insufficient-memory error iff the budget is negative. Otherwise the slice times the sample count fits in the container's maximum size. The slice is the uncapped one when that already fits, and `max_size / sample_ct` when it does not. |
| MemoryBudget.AsWrittenAcceptsDeficit | src/prsice.cpp:1648 | With a 1 GiB limit and 2 GiB in use, the as-written budget is 2^63 - 2^29, and the budget check passes. The signed budget gives the error. With one byte too many, the as-written budget is INT64_MIN. |
| MemoryBudget.PermBudgetRejectsDeficit | src/prsice.cpp:1648-1665 | With the corrected budget, the memory check fails iff the memory used exceeds the limit by at least 2. Any excess leaves a budget of at most 0. |
| MemoryBudget.CompetitiveThreads | src/prsice.cpp:2017-2040 | The competitive run fails iff half of the free memory cannot hold one thread's matrices. Otherwise the thread count is between 1 and the requested count, and is the requested count or the largest count that fits in half the free memory. |
| CompetitiveGroups.SizesAtLeastFirst | src/prsice.cpp:2003-2008 | The first key of the ordered map is its smallest size. |
| CompetitiveGroups.MembersOfGroup | src/prsice.cpp:2003-2008 | Looking up a key gives its own entry's members. |
| CompetitiveGroups.MembersOfAbsent | src/prsice.cpp:2003-2008 | An absent key has no members. |
| CompetitiveGroups.Insert | src/prsice.cpp:2005-2007 | `set_index[size].push_back(k)` keeps the map ordered, adds the key, and appends k to that key's list alone. |
| CompetitiveGroups.SetSizes | src/prsice.cpp:2003-2008 | The set sizes are the SNP counts of summary entries 1 onward, so the base set 0 is excluded. |
| CompetitiveGroups.GroupedMeaning | src/prsice.cpp:2003-2008 | A group lists exactly the sets of its size, each once and in increasing order. |
| CompetitiveGroups.SizeSetMeaning | src/prsice.cpp:2003-2008 | A size is a key iff some set has that size. |
| CompetitiveGroups.GroupedSnoc | src/prsice.cpp:2003-2008 | One more set extends only the group of its own size. |
| CompetitiveGroups.SizeSetSnoc | src/prsice.cpp:2003-2008 | One more set adds only its size to the keys. |
| CompetitiveGroups.GroupSets | src/prsice.cpp:1990-2010 | The loop builds an ordered map whose groups are exactly the sets of each size, in increasing order. It also builds each set's observed absolute t and zeroed counts. |
| Shuffle.Swap | src/prsice.cpp:1694-1701 | A swap exchanges the two positions and leaves every other position unchanged. |
| Shuffle.SwapPermutes | src/prsice.cpp:1694-1701 | A swap keeps the multiset of background indices. |
| Shuffle.Shuffled | src/prsice.cpp:1694-1701 | The shuffle keeps the vector's length. |
| Shuffle.ShuffledPermutes | src/prsice.cpp:1694-1701 | The shuffle only reorders the background: no index is lost or repeated. |
| Shuffle.ShuffledFixesPrefix | src/prsice.cpp:1694-1701 | The first m positions are fixed by the first m draws alone. |
| Shuffle.PartialShuffle | src/prsice.cpp:1815-1822 | The in-place loop leaves the array equal to the specified shuffle, and it is a permutation of the old array. |
| CompetitivePerm.DrawsBound | src/prsice.cpp:1694-1701 | A permutation drawn with `max_size` swaps needs at least `max_size` background SNPs. |
| CompetitivePerm.DrawsFit | src/prsice.cpp:1703-1737 | Every set size of the map fits in the background. |
| CompetitivePerm.MembersOfBounded | src/prsice.cpp:1735-1737 | Every set index stored in the map names a count slot. |
| CompetitivePerm.BgAfter | src/prsice.cpp:1690-1701 | After any number of permutations, the background is still a permutation of the initial one. |
| CompetitivePerm.Pass | src/prsice.cpp:1703-1737 | One permutation gives one null score per key of the map. |
| CompetitivePerm.Bump | src/prsice.cpp:1735-1737 | `set_perm_res[m] += (ori_t < t)` over a group keeps the length of the count vector. |
| CompetitivePerm.Tally | src/prsice.cpp:1735-1737 | Counting a stream keeps the length of the count vector. |
| CompetitivePerm.BumpAt | src/prsice.cpp:1735-1737 | Each set's count rises by its number of listings in the group when the null t exceeds its observed t, and is otherwise unchanged. |
| CompetitivePerm.TallyAt | src/prsice.cpp:1735-1737 | A set's final count is its start count plus its share of every null score. |
| CompetitivePerm.SumHitsAppend | src/prsice.cpp:1926-1938 | Shares add up over concatenated streams. |
| CompetitivePerm.BumpMembers | src/prsice.cpp:1735-1737 | The member loop computes `Bump`, slot by slot. |
| CompetitivePerm.CountOnePerm | src/prsice.cpp:1703-1737 | The walk over the map for one permutation counts that permutation's null scores. |
| CompetitivePerm.NullSetNoThread | src/prsice.cpp:1679-1742 | The single-thread loop counts every null score of every permutation. |
| CompetitivePerm.TallyAppend | src/prsice.cpp:1926-1938 | Counting a concatenation is counting one part after the other. |
| CompetitivePerm.Jobs | src/prsice.cpp:1835 | Each null score becomes one queue message carrying it. |
| CompetitivePerm.JobsAppend | src/prsice.cpp:1826-1841 | The messages of concatenated streams are concatenated. |
| CompetitivePerm.EmitOnePerm | src/prsice.cpp:1824-1839 | One permutation of the producer pushes exactly its null scores, in order. |
| CompetitivePerm.StreamSnoc | src/prsice.cpp:1812-1841 | One more permutation shuffles the background once more from where the previous one left it, and the stream gains that permutation's pass. |
| CompetitivePerm.PushStops | src/prsice.cpp:1843-1845 | One end marker is pushed per consumer, after the jobs. |
| CompetitivePerm.ProduceNullPrs | src/prsice.cpp:1798-1846 | The producer pushes every null score, then one end marker per consumer. |
| CompetitivePerm.ConsumePrs | src/prsice.cpp:1893-1940 | A consumer counts, from zero, exactly the scores it pops before its first end marker. |
| CompetitivePerm.UntilStopShare | src/prsice.cpp:1907-1912 | A consumer handed its jobs and then an end marker processes exactly those jobs. |
| CompetitivePerm.SumDealtStep | src/prsice.cpp:1893-1940 | One more message adds its share to the consumer that receives it. |
| CompetitivePerm.DealSplits | src/prsice.cpp:1893-1940 | However the queue deals the scores out, the consumers' shares add up to the share of the whole stream. |
| CompetitivePerm.SumDealtEmpty | src/prsice.cpp:1893-1940 | Consumers of an empty queue count nothing. |
| CompetitivePerm.JobPayloadsOfQueue | src/prsice.cpp:1843-1845 | The end markers carry no score: the queue's scores are the stream. |
| CompetitivePerm.JobPayloadsOfJobs | src/prsice.cpp:1835 | The scores carried by the messages are the stream. |
| CompetitivePerm.AddInto | src/prsice.cpp:1936-1938 | Merging a consumer's counts adds them slot by slot. |
| CompetitivePerm.RunThreaded | src/prsice.cpp:2041-2061 | The threaded branch, under any scheduling of the queue, gives the same counts as one pass over the stream. |
| CompetitivePerm.ExceedCount | src/prsice.cpp:1726-1737 | A set's count of exceeding permutations is at most the number of permutations. |
| CompetitivePerm.GroupedCount | src/prsice.cpp:2003-2008 | Set k is listed once, in the group of its own size. |
| CompetitivePerm.CoversIndexes | src/prsice.cpp:2003-2008 | The map built from the summary indexes only existing sets. |
| CompetitivePerm.SizeIsKey | src/prsice.cpp:2003-2008 | Every set's size is a key of the map, and at most the largest key. |
| CompetitivePerm.PassHits | src/prsice.cpp:1726-1737 | Within one permutation, exactly the null score of set k's size counts for k: one hit iff the null t of the first `size` background SNPs exceeds the observed t. |
| CompetitivePerm.StreamHits | src/prsice.cpp:1679-1742 | Over the whole stream, set k's share is the number of permutations whose same-size null beats it. |
| CompetitivePerm.CompetitiveCounts | src/prsice.cpp:1679-1742 | Each set's final count is its start count plus `ExceedCount` for its own size. |
| Phenotype.FirstMatch | src/prsice.cpp:78-91 | The first column at or after `from` that holds the name. None iff no column there holds it. |
| Phenotype.PhenoCheck | src/prsice.cpp:20-107 | Without a phenotype file the call succeeds with no phenotype column and only the first binary flag. With one, the three errors are a file that cannot be opened, an empty header line, and fewer than 2 + !ignore_fid columns; otherwise the call succeeds. With no requested names, the first column after the IDs (which exists) is used under the name "Phenotype", with the first binary flag. Otherwise the requested names chosen are those asked for the first time and found, in request order, each with its first matching column and its own binary flag. |
| Phenotype.ChosenNamesDistinct | src/prsice.cpp:73-76 | The chosen phenotypes have pairwise different names. |
| Phenotype.Values | src/prsice.cpp:251-330 | There are never more accepted values than samples. |
| Phenotype.Decremented | src/prsice.cpp:386-398 | The 1/2 recoding lowers every value by one. |
| Phenotype.ValuesSnoc | src/prsice.cpp:251-293 | One more sample appends its accepted value, if it has one. |
| Phenotype.CountSnoc | src/prsice.cpp:264-265 | One more value counts once more iff it is the one counted. |
| Phenotype.CollectPheno | src/prsice.cpp:251-330 | The reading loop gives the accepted values and the samples they belong to, plus the not-found and invalid counts. For a binary trait the values are 0, 1 or 2, the maximum exceeds 1 iff a 2 occurs, and cases and controls are counted. For a continuous trait at least two values are collected iff two values differ. |
| Phenotype.AddBinary | src/prsice.cpp:261-266 | A valid binary value is appended. The values stay 0, 1 or 2, the maximum exceeds 1 iff a 2 is stored, and the case and control counts stay the counts of 1s and 0s. |
| Phenotype.AddContinuous | src/prsice.cpp:276-280 | A valid continuous value is appended. The sanity set holds at most two distinct stored values, and while it holds fewer than two it holds every stored value. |
| Phenotype.RecodeBinary | src/prsice.cpp:386-398 | Every value is lowered by one, the error flag is set iff a 0 occurs, and cases and controls are recounted. |
| Phenotype.GenPhenoVec | src/prsice.cpp:197-433 | The method computes `Decode`: the decoding loop, then the checks in source order. |
| Phenotype.CountsPartition | src/prsice.cpp:251-330 | Every sample is counted exactly once: as a value, as not found, or as invalid. |
| Phenotype.KeptMeaning | src/prsice.cpp:251-330 | Position j of the phenotype vector holds the value of the j-th sample that has one. The samples kept are increasing, and each sample with a valid value is kept. |
| Phenotype.ValuesZeroOneTwo | src/prsice.cpp:259-273 | Accepted binary values are 0, 1 or 2. |
| Phenotype.CountZeroOne | src/prsice.cpp:417-420 | On 0/1 values, cases plus controls make up every value. |
| Phenotype.CountDecremented | src/prsice.cpp:386-398 | Lowering every value by one shifts the count of each value down by one. |
| Phenotype.BinaryDecoded | src/prsice.cpp:386-420 | An accepted binary phenotype is coded 0/1, has at least one case and one control, and counts as cases the 2s of a 1/2 coding or the 1s otherwise. |
| Phenotype.MixedEncodingIff | src/prsice.cpp:400-404 | The mixed-encoding error occurs iff both 0 and 2 occur among the valid values. |
| Phenotype.PastSanity | src/prsice.cpp:355-384 | With a valid binary value, decoding passes the sample-left and sanity checks. |
| Phenotype.PastSanityFile | src/prsice.cpp:355-384 | The same, when the phenotype comes from a phenotype file. |
| Phenotype.PastSanityFam | src/prsice.cpp:355-384 | The same, when the phenotype comes from the fam file. |
| Phenotype.FinishMixed | src/prsice.cpp:400-404 | After the sanity checks, the binary error is the mixed-encoding one iff 0 and 2 both occur. |
| Phenotype.ContinuousDecoded | src/prsice.cpp:376-384 | An accepted continuous phenotype keeps the values as read and holds at least two distinct values. |
| Phenotype.NoRegressAccepts | src/prsice.cpp:355-420 | Without regression, no phenotype is rejected. |
| CovariateRows.IsNAIgnoresCase | src/prsice.cpp:566-568 | The four spellings of a missing value are exactly "NA" in any letter case. |
| CovariateRows.CursorBound | src/prsice.cpp:574-589 | The factor cursor never passes the end of the factor list. |
| CovariateRows.CursorAsWrittenInBounds | src/prsice.cpp:574-589 | The unguarded read stays in bounds iff the cursor has not reached the end before the last column; then the cursor equals the guarded one. |
| CovariateRows.AsWrittenReadsPastEnd | src/prsice.cpp:588-589 | With covariates [2, 3] and factor [2], the as-written loop reads `factor_cov_index[1]`, which is past the end. |
| CovariateRows.CursorSplits | src/prsice.cpp:574-589 | Before column n, the cursor has passed exactly the factors below that column. |
| CovariateRows.FactorIffListed | src/prsice.cpp:574-589 | A covariate column is treated as a factor iff it is in the factor list. |
| CovariateRows.MissingAfter | src/prsice.cpp:566-573 | Each covariate's missing count keeps the length of the count vector. |
| CovariateRows.CheckRow | src/prsice.cpp:566-589 | A sample is valid iff no covariate is missing and every numeric one converts. The missing counts rise for the missing ones. |
| CovariateRows.Learn | src/prsice.cpp:599-607 | A new level text gets the next number and known texts keep theirs. |
| CovariateRows.LearnDense | src/prsice.cpp:599-607 | Level numbers stay 0, 1, …, without gaps or repeats. |
| CovariateRows.LearnRow | src/prsice.cpp:593-607 | Learning one row keeps one level map per factor. |
| CovariateRows.AddLevels | src/prsice.cpp:593-607 | The level loop learns the row's factor texts, and each next level equals its map's size. |
| CovariateRows.ScanSpec | src/prsice.cpp:547-612 | A successful pass is well formed. |
| CovariateRows.IncreasingBelowLast | src/prsice.cpp:553-557 | Every covariate index lies below `cov_index.back() + 1`. |
| CovariateRows.ScanCovRows | src/prsice.cpp:547-612 | The row loop computes the specified pass. |
| CovariateRows.ScanInvariant | src/prsice.cpp:547-612 | After any number of rows, the level maps are dense and every kept sample carries its phenotype index. |
| CovariateRows.ScanFailsIffShort | src/prsice.cpp:553-557 | The pass fails iff some line has fewer than `max_index` fields, and it fails with the malformed-file message. |
| CovariateLayout.Layout | src/prsice.cpp:621-645 | The layout has one start per covariate, and every value is held in `uint32_t`. |
| CovariateLayout.ColumnLayout | src/prsice.cpp:621-645 | The loop computes the layout. |
| CovariateLayout.OffsetMonotone | src/prsice.cpp:621-645 | Starts never decrease, and none lies below column 2. |
| CovariateLayout.LayoutExact | src/prsice.cpp:621-645 | When nothing wraps 32 bits, the computed starts and total equal the exact offsets. |
| CovariateLayout.PlainLayout | src/prsice.cpp:748-750 | Without factors there is one start per covariate. |
| CovariateLayout.LayoutWithoutFactors | src/prsice.cpp:735-750 | Without factors, the layout loop gives covariate i column i + 2. |
| CovariateLayout.Fill | src/prsice.cpp:778-806 | A successful fill gives a row of the matrix width. |
| CovariateLayout.FillRow | src/prsice.cpp:778-806 | The fill loop computes the specified row. |
| CovariateLayout.FillErrSticks | src/prsice.cpp:796-797 | Once a conversion fails, the row fails. |
| CovariateLayout.OneHot | src/prsice.cpp:801-806 | A level's indicator block has one column per non-base level. |
| CovariateLayout.OneHotRoundTrip | src/prsice.cpp:801-806 | Reading the indicator block back gives the level written. |
| CovariateLayout.BlockKept | src/prsice.cpp:778-806 | A write after a block leaves that block in place. |
| CovariateLayout.LevelBelowCount | src/prsice.cpp:801-803 | A looked-up level is below its factor's level count. |
| CovariateLayout.LayoutAtOffsets | src/prsice.cpp:621-645 | When nothing wraps, the computed layout is the exact one. |
| CovariateLayout.OffsetsFitWrites | src/prsice.cpp:778-806 | The exact layout keeps every write inside the row. |
| CovariateLayout.FillEncodes | src/prsice.cpp:778-806 | Filling succeeds and encodes every covariate into its own block. |
| CovariateLayout.FillStart | src/prsice.cpp:755-757 | The fresh row has ones in the intercept and score columns and zeros elsewhere. |
| CovariateLayout.FillStep | src/prsice.cpp:790-809 | Each covariate's write keeps the row encoded. |
| CovariateLayout.BaseLevel | src/prsice.cpp:803 | The base level writes nothing, so its block stays zero. |
| CovariateLayout.FactorWrite | src/prsice.cpp:803-806 | Writing a level's 1 encodes the factor. |
| CovariateLayout.NumberWrite | src/prsice.cpp:796-797 | Writing a numeric value encodes that covariate. |
| CovariateLayout.PrefixBlocksKept | src/prsice.cpp:790-809 | A write at or after covariate k's start keeps the earlier blocks. |
| CovariateLayout.EncodedReadsBack | src/prsice.cpp:778-806 | An encoded row reads back every covariate: a factor's level, a number's value. |
| CovariateLayout.FillRoundTrip | src/prsice.cpp:621-806 | Over the layout of the levels a valid scan learns, filling a sample's row succeeds and every covariate reads back from its own columns. |
| CovariateCompaction.InsertByIndex | src/prsice.cpp:686-693 | Insertion adds exactly one entry and keeps every other entry. |
| CovariateCompaction.InsertSorted | src/prsice.cpp:686-693 | Insertion keeps the list sorted by phenotype position. |
| CovariateCompaction.SortByIndex | src/prsice.cpp:686-693 | The sort permutes the kept samples. |
| CovariateCompaction.SortSorted | src/prsice.cpp:686-693 | The sorted list is ordered by phenotype position. |
| CovariateCompaction.InsertStrict | src/prsice.cpp:686-693 | Inserting an entry with a new position keeps the order strict. |
| CovariateCompaction.SortStrict | src/prsice.cpp:686-693 | With distinct positions, the sorted list is strictly increasing. |
| CovariateCompaction.CompactSpec | src/prsice.cpp:696-710 | The compaction keeps the vector's length until the final resize. |
| CovariateCompaction.Renumber | src/prsice.cpp:698-702 | The new map has exactly the kept samples as keys. |
| CovariateCompaction.IndexAtLeastRank | src/prsice.cpp:696-710 | Strictly increasing positions never lie below their rank. |
| CovariateCompaction.CompactGathers | src/prsice.cpp:696-710 | Each copy reads a slot not yet overwritten: rank k ends up with the phenotype of the k-th kept sample, and later slots are untouched. |
| CovariateCompaction.RenumberRanks | src/prsice.cpp:698-702 | The k-th kept sample is renumbered k. |
| CovariateCompaction.Compact | src/prsice.cpp:696-710 | In place, the loop computes the specified compaction and renumbering. |
| CovariateCompaction.DropInvalid | src/prsice.cpp:647-712 | It does nothing when no sample was removed. Removing every sample is an error. Otherwise the vector is compacted over the sorted kept samples and shrinks to their number. |
| CovariateCompaction.DropInvalidKeeps | src/prsice.cpp:686-712 | With distinct positions and names, rank k of the compacted vector holds the k-th kept sample's phenotype, and that sample is renumbered k. |
| CovariateCompaction.DistinctIds | src/prsice.cpp:686-693 | Sorting keeps names pairwise different. |
| PrsiceState.Fids | src/prsice.cpp:178-181 | The family IDs, one per target sample. |
| PrsiceState.Iids | src/prsice.cpp:182-184 | The individual IDs, one per target sample. |
| PrsiceState.LongestMeaning | src/prsice.cpp:172-186 | The ID column width is at least 3 and fits every name. It is 3 or the length of some name. |
| PrsiceState.IncludedMeaning | src/prsice.cpp:174-194 | The regression rows are strictly increasing target positions, exactly those of the samples with a phenotype. |
| PrsiceState.MaxAt | src/prsice.cpp:1243-1250 | Every slot is the larger of its old value and its statistic. |
| PrsiceState.PermStep | src/prsice.cpp:1084-1101 | One threshold's permutation keeps the null array's length. |
| PrsiceState.PermFold | src/prsice.cpp:905-910 | Permuting at every threshold keeps the null array's length. |
| PrsiceState.SequentialIsMinimum | src/prsice.cpp:1128-1129 | On the single-thread path, a slot ends at the minimum of its start value and every null statistic. |
| PrsiceState.ThreadedIsMaximum | src/prsice.cpp:1243-1250 | On the threaded path, a slot ends at the maximum of its start value and every null statistic. |
| PrsiceState.PathsDisagree | src/prsice.cpp:1128-1129 | With 2 as the start value, one null statistic of 5 and an observed statistic of 3, the paths give empirical p-values 1/2 and 1. |
| PrsiceState.Owned | src/prsice.cpp:1177-1193 | The jobs for one consumer carry in-range permutation indices. |
| PrsiceState.SlotMaxOwned | src/prsice.cpp:1243-1250 | Merging a consumer's buffer raises exactly the slots that consumer owns. |
| PrsiceState.OwnedMerge | src/prsice.cpp:1195-1251 | After all consumers merge, every slot is raised to its own statistic, whoever owned it. |
| PrsiceState.Largest | src/prsice.cpp:1684 | The largest set size bounds every size and is attained. |
| PrsiceState.LastKeyIsLargest | src/prsice.cpp:1684 | The last key of the ordered map is the largest set size. |
| PrsiceState.Prsice.UpdateSampleIncluded | src/prsice.cpp:170-195 | Sets the ID column widths to the running maxima and the regression rows to the samples with a phenotype. Flags those samples in the target, leaving every other flag as it was. |
| PrsiceState.Prsice.ResetScan | src/prsice.cpp:834-850 | There is no best index and no SNP. The null array is resized with fill 2, every result slot is reset, and the best scores are zeros, one per sample. |
| PrsiceState.Prsice.RegressScore | src/prsice.cpp:970-1041 | The scan fields become `RegressStep` of their old values. |
| PrsiceState.Prsice.RunNullPermNoThread | src/prsice.cpp:1104-1165 | Folds every permutation's statistic by minimum into its slot. |
| PrsiceState.Prsice.ConsumeNullPheno | src/prsice.cpp:1195-1251 | Merges the consumer's buffer by maximum. |
| PrsiceState.Prsice.ThreadPerm | src/prsice.cpp:1252-1308 | Folds each statistic of the chunk by minimum into slot `processed + start + i`. The statistics are the permuted p-values `obs_p`; nothing in the file calls this function. |
| PrsiceState.Prsice.Permutation | src/prsice.cpp:1059-1101 | One thread gives the minimum fold. More threads give the maximum merge, under any scheduling of the queue. |
| PrsiceState.Prsice.ProcessPermutations | src/prsice.cpp:1044-1057 | Without a best threshold nothing changes. Otherwise only the best slot's empirical p-value is set, to (count+1)/(N+1), where count is the number of null statistics above its t. |
| PrsiceState.Prsice.GenPermMemory | src/prsice.cpp:1640-1678 | Fails iff the corrected budget is negative. Otherwise it sets the permutations per slice as the budget allows and resizes the permuted-phenotype buffer to samples × slice. |
| PrsiceState.Prsice.SetCounts | src/prsice.cpp:2041-2064 | With one worker or several, every set's count is `ExceedCount` for its own size against the largest size. |
| PrsiceState.Prsice.RunCompetitive | src/prsice.cpp:1986-2071 | Fails iff the thread budget fails, and then the summary is unchanged. Otherwise the base set is kept and each other set gets the empirical p-value of its exceedance count. |
| PrsiceState.Prsice.ScanThresholds | src/prsice.cpp:881-913 | The scan fields become `Scan` of their old values. When permuting, the null array is folded at every threshold. |
| PrsiceState.Prsice.RunPrsice | src/prsice.cpp:819-917 | Resets the scan, scans (nothing is regressed without regression) and folds the null array, sized to N with fill 2. When permuting with a best threshold, it sets that threshold's empirical p-value from the final null array. Only that best threshold's se must be nonzero; a fit that did not converge elsewhere is accepted. When every threshold's scores have one entry per sample, so do the best scores. |

## Left out

- File and terminal I/O is not modelled. This covers opening and reading the phenotype, covariate and fam files, the reporter and its messages, `print_progress`, `print_best`, the all-score file writes in `run_prsice`, and the DEBUG dump of `regress_score`. Inputs arrive already tokenised.
- The regression numerics are an oracle parameter: `Regression::glm`, `linear_regression`, the QR decomposition, and the permuted statistics computed from them. They are represented as `FitOutcome` and the null statistics.
- Score calculation (`Genotype::calculate_score`, `get_score`) belongs to a class that is not part of this model. Those scores and SNP counts per threshold are parameters.
- Threads, the mutex and `Thread_Queue` are represented by a scheduling function (`owner`) that says which consumer pops which message, and by a fixed merge order. `NullStats.MaxMergeOrderIrrelevant` and `CompetitivePerm.DealSplits` justify that order.
- The random engine is replaced by the swap positions it draws (`draws`). The phenotype shuffle of `gen_null_pheno` is folded into the null statistic per permutation.
- Free memory and the memory in use come from system queries, and are parameters.
- Floating point is modelled by `real`: NaN and infinity are not modelled. Where the source divides by `se`, the model requires a nonzero `se`.
- The prevalence adjustment of r² and the r² output in `print_best` are not modelled.
- The warning printed when more than 5% of samples miss a covariate is not modelled, and neither is its message text. The layout and level report messages are not modelled either.
- The tie-break by name in the covariate sort is not modelled. Ties on position only arise between entries at the same phenotype index, and `DropInvalidKeeps` assumes distinct indices and names for the gather property.
- Phenotype.Values: the `-9` error message at line 379 is reported through the same "not enough valid phenotype" error. When no value survives the sanity check, the source dereferences `begin()` of an empty set, which is undefined behaviour. The model reports the error instead.
- CovariateLayout.Lookup: `factor_list[f][text]` inserts a missing key with level 0. Only the 0 it returns is modelled, not the insertion into the map.
- CovariateLayout.Fill: `misc::convert` throws with its own text. The model uses the constant `NotNumeric` in its place.
- PrsiceState.Prsice.GenPermMemory: uses the corrected signed budget `FinalMb`, not the wrapping one. The wrapping arithmetic is modelled in `MemoryBudget.FinalMbAsWritten` (see Findings).
- MemoryBudget.UncappedSlice: requires a sample or a nonzero budget. With no sample and a budget of 0, line 1662 divides 0 by 0 in `intptr_t`, which is undefined behaviour, so the model excludes that input.
- MemoryBudget.PermPerSlice: has the same requirement as `UncappedSlice`, for the same 0/0 division at line 1662.
- PrsiceState.Prsice.GenPermMemory: has the same requirement as `UncappedSlice`, for the same 0/0 division at line 1662.
- MemoryBudget.CompetitiveThreads: the halved margin is exact, while line 2031 computes it through a double. The per-thread need is exact, while lines 2017-2019 compute it as a `size_t` product that can wrap. Both differ only above 2^53 bytes. It also requires at least one regression row, because with none, the need is 0 and line 2038 divides by it.
- CovariateCompaction.DropInvalid: requires at most as many valid entries as phenotype slots. A covariate file that lists a valid sample twice gives more entries, and line 707 then writes past the end of `m_phenotype` before the resize at line 710. That write is undefined behaviour and is not modelled.
- PrsiceState.Prsice.RunNullPermNoThread: the permuted fit is always taken to succeed. In the source, `Regression::glm` at lines 1125-1126 is called outside any `try`, so a logistic fit that does not converge throws and ends `run_prsice`. The null statistics here are reals, so every run completes.
- PrsiceState.Prsice.ConsumeNullPheno: the permuted fit is always taken to succeed. In the source, a non-converging `Regression::glm` at lines 1216-1217 throws inside a consumer thread, which calls `std::terminate`.
- PrsiceState.Prsice.ThreadPerm: the permuted fit is always taken to succeed. In the source, a non-converging `Regression::glm` at lines 1268-1269 throws inside a worker thread.
- CompetitivePerm.NullSetNoThread: the competitive fit is always taken to succeed. In the source, a non-converging `Regression::glm` at lines 1723-1724 throws and ends `run_competitive`.
- CompetitivePerm.ConsumePrs: the competitive fit is always taken to succeed. In the source, a non-converging `Regression::glm` at lines 1917-1918 throws inside a consumer thread, which calls `std::terminate`.
- CompetitivePerm.RunThreaded: inherits the assumption of `ConsumePrs`, so every threaded competitive run completes.
- PrsiceState.Prsice.constructor: the `PRSice` constructor is declared in a header that is not part of this model. The Dafny constructor only sets starting values that the other methods do not depend on.
- MemoryBudget.FinalMbAsWritten: converting 2^63 to `intptr_t` is undefined in C++. The model takes the x86-64 result, INT64_MIN.
- PrsiceState.Prsice.RunCompetitive: requires at least two summary entries. With only the base set the map `set_index` is empty, and its `rbegin()` is undefined behaviour.
- PrsiceState.Prsice.ConsumeNullPheno: the end marker is a one-row vector. A permuted phenotype of one sample would be taken for it. The model keeps jobs and the end marker apart.
- CompetitivePerm.ConsumePrs: the end marker is an empty score vector. With no regression sample, every null score would be empty too. The model keeps jobs and the end marker apart (`Job`/`Stop`).
- PrsiceState.Prsice.RunPrsice: does not state the final value of `numSnpIncluded` (the last threshold's SNP count), nor `m_analysis_done` and the all-score bookkeeping.
- PrsiceState.Prsice.GenPermMemory: `m_permuted_pheno` is assumed to be a `std::vector<double>`. The header that declares it is not part of this model, so the new slots are taken to be zero.
- The single-set overload of `null_set_no_thread` (line 1743 onward) is not modelled: `run_competitive` at 1986 calls only the map-based one. The single-set versions of `produce_null_prs`, `consume_prs` and `run_competitive` are commented out in the source (1848-1892, 1941-1984, 2072-2146).
- `check_factor_cov`, `init_matrix` and the reading of the fam file are not modelled. Only their outcomes enter the model: the decoded cells and the index lists.

## Findings

| source | as written | input that shows it | evidently intended | confidence | as-written member | corrected member |
|---|---|---|---|---|---|---|
| src/prsice.cpp:1648 | `final_mb` is `(valid - used)` in `size_t`. When more memory is in use than allowed, the difference wraps to a huge positive number. For an excess above 1024 bytes (up to 2^63) the halved budget is at least 2^62 - 512, and the `final_mb < 0` check at 1650 does not fire. For an excess of 1-1024 bytes the difference rounds to 2^64 as a double, and the conversion of its half to `intptr_t` overflows. | valid = 0x4000_0000 and used = 0x8000_0000 give final_mb = 2^63 - 2^29, so the run goes ahead. | A signed difference, so that the insufficient-memory error is raised once use exceeds the limit | not executed | MemoryBudget.AsWrittenAcceptsDeficit | MemoryBudget.PermBudgetRejectsDeficit |
| src/prsice.cpp:588-589 | The factor cursor advances on `cov_index[i_cov] == factor_cov_index[factor_level_index]` without first checking `factor_level_index < factor_cov_index.size()`. After the last factor, the next column reads past the end of the factor list. | cov_index = [2, 3], factor_cov_index = [2]: at column 3 the loop reads `factor_cov_index[1]`. | Guard the read as at line 574, so that a column is a factor iff it is listed | not executed | CovariateRows.AsWrittenReadsPastEnd | CovariateRows.FactorIffListed |
