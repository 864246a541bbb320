/** The state of one `PRSice` object and the member functions that update it:
    the threshold scan of `run_prsice` and `regress_score`, the permutation
    null array and its empirical p-value, the permutation memory budget, the
    competitive set test, and the samples kept for regression. Scores,
    regression fits, random draws and thread scheduling are oracle
    parameters. */
module PrsiceState {
  import opened Outcome
  import opened Results
  import opened ThresholdScan
  import opened NullStats
  import opened MemoryBudget
  import opened CompetitiveGroups
  import opened Shuffle
  import opened CompetitivePerm

  // ---------------------------------------------------------------------
  // update_sample_included (170-195)
  // ---------------------------------------------------------------------

  /** A target sample: family ID, individual ID and the key under which its
      phenotype is stored. */
  datatype Sample = Sample(fid: string, iid: string, id: string)

  function Fids(target: seq<Sample>): (r: seq<string>)
    ensures |r| == |target| && forall i :: 0 <= i < |target| ==> r[i] == target[i].fid
  {
    seq(|target|, i requires 0 <= i < |target| => target[i].fid)
  }

  function Iids(target: seq<Sample>): (r: seq<string>)
    ensures |r| == |target| && forall i :: 0 <= i < |target| ==> r[i] == target[i].iid
  {
    seq(|target|, i requires 0 <= i < |target| => target[i].iid)
  }

  /** The running maximum of the loop, which starts at 3. */
  function Longest(names: seq<string>, n: nat): nat
    requires n <= |names|
    decreases n
  {
    if n == 0 then 3
    else
      var m := Longest(names, n - 1);
      if m > |names[n - 1]| then m else |names[n - 1]|
  }

  /** The column width is at least 3, fits every name, and is 3 or the
      length of some name. */
  lemma {:induction false} LongestMeaning(names: seq<string>, n: nat)
    requires n <= |names|
    ensures Longest(names, n) >= 3
    ensures forall i :: 0 <= i < n ==> |names[i]| <= Longest(names, n)
    ensures Longest(names, n) == 3 || exists i :: 0 <= i < n && |names[i]| == Longest(names, n)
    decreases n
  {
    if n > 0 {
      LongestMeaning(names, n - 1);
    }
  }

  /** `m_matrix_index` after the loop over the first n samples. */
  function Included(target: seq<Sample>, samples: map<string, nat>, n: nat): seq<nat>
    requires n <= |target|
    decreases n
  {
    if n == 0 then []
    else Included(target, samples, n - 1) + (if target[n - 1].id in samples then [n - 1] else [])
  }

  /** The regression rows are the samples with a phenotype, in target order,
      each listed once. */
  lemma {:induction false} IncludedMeaning(target: seq<Sample>, samples: map<string, nat>, n: nat)
    requires n <= |target|
    ensures forall x :: 0 <= x < |Included(target, samples, n)| ==> Included(target, samples, n)[x] < n
    ensures forall x, y :: 0 <= x < y < |Included(target, samples, n)| ==>
              Included(target, samples, n)[x] < Included(target, samples, n)[y]
    ensures forall i :: 0 <= i < n ==> (i in Included(target, samples, n) <==> target[i].id in samples)
    decreases n
  {
    if n > 0 {
      IncludedMeaning(target, samples, n - 1);
    }
  }

  // ---------------------------------------------------------------------
  // The permutation loops across thresholds (run_prsice 906-909, permutation 1060-1101)
  // ---------------------------------------------------------------------

  /** Every slot raised to the matching statistic when that is larger. */
  function MaxAt(s: seq<real>, t: seq<real>): (r: seq<real>)
    requires |t| <= |s|
    ensures |r| == |s|
    ensures forall i :: 0 <= i < |s| ==> r[i] >= s[i] && (i < |t| ==> r[i] >= t[i])
    ensures forall i :: 0 <= i < |s| ==> r[i] == s[i] || (i < |t| && r[i] == t[i])
  {
    seq(|s|, i requires 0 <= i < |s| => if i < |t| && s[i] < t[i] then t[i] else s[i])
  }

  /** What `permutation` does to the null array for one threshold: the
      single-thread loop folds with min, the consumers of the threaded loop
      fold with max. */
  function PermStep(s: seq<real>, t: seq<real>, sequential: bool): (r: seq<real>)
    requires |t| <= |s|
    ensures |r| == |s|
  {
    if sequential then MinFoldAt(s, 0, t) else MaxAt(s, t)
  }

  /** The null array after the permutations of every regressed threshold. */
  function PermFold(s: seq<real>, nulls: seq<seq<real>>, sequential: bool): (r: seq<real>)
    requires forall j :: 0 <= j < |nulls| ==> |nulls[j]| <= |s|
    ensures |r| == |s|
    decreases |nulls|
  {
    if nulls == [] then s
    else
      var n := |nulls| - 1;
      PermStep(PermFold(s, nulls[..n], sequential), nulls[n], sequential)
  }

  /** On the single-thread path every slot ends at the minimum of its start
      value and every statistic computed for it; it never increases. */
  lemma {:induction false} SequentialIsMinimum(s: seq<real>, nulls: seq<seq<real>>, i: nat)
    requires forall j :: 0 <= j < |nulls| ==> |nulls[j]| == |s|
    requires i < |s|
    ensures PermFold(s, nulls, true)[i] <= s[i]
    ensures forall j :: 0 <= j < |nulls| ==> PermFold(s, nulls, true)[i] <= nulls[j][i]
    ensures PermFold(s, nulls, true)[i] == s[i]
            || exists j :: 0 <= j < |nulls| && PermFold(s, nulls, true)[i] == nulls[j][i]
    decreases |nulls|
  {
    if nulls != [] {
      var n := |nulls| - 1;
      SequentialIsMinimum(s, nulls[..n], i);
      assert forall j :: 0 <= j < n ==> nulls[..n][j] == nulls[j];
      var prev := PermFold(s, nulls[..n], true);
      if PermFold(s, nulls, true)[i] != nulls[n][i] && prev[i] != s[i] {
        var j :| 0 <= j < n && prev[i] == nulls[..n][j][i];
        assert PermFold(s, nulls, true)[i] == nulls[j][i];
      }
    }
  }

  /** On the threaded path every slot ends at the maximum of its start value
      and every statistic computed for it; it never decreases. */
  lemma {:induction false} ThreadedIsMaximum(s: seq<real>, nulls: seq<seq<real>>, i: nat)
    requires forall j :: 0 <= j < |nulls| ==> |nulls[j]| == |s|
    requires i < |s|
    ensures PermFold(s, nulls, false)[i] >= s[i]
    ensures forall j :: 0 <= j < |nulls| ==> PermFold(s, nulls, false)[i] >= nulls[j][i]
    ensures PermFold(s, nulls, false)[i] == s[i]
            || exists j :: 0 <= j < |nulls| && PermFold(s, nulls, false)[i] == nulls[j][i]
    decreases |nulls|
  {
    if nulls != [] {
      var n := |nulls| - 1;
      ThreadedIsMaximum(s, nulls[..n], i);
      assert forall j :: 0 <= j < n ==> nulls[..n][j] == nulls[j];
      var prev := PermFold(s, nulls[..n], false);
      if PermFold(s, nulls, false)[i] != nulls[n][i] && prev[i] != s[i] {
        var j :| 0 <= j < n && prev[i] == nulls[..n][j][i];
        assert PermFold(s, nulls, false)[i] == nulls[j][i];
      }
    }
  }

  /** The two paths disagree on the same statistics: one permutation at one
      threshold with null statistic 5 and observed statistic 3 leaves 2 (the
      fill value) on the single-thread path and 5 on the threaded path, so
      the empirical p-values are 1/2 and 1. */
  lemma PathsDisagree()
    ensures PermFold([2.0], [[5.0]], true) == [2.0]
    ensures PermFold([2.0], [[5.0]], false) == [5.0]
    ensures EmpiricalP(CountGreater(PermFold([2.0], [[5.0]], true), 3.0), 1) == 0.5
    ensures EmpiricalP(CountGreater(PermFold([2.0], [[5.0]], false), 3.0), 1) == 1.0
  {
    assert [[5.0]][..0] == [];
    assert [2.0][..0] == [] && [5.0][..0] == [];
  }

  /** The jobs the producer of `gen_null_pheno` sends to consumer w: the
      permutations it pops, in queue order, with their statistics. */
  function Owned(t: seq<real>, owner: nat -> nat, w: nat, n: nat): (r: seq<Item>)
    requires n <= |t|
    ensures InRange(r, n)
    decreases n
  {
    if n == 0 then []
    else Owned(t, owner, w, n - 1) + (if owner(n - 1) == w then [Item(n - 1, t[n - 1])] else [])
  }

  /** Merging one consumer's buffer raises exactly the slots it owns. */
  lemma {:induction false} SlotMaxOwned(x: real, t: seq<real>, owner: nat -> nat, w: nat, n: nat, i: nat)
    requires n <= |t|
    ensures SlotMax(x, Owned(t, owner, w, n), i) == if i < n && owner(i) == w && x < t[i] then t[i] else x
    decreases n
  {
    if n > 0 {
      SlotMaxOwned(x, t, owner, w, n - 1, i);
      var prev := Owned(t, owner, w, n - 1);
      if owner(n - 1) == w {
        var items := prev + [Item(n - 1, t[n - 1])];
        assert Owned(t, owner, w, n) == items;
        assert items[..|items| - 1] == prev;
      } else {
        assert Owned(t, owner, w, n) == prev;
      }
    }
  }

  lemma OwnedMerge(s: seq<real>, t: seq<real>, owner: nat -> nat, w: nat, i: nat)
    requires |t| <= |s| && i < |s|
    ensures InRange(Owned(t, owner, w, |t|), |s|)
    ensures MaxMerge(s, Owned(t, owner, w, |t|))[i] == if i < |t| && owner(i) == w && s[i] < t[i] then t[i] else s[i]
  {
    MaxMergeSlot(s, Owned(t, owner, w, |t|), i);
    SlotMaxOwned(s[i], t, owner, w, |t|, i);
  }

  // ---------------------------------------------------------------------
  // The competitive sets (run_competitive 1990-2071)
  // ---------------------------------------------------------------------

  /** The largest set size, 0 when there is none. */
  function Largest(sizes: seq<nat>): (r: nat)
    ensures forall k :: 0 <= k < |sizes| ==> sizes[k] <= r
    ensures sizes != [] ==> exists k :: 0 <= k < |sizes| && sizes[k] == r
    decreases |sizes|
  {
    if sizes == [] then 0
    else
      var n := |sizes| - 1;
      var m := Largest(sizes[..n]);
      assert forall k :: 0 <= k < n ==> sizes[..n][k] == sizes[k];
      if m < sizes[n] then sizes[n] else m
  }

  /** The last key of the map is the largest set size. */
  lemma LastKeyIsLargest(groups: seq<Group>, sizes: seq<nat>)
    requires Covers(groups, sizes) && sizes != []
    ensures groups != [] && MaxSize(groups) == Largest(sizes)
  {
    SizeSetMeaning(sizes, sizes[0]);
    assert groups != [];
    var k :| 0 <= k < |sizes| && sizes[k] == Largest(sizes);
    var _ := SizeIsKey(groups, sizes, k);
    SizeInSizes(groups, |groups| - 1);
    SizeSetMeaning(sizes, MaxSize(groups));
  }

  // ---------------------------------------------------------------------
  // The object
  // ---------------------------------------------------------------------

  class Prsice {
    /** `m_prs_results`, `m_best_index`, `m_best_sample_score`, `m_num_snp_included`. */
    var prsResults: seq<PrsResult>
    var bestIndex: int
    var bestSampleScore: seq<real>
    var numSnpIncluded: nat
    /** `m_perm_result` and `m_num_perm`. */
    var permResult: seq<real>
    const numPerm: nat
    /** `m_perm_per_slice` and `m_permuted_pheno`. */
    var permPerSlice: nat
    var permutedPheno: seq<real>
    /** The results of `m_prs_summary`, one per gene set; entry 0 is the base set. */
    var prsSummary: seq<PrsResult>
    /** `m_max_fid_length`, `m_max_iid_length`, `m_matrix_index`, `m_sample_with_phenotypes`. */
    var maxFidLength: nat
    var maxIidLength: nat
    var matrixIndex: seq<nat>
    var samplesWithPhenotypes: map<string, nat>

    /** A starting object for the methods below: empty buffers, no best
        threshold and the minimum ID width of 3. */
    constructor(numPerm: nat, samples: map<string, nat>)
      ensures this.numPerm == numPerm && samplesWithPhenotypes == samples
      ensures prsResults == [] && bestIndex == -1 && bestSampleScore == [] && numSnpIncluded == 0
      ensures permResult == [] && permPerSlice == 0 && permutedPheno == [] && prsSummary == []
      ensures maxFidLength == 3 && maxIidLength == 3 && matrixIndex == []
    {
      this.numPerm := numPerm;
      samplesWithPhenotypes := samples;
      prsResults, bestIndex, bestSampleScore, numSnpIncluded := [], -1, [], 0;
      permResult, permPerSlice, permutedPheno, prsSummary := [], 0, [], [];
      maxFidLength, maxIidLength, matrixIndex := 3, 3, [];
    }

    /** The three scan fields as one value. */
    function State(): ScanState
      reads this
    {
      ScanState(prsResults, bestIndex, bestSampleScore)
    }

    /** `update_sample_included`: the widths of the ID columns and the rows
        used in regression; samples with a phenotype are flagged in the
        target's in-regression flags, and no flag is cleared. */
    method UpdateSampleIncluded(target: seq<Sample>, inRegression: array<bool>)
      requires inRegression.Length == |target|
      modifies this`maxFidLength, this`maxIidLength, this`matrixIndex, inRegression
      ensures maxFidLength == Longest(Fids(target), |target|)
      ensures maxIidLength == Longest(Iids(target), |target|)
      ensures matrixIndex == Included(target, samplesWithPhenotypes, |target|)
      ensures forall i :: 0 <= i < |target| ==>
                inRegression[i] == (old(inRegression[i]) || target[i].id in samplesWithPhenotypes)
    {
      maxFidLength, maxIidLength := 3, 3;
      matrixIndex := [];
      var i := 0;
      while i < |target|
        invariant 0 <= i <= |target|
        invariant maxFidLength == Longest(Fids(target), i) && maxIidLength == Longest(Iids(target), i)
        invariant matrixIndex == Included(target, samplesWithPhenotypes, i)
        invariant forall k :: 0 <= k < |target| ==>
                    inRegression[k] == (old(inRegression[k]) || (k < i && target[k].id in samplesWithPhenotypes))
      {
        maxFidLength := if maxFidLength > |target[i].fid| then maxFidLength else |target[i].fid|;
        maxIidLength := if maxIidLength > |target[i].iid| then maxIidLength else |target[i].iid|;
        if target[i].id in samplesWithPhenotypes {
          matrixIndex := matrixIndex + [i];
          inRegression[i] := true;
        }
        i := i + 1;
      }
    }

    /** The reset at the start of `run_prsice` (834-848). */
    method ResetScan(numThreshold: nat, numSample: nat)
      modifies this`bestIndex, this`numSnpIncluded, this`permResult, this`bestSampleScore, this`prsResults
      ensures bestIndex == -1 && numSnpIncluded == 0
      ensures permResult == Resize(old(permResult), numPerm, 2.0)
      ensures bestSampleScore == seq(numSample, _ => 0.0)
      ensures prsResults == ResetResults(old(prsResults), numThreshold)
    {
      bestIndex := -1;
      numSnpIncluded := 0;
      permResult := Resize(permResult, numPerm, 2.0);
      var rs := if numThreshold <= |prsResults| then prsResults[..numThreshold]
                else prsResults + seq(numThreshold - |prsResults|, _ => Blank);
      ghost var grown := rs;
      var i := 0;
      while i < |rs|
        invariant 0 <= i <= |rs| == numThreshold
        invariant forall k :: 0 <= k < |rs| ==> rs[k] == if k < i then ResetSlot(grown[k]) else grown[k]
      {
        rs := rs[i := rs[i].(threshold := -1.0, r2 := 0.0, numSnp := 0)];
        i := i + 1;
      }
      prsResults := rs;
      bestSampleScore := seq(numSample, _ => 0.0);
    }

    /** `regress_score` for threshold slot `iter`: the outcome of the fit and
        the samples' scores at this threshold come from the oracles. */
    method RegressScore(threshold: real, outcome: FitOutcome, scores: seq<real>, iter: nat, binary: bool)
      requires ValidState(State()) && iter < |prsResults|
      modifies this`prsResults, this`bestIndex, this`bestSampleScore
      ensures State() == RegressStep(old(State()), iter, Step(threshold, numSnpIncluded, outcome, scores), binary)
    {
      if numSnpIncluded == 0 || numSnpIncluded == prsResults[iter].numSnp {
        return;
      }
      var fit := Recorded(binary, outcome);
      if iter == 0 || bestIndex < 0 || prsResults[bestIndex].r2 < fit.r2 {
        bestIndex := iter;
        bestSampleScore := scores;
      }
      prsResults := prsResults[iter := PrsResult(threshold, fit.r2, fit.r2Adj, fit.coefficient, fit.p,
                                                 -1.0, numSnpIncluded, fit.se, -1.0)];
    }

    /** `run_null_perm_no_thread`: permutation k's statistic is folded into
        slot k by min. */
    method RunNullPermNoThread(nullT: seq<real>)
      requires |nullT| == numPerm <= |permResult|
      modifies this`permResult
      ensures permResult == MinFoldAt(old(permResult), 0, nullT)
    {
      ghost var start := permResult;
      var processed := 0;
      while processed < numPerm
        invariant 0 <= processed <= numPerm && |permResult| == |start|
        invariant forall k :: 0 <= k < |start| ==>
                    permResult[k] == if k < processed then Min(nullT[k], start[k]) else start[k]
      {
        var obs := nullT[processed];
        permResult := permResult[processed := if permResult[processed] < obs then permResult[processed] else obs];
        processed := processed + 1;
      }
    }

    /** The locked merge at the end of `consume_null_pheno`: the consumer's
        buffered statistics raise their slots, in buffer order. */
    method ConsumeNullPheno(items: seq<Item>)
      requires InRange(items, |permResult|)
      modifies this`permResult
      ensures permResult == MaxMerge(old(permResult), items)
    {
      ghost var start := permResult;
      var i := 0;
      while i < |items|
        invariant 0 <= i <= |items| && |permResult| == |start|
        invariant permResult == MaxMerge(start, items[..i])
      {
        assert items[..i + 1][..i] == items[..i];
        var index := items[i].index;
        if permResult[index] < items[i].t {
          permResult := permResult[index := items[i].t];
        }
        i := i + 1;
      }
      assert items[..i] == items;
    }

    /** The locked merge at the end of `thread_perm`: the statistics of
        permutations `start`..`end - 1` of the current slice are folded by
        min into the slots that follow the `processed` earlier ones. */
    method ThreadPerm(start: nat, end: nat, processed: nat, obs: seq<real>)
      requires start <= end && |obs| == end - start && processed + end <= |permResult|
      modifies this`permResult
      ensures permResult == MinFoldAt(old(permResult), processed + start, obs)
    {
      ghost var before := permResult;
      var i := start;
      while i < end
        invariant start <= i <= end && |permResult| == |before|
        invariant forall k :: 0 <= k < |before| ==>
                    permResult[k] == if processed + start <= k < processed + i then Min(obs[k - processed - start], before[k])
                                     else before[k]
      {
        var o := obs[i - start];
        var ori := permResult[processed + i];
        permResult := permResult[processed + i := if ori > o then o else ori];
        i := i + 1;
      }
    }

    /** `permutation` for one threshold: one thread runs the sequential loop;
        otherwise the producer deals permutation k to consumer `owner(k)`
        (one of `numThread - 1`), and every consumer merges its buffer. */
    method Permutation(numThread: nat, nullT: seq<real>, owner: nat -> nat)
      requires numThread >= 1 && |nullT| == numPerm <= |permResult|
      requires numThread > 1 ==> forall k: nat :: owner(k) < numThread - 1
      modifies this`permResult
      ensures permResult == PermStep(old(permResult), nullT, numThread == 1)
    {
      if numThread == 1 {
        RunNullPermNoThread(nullT);
        return;
      }
      ghost var start := permResult;
      var w := 0;
      while w < numThread - 1
        invariant 0 <= w <= numThread - 1 && |permResult| == |start|
        invariant forall i :: 0 <= i < |start| ==>
                    permResult[i] == if i < |nullT| && owner(i) < w && start[i] < nullT[i] then nullT[i] else start[i]
      {
        var buffer := Owned(nullT, owner, w, |nullT|);
        ghost var before := permResult;
        forall i | 0 <= i < |before|
          ensures MaxMerge(before, buffer)[i] ==
                  if i < |nullT| && owner(i) < w + 1 && start[i] < nullT[i] then nullT[i] else start[i]
        {
          OwnedMerge(before, nullT, owner, w, i);
        }
        ConsumeNullPheno(buffer);
        w := w + 1;
      }
    }

    /** `process_permutations`: without a best threshold nothing changes;
        otherwise the best slot's empirical p-value is set from the number
        of null statistics above the observed t. */
    method ProcessPermutations()
      requires ValidState(State()) && |permResult| == numPerm
      requires bestIndex >= 0 ==> prsResults[bestIndex].se != 0.0
      modifies this`prsResults
      ensures bestIndex == -1 ==> prsResults == old(prsResults)
      ensures bestIndex >= 0 ==>
                var best := old(prsResults)[bestIndex];
                prsResults == old(prsResults)[bestIndex :=
                  best.(empP := EmpiricalP(CountGreater(permResult, best.coefficient / best.se), numPerm))]
    {
      if bestIndex == -1 {
        return;
      }
      var best := prsResults[bestIndex];
      var bestT := best.coefficient / best.se;
      var numBetter := CountGreater(permResult, bestT);
      prsResults := prsResults[bestIndex := best.(empP := EmpiricalP(numBetter, numPerm))];
    }

    /** `gen_perm_memory` with the signed budget: fails iff the budget is
        negative, otherwise fixes the permutations per slice and sizes the
        permuted phenotype buffer as `resize` does. */
    method GenPermMemory(sampleCt: nat, valid: nat, used: nat, maxSize: nat) returns (s: Status)
      requires sampleCt > 0 || FinalMb(valid, used) != 0
      modifies this`permPerSlice, this`permutedPheno
      ensures s.Failed? <==> PermPerSlice(FinalMb(valid, used), sampleCt, numPerm, maxSize).Err?
      ensures s.Failed? ==> permPerSlice == old(permPerSlice) && permutedPheno == old(permutedPheno)
      ensures s.Done? ==> permPerSlice == PermPerSlice(FinalMb(valid, used), sampleCt, numPerm, maxSize).value
      ensures s.Done? ==> permutedPheno == Resize(old(permutedPheno), sampleCt * permPerSlice, 0.0)
    {
      var minMemory := 8 * sampleCt;
      var maxRequired := minMemory * numPerm;
      var finalMb := FinalMb(valid, used);
      if finalMb < 0 {
        return Failed("Error: Insufficient memory for permutation!");
      }
      if finalMb < minMemory {
        permPerSlice := 1;
      } else if finalMb > maxRequired {
        permPerSlice := numPerm;
      } else {
        permPerSlice := finalMb / minMemory;
      }
      if permPerSlice * sampleCt > maxSize {
        permPerSlice := maxSize / sampleCt;
      }
      permutedPheno := Resize(permutedPheno, sampleCt * permPerSlice, 0.0);
      return Done;
    }

    /** The permutation counts of `run_competitive` for the given number of
        workers: set k (summary result k + 1) ends with the number of
        permutations whose null |t| for its size beats its own |t|. */
    static method SetCounts(summary: seq<PrsResult>, workers: nat, bg0: seq<nat>, draws: seq<seq<nat>>,
                            owner: nat -> nat, stat: seq<nat> -> real) returns (counts: seq<nat>)
      requires |summary| >= 2
      requires forall i :: 1 <= i < |summary| ==> summary[i].se != 0.0
      requires PermDraws(draws, Largest(SetSizes(summary)), |bg0|)
      ensures |counts| == |summary| - 1
      ensures forall k :: 0 <= k < |counts| ==>
                counts[k] == ExceedCount(TStat(summary[k + 1]), SetSizes(summary)[k],
                                         Largest(SetSizes(summary)), bg0, draws, stat)
    {
      ghost var sizes := SetSizes(summary);
      var groups, oriT, setPermRes := GroupSets(summary);
      LastKeyIsLargest(groups, sizes);
      CoversIndexes(groups, sizes);
      if workers > 1 {
        var consumers := workers - 1;
        counts := RunThreaded(groups, oriT, setPermRes, bg0, draws, consumers, k => owner(k) % consumers, stat);
      } else {
        counts := NullSetNoThread(groups, oriT, setPermRes, bg0, draws, stat);
      }
      forall k | 0 <= k < |sizes|
        ensures counts[k] == ExceedCount(oriT[k], sizes[k], MaxSize(groups), bg0, draws, stat)
      {
        CompetitiveCounts(groups, sizes, oriT, setPermRes, bg0, draws, stat, k);
      }
    }

    /** `run_competitive`: every gene set after the base set gets the
        fraction of competitive permutations whose null |t| beats its own,
        as `(count + 1) / (N + 1)`. It fails, changing nothing, when the
        memory left cannot hold one worker's design. With more than one
        affordable worker the producer/consumer path runs, otherwise the
        single-thread loop; both give the same counts. */
    method RunCompetitive(numThread: nat, rows: nat, cols: nat, valid: nat, used: nat,
                          bg0: seq<nat>, draws: seq<seq<nat>>, owner: nat -> nat, stat: seq<nat> -> real)
      returns (s: Status)
      requires rows > 0 && |prsSummary| >= 2
      requires forall i :: 1 <= i < |prsSummary| ==> prsSummary[i].se != 0.0
      requires PermDraws(draws, Largest(SetSizes(prsSummary)), |bg0|)
      modifies this`prsSummary
      ensures s.Failed? <==> CompetitiveThreads(rows, cols, valid, used, numThread).Err?
      ensures s.Failed? ==> prsSummary == old(prsSummary)
      ensures |prsSummary| == |old(prsSummary)| && prsSummary[0] == old(prsSummary)[0]
      ensures s.Done? ==> forall i :: 1 <= i < |prsSummary| ==>
                prsSummary[i] == old(prsSummary)[i].(competitiveP :=
                  EmpiricalP(ExceedCount(TStat(old(prsSummary)[i]), SetSizes(old(prsSummary))[i - 1],
                                         Largest(SetSizes(old(prsSummary))), bg0, draws, stat), |draws|))
    {
      ghost var summary := prsSummary;
      var threads := CompetitiveThreads(rows, cols, valid, used, numThread);
      if threads.Err? {
        return Failed(threads.msg);
      }
      var counts := SetCounts(prsSummary, threads.value, bg0, draws, owner, stat);
      var i := 1;
      while i < |prsSummary|
        invariant 1 <= i <= |prsSummary| == |summary|
        invariant forall k :: 0 <= k < |summary| ==>
                    prsSummary[k] == if 1 <= k < i then summary[k].(competitiveP :=
                      EmpiricalP(counts[k - 1], |draws|)) else summary[k]
      {
        prsSummary := prsSummary[i := prsSummary[i].(competitiveP := EmpiricalP(counts[i - 1], |draws|))];
        i := i + 1;
      }
      return Done;
    }

    /** The threshold loop of `run_prsice` (881-913) when regressing: step i
        is regressed into slot i and, with permutation, folded into the
        null array. */
    method ScanThresholds(steps: seq<Step>, nulls: seq<seq<real>>, binary: bool, permute: bool,
                          numThread: nat, owner: nat -> nat)
      requires ValidState(State()) && |steps| <= |prsResults| && |nulls| == |steps|
      requires |permResult| == numPerm && forall j :: 0 <= j < |nulls| ==> |nulls[j]| == numPerm
      requires permute ==> numThread >= 1 && (numThread > 1 ==> forall k: nat :: owner(k) < numThread - 1)
      modifies this`numSnpIncluded, this`permResult, this`bestIndex, this`bestSampleScore, this`prsResults
      ensures State() == Scan(old(State()), steps, binary)
      ensures permResult == if permute then PermFold(old(permResult), nulls, numThread == 1) else old(permResult)
    {
      ghost var st0 := State();
      ghost var start := permResult;
      var i := 0;
      while i < |steps|
        invariant 0 <= i <= |steps| && |prsResults| == |st0.results| && |permResult| == numPerm
        invariant State() == Scan(st0, steps[..i], binary)
        invariant permResult == if permute then PermFold(start, nulls[..i], numThread == 1) else start
      {
        assert steps[..i + 1][..i] == steps[..i];
        assert nulls[..i + 1][..i] == nulls[..i];
        numSnpIncluded := steps[i].numSnp;
        RegressScore(steps[i].threshold, steps[i].outcome, steps[i].scores, i, binary);
        if permute {
          Permutation(numThread, nulls[i], owner);
        }
        i := i + 1;
      }
      assert steps[..i] == steps && nulls[..i] == nulls;
    }

    /** `run_prsice` for one phenotype and region, from the reset to the
        empirical p-value. `steps[i]` is what the genotype oracle reports for
        threshold i (its SNP count and scores) and the fit of that score;
        `nulls[i]` holds the null statistic of every permutation at it. With
        `noRegress` the thresholds are only scored. */
    method RunPrsice(steps: seq<Step>, nulls: seq<seq<real>>, numThreshold: nat, numSample: nat,
                     binary: bool, noRegress: bool, permute: bool, numThread: nat, owner: nat -> nat)
      requires |steps| <= numThreshold && |nulls| == |steps|
      requires forall j :: 0 <= j < |nulls| ==> |nulls[j]| == numPerm
      requires permute && !noRegress ==> numThread >= 1 && (numThread > 1 ==> forall k: nat :: owner(k) < numThread - 1)
      requires permute && !noRegress ==>
                 var st := Scan(ScanState(ResetResults(prsResults, numThreshold), -1, seq(numSample, _ => 0.0)), steps, binary);
                 st.best >= 0 ==> st.results[st.best].se != 0.0
      modifies this`bestIndex, this`numSnpIncluded, this`permResult, this`bestSampleScore, this`prsResults
      ensures |permResult| == numPerm
      ensures (forall i :: 0 <= i < |steps| ==> |steps[i].scores| == numSample) ==> |bestSampleScore| == numSample
      ensures permResult == if permute && !noRegress
                            then PermFold(Resize(old(permResult), numPerm, 2.0), nulls, numThread == 1)
                            else Resize(old(permResult), numPerm, 2.0)
      ensures var st := Scan(ScanState(ResetResults(old(prsResults), numThreshold), -1, seq(numSample, _ => 0.0)),
                             if noRegress then [] else steps, binary);
              && bestIndex == st.best && bestSampleScore == st.bestScore
              && (permute && st.best >= 0 ==> st.results[st.best].se != 0.0)
              && prsResults == (if permute && st.best >= 0
                                then var best := st.results[st.best];
                                     st.results[st.best := best.(empP :=
                                       EmpiricalP(CountGreater(permResult, best.coefficient / best.se), numPerm))]
                                else st.results)
    {
      ResetScan(numThreshold, numSample);
      ghost var st0 := State();
      ghost var regressed := if noRegress then [] else steps;
      ghost var start := permResult;
      if noRegress {
        var i := 0;
        while i < |steps|
          invariant 0 <= i <= |steps| && State() == st0 && permResult == start
        {
          numSnpIncluded := steps[i].numSnp;
          i := i + 1;
        }
      } else {
        ScanThresholds(steps, nulls, binary, permute, numThread, owner);
      }
      assert State() == Scan(st0, regressed, binary);
      if permute {
        ProcessPermutations();
      }
    }
  }
}
