/** The threshold scan of `run_prsice` and `regress_score` as a function of
    the oracle outputs, and what it guarantees about the best threshold. */
module ThresholdScan {
  import opened Results

  /** What one iteration of the scan receives from the genotype and regression
      oracles: the threshold, the running SNP count `m_num_snp_included`, the
      fit, and every sample's score at this threshold. */
  datatype Step = Step(threshold: real, numSnp: nat, outcome: FitOutcome, scores: seq<real>)

  /** `m_prs_results`, `m_best_index` and `m_best_sample_score`. */
  datatype ScanState = ScanState(results: seq<PrsResult>, best: int, bestScore: seq<real>)

  ghost predicate ValidState(st: ScanState)
  {
    -1 <= st.best < |st.results|
  }

  /** `regress_score` returns at once when there is no SNP or the slot already
      holds this SNP count. */
  predicate Skips(st: ScanState, iter: nat, step: Step)
    requires iter < |st.results|
  {
    step.numSnp == 0 || step.numSnp == st.results[iter].numSnp
  }

  /** The test that moves the best index to `iter`. */
  predicate TakesBest(st: ScanState, iter: nat, r2: real)
    requires ValidState(st)
  {
    iter == 0 || st.best < 0 || st.results[st.best].r2 < r2
  }

  /** One call of `regress_score` for slot `iter`. */
  function RegressStep(st: ScanState, iter: nat, step: Step, binary: bool): (r: ScanState)
    requires ValidState(st) && iter < |st.results|
    ensures ValidState(r) && |r.results| == |st.results|
    ensures Skips(st, iter, step) ==> r == st
    ensures !Skips(st, iter, step) ==>
      r.results == st.results[iter := NewResult(step.threshold, Recorded(binary, step.outcome), step.numSnp)]
    ensures !Skips(st, iter, step) && TakesBest(st, iter, Recorded(binary, step.outcome).r2) ==>
      r.best == iter && r.bestScore == step.scores
    ensures (Skips(st, iter, step) || !TakesBest(st, iter, Recorded(binary, step.outcome).r2)) ==>
      r.best == st.best && r.bestScore == st.bestScore
    ensures |step.scores| == |st.bestScore| ==> |r.bestScore| == |st.bestScore|
  {
    if Skips(st, iter, step) then st
    else
      var fit := Recorded(binary, step.outcome);
      var results := st.results[iter := NewResult(step.threshold, fit, step.numSnp)];
      if TakesBest(st, iter, fit.r2) then ScanState(results, iter, step.scores)
      else ScanState(results, st.best, st.bestScore)
  }

  /** The state after the scan has regressed `steps[0]`, ..., `steps[|steps|-1]`
      into slots 0, 1, ... in that order. */
  function Scan(st0: ScanState, steps: seq<Step>, binary: bool): (r: ScanState)
    requires ValidState(st0) && |steps| <= |st0.results|
    ensures ValidState(r) && |r.results| == |st0.results|
    ensures (forall i :: 0 <= i < |steps| ==> |steps[i].scores| == |st0.bestScore|) ==> |r.bestScore| == |st0.bestScore|
    decreases |steps|
  {
    if steps == [] then st0
    else RegressStep(Scan(st0, steps[..|steps| - 1], binary), |steps| - 1, steps[|steps| - 1], binary)
  }

  /** The state `run_prsice` starts a scan from. */
  ghost predicate Initial(st: ScanState)
  {
    IsReset(st.results) && st.best == -1
  }

  /** What a scan from the reset state has done: slot i holds the regression
      result iff step i has SNPs, slots without SNPs and slots past the scan
      keep their reset marks, and the best index is the first slot with the
      strictly greatest r2 of all regressed slots (-1 when none was). */
  ghost predicate Scanned(st0: ScanState, steps: seq<Step>, binary: bool, st: ScanState)
    requires |steps| <= |st0.results| == |st.results|
  {
    && (forall i :: 0 <= i < |steps| && steps[i].numSnp > 0 ==>
          st.results[i] == NewResult(steps[i].threshold, Recorded(binary, steps[i].outcome), steps[i].numSnp))
    && (forall i :: 0 <= i < |st.results| && (i >= |steps| || steps[i].numSnp == 0) ==>
          st.results[i] == st0.results[i])
    && (st.best == -1 <==> (forall i :: 0 <= i < |steps| ==> steps[i].numSnp == 0))
    && (st.best == -1 ==> st.bestScore == st0.bestScore)
    && (st.best >= 0 ==>
          && st.best < |steps| && steps[st.best].numSnp > 0
          && st.bestScore == steps[st.best].scores
          && (forall i :: 0 <= i < |steps| && steps[i].numSnp > 0 ==> st.results[i].r2 <= st.results[st.best].r2)
          && (forall i :: 0 <= i < st.best && steps[i].numSnp > 0 ==> st.results[i].r2 < st.results[st.best].r2))
  }

  lemma {:induction false} ScanCorrect(st0: ScanState, steps: seq<Step>, binary: bool)
    requires ValidState(st0) && Initial(st0) && |steps| <= |st0.results|
    ensures Scanned(st0, steps, binary, Scan(st0, steps, binary))
    decreases |steps|
  {
    if steps != [] {
      var n := |steps| - 1;
      var prev := steps[..n];
      ScanCorrect(st0, prev, binary);
      var st := Scan(st0, prev, binary);
      assert forall i :: 0 <= i < n ==> prev[i] == steps[i];
      assert st.results[n] == st0.results[n];
      var r := Scan(st0, steps, binary);
      assert r == RegressStep(st, n, steps[n], binary);
      if !Skips(st, n, steps[n]) {
        var fit := Recorded(binary, steps[n].outcome);
        assert r.results[n].r2 == fit.r2;
        if TakesBest(st, n, fit.r2) {
          assert r.best == n;
          forall i | 0 <= i < |steps| && steps[i].numSnp > 0
            ensures r.results[i].r2 <= r.results[r.best].r2
          {
            if i < n {
              assert prev[i].numSnp > 0;
              assert st.best >= 0;
              assert r.results[i] == st.results[i];
            }
          }
        }
      }
    }
  }

  /** A threshold is skipped iff it has no SNP: after the reset every slot's
      stored count is 0, so the comparison with the stored count never skips a
      threshold whose count equals the previous threshold's. */
  lemma {:induction false} SkippedIffNoSnp(st0: ScanState, steps: seq<Step>, binary: bool, i: nat)
    requires ValidState(st0) && Initial(st0) && i < |steps| <= |st0.results|
    ensures Scan(st0, steps, binary).results[i].numSnp == steps[i].numSnp
    ensures Scan(st0, steps, binary).results[i].threshold == (if steps[i].numSnp == 0 then -1.0 else steps[i].threshold)
  {
    ScanCorrect(st0, steps, binary);
  }

  /** With one regressed threshold or more, the best slot holds the maximum r2
      among all regressed slots, and no earlier regressed slot ties with it. */
  lemma BestIsFirstMaximum(st0: ScanState, steps: seq<Step>, binary: bool, i: nat)
    requires ValidState(st0) && Initial(st0) && |steps| <= |st0.results|
    requires i < |steps| && steps[i].numSnp > 0
    ensures var st := Scan(st0, steps, binary);
            0 <= st.best < |steps| && st.results[i].r2 <= st.results[st.best].r2
            && (i < st.best ==> st.results[i].r2 < st.results[st.best].r2)
  {
    ScanCorrect(st0, steps, binary);
  }

  /** A scan in which no threshold had a SNP leaves no best model. */
  lemma NoSnpNoBest(st0: ScanState, steps: seq<Step>, binary: bool)
    requires ValidState(st0) && Initial(st0) && |steps| <= |st0.results|
    ensures Scan(st0, steps, binary).best == -1 <==> forall i :: 0 <= i < |steps| ==> steps[i].numSnp == 0
  {
    ScanCorrect(st0, steps, binary);
  }
}
