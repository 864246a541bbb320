/** The per-threshold result record and the regression fit that fills it. */
module Results {

  /** `prsice_result`: one record per scanned threshold. Statistics are reals
      that the model only compares; their floating-point computation is an
      oracle (the regression library). */
  datatype PrsResult = PrsResult(
    threshold: real,
    r2: real,
    r2Adj: real,
    coefficient: real,
    p: real,
    empP: real,
    numSnp: nat,
    se: real,
    competitiveP: real)

  /** A value-initialised record, the contents of a slot that `resize` adds. */
  const Blank := PrsResult(0.0, 0.0, 0.0, 0.0, 0.0, 0.0, 0, 0.0, 0.0)

  /** What the regression oracle reports for one design. */
  datatype Fit = Fit(p: real, r2: real, r2Adj: real, coefficient: real, se: real)

  /** The logistic fit can fail to converge; the linear one always returns. */
  datatype FitOutcome = Converged(fit: Fit) | NotConverged

  /** The statistics `regress_score` keeps after calling the oracle: the locals
      start at 0.0, a fit that did not converge leaves them there, and the
      logistic fit does not report an adjusted r2. */
  function Recorded(binary: bool, outcome: FitOutcome): (f: Fit)
    ensures outcome.NotConverged? ==> f == Fit(0.0, 0.0, 0.0, 0.0, 0.0)
    ensures outcome.Converged? ==> f.r2 == outcome.fit.r2 && f.p == outcome.fit.p
                                   && f.coefficient == outcome.fit.coefficient && f.se == outcome.fit.se
    ensures f.r2Adj == (if binary || outcome.NotConverged? then 0.0 else outcome.fit.r2Adj)
  {
    match outcome
    case NotConverged => Fit(0.0, 0.0, 0.0, 0.0, 0.0)
    case Converged(fit) => if binary then fit.(r2Adj := 0.0) else fit
  }

  /** The record written for a regressed threshold: empirical and competitive
      p-values are marked as not computed (-1). */
  function NewResult(threshold: real, f: Fit, numSnp: nat): PrsResult
  {
    PrsResult(threshold, f.r2, f.r2Adj, f.coefficient, f.p, -1.0, numSnp, f.se, -1.0)
  }

  /** The reset applied to every slot at the start of a scan; the other fields
      are left as they were. */
  function ResetSlot(r: PrsResult): PrsResult
  {
    r.(threshold := -1.0, r2 := 0.0, numSnp := 0)
  }

  /** Every slot carries the "not done" marks of the reset. */
  ghost predicate IsReset(rs: seq<PrsResult>)
  {
    forall i :: 0 <= i < |rs| ==> rs[i].threshold == -1.0 && rs[i].r2 == 0.0 && rs[i].numSnp == 0
  }

  /** `m_prs_results.resize(n)` followed by the reset loop. */
  function ResetResults(rs: seq<PrsResult>, n: nat): (r: seq<PrsResult>)
    ensures |r| == n && IsReset(r)
    ensures forall i :: 0 <= i < n && i < |rs| ==>
              && r[i].r2Adj == rs[i].r2Adj && r[i].coefficient == rs[i].coefficient && r[i].p == rs[i].p
              && r[i].empP == rs[i].empP && r[i].se == rs[i].se && r[i].competitiveP == rs[i].competitiveP
    ensures forall i :: |rs| <= i < n ==>
              r[i] == PrsResult(-1.0, 0.0, 0.0, 0.0, 0.0, 0.0, 0, 0.0, 0.0)
  {
    var r := seq(n, i requires 0 <= i < n => ResetSlot(if i < |rs| then rs[i] else Blank));
    assert forall i :: 0 <= i < n ==> r[i] == ResetSlot(if i < |rs| then rs[i] else Blank);
    r
  }
}
