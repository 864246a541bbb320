/** The end of `process_cov_file` (647-710): when the covariates removed
    some samples, the kept samples are sorted by their position in the
    phenotype vector, renumbered, and the phenotype vector is compacted in
    place over them. */
module CovariateCompaction {
  import opened Outcome
  import opened CovariateRows

  const AllRemoved := "Error: All samples removed due to missingness in covariate file!"

  // ---------------------------------------------------------------------
  // Sorting by phenotype position (686-697)
  // ---------------------------------------------------------------------

  ghost predicate SortedByIndex(s: seq<Entry>)
  {
    forall i, j :: 0 <= i < j < |s| ==> s[i].index <= s[j].index
  }

  /** Inserting one entry before the first entry with a position not below it. */
  function InsertByIndex(e: Entry, s: seq<Entry>): (r: seq<Entry>)
    ensures |r| == |s| + 1 && multiset(r) == multiset(s) + multiset{e}
    ensures forall x :: x in r <==> x == e || x in s
    decreases |s|
  {
    if s == [] then [e]
    else if e.index <= s[0].index then [e] + s
    else
      assert s == [s[0]] + s[1..];
      [s[0]] + InsertByIndex(e, s[1..])
  }

  lemma {:induction false} InsertSorted(e: Entry, s: seq<Entry>)
    requires SortedByIndex(s)
    ensures SortedByIndex(InsertByIndex(e, s))
    decreases |s|
  {
    if s != [] && e.index > s[0].index {
      InsertSorted(e, s[1..]);
      var r := InsertByIndex(e, s);
      forall j | 0 < j < |r| ensures s[0].index <= r[j].index {
        assert r[j] in InsertByIndex(e, s[1..]);
      }
    }
  }

  /** `std::sort` of the kept samples by phenotype position. */
  function SortByIndex(s: seq<Entry>): (r: seq<Entry>)
    ensures |r| == |s| && multiset(r) == multiset(s)
    ensures forall x :: x in r <==> x in s
    decreases |s|
  {
    if s == [] then []
    else
      assert s == [s[0]] + s[1..];
      InsertByIndex(s[0], SortByIndex(s[1..]))
  }

  /** The sort's result is ordered by position. */
  lemma {:induction false} SortSorted(s: seq<Entry>)
    ensures SortedByIndex(SortByIndex(s))
    decreases |s|
  {
    if s != [] {
      SortSorted(s[1..]);
      InsertSorted(s[0], SortByIndex(s[1..]));
    }
  }

  /** The phenotype positions are pairwise different. */
  ghost predicate DistinctIndices(s: seq<Entry>)
  {
    forall i, j :: 0 <= i < j < |s| ==> s[i].index != s[j].index
  }

  ghost predicate StrictlyByIndex(s: seq<Entry>)
  {
    forall i, j :: 0 <= i < j < |s| ==> s[i].index < s[j].index
  }

  lemma {:induction false} InsertStrict(e: Entry, s: seq<Entry>)
    requires StrictlyByIndex(s) && forall x :: x in s ==> x.index != e.index
    ensures StrictlyByIndex(InsertByIndex(e, s))
    decreases |s|
  {
    if s != [] && e.index > s[0].index {
      assert forall x :: x in s[1..] ==> x in s;
      InsertStrict(e, s[1..]);
      var r := InsertByIndex(e, s);
      forall j | 0 < j < |r| ensures s[0].index < r[j].index {
        assert r[j] in InsertByIndex(e, s[1..]);
      }
    }
  }

  /** With pairwise different positions the sorted list is strictly
      increasing in position. */
  lemma {:induction false} SortStrict(s: seq<Entry>)
    requires DistinctIndices(s)
    ensures StrictlyByIndex(SortByIndex(s))
    decreases |s|
  {
    if s != [] {
      var t := s[1..];
      assert DistinctIndices(t);
      SortStrict(t);
      forall x | x in SortByIndex(t) ensures x.index != s[0].index {
        assert x in t;
        var i :| 0 <= i < |t| && t[i] == x;
        assert s[i + 1] == x;
      }
      InsertStrict(s[0], SortByIndex(t));
    }
  }

  // ---------------------------------------------------------------------
  // Renumbering and compaction (698-710)
  // ---------------------------------------------------------------------

  /** The phenotype vector after the first n steps of the compaction loop:
      step k copies the entry at the k-th kept position down to k. */
  function CompactSpec(p: seq<real>, order: seq<Entry>, n: nat): (r: seq<real>)
    requires n <= |order| <= |p| && forall k :: 0 <= k < |order| ==> order[k].index < |p|
    ensures |r| == |p|
    decreases n
  {
    if n == 0 then p
    else
      var prev := CompactSpec(p, order, n - 1);
      var k := n - 1;
      if order[k].index != k then prev[k := prev[order[k].index]] else prev
  }

  /** The new `m_sample_with_phenotypes` after the first n steps. */
  function Renumber(order: seq<Entry>, n: nat): (r: map<string, nat>)
    requires n <= |order|
    ensures r.Keys == set k | 0 <= k < n :: order[k].id
    decreases n
  {
    if n == 0 then map[] else Renumber(order, n - 1)[order[n - 1].id := n - 1]
  }

  /** Strictly increasing positions never lie below their rank. */
  lemma {:induction false} IndexAtLeastRank(order: seq<Entry>, k: nat)
    requires forall i, j :: 0 <= i < j < |order| ==> order[i].index < order[j].index
    requires k < |order|
    ensures k <= order[k].index
    decreases k
  {
    if k > 0 {
      IndexAtLeastRank(order, k - 1);
    }
  }

  /** On strictly increasing positions every copy reads a slot not yet
      overwritten: position k ends up holding the phenotype of the k-th kept
      sample, and the slots past the loop still hold their old values. */
  lemma {:induction false} CompactGathers(p: seq<real>, order: seq<Entry>, n: nat)
    requires n <= |order| <= |p| && forall k :: 0 <= k < |order| ==> order[k].index < |p|
    requires forall i, j :: 0 <= i < j < |order| ==> order[i].index < order[j].index
    ensures forall k :: 0 <= k < n ==> CompactSpec(p, order, n)[k] == p[order[k].index]
    ensures forall k :: n <= k < |p| ==> CompactSpec(p, order, n)[k] == p[k]
    decreases n
  {
    if n > 0 {
      CompactGathers(p, order, n - 1);
      IndexAtLeastRank(order, n - 1);
    }
  }

  /** With different names, the k-th kept sample is renumbered k. */
  lemma {:induction false} RenumberRanks(order: seq<Entry>, n: nat)
    requires n <= |order|
    requires forall i, j :: 0 <= i < j < |order| ==> order[i].id != order[j].id
    ensures forall k :: 0 <= k < n ==> Renumber(order, n)[order[k].id] == k
    decreases n
  {
    if n > 0 {
      RenumberRanks(order, n - 1);
    }
  }

  /** The renumbering and compaction loop over the sorted kept samples,
      followed by `conservativeResize`. */
  method Compact(pheno: array<real>, order: seq<Entry>) returns (samples: map<string, nat>)
    requires |order| <= pheno.Length && forall k :: 0 <= k < |order| ==> order[k].index < pheno.Length
    modifies pheno
    ensures pheno[..] == CompactSpec(old(pheno[..]), order, |order|)
    ensures samples == Renumber(order, |order|)
  {
    ghost var start := pheno[..];
    samples := map[];
    var cur := 0;
    while cur < |order|
      invariant 0 <= cur <= |order|
      invariant pheno[..] == CompactSpec(start, order, cur)
      invariant samples == Renumber(order, cur)
    {
      samples := samples[order[cur].id := cur];
      var original := order[cur].index;
      if original != cur {
        pheno[cur] := pheno[original];
      }
      cur := cur + 1;
    }
  }

  /** The removed-sample branch (647-712): nothing changes when no sample
      was removed or there are no samples; removing every sample is an
      error; otherwise the phenotype vector keeps the kept samples in
      phenotype order and shrinks to their number. */
  method DropInvalid(pheno: array<real>, samples: map<string, nat>, valid: seq<Entry>)
    returns (r: Result<map<string, nat>>, size: nat)
    requires |valid| <= pheno.Length && forall e :: e in valid ==> e.index < pheno.Length
    modifies pheno
    ensures |valid| == |samples| || |samples| == 0 ==>
              r == Ok(samples) && size == pheno.Length && pheno[..] == old(pheno[..])
    ensures |valid| != |samples| && |samples| != 0 && |valid| == 0 ==> r == Err(AllRemoved)
    ensures |valid| != |samples| && |samples| != 0 && |valid| != 0 ==>
              var order := SortByIndex(valid);
              && r == Ok(Renumber(order, |order|)) && size == |valid|
              && pheno[..] == CompactSpec(old(pheno[..]), order, |order|)
  {
    if |valid| == |samples| || |samples| == 0 {
      return Ok(samples), pheno.Length;
    }
    if |valid| == 0 {
      return Err(AllRemoved), pheno.Length;
    }
    var order := SortByIndex(valid);
    assert forall k :: 0 <= k < |order| ==> order[k] in valid;
    var renumbered := Compact(pheno, order);
    return Ok(renumbered), |valid|;
  }

  /** When the kept samples have different positions and names, the
      compacted vector holds at rank k the phenotype of the k-th kept sample
      in phenotype order, and that sample is renumbered k. */
  lemma DropInvalidKeeps(p: seq<real>, valid: seq<Entry>)
    requires |valid| <= |p| && forall e :: e in valid ==> e.index < |p|
    requires DistinctIndices(valid)
    requires forall i, j :: 0 <= i < j < |valid| ==> valid[i].id != valid[j].id
    ensures var order := SortByIndex(valid);
            && (forall k :: 0 <= k < |order| ==> order[k].index < |p|)
            && (forall k :: 0 <= k < |order| ==> CompactSpec(p, order, |order|)[k] == p[order[k].index])
            && (forall k :: 0 <= k < |order| ==> Renumber(order, |order|)[order[k].id] == k)
  {
    var order := SortByIndex(valid);
    assert forall k :: 0 <= k < |order| ==> order[k] in valid;
    SortStrict(valid);
    CompactGathers(p, order, |order|);
    DistinctIds(valid, order);
    RenumberRanks(order, |order|);
  }

  /** Different positions keep the names different after sorting. */
  lemma DistinctIds(valid: seq<Entry>, order: seq<Entry>)
    requires forall i, j :: 0 <= i < j < |valid| ==> valid[i].id != valid[j].id
    requires StrictlyByIndex(order) && forall x :: x in order ==> x in valid
    requires forall i, j :: 0 <= i < j < |valid| ==> valid[i].index != valid[j].index
    ensures forall i, j :: 0 <= i < j < |order| ==> order[i].id != order[j].id
  {
    forall i, j | 0 <= i < j < |order| ensures order[i].id != order[j].id {
      assert order[i] in valid && order[j] in valid;
      var a :| 0 <= a < |valid| && valid[a] == order[i];
      var b :| 0 <= b < |valid| && valid[b] == order[j];
      assert a != b;
    }
  }
}
