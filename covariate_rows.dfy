/** The first pass of `process_cov_file` (520-612) over an already tokenised
    covariate file: which samples keep all their covariates, how many values
    each covariate column misses, and the numbering of the levels of every
    factor covariate. */
module CovariateRows {
  import opened Outcome

  // ---------------------------------------------------------------------
  // Tokens and missing values
  // ---------------------------------------------------------------------

  /** One field of a covariate line: its text and what `misc::convert<double>`
      makes of it (`None` when the conversion throws). */
  datatype Token = Token(text: string, number: Option<real>)

  /** One non-empty line: the sample id built from the FID/IID fields and
      the fields themselves. */
  datatype CovRow = CovRow(id: string, tokens: seq<Token>)

  /** The four spellings of a missing value (567-568). */
  predicate IsNA(s: string)
  {
    s == "NA" || s == "Na" || s == "nA" || s == "na"
  }

  function Upper(c: char): char
  {
    if 'a' <= c <= 'z' then (c as int - 32) as char else c
  }

  /** The four spellings are exactly the two-letter text "NA" in any case. */
  lemma IsNAIgnoresCase(s: string)
    ensures IsNA(s) <==> |s| == 2 && Upper(s[0]) == 'N' && Upper(s[1]) == 'A'
  {
    if |s| == 2 && Upper(s[0]) == 'N' && Upper(s[1]) == 'A' {
      assert s == [s[0], s[1]];
    }
  }

  // ---------------------------------------------------------------------
  // Telling factor columns from numeric ones (573-589)
  // ---------------------------------------------------------------------

  /** Strictly increasing column indices, as both index lists are. */
  ghost predicate Increasing(s: seq<nat>)
  {
    forall i, j :: 0 <= i < j < |s| ==> s[i] < s[j]
  }

  /** `factor_level_index` after the first n covariate columns, with the
      comparison guarded by `factor_level_index < num_factors` as at 574. */
  function Cursor(cov: seq<nat>, fci: seq<nat>, n: nat): nat
    requires n <= |cov|
    decreases n
  {
    if n == 0 then 0
    else
      var c := Cursor(cov, fci, n - 1);
      c + (if c < |fci| && cov[n - 1] == fci[c] then 1 else 0)
  }

  lemma {:induction false} CursorBound(cov: seq<nat>, fci: seq<nat>, n: nat)
    requires n <= |cov|
    ensures Cursor(cov, fci, n) <= |fci|
    decreases n
  {
    if n > 0 {
      CursorBound(cov, fci, n - 1);
    }
  }

  /** Covariate column k is treated as a factor. */
  predicate IsFactorAt(cov: seq<nat>, fci: seq<nat>, k: nat)
    requires k < |cov|
  {
    var c := Cursor(cov, fci, k);
    c < |fci| && cov[k] == fci[c]
  }

  /** The cursor as the code computes it: the increment at 588-589 reads
      `factor_cov_index[factor_level_index]` without the guard, so once
      every factor has been passed the next column reads one past the end
      (`None`). */
  function CursorAsWritten(cov: seq<nat>, fci: seq<nat>, n: nat): Option<nat>
    requires n <= |cov|
    decreases n
  {
    if n == 0 then Some(0)
    else
      var c := CursorAsWritten(cov, fci, n - 1);
      if c.None? || c.value >= |fci| then None
      else Some(c.value + (if cov[n - 1] == fci[c.value] then 1 else 0))
  }

  /** The unguarded read stays in bounds exactly when no column is reached
      after the last factor, and then both cursors agree. */
  lemma {:induction false} CursorAsWrittenInBounds(cov: seq<nat>, fci: seq<nat>, n: nat)
    requires n <= |cov|
    ensures CursorAsWritten(cov, fci, n).Some? <==> forall k :: 0 <= k < n ==> Cursor(cov, fci, k) < |fci|
    ensures CursorAsWritten(cov, fci, n).Some? ==> CursorAsWritten(cov, fci, n).value == Cursor(cov, fci, n)
    decreases n
  {
    if n > 0 {
      CursorAsWrittenInBounds(cov, fci, n - 1);
    }
  }

  /** Covariate columns 2 and 3 with column 2 the only factor: the second
      column reads `factor_cov_index[1]` of a one-element vector, while the
      guarded cursor classifies both columns. */
  lemma AsWrittenReadsPastEnd()
    ensures Increasing([2, 3]) && Increasing([2])
    ensures CursorAsWritten([2, 3], [2], 2).None?
    ensures IsFactorAt([2, 3], [2], 0) && !IsFactorAt([2, 3], [2], 1)
  {
    assert CursorAsWritten([2, 3], [2], 1) == Some(1);
    assert Cursor([2, 3], [2], 1) == 1;
  }

  /** Before column n, the cursor has passed exactly the factors with a
      smaller index. */
  lemma {:induction false} CursorSplits(cov: seq<nat>, fci: seq<nat>, n: nat)
    requires Increasing(cov) && Increasing(fci) && forall j :: 0 <= j < |fci| ==> fci[j] in cov
    requires n < |cov|
    ensures Cursor(cov, fci, n) <= |fci|
    ensures forall j :: 0 <= j < Cursor(cov, fci, n) ==> fci[j] < cov[n]
    ensures forall j :: Cursor(cov, fci, n) <= j < |fci| ==> fci[j] >= cov[n]
    ensures forall j :: Cursor(cov, fci, n) < j < |fci| ==> fci[j] > cov[n]
    decreases n
  {
    if n > 0 {
      var m := n - 1;
      CursorSplits(cov, fci, m);
      var c := Cursor(cov, fci, m);
      forall j | c <= j < |fci| && fci[j] != cov[m]
        ensures fci[j] >= cov[n]
      {
        var p :| 0 <= p < |cov| && cov[p] == fci[j];
        assert fci[j] > cov[m];
        assert p > m;
      }
    }
    assert forall j :: Cursor(cov, fci, n) <= j < |fci| ==> fci[j] >= cov[n];
    forall j | Cursor(cov, fci, n) < j < |fci| ensures fci[j] > cov[n] {
      assert fci[Cursor(cov, fci, n)] < fci[j];
    }
  }

  /** With both index lists increasing and every factor a covariate, a
      column is treated as a factor exactly when it is listed as one. */
  lemma FactorIffListed(cov: seq<nat>, fci: seq<nat>, k: nat)
    requires Increasing(cov) && Increasing(fci) && forall j :: 0 <= j < |fci| ==> fci[j] in cov
    requires k < |cov|
    ensures IsFactorAt(cov, fci, k) <==> cov[k] in fci
  {
    CursorSplits(cov, fci, k);
    var c := Cursor(cov, fci, k);
    if cov[k] in fci {
      var j :| 0 <= j < |fci| && fci[j] == cov[k];
    }
  }

  // ---------------------------------------------------------------------
  // One row (566-589)
  // ---------------------------------------------------------------------

  /** Column k of the row makes the sample invalid: a missing value, or a
      numeric covariate that does not convert. */
  predicate Bad(tokens: seq<Token>, cov: seq<nat>, fci: seq<nat>, k: nat)
    requires k < |cov| && cov[k] < |tokens|
  {
    IsNA(tokens[cov[k]].text) || (!IsFactorAt(cov, fci, k) && tokens[cov[k]].number.None?)
  }

  /** Every covariate index lies inside the row. */
  predicate Fits(tokens: seq<Token>, cov: seq<nat>)
  {
    forall k :: 0 <= k < |cov| ==> cov[k] < |tokens|
  }

  predicate RowValid(tokens: seq<Token>, cov: seq<nat>, fci: seq<nat>)
    requires Fits(tokens, cov)
  {
    forall k :: 0 <= k < |cov| ==> !Bad(tokens, cov, fci, k)
  }

  /** `missing_count` after the first n columns of one row. */
  function MissingAfter(missing: seq<nat>, tokens: seq<Token>, cov: seq<nat>, fci: seq<nat>, n: nat): (m: seq<nat>)
    requires n <= |cov| && Fits(tokens, cov) && forall k :: 0 <= k < |cov| ==> cov[k] < |missing|
    ensures |m| == |missing|
    decreases n
  {
    if n == 0 then missing
    else
      var prev := MissingAfter(missing, tokens, cov, fci, n - 1);
      var h := cov[n - 1];
      if Bad(tokens, cov, fci, n - 1) then prev[h := prev[h] + 1] else prev
  }

  /** The column loop of one sample's row: the sample stays valid when no
      column is bad, and each bad column counts one missing value for its
      index. */
  method CheckRow(tokens: seq<Token>, cov: seq<nat>, fci: seq<nat>, missing: seq<nat>)
    returns (valid: bool, missing': seq<nat>)
    requires Fits(tokens, cov) && forall k :: 0 <= k < |cov| ==> cov[k] < |missing|
    ensures valid == RowValid(tokens, cov, fci)
    ensures missing' == MissingAfter(missing, tokens, cov, fci, |cov|)
  {
    valid := true;
    missing' := missing;
    var factorLevelIndex := 0;
    var i := 0;
    while i < |cov|
      invariant 0 <= i <= |cov|
      invariant factorLevelIndex == Cursor(cov, fci, i)
      invariant valid <==> forall k :: 0 <= k < i ==> !Bad(tokens, cov, fci, k)
      invariant missing' == MissingAfter(missing, tokens, cov, fci, i)
    {
      var header := cov[i];
      var isFactor := factorLevelIndex < |fci| && header == fci[factorLevelIndex];
      assert isFactor == IsFactorAt(cov, fci, i);
      assert Bad(tokens, cov, fci, i) <==> IsNA(tokens[header].text) || (!isFactor && tokens[header].number.None?);
      if IsNA(tokens[header].text) {
        valid := false;
        missing' := missing'[header := missing'[header] + 1];
      } else if !isFactor {
        if tokens[header].number.None? {
          valid := false;
          missing' := missing'[header := missing'[header] + 1];
        }
      }
      factorLevelIndex := factorLevelIndex + (if isFactor then 1 else 0);
      i := i + 1;
    }
  }

  // ---------------------------------------------------------------------
  // Factor levels (599-607)
  // ---------------------------------------------------------------------

  /** A level map numbers its keys 0, 1, ... without repetition. */
  ghost predicate Dense(m: map<string, nat>)
  {
    && (forall a :: a in m ==> m[a] < |m|)
    && (forall a, b :: a in m && b in m && a != b ==> m[a] != m[b])
  }

  /** `cur_level[text] = current_factor_level++` for a text not yet seen. */
  function Learn(m: map<string, nat>, text: string): (r: map<string, nat>)
    ensures r.Keys == m.Keys + {text}
    ensures forall a :: a in m ==> r[a] == m[a]
    ensures text !in m ==> r[text] == |m| && |r| == |m| + 1
  {
    if text in m then m else m[text := |m|]
  }

  /** A new text receives the next free number, so the numbering stays dense. */
  lemma LearnDense(m: map<string, nat>, text: string)
    requires Dense(m)
    ensures Dense(Learn(m, text))
  {
    if text !in m {
      var r := Learn(m, text);
      forall a | a in r ensures r[a] < |r| {
        if a != text {
          assert a in m;
        }
      }
    }
  }

  /** The level maps after learning one valid sample's factor values. */
  function LearnRow(levels: seq<map<string, nat>>, tokens: seq<Token>, fci: seq<nat>): (r: seq<map<string, nat>>)
    requires |levels| == |fci| && forall j :: 0 <= j < |fci| ==> fci[j] < |tokens|
    ensures |r| == |levels|
  {
    seq(|fci|, j requires 0 <= j < |fci| => Learn(levels[j], tokens[fci[j]].text))
  }

  /** The level loop of one valid sample, with `current_factor_level` kept
      beside the maps. */
  method AddLevels(levels: seq<map<string, nat>>, next: seq<nat>, tokens: seq<Token>, fci: seq<nat>)
    returns (levels': seq<map<string, nat>>, next': seq<nat>)
    requires |levels| == |next| == |fci| && forall j :: 0 <= j < |fci| ==> fci[j] < |tokens|
    requires forall j :: 0 <= j < |fci| ==> next[j] == |levels[j]|
    ensures levels' == LearnRow(levels, tokens, fci)
    ensures |next'| == |fci| && forall j :: 0 <= j < |fci| ==> next'[j] == |levels'[j]|
  {
    levels', next' := levels, next;
    var j := 0;
    while j < |fci|
      invariant 0 <= j <= |fci| && |levels'| == |next'| == |fci|
      invariant forall l :: 0 <= l < j ==> levels'[l] == Learn(levels[l], tokens[fci[l]].text)
      invariant forall l :: j <= l < |fci| ==> levels'[l] == levels[l]
      invariant forall l :: 0 <= l < |fci| ==> next'[l] == |levels'[l]|
    {
      var text := tokens[fci[j]].text;
      if text !in levels'[j] {
        levels' := levels'[j := levels'[j][text := next'[j]]];
        next' := next'[j := next'[j] + 1];
      }
      j := j + 1;
    }
  }

  // ---------------------------------------------------------------------
  // The whole file
  // ---------------------------------------------------------------------

  /** A sample kept, with its position in the phenotype vector. */
  datatype Entry = Entry(id: string, index: nat)

  /** What the pass collects: the kept samples in file order, the level map
      of every factor and the missing count of every column index. */
  datatype CovScan = CovScan(valid: seq<Entry>, levels: seq<map<string, nat>>, missing: seq<nat>)

  /** `cov_index.back() + 1`, the number of fields a line needs. */
  function MaxIndex(cov: seq<nat>): nat
    requires |cov| > 0
  {
    cov[|cov| - 1] + 1
  }

  function Digits(n: nat): string
    decreases n
  {
    (if n < 10 then "" else Digits(n / 10)) + [(48 + n % 10) as char]
  }

  function Malformed(maxIndex: nat): string
  {
    "Error: Malformed covariate file, should have at least " + Digits(maxIndex) + " columns"
  }

  /** Every factor is a covariate column, so it lies inside a row that holds
      all covariate columns. */
  ghost predicate FactorsAreCovariates(cov: seq<nat>, fci: seq<nat>)
  {
    forall j :: 0 <= j < |fci| ==> fci[j] in cov
  }

  ghost predicate WellFormed(s: CovScan, cov: seq<nat>, fci: seq<nat>)
    requires |cov| > 0
  {
    |s.levels| == |fci| && |s.missing| == MaxIndex(cov)
  }

  /** The pass over the first n rows. */
  function ScanSpec(rows: seq<CovRow>, samples: map<string, nat>, cov: seq<nat>, fci: seq<nat>, n: nat): (r: Result<CovScan>)
    requires |cov| > 0 && Increasing(cov) && FactorsAreCovariates(cov, fci) && n <= |rows|
    ensures r.Ok? ==> WellFormed(r.value, cov, fci)
    decreases n
  {
    if n == 0 then Ok(CovScan([], seq(|fci|, _ => map[]), seq(MaxIndex(cov), _ => 0)))
    else
      var prev := ScanSpec(rows, samples, cov, fci, n - 1);
      var row := rows[n - 1];
      if prev.Err? then prev
      else if |row.tokens| < MaxIndex(cov) then Err(Malformed(MaxIndex(cov)))
      else if row.id !in samples then prev
      else
        assert Fits(row.tokens, cov) by { IncreasingBelowLast(cov); }
        assert forall j :: 0 <= j < |fci| ==> fci[j] < |row.tokens| by { IncreasingBelowLast(cov); }
        var s := prev.value;
        var missing := MissingAfter(s.missing, row.tokens, cov, fci, |cov|);
        if RowValid(row.tokens, cov, fci) then
          Ok(CovScan(s.valid + [Entry(row.id, samples[row.id])], LearnRow(s.levels, row.tokens, fci), missing))
        else Ok(CovScan(s.valid, s.levels, missing))
  }

  lemma IncreasingBelowLast(cov: seq<nat>)
    requires |cov| > 0 && Increasing(cov)
    ensures forall k :: 0 <= k < |cov| ==> cov[k] < MaxIndex(cov)
    ensures forall x :: x in cov ==> x < MaxIndex(cov)
  {
  }

  /** The row loop of `process_cov_file`: a short line is an error, a
      sample without a phenotype is skipped, and a sample whose covariates
      are all present is kept and its factor values numbered. */
  method ScanCovRows(rows: seq<CovRow>, samples: map<string, nat>, cov: seq<nat>, fci: seq<nat>)
    returns (r: Result<CovScan>)
    requires |cov| > 0 && Increasing(cov) && FactorsAreCovariates(cov, fci)
    ensures r == ScanSpec(rows, samples, cov, fci, |rows|)
  {
    var maxIndex := cov[|cov| - 1] + 1;
    IncreasingBelowLast(cov);
    var valid: seq<Entry> := [];
    var levels: seq<map<string, nat>> := seq(|fci|, _ => map[]);
    var next: seq<nat> := seq(|fci|, _ => 0);
    var missing: seq<nat> := seq(maxIndex, _ => 0);
    var i := 0;
    while i < |rows|
      invariant 0 <= i <= |rows|
      invariant ScanSpec(rows, samples, cov, fci, i) == Ok(CovScan(valid, levels, missing))
      invariant |next| == |fci| && forall j :: 0 <= j < |fci| ==> next[j] == |levels[j]|
    {
      var row := rows[i];
      if |row.tokens| < maxIndex {
        ScanFailsIffShort(rows, samples, cov, fci, |rows|);
        return Err(Malformed(maxIndex));
      }
      if row.id in samples {
        var ok;
        ok, missing := CheckRow(row.tokens, cov, fci, missing);
        if ok {
          valid := valid + [Entry(row.id, samples[row.id])];
          levels, next := AddLevels(levels, next, row.tokens, fci);
        }
      }
      i := i + 1;
    }
    return Ok(CovScan(valid, levels, missing));
  }

  /** After any number of rows the level maps are dense, and every kept
      sample carries its phenotype index. */
  lemma {:induction false} ScanInvariant(rows: seq<CovRow>, samples: map<string, nat>, cov: seq<nat>, fci: seq<nat>, n: nat)
    requires |cov| > 0 && Increasing(cov) && FactorsAreCovariates(cov, fci) && n <= |rows|
    requires ScanSpec(rows, samples, cov, fci, n).Ok?
    ensures var s := ScanSpec(rows, samples, cov, fci, n).value;
            && (forall j :: 0 <= j < |s.levels| ==> Dense(s.levels[j]))
            && (forall e :: e in s.valid ==> e.id in samples && e.index == samples[e.id])
            && |s.valid| <= n
    decreases n
  {
    if n > 0 {
      var prev := ScanSpec(rows, samples, cov, fci, n - 1);
      ScanInvariant(rows, samples, cov, fci, n - 1);
      var s := prev.value;
      var row := rows[n - 1];
      if row.id in samples && |row.tokens| >= MaxIndex(cov) {
        IncreasingBelowLast(cov);
        forall j | 0 <= j < |fci| ensures Dense(LearnRow(s.levels, row.tokens, fci)[j]) {
          LearnDense(s.levels[j], row.tokens[fci[j]].text);
        }
      }
    }
  }

  /** The pass fails exactly when some line is shorter than `max_index`. */
  lemma {:induction false} ScanFailsIffShort(rows: seq<CovRow>, samples: map<string, nat>, cov: seq<nat>, fci: seq<nat>, n: nat)
    requires |cov| > 0 && Increasing(cov) && FactorsAreCovariates(cov, fci) && n <= |rows|
    ensures ScanSpec(rows, samples, cov, fci, n).Err? <==> exists i :: 0 <= i < n && |rows[i].tokens| < MaxIndex(cov)
    ensures ScanSpec(rows, samples, cov, fci, n).Err? ==> ScanSpec(rows, samples, cov, fci, n).msg == Malformed(MaxIndex(cov))
    decreases n
  {
    if n > 0 {
      ScanFailsIffShort(rows, samples, cov, fci, n - 1);
    }
  }
}
