/** The columns of the independent-variable matrix: where each covariate
    starts (`process_cov_file` 621-645, and 735, 748-750 of `gen_cov_matrix`
    when there is no factor) and one sample's row (`gen_cov_matrix`
    778-806): the intercept, the score column, one column per numeric
    covariate and one indicator column per non-base level of a factor. */
module CovariateLayout {
  import opened Outcome
  import opened CovariateRows

  /** The start indices and the column count are `uint32_t`. */
  const U32: nat := 0x1_0000_0000

  datatype Columns = Columns(starts: seq<nat>, total: nat)

  /** The column layout after the first n covariates, in `uint32_t`
      arithmetic: a numeric covariate takes one column, a factor with L
      levels takes L - 1, the first level being the base. */
  function Layout(cov: seq<nat>, fci: seq<nat>, counts: seq<nat>, n: nat): (c: Columns)
    requires n <= |cov| && |counts| == |fci|
    ensures |c.starts| == n && c.total < U32
    ensures forall k :: 0 <= k < n ==> c.starts[k] < U32
    decreases n
  {
    if n == 0 then Columns([], 2)
    else
      var prev := Layout(cov, fci, counts, n - 1);
      var total :=
        if IsFactorAt(cov, fci, n - 1) then (prev.total + counts[Cursor(cov, fci, n - 1)] % U32 - 1) % U32
        else (prev.total + 1) % U32;
      Columns(prev.starts + [prev.total], total)
  }

  /** The layout loop, with `counts[j]` the number of levels of factor j. */
  method ColumnLayout(cov: seq<nat>, fci: seq<nat>, counts: seq<nat>) returns (c: Columns)
    requires |counts| == |fci|
    ensures c == Layout(cov, fci, counts, |cov|)
  {
    var starts: seq<nat> := [];
    var totalColumn: nat := 2;
    var factorLevelIndex := 0;
    var i := 0;
    while i < |cov|
      invariant 0 <= i <= |cov|
      invariant factorLevelIndex == Cursor(cov, fci, i) <= |fci|
      invariant Columns(starts, totalColumn) == Layout(cov, fci, counts, i)
    {
      starts := starts + [totalColumn];
      if factorLevelIndex == |fci| || cov[i] != fci[factorLevelIndex] {
        totalColumn := (totalColumn + 1) % U32;
      } else {
        var numLevel := counts[factorLevelIndex] % U32;
        factorLevelIndex := factorLevelIndex + 1;
        totalColumn := (totalColumn + numLevel - 1) % U32;
      }
      i := i + 1;
    }
    c := Columns(starts, totalColumn);
  }

  /** The columns covariate k takes. */
  function Width(cov: seq<nat>, fci: seq<nat>, counts: seq<nat>, k: nat): int
    requires k < |cov| && |counts| == |fci|
  {
    if IsFactorAt(cov, fci, k) then counts[Cursor(cov, fci, k)] as int - 1 else 1
  }

  /** The start of covariate n in exact arithmetic: the two leading columns
      and the widths of the covariates before it. */
  function Offset(cov: seq<nat>, fci: seq<nat>, counts: seq<nat>, n: nat): int
    requires n <= |cov| && |counts| == |fci|
    decreases n
  {
    if n == 0 then 2 else Offset(cov, fci, counts, n - 1) + Width(cov, fci, counts, n - 1)
  }

  /** Every factor has at least one level. */
  ghost predicate HasLevels(counts: seq<nat>)
  {
    forall j :: 0 <= j < |counts| ==> counts[j] >= 1
  }

  lemma {:induction false} OffsetMonotone(cov: seq<nat>, fci: seq<nat>, counts: seq<nat>, a: nat, b: nat)
    requires a <= b <= |cov| && |counts| == |fci| && HasLevels(counts)
    ensures 2 <= Offset(cov, fci, counts, a) <= Offset(cov, fci, counts, b)
    decreases b
  {
    if b > a {
      OffsetMonotone(cov, fci, counts, a, b - 1);
    } else if a > 0 {
      OffsetMonotone(cov, fci, counts, a - 1, a - 1);
    }
  }

  /** When every factor has a level and the columns fit in 32 bits, nothing
      wraps: each covariate starts where the previous one ends and the total
      is the sum of the widths. */
  lemma {:induction false} LayoutExact(cov: seq<nat>, fci: seq<nat>, counts: seq<nat>, n: nat)
    requires n <= |cov| && |counts| == |fci| && HasLevels(counts)
    requires Offset(cov, fci, counts, n) < U32
    ensures Layout(cov, fci, counts, n).total == Offset(cov, fci, counts, n)
    ensures forall k :: 0 <= k < n ==> Layout(cov, fci, counts, n).starts[k] == Offset(cov, fci, counts, k)
    decreases n
  {
    if n > 0 {
      OffsetMonotone(cov, fci, counts, n - 1, n);
      LayoutExact(cov, fci, counts, n - 1);
    }
  }

  lemma ModSucc(x: nat)
    ensures ((x % U32) + 1) % U32 == (x + 1) % U32
  {
    assert x == (x / U32) * U32 + x % U32;
    assert x + 1 == (x / U32) * U32 + (x % U32 + 1);
  }

  /** The layout used when no covariate is a factor (748-750): covariate i
      in column i + 2, and `2 + cov_header_index.size()` columns (735). */
  function PlainLayout(n: nat): (c: Columns)
    ensures |c.starts| == n
  {
    Columns(seq(n, i requires 0 <= i < n => (i + 2) % U32), (2 + n) % U32)
  }

  /** Without factors the layout loop gives the plain layout. */
  lemma {:induction false} LayoutWithoutFactors(cov: seq<nat>, n: nat)
    requires n <= |cov|
    ensures Layout(cov, [], [], n) == PlainLayout(n)
    decreases n
  {
    if n > 0 {
      LayoutWithoutFactors(cov, n - 1);
      assert !IsFactorAt(cov, [], n - 1);
      ModSucc(n + 1);
      assert Layout(cov, [], [], n).starts == PlainLayout(n - 1).starts + [(n + 1) % U32];
    }
  }

  // ---------------------------------------------------------------------
  // One sample's row (778-806)
  // ---------------------------------------------------------------------

  /** `factor_list[f][text]`: `operator[]` yields level 0 for a text not in
      the map. */
  function Lookup(m: map<string, nat>, text: string): nat
  {
    if text in m then m[text] else 0
  }

  /** The level of covariate k's value, k a factor. */
  function LevelAt(tokens: seq<Token>, cov: seq<nat>, fci: seq<nat>, levels: seq<map<string, nat>>, k: nat): nat
    requires k < |cov| && Fits(tokens, cov) && |levels| == |fci| && IsFactorAt(cov, fci, k)
  {
    Lookup(levels[Cursor(cov, fci, k)], tokens[cov[k]].text)
  }

  const NotNumeric := "covariate value is not a number"

  /** Every cell the row writes lies inside the matrix. */
  ghost predicate WritesInside(tokens: seq<Token>, cov: seq<nat>, fci: seq<nat>, starts: seq<nat>,
                               levels: seq<map<string, nat>>, numColumn: nat)
    requires Fits(tokens, cov) && |starts| == |cov| && |levels| == |fci|
  {
    forall k :: 0 <= k < |cov| ==>
      if IsFactorAt(cov, fci, k) then LevelAt(tokens, cov, fci, levels, k) == 0
                                      || starts[k] + LevelAt(tokens, cov, fci, levels, k) - 1 < numColumn
      else starts[k] < numColumn
  }

  /** The row after the first n covariates: the matrix starts as zeros with
      ones in the two leading columns; a numeric covariate writes its value
      at its start, a factor writes a 1 at `start + level - 1` unless its
      level is the base level 0. */
  function Fill(tokens: seq<Token>, cov: seq<nat>, fci: seq<nat>, starts: seq<nat>,
                levels: seq<map<string, nat>>, numColumn: nat, n: nat): (r: Result<seq<real>>)
    requires Fits(tokens, cov) && |starts| == |cov| && |levels| == |fci| && numColumn >= 2 && n <= |cov|
    requires WritesInside(tokens, cov, fci, starts, levels, numColumn)
    ensures r.Ok? ==> |r.value| == numColumn
    decreases n
  {
    if n == 0 then Ok(seq(numColumn, i requires 0 <= i < numColumn => if i < 2 then 1.0 else 0.0))
    else
      var prev := Fill(tokens, cov, fci, starts, levels, numColumn, n - 1);
      var k := n - 1;
      if prev.Err? then prev
      else if IsFactorAt(cov, fci, k) then
        var level := LevelAt(tokens, cov, fci, levels, k);
        if level != 0 then Ok(prev.value[starts[k] + level - 1 := 1.0]) else prev
      else if tokens[cov[k]].number.None? then Err(NotNumeric)
      else Ok(prev.value[starts[k] := tokens[cov[k]].number.value])
  }

  /** The row loop of `gen_cov_matrix` for one sample in the phenotype map. */
  method FillRow(tokens: seq<Token>, cov: seq<nat>, fci: seq<nat>, starts: seq<nat>,
                 levels: seq<map<string, nat>>, numColumn: nat) returns (r: Result<seq<real>>)
    requires Fits(tokens, cov) && |starts| == |cov| && |levels| == |fci| && numColumn >= 2
    requires WritesInside(tokens, cov, fci, starts, levels, numColumn)
    ensures r == Fill(tokens, cov, fci, starts, levels, numColumn, |cov|)
  {
    var row := seq(numColumn, i requires 0 <= i < numColumn => if i < 2 then 1.0 else 0.0);
    var curFactorIndex := 0;
    var i := 0;
    while i < |cov|
      invariant 0 <= i <= |cov|
      invariant curFactorIndex == Cursor(cov, fci, i) <= |fci|
      invariant Fill(tokens, cov, fci, starts, levels, numColumn, i) == Ok(row)
    {
      var token := tokens[cov[i]];
      if curFactorIndex >= |fci| || cov[i] != fci[curFactorIndex] {
        if token.number.None? {
          FillErrSticks(tokens, cov, fci, starts, levels, numColumn, i + 1, |cov|);
          return Err(NotNumeric);
        }
        row := row[starts[i] := token.number.value];
      } else {
        var fLevel := Lookup(levels[curFactorIndex], token.text);
        if fLevel != 0 {
          row := row[starts[i] + fLevel - 1 := 1.0];
        }
        curFactorIndex := curFactorIndex + 1;
      }
      i := i + 1;
    }
    return Ok(row);
  }

  lemma {:induction false} FillErrSticks(tokens: seq<Token>, cov: seq<nat>, fci: seq<nat>, starts: seq<nat>,
                                         levels: seq<map<string, nat>>, numColumn: nat, m: nat, n: nat)
    requires Fits(tokens, cov) && |starts| == |cov| && |levels| == |fci| && numColumn >= 2 && m <= n <= |cov|
    requires WritesInside(tokens, cov, fci, starts, levels, numColumn)
    requires Fill(tokens, cov, fci, starts, levels, numColumn, m) == Err(NotNumeric)
    ensures Fill(tokens, cov, fci, starts, levels, numColumn, n) == Err(NotNumeric)
    decreases n
  {
    if n > m {
      FillErrSticks(tokens, cov, fci, starts, levels, numColumn, m, n - 1);
    }
  }

  // ---------------------------------------------------------------------
  // Reading a level back from its indicator columns
  // ---------------------------------------------------------------------

  /** The indicator columns of a level among `width` non-base levels. */
  function OneHot(level: nat, width: nat): (b: seq<real>)
    ensures |b| == width
  {
    seq(width, i requires 0 <= i < width => if i == level - 1 then 1.0 else 0.0)
  }

  /** The level a block of indicator columns stands for: the position of
      its first 1 plus one, or the base level 0 when there is none. */
  function DecodeOneHot(b: seq<real>): nat
    decreases |b|
  {
    if b == [] then 0
    else if b[0] == 1.0 then 1
    else
      var d := DecodeOneHot(b[1..]);
      if d == 0 then 0 else d + 1
  }

  /** Reading the indicator columns back gives the level written. */
  lemma {:induction false} OneHotRoundTrip(level: nat, width: nat)
    requires level <= width
    ensures DecodeOneHot(OneHot(level, width)) == level
    decreases width
  {
    if width > 0 {
      var b := OneHot(level, width);
      if level == 0 {
        assert b[1..] == OneHot(0, width - 1);
        OneHotRoundTrip(0, width - 1);
      } else if level > 1 {
        assert b[1..] == OneHot(level - 1, width - 1);
        OneHotRoundTrip(level - 1, width - 1);
      }
    }
  }

  /** Covariate k's columns in the row hold what the fill writes for it:
      the indicator columns of its level for a factor, its value for a
      numeric covariate. */
  ghost predicate BlockOk(tokens: seq<Token>, cov: seq<nat>, fci: seq<nat>, levels: seq<map<string, nat>>,
                          counts: seq<nat>, row: seq<real>, k: nat)
    requires Fits(tokens, cov) && |levels| == |fci| == |counts| && k < |cov|
  {
    var lo, w := Offset(cov, fci, counts, k), Width(cov, fci, counts, k);
    && 0 <= lo && 0 <= w && lo + w <= |row|
    && if IsFactorAt(cov, fci, k) then row[lo..lo + w] == OneHot(LevelAt(tokens, cov, fci, levels, k), w)
       else tokens[cov[k]].number.Some? && row[lo] == tokens[cov[k]].number.value
  }

  /** The row after the first n covariates: the leading ones, every block
      so far in place, and the columns of later covariates still zero. */
  ghost predicate Encoded(tokens: seq<Token>, cov: seq<nat>, fci: seq<nat>, levels: seq<map<string, nat>>,
                          counts: seq<nat>, row: seq<real>, n: nat)
    requires Fits(tokens, cov) && |levels| == |fci| == |counts| && n <= |cov|
  {
    && |row| >= 2 && row[0] == 1.0 && row[1] == 1.0
    && (forall k :: 0 <= k < n ==> BlockOk(tokens, cov, fci, levels, counts, row, k))
    && (forall p :: 0 <= p < |row| && Offset(cov, fci, counts, n) <= p ==> row[p] == 0.0)
  }

  /** A write after a block leaves the block in place. */
  lemma BlockKept(tokens: seq<Token>, cov: seq<nat>, fci: seq<nat>, levels: seq<map<string, nat>>,
                  counts: seq<nat>, row: seq<real>, k: nat, q: nat, row': seq<real>)
    requires Fits(tokens, cov) && |levels| == |fci| == |counts| && k < |cov|
    requires BlockOk(tokens, cov, fci, levels, counts, row, k)
    requires q >= Offset(cov, fci, counts, k) + Width(cov, fci, counts, k)
    requires |row'| == |row| && forall p :: 0 <= p < |row| && p != q ==> row'[p] == row[p]
    ensures BlockOk(tokens, cov, fci, levels, counts, row', k)
  {
    var lo, w := Offset(cov, fci, counts, k), Width(cov, fci, counts, k);
    assert row'[lo..lo + w] == row[lo..lo + w];
  }

  /** The level maps a valid scan has built: dense, and their sizes are the
      level counts the layout uses. */
  ghost predicate LevelsMatch(levels: seq<map<string, nat>>, counts: seq<nat>)
  {
    && |levels| == |counts| && HasLevels(counts)
    && forall j :: 0 <= j < |levels| ==> Dense(levels[j]) && counts[j] == |levels[j]|
  }

  /** Every numeric covariate of the row converts. */
  ghost predicate NumbersConvert(tokens: seq<Token>, cov: seq<nat>, fci: seq<nat>)
    requires Fits(tokens, cov)
  {
    forall k :: 0 <= k < |cov| && !IsFactorAt(cov, fci, k) ==> tokens[cov[k]].number.Some?
  }

  lemma LevelBelowCount(levels: seq<map<string, nat>>, counts: seq<nat>, j: nat, text: string)
    requires LevelsMatch(levels, counts) && j < |levels|
    ensures Lookup(levels[j], text) < counts[j]
  {
  }

  /** Covariate k starts at its exact offset and the row has exactly the
      columns the covariates take. */
  ghost predicate AtOffsets(cov: seq<nat>, fci: seq<nat>, counts: seq<nat>, starts: seq<nat>, numColumn: nat)
    requires |counts| == |fci|
  {
    && |starts| == |cov| && numColumn == Offset(cov, fci, counts, |cov|)
    && forall k :: 0 <= k < |cov| ==> starts[k] == Offset(cov, fci, counts, k)
  }

  /** When nothing wraps the computed layout is the exact one. */
  lemma LayoutAtOffsets(cov: seq<nat>, fci: seq<nat>, counts: seq<nat>)
    requires |counts| == |fci| && HasLevels(counts) && Offset(cov, fci, counts, |cov|) < U32
    ensures AtOffsets(cov, fci, counts, Layout(cov, fci, counts, |cov|).starts, Layout(cov, fci, counts, |cov|).total)
  {
    LayoutExact(cov, fci, counts, |cov|);
  }

  /** The exact layout keeps every write inside the row. */
  lemma OffsetsFitWrites(tokens: seq<Token>, cov: seq<nat>, fci: seq<nat>,
                         levels: seq<map<string, nat>>, counts: seq<nat>, starts: seq<nat>, numColumn: nat)
    requires Fits(tokens, cov) && |levels| == |fci| && LevelsMatch(levels, counts)
    requires AtOffsets(cov, fci, counts, starts, numColumn)
    ensures numColumn >= 2 && WritesInside(tokens, cov, fci, starts, levels, numColumn)
  {
    OffsetMonotone(cov, fci, counts, 0, |cov|);
    forall k | 0 <= k < |cov|
      ensures if IsFactorAt(cov, fci, k) then LevelAt(tokens, cov, fci, levels, k) == 0
                                             || starts[k] + LevelAt(tokens, cov, fci, levels, k) - 1 < numColumn
              else starts[k] < numColumn
    {
      OffsetMonotone(cov, fci, counts, k + 1, |cov|);
      if IsFactorAt(cov, fci, k) {
        LevelBelowCount(levels, counts, Cursor(cov, fci, k), tokens[cov[k]].text);
      }
    }
  }

  /** The fill of the first n covariates over the exact layout succeeds and
      leaves the row encoded. */
  lemma {:induction false} FillEncodes(tokens: seq<Token>, cov: seq<nat>, fci: seq<nat>,
                                       levels: seq<map<string, nat>>, counts: seq<nat>,
                                       starts: seq<nat>, numColumn: nat, n: nat)
    requires Fits(tokens, cov) && |levels| == |fci| && LevelsMatch(levels, counts) && n <= |cov|
    requires NumbersConvert(tokens, cov, fci)
    requires AtOffsets(cov, fci, counts, starts, numColumn)
    requires numColumn >= 2 && WritesInside(tokens, cov, fci, starts, levels, numColumn)
    ensures Fill(tokens, cov, fci, starts, levels, numColumn, n).Ok?
    ensures Encoded(tokens, cov, fci, levels, counts, Fill(tokens, cov, fci, starts, levels, numColumn, n).value, n)
    decreases n
  {
    if n == 0 {
      FillStart(tokens, cov, fci, levels, counts, starts, numColumn);
    } else {
      var m := n - 1;
      FillEncodes(tokens, cov, fci, levels, counts, starts, numColumn, m);
      var row := Fill(tokens, cov, fci, starts, levels, numColumn, m).value;
      FillStep(tokens, cov, fci, levels, counts, starts, numColumn, m, row);
      assert m + 1 == n;
    }
  }

  /** The fresh row: ones in the two leading columns, zeros elsewhere. */
  lemma FillStart(tokens: seq<Token>, cov: seq<nat>, fci: seq<nat>,
                  levels: seq<map<string, nat>>, counts: seq<nat>, starts: seq<nat>, numColumn: nat)
    requires Fits(tokens, cov) && |levels| == |fci| && LevelsMatch(levels, counts)
    requires AtOffsets(cov, fci, counts, starts, numColumn)
    requires numColumn >= 2 && WritesInside(tokens, cov, fci, starts, levels, numColumn)
    ensures Fill(tokens, cov, fci, starts, levels, numColumn, 0).Ok?
    ensures Encoded(tokens, cov, fci, levels, counts, Fill(tokens, cov, fci, starts, levels, numColumn, 0).value, 0)
  {
  }

  /** One covariate more keeps the row encoded. */
  lemma FillStep(tokens: seq<Token>, cov: seq<nat>, fci: seq<nat>, levels: seq<map<string, nat>>,
                 counts: seq<nat>, starts: seq<nat>, numColumn: nat, k: nat, row: seq<real>)
    requires Fits(tokens, cov) && |levels| == |fci| && LevelsMatch(levels, counts) && k < |cov|
    requires NumbersConvert(tokens, cov, fci)
    requires AtOffsets(cov, fci, counts, starts, numColumn)
    requires numColumn >= 2 && WritesInside(tokens, cov, fci, starts, levels, numColumn)
    requires Fill(tokens, cov, fci, starts, levels, numColumn, k) == Ok(row)
    requires Encoded(tokens, cov, fci, levels, counts, row, k)
    ensures Fill(tokens, cov, fci, starts, levels, numColumn, k + 1).Ok?
    ensures Encoded(tokens, cov, fci, levels, counts, Fill(tokens, cov, fci, starts, levels, numColumn, k + 1).value, k + 1)
  {
    OffsetMonotone(cov, fci, counts, k + 1, |cov|);
    var lo := Offset(cov, fci, counts, k);
    if IsFactorAt(cov, fci, k) {
      var level := LevelAt(tokens, cov, fci, levels, k);
      LevelBelowCount(levels, counts, Cursor(cov, fci, k), tokens[cov[k]].text);
      if level == 0 {
        assert Fill(tokens, cov, fci, starts, levels, numColumn, k + 1) == Ok(row);
        BaseLevel(tokens, cov, fci, levels, counts, row, k);
      } else {
        var q := lo + level - 1;
        assert Fill(tokens, cov, fci, starts, levels, numColumn, k + 1) == Ok(row[q := 1.0]);
        FactorWrite(tokens, cov, fci, levels, counts, row, k, q, row[q := 1.0]);
      }
    } else {
      var v := tokens[cov[k]].number.value;
      assert Fill(tokens, cov, fci, starts, levels, numColumn, k + 1) == Ok(row[lo := v]);
      NumberWrite(tokens, cov, fci, levels, counts, row, k, row[lo := v]);
    }
  }

  /** The base level writes nothing: its block stays all zero. */
  lemma BaseLevel(tokens: seq<Token>, cov: seq<nat>, fci: seq<nat>,
                  levels: seq<map<string, nat>>, counts: seq<nat>, row: seq<real>, k: nat)
    requires Fits(tokens, cov) && |levels| == |fci| && LevelsMatch(levels, counts) && k < |cov|
    requires Encoded(tokens, cov, fci, levels, counts, row, k) && IsFactorAt(cov, fci, k)
    requires Offset(cov, fci, counts, k + 1) <= |row|
    requires LevelAt(tokens, cov, fci, levels, k) == 0
    ensures Encoded(tokens, cov, fci, levels, counts, row, k + 1)
  {
    var lo, w := Offset(cov, fci, counts, k), Width(cov, fci, counts, k);
    OffsetMonotone(cov, fci, counts, 0, k);
    assert row[lo..lo + w] == OneHot(0, w);
  }

  /** Writing the 1 of a factor's level into its zero block. */
  lemma FactorWrite(tokens: seq<Token>, cov: seq<nat>, fci: seq<nat>,
                    levels: seq<map<string, nat>>, counts: seq<nat>, row: seq<real>, k: nat, q: nat, row': seq<real>)
    requires Fits(tokens, cov) && |levels| == |fci| && LevelsMatch(levels, counts) && k < |cov|
    requires Encoded(tokens, cov, fci, levels, counts, row, k) && IsFactorAt(cov, fci, k)
    requires Offset(cov, fci, counts, k + 1) <= |row|
    requires LevelAt(tokens, cov, fci, levels, k) < counts[Cursor(cov, fci, k)]
    requires q == Offset(cov, fci, counts, k) + LevelAt(tokens, cov, fci, levels, k) - 1
    requires LevelAt(tokens, cov, fci, levels, k) > 0
    requires row' == row[q := 1.0]
    ensures Encoded(tokens, cov, fci, levels, counts, row', k + 1)
  {
    var lo, w := Offset(cov, fci, counts, k), Width(cov, fci, counts, k);
    OffsetMonotone(cov, fci, counts, 0, k);
    PrefixBlocksKept(tokens, cov, fci, levels, counts, row, k, q, row');
    assert row'[lo..lo + w] == OneHot(LevelAt(tokens, cov, fci, levels, k), w);
  }

  /** Writing a numeric covariate's value into its zero column. */
  lemma NumberWrite(tokens: seq<Token>, cov: seq<nat>, fci: seq<nat>,
                    levels: seq<map<string, nat>>, counts: seq<nat>, row: seq<real>, k: nat, row': seq<real>)
    requires Fits(tokens, cov) && |levels| == |fci| && LevelsMatch(levels, counts) && k < |cov|
    requires Encoded(tokens, cov, fci, levels, counts, row, k) && !IsFactorAt(cov, fci, k)
    requires Offset(cov, fci, counts, k + 1) <= |row|
    requires NumbersConvert(tokens, cov, fci)
    requires row' == row[Offset(cov, fci, counts, k) := tokens[cov[k]].number.value]
    ensures Encoded(tokens, cov, fci, levels, counts, row', k + 1)
  {
    OffsetMonotone(cov, fci, counts, 0, k);
    PrefixBlocksKept(tokens, cov, fci, levels, counts, row, k, Offset(cov, fci, counts, k), row');
  }

  /** A write at or after covariate k's start leaves the blocks before it in place. */
  lemma PrefixBlocksKept(tokens: seq<Token>, cov: seq<nat>, fci: seq<nat>,
                         levels: seq<map<string, nat>>, counts: seq<nat>, row: seq<real>, k: nat, q: nat, row': seq<real>)
    requires Fits(tokens, cov) && |levels| == |fci| == |counts| && HasLevels(counts) && k < |cov| && q < |row|
    requires forall l :: 0 <= l < k ==> BlockOk(tokens, cov, fci, levels, counts, row, l)
    requires q >= Offset(cov, fci, counts, k) && |row'| == |row|
    requires forall p :: 0 <= p < |row| && p != q ==> row'[p] == row[p]
    ensures forall l :: 0 <= l < k ==> BlockOk(tokens, cov, fci, levels, counts, row', l)
  {
    forall l | 0 <= l < k ensures BlockOk(tokens, cov, fci, levels, counts, row', l) {
      OffsetMonotone(cov, fci, counts, l + 1, k);
      BlockKept(tokens, cov, fci, levels, counts, row, l, q, row');
    }
  }

  /** Covariate k reads back from its own columns of the row: a factor's
      level from its indicator block (the base level from an all-zero
      block), a numeric value from its start column. */
  ghost predicate ReadsBack(tokens: seq<Token>, cov: seq<nat>, fci: seq<nat>, levels: seq<map<string, nat>>,
                            counts: seq<nat>, starts: seq<nat>, row: seq<real>, k: nat)
    requires Fits(tokens, cov) && |levels| == |fci| == |counts| && |starts| == |cov| && k < |cov|
  {
    var w := Width(cov, fci, counts, k);
    if IsFactorAt(cov, fci, k) then
      0 <= w && starts[k] + w <= |row| && DecodeOneHot(row[starts[k]..starts[k] + w]) == LevelAt(tokens, cov, fci, levels, k)
    else
      starts[k] < |row| && tokens[cov[k]].number.Some? && row[starts[k]] == tokens[cov[k]].number.value
  }

  /** An encoded row reads back covariate by covariate. */
  lemma EncodedReadsBack(tokens: seq<Token>, cov: seq<nat>, fci: seq<nat>, levels: seq<map<string, nat>>,
                         counts: seq<nat>, starts: seq<nat>, numColumn: nat, row: seq<real>)
    requires Fits(tokens, cov) && |levels| == |fci| && LevelsMatch(levels, counts)
    requires AtOffsets(cov, fci, counts, starts, numColumn)
    requires Encoded(tokens, cov, fci, levels, counts, row, |cov|)
    ensures forall k :: 0 <= k < |cov| ==> ReadsBack(tokens, cov, fci, levels, counts, starts, row, k)
  {
    forall k | 0 <= k < |cov| ensures ReadsBack(tokens, cov, fci, levels, counts, starts, row, k) {
      assert BlockOk(tokens, cov, fci, levels, counts, row, k);
      if IsFactorAt(cov, fci, k) {
        LevelBelowCount(levels, counts, Cursor(cov, fci, k), tokens[cov[k]].text);
        OneHotRoundTrip(LevelAt(tokens, cov, fci, levels, k), Width(cov, fci, counts, k));
      }
    }
  }

  /** Filling a sample's row over the layout of the scan's levels succeeds
      once its numeric covariates convert, keeps the intercept and score
      columns at 1, and every covariate reads back from its own columns. */
  lemma FillRoundTrip(tokens: seq<Token>, cov: seq<nat>, fci: seq<nat>,
                      levels: seq<map<string, nat>>, counts: seq<nat>)
    requires Fits(tokens, cov) && |levels| == |fci| && LevelsMatch(levels, counts)
    requires NumbersConvert(tokens, cov, fci)
    requires Offset(cov, fci, counts, |cov|) < U32
    ensures var c := Layout(cov, fci, counts, |cov|);
            && c.total >= 2 && WritesInside(tokens, cov, fci, c.starts, levels, c.total)
            && Fill(tokens, cov, fci, c.starts, levels, c.total, |cov|).Ok?
            && var row := Fill(tokens, cov, fci, c.starts, levels, c.total, |cov|).value;
            && row[0] == 1.0 && row[1] == 1.0
            && forall k :: 0 <= k < |cov| ==> ReadsBack(tokens, cov, fci, levels, counts, c.starts, row, k)
  {
    var c := Layout(cov, fci, counts, |cov|);
    LayoutAtOffsets(cov, fci, counts);
    OffsetsFitWrites(tokens, cov, fci, levels, counts, c.starts, c.total);
    FillEncodes(tokens, cov, fci, levels, counts, c.starts, c.total, |cov|);
    var row := Fill(tokens, cov, fci, c.starts, levels, c.total, |cov|).value;
    EncodedReadsBack(tokens, cov, fci, levels, counts, c.starts, c.total, row);
  }
}
