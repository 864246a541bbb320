/** Phenotype decoding over already tokenised input: matching the requested
    phenotype names against the header of the phenotype file (`pheno_check`)
    and turning every sample's phenotype entry into the phenotype vector
    (`gen_pheno_vec`). */
module Phenotype {
  import opened Outcome

  // ---------------------------------------------------------------------
  // Header matching (`pheno_check`, 20-107)
  // ---------------------------------------------------------------------

  /** `pheno_info`: whether a phenotype file is read, the columns used,
      their names, the position of each among the requested names and the
      binary flag given for it. */
  datatype PhenoInfo = PhenoInfo(usePheno: bool, cols: seq<nat>, names: seq<string>, order: seq<nat>, binary: seq<bool>)

  const NoOpen := "Cannot open phenotype file: "
  const EmptyHeader := "Cannot have empty header line for phenotype file!"
  const FewColumns := "Error: Not enough column in Phenotype file. Have you use the --ignore-fid option"

  /** The first phenotype column: after the IID, and after the FID unless
      it is ignored. */
  function FirstPhenoColumn(ignoreFid: bool): nat
  {
    if ignoreFid then 1 else 2
  }

  /** The first column at or after `from` holding `name`. */
  function FirstMatch(cols: seq<string>, from: nat, name: string): (r: Option<nat>)
    ensures r.Some? ==> from <= r.value < |cols| && cols[r.value] == name
    ensures r.Some? ==> forall c :: from <= c < r.value ==> cols[c] != name
    ensures r.None? <==> forall c :: from <= c < |cols| ==> cols[c] != name
    decreases |cols| - from
  {
    if from >= |cols| then None
    else if cols[from] == name then Some(from)
    else FirstMatch(cols, from + 1, name)
  }

  /** Requested name i is used: its first request, and found in the header. */
  predicate Chosen(requested: seq<string>, i: nat, header: seq<string>, from: nat)
    requires i < |requested|
  {
    requested[i] !in requested[..i] && FirstMatch(header, from, requested[i]).Some?
  }

  /** `pheno_check` once the header line is split into `header`.
      `fileName` is the phenotype file ("" when there is none), `opens`
      whether it can be opened, `lineEmpty` whether its first line is empty,
      and `isBinary(i)` the binary flag given for requested name i. Without a
      file no phenotype column is used and only flag 0 is kept. With one,
      every requested name is looked up once, a repeated name is skipped,
      and the first header column from the first phenotype column on that
      carries it is used; without requested names the first phenotype
      column is. */
  method PhenoCheck(fileName: string, opens: bool, header: seq<string>, lineEmpty: bool,
                    requested: seq<string>, ignoreFid: bool, isBinary: nat -> bool)
    returns (r: Result<PhenoInfo>)
    ensures fileName == [] ==> r == Ok(PhenoInfo(false, [], [], [], [isBinary(0)]))
    ensures fileName != [] && !opens ==> r == Err(NoOpen + fileName)
    ensures fileName != [] && opens && lineEmpty ==> r == Err(EmptyHeader)
    ensures fileName != [] && opens && !lineEmpty && |header| < FirstPhenoColumn(ignoreFid) + 1 ==> r == Err(FewColumns)
    ensures r.Ok? <==> fileName == [] || (opens && !lineEmpty && |header| >= FirstPhenoColumn(ignoreFid) + 1)
    ensures r.Ok? && fileName != [] && requested == [] ==>
              r.value == PhenoInfo(true, [FirstPhenoColumn(ignoreFid)], ["Phenotype"], [0], [isBinary(0)])
    ensures r.Ok? && fileName != [] && requested == [] ==> r.value.cols[0] < |header|
    ensures r.Ok? && fileName != [] && requested != [] ==>
              var info := r.value;
              && |info.cols| == |info.names| == |info.order| == |info.binary|
              && info.usePheno == (|info.order| > 0)
              && (forall k :: 0 <= k < |info.order| ==>
                    info.order[k] < |requested| && info.names[k] == requested[info.order[k]]
                    && info.binary[k] == isBinary(info.order[k])
                    && FirstMatch(header, FirstPhenoColumn(ignoreFid), info.names[k]) == Some(info.cols[k]))
              && (forall k, l :: 0 <= k < l < |info.order| ==> info.order[k] < info.order[l])
              && (forall i :: 0 <= i < |requested| ==>
                    (i in info.order <==> Chosen(requested, i, header, FirstPhenoColumn(ignoreFid))))
  {
    if fileName == [] {
      return Ok(PhenoInfo(false, [], [], [], [isBinary(0)]));
    }
    if !opens {
      return Err(NoOpen + fileName);
    }
    if lineEmpty {
      return Err(EmptyHeader);
    }
    var start := FirstPhenoColumn(ignoreFid);
    if |header| < start + 1 {
      return Err(FewColumns);
    }
    if requested == [] {
      return Ok(PhenoInfo(true, [start], ["Phenotype"], [0], [isBinary(0)]));
    }
    var usePheno := false;
    var cols: seq<nat> := [];
    var names: seq<string> := [];
    var order: seq<nat> := [];
    var binary: seq<bool> := [];
    var seen: set<string> := {};
    var i := 0;
    while i < |requested|
      invariant 0 <= i <= |requested|
      invariant seen == set x | x in requested[..i]
      invariant |cols| == |names| == |order| == |binary| && usePheno == (|order| > 0)
      invariant forall k :: 0 <= k < |order| ==>
                  order[k] < i && names[k] == requested[order[k]] && binary[k] == isBinary(order[k])
                  && FirstMatch(header, start, names[k]) == Some(cols[k])
      invariant forall k, l :: 0 <= k < l < |order| ==> order[k] < order[l]
      invariant forall x :: 0 <= x < i ==> (x in order <==> Chosen(requested, x, header, start))
    {
      var name := requested[i];
      assert requested[..i + 1] == requested[..i] + [name];
      if name !in seen {
        seen := seen + {name};
        var c := start;
        var found := false;
        ghost var cols0, names0, order0, binary0, use0 := cols, names, order, binary, usePheno;
        while c < |header| && !found
          invariant start <= c <= |header|
          invariant !found ==> forall d :: start <= d < c ==> header[d] != name
          invariant !found ==> cols == cols0 && names == names0 && order == order0 && binary == binary0 && usePheno == use0
          invariant found ==> c > start && FirstMatch(header, start, name) == Some(c - 1)
          invariant found ==> cols == cols0 + [c - 1] && names == names0 + [name] && order == order0 + [i]
          invariant found ==> binary == binary0 + [isBinary(i)] && usePheno
          decreases |header| - c, !found
        {
          if header[c] == name {
            found := true;
            usePheno := true;
            cols := cols + [c];
            names := names + [name];
            order := order + [i];
            binary := binary + [isBinary(i)];
          }
          c := c + 1;
        }
        assert found <==> Chosen(requested, i, header, start);
      } else {
        assert !Chosen(requested, i, header, start);
      }
      i := i + 1;
    }
    return Ok(PhenoInfo(usePheno, cols, names, order, binary));
  }

  /** The phenotypes used have pairwise different names. */
  lemma ChosenNamesDistinct(requested: seq<string>, header: seq<string>, from: nat, order: seq<nat>, i: nat, j: nat)
    requires forall k :: 0 <= k < |order| ==> order[k] < |requested|
    requires forall k :: 0 <= k < |order| ==> Chosen(requested, order[k], header, from)
    requires i < j < |order| && order[i] < order[j]
    ensures requested[order[i]] != requested[order[j]]
  {
    assert requested[..order[j]][order[i]] == requested[order[i]];
  }

  // ---------------------------------------------------------------------
  // Phenotype vector (`gen_pheno_vec`, 197-433)
  // ---------------------------------------------------------------------

  /** One sample's phenotype entry once the file is read: `Absent` when the
      sample is not in the phenotype file or its entry is "NA" (without a
      file: the fam phenotype is missing), otherwise what `misc::convert<int>`
      and `misc::convert<double>` make of the text (`None` when they throw). */
  datatype Cell = Absent | Text(asInt: Option<int>, asReal: Option<real>)

  /** The value a cell contributes, or `None` when it is invalid: a binary
      phenotype must be an integer from 0 to 2. */
  function Accepted(c: Cell, binary: bool): Option<real>
  {
    match c
    case Absent => None
    case Text(i, x) =>
      if binary then (if i.Some? && 0 <= i.value <= 2 then Some(i.value as real) else None) else x
  }

  /** `pheno_store`: the accepted values, in sample order. */
  function Values(cells: seq<Cell>, binary: bool): (v: seq<real>)
    ensures |v| <= |cells|
    decreases |cells|
  {
    if cells == [] then []
    else
      var n := |cells| - 1;
      var a := Accepted(cells[n], binary);
      Values(cells[..n], binary) + (if a.Some? then [a.value] else [])
  }

  /** `m_sample_with_phenotypes` read as a list: the sample whose value is at
      each position of `pheno_store`. */
  function Kept(cells: seq<Cell>, binary: bool): seq<nat>
    decreases |cells|
  {
    if cells == [] then []
    else
      var n := |cells| - 1;
      Kept(cells[..n], binary) + (if Accepted(cells[n], binary).Some? then [n] else [])
  }

  function CountAbsent(cells: seq<Cell>): nat
    decreases |cells|
  {
    if cells == [] then 0
    else CountAbsent(cells[..|cells| - 1]) + (if cells[|cells| - 1].Absent? then 1 else 0)
  }

  /** The samples reported as not found: only a phenotype file can miss one. */
  function NotFound(cells: seq<Cell>, fromFile: bool): nat
  {
    if fromFile then CountAbsent(cells) else 0
  }

  function CountInvalid(cells: seq<Cell>, binary: bool): nat
    decreases |cells|
  {
    if cells == [] then 0
    else
      var n := |cells| - 1;
      CountInvalid(cells[..n], binary) + (if cells[n].Text? && Accepted(cells[n], binary).None? then 1 else 0)
  }

  function Count(v: seq<real>, x: real): nat
    decreases |v|
  {
    if v == [] then 0 else Count(v[..|v| - 1], x) + (if v[|v| - 1] == x then 1 else 0)
  }

  predicate TwoDistinct(v: seq<real>)
  {
    exists i, j :: 0 <= i < |v| && 0 <= j < |v| && v[i] != v[j]
  }

  /** The 1/2 recoding: every value lowered by one. */
  function Decremented(v: seq<real>): (r: seq<real>)
    ensures |r| == |v| && forall i :: 0 <= i < |v| ==> r[i] == v[i] - 1.0
  {
    seq(|v|, i requires 0 <= i < |v| => v[i] - 1.0)
  }

  datatype Pheno = Pheno(values: seq<real>, kept: seq<nat>, cases: nat, controls: nat)

  const NoSampleLeft := "Error: No sample left"
  const NotEnoughValid := "Not enough valid phenotype"
  const MixedEncoding := "Mixed encoding! Both 0/1 and 1/2 encoding found!"
  const NoPhenotype := "No phenotype presented"
  const NoControls := "There are no control samples"
  const NoCases := "There are no cases"

  /** What `gen_pheno_vec` produces, with its checks in the order the code
      makes them. Without a phenotype file a missing phenotype is skipped
      without being counted as not found. A binary phenotype holding a 2 is
      recoded from 1/2 to 0/1, and a 0 beside it is the mixed-encoding
      error. */
  function Decode(cells: seq<Cell>, binary: bool, fromFile: bool, regress: bool): Result<Pheno>
  {
    var v := Values(cells, binary);
    var notFound := NotFound(cells, fromFile);
    var invalid := CountInvalid(cells, binary);
    if regress && notFound == |cells| then Err(NoSampleLeft)
    else if regress && invalid == |cells| then Err(NoSampleLeft)
    else if regress && !binary && !TwoDistinct(v) then Err(NotEnoughValid)
    else Finish(v, Kept(cells, binary), binary, regress)
  }

  /** The checks after the sanity check, on the values read. */
  function Finish(v: seq<real>, kept: seq<nat>, binary: bool, regress: bool): Result<Pheno>
  {
    var recode := binary && 2.0 in v;
    var out := if recode then Decremented(v) else v;
    if regress && recode && 0.0 in v then Err(MixedEncoding)
    else if regress && |v| == 0 then Err(NoPhenotype)
    else if binary && regress && Count(out, 0.0) == 0 then Err(NoControls)
    else if binary && regress && Count(out, 1.0) == 0 then Err(NoCases)
    else Ok(Pheno(out, kept, if binary then Count(out, 1.0) else 0, if binary then Count(out, 0.0) else 0))
  }

  lemma ValuesSnoc(cells: seq<Cell>, binary: bool, n: nat)
    requires n < |cells|
    ensures var a := Accepted(cells[n], binary);
            && Values(cells[..n + 1], binary) == Values(cells[..n], binary) + (if a.Some? then [a.value] else [])
            && Kept(cells[..n + 1], binary) == Kept(cells[..n], binary) + (if a.Some? then [n] else [])
            && CountAbsent(cells[..n + 1]) == CountAbsent(cells[..n]) + (if cells[n].Absent? then 1 else 0)
            && CountInvalid(cells[..n + 1], binary)
               == CountInvalid(cells[..n], binary) + (if cells[n].Text? && a.None? then 1 else 0)
  {
    assert cells[..n + 1][..n] == cells[..n];
  }

  lemma CountSnoc(v: seq<real>, x: real, y: real)
    ensures Count(v + [y], x) == Count(v, x) + (if y == x then 1 else 0)
  {
    assert (v + [y])[..|v|] == v;
  }

  /** Binary values are 0, 1 or 2. */
  ghost predicate ZeroOneTwo(v: seq<real>)
  {
    forall x :: 0 <= x < |v| ==> v[x] == 0.0 || v[x] == 1.0 || v[x] == 2.0
  }

  /** A valid binary value: stored, the maximum updated, and a case or a
      control counted (261-266). */
  method AddBinary(store: seq<real>, maxNum: int, numCase: nat, numControl: nat, temp: int)
    returns (store': seq<real>, maxNum': int, numCase': nat, numControl': nat)
    requires 0 <= temp <= 2
    requires ZeroOneTwo(store) && (maxNum > 1 <==> 2.0 in store)
    requires numCase == Count(store, 1.0) && numControl == Count(store, 0.0)
    ensures store' == store + [temp as real]
    ensures ZeroOneTwo(store') && (maxNum' > 1 <==> 2.0 in store')
    ensures numCase' == Count(store', 1.0) && numControl' == Count(store', 0.0)
  {
    CountSnoc(store, 1.0, temp as real);
    CountSnoc(store, 0.0, temp as real);
    store' := store + [temp as real];
    maxNum' := if temp > maxNum then temp else maxNum;
    numCase' := numCase + (if temp == 1 then 1 else 0);
    numControl' := numControl + (if temp == 0 then 1 else 0);
  }

  /** A valid continuous value: stored, and remembered in the sanity set
      while that holds fewer than two values (276-280). */
  method AddContinuous(store: seq<real>, sanity: seq<real>, x: real) returns (store': seq<real>, sanity': seq<real>)
    requires |sanity| <= 2 && (|sanity| == 2 ==> sanity[0] != sanity[1])
    requires forall y :: y in sanity ==> y in store
    requires |sanity| < 2 ==> forall y :: y in store ==> y in sanity
    ensures store' == store + [x]
    ensures |sanity'| <= 2 && (|sanity'| == 2 ==> sanity'[0] != sanity'[1])
    ensures forall y :: y in sanity' ==> y in store'
    ensures |sanity'| < 2 ==> forall y :: y in store' ==> y in sanity'
  {
    store' := store + [x];
    sanity' := sanity;
    if |sanity| < 2 && x !in sanity {
      sanity' := sanity + [x];
    }
  }

  /** The decoding loop of `gen_pheno_vec` (251-293 with a file, 298-330
      without): `sanity` is `input_sanity_check`, which stops growing at two
      values. */
  method CollectPheno(cells: seq<Cell>, binary: bool, fromFile: bool)
    returns (store: seq<real>, kept: seq<nat>, maxNum: int, numCase: nat, numControl: nat,
             invalid: nat, notFound: nat, sanity: seq<real>)
    ensures store == Values(cells, binary) && kept == Kept(cells, binary)
    ensures notFound == NotFound(cells, fromFile)
    ensures invalid == CountInvalid(cells, binary)
    ensures binary ==> ZeroOneTwo(store) && (maxNum > 1 <==> 2.0 in store)
    ensures binary ==> numCase == Count(store, 1.0) && numControl == Count(store, 0.0)
    ensures !binary ==> (|sanity| >= 2 <==> TwoDistinct(store))
  {
    store, kept := [], [];
    maxNum, numCase, numControl, invalid, notFound := 0, 0, 0, 0, 0;
    sanity := [];
    var i := 0;
    while i < |cells|
      invariant 0 <= i <= |cells|
      invariant store == Values(cells[..i], binary) && kept == Kept(cells[..i], binary)
      invariant notFound == NotFound(cells[..i], fromFile)
      invariant invalid == CountInvalid(cells[..i], binary)
      invariant binary ==> ZeroOneTwo(store) && (maxNum > 1 <==> 2.0 in store)
      invariant binary ==> numCase == Count(store, 1.0) && numControl == Count(store, 0.0)
      invariant |sanity| <= 2 && (|sanity| == 2 ==> sanity[0] != sanity[1])
      invariant forall x :: x in sanity ==> x in store
      invariant !binary && |sanity| < 2 ==> forall x :: x in store ==> x in sanity
    {
      ValuesSnoc(cells, binary, i);
      var c := cells[i];
      if c.Absent? {
        if fromFile {
          notFound := notFound + 1;
        }
      } else if binary {
        if c.asInt.Some? && 0 <= c.asInt.value <= 2 {
          store, maxNum, numCase, numControl := AddBinary(store, maxNum, numCase, numControl, c.asInt.value);
          kept := kept + [i];
        } else {
          invalid := invalid + 1;
        }
      } else {
        if c.asReal.Some? {
          store, sanity := AddContinuous(store, sanity, c.asReal.value);
          kept := kept + [i];
        } else {
          invalid := invalid + 1;
        }
      }
      i := i + 1;
    }
    assert cells[..i] == cells;
    if !binary && |sanity| >= 2 {
      assert sanity[0] in store && sanity[1] in store;
    }
    if !binary && |sanity| < 2 {
      forall a, b | 0 <= a < |store| && 0 <= b < |store| ensures store[a] == store[b] {
        assert store[a] in store && store[b] in store;
      }
    }
  }

  /** The 1/2 recoding loop (387-398): every value lowered by one; a value
      that drops below zero was a 0 and flags mixed encoding, the others are
      recounted as cases (now 1) or controls. */
  method RecodeBinary(v: seq<real>) returns (store: seq<real>, error: bool, numCase: nat, numControl: nat)
    requires ZeroOneTwo(v)
    ensures store == Decremented(v)
    ensures error <==> 0.0 in v
    ensures numCase == Count(store, 1.0) && numControl == Count(store, 0.0)
  {
    store := v;
    error := false;
    numCase, numControl := 0, 0;
    var j := 0;
    while j < |store|
      invariant 0 <= j <= |store| && |store| == |v|
      invariant forall x :: 0 <= x < j ==> store[x] == v[x] - 1.0
      invariant forall x :: j <= x < |store| ==> store[x] == v[x]
      invariant error <==> 0.0 in v[..j]
      invariant numCase == Count(Decremented(v)[..j], 1.0) && numControl == Count(Decremented(v)[..j], 0.0)
    {
      assert v[..j + 1] == v[..j] + [v[j]];
      assert Decremented(v)[..j + 1] == Decremented(v)[..j] + [v[j] - 1.0];
      CountSnoc(Decremented(v)[..j], 1.0, v[j] - 1.0);
      CountSnoc(Decremented(v)[..j], 0.0, v[j] - 1.0);
      var pheno := store[j] - 1.0;
      store := store[j := pheno];
      if pheno < 0.0 {
        error := true;
      } else if pheno == 1.0 {
        numCase := numCase + 1;
      } else {
        numControl := numControl + 1;
      }
      j := j + 1;
    }
    assert store == Decremented(v);
    assert v[..j] == v && Decremented(v)[..j] == Decremented(v);
  }

  /** `gen_pheno_vec`: the decoding loop, the checks in source order, and the
      recoding of a 1/2-coded binary phenotype. */
  method GenPhenoVec(cells: seq<Cell>, binary: bool, fromFile: bool, regress: bool) returns (r: Result<Pheno>)
    ensures r == Decode(cells, binary, fromFile, regress)
  {
    var store, kept, maxNum, numCase, numControl, invalid, notFound, sanity := CollectPheno(cells, binary, fromFile);
    if notFound == |cells| && regress {
      return Err(NoSampleLeft);
    }
    if invalid == |cells| && regress {
      return Err(NoSampleLeft);
    }
    if |sanity| < 2 && !binary && regress {
      return Err(NotEnoughValid);
    }
    var error := false;
    if maxNum > 1 && binary {
      store, error, numCase, numControl := RecodeBinary(store);
    }
    if error && regress {
      return Err(MixedEncoding);
    }
    if |store| == 0 && regress {
      return Err(NoPhenotype);
    }
    if binary && regress {
      if numControl == 0 {
        return Err(NoControls);
      }
      if numCase == 0 {
        return Err(NoCases);
      }
    }
    if !binary {
      numCase, numControl := 0, 0;
    }
    return Ok(Pheno(store, kept, numCase, numControl));
  }

  /** Every sample is counted once: as a value, as not found, or as invalid. */
  lemma {:induction false} CountsPartition(cells: seq<Cell>, binary: bool)
    ensures |Values(cells, binary)| + CountAbsent(cells) + CountInvalid(cells, binary) == |cells|
    decreases |cells|
  {
    if cells != [] {
      CountsPartition(cells[..|cells| - 1], binary);
    }
  }

  /** Position j of the phenotype vector holds the value of sample
      `Kept[j]`; the samples appear in increasing order and every sample
      with a valid value appears. */
  lemma {:induction false} KeptMeaning(cells: seq<Cell>, binary: bool)
    ensures |Kept(cells, binary)| == |Values(cells, binary)|
    ensures forall j :: 0 <= j < |Kept(cells, binary)| ==>
              Kept(cells, binary)[j] < |cells|
              && Accepted(cells[Kept(cells, binary)[j]], binary) == Some(Values(cells, binary)[j])
    ensures forall j, l :: 0 <= j < l < |Kept(cells, binary)| ==> Kept(cells, binary)[j] < Kept(cells, binary)[l]
    ensures forall i :: 0 <= i < |cells| && Accepted(cells[i], binary).Some? ==> i in Kept(cells, binary)
    decreases |cells|
  {
    if cells != [] {
      var n := |cells| - 1;
      KeptMeaning(cells[..n], binary);
      assert forall i :: 0 <= i < n ==> cells[..n][i] == cells[i];
    }
  }

  lemma {:induction false} ValuesZeroOneTwo(cells: seq<Cell>)
    ensures ZeroOneTwo(Values(cells, true))
    decreases |cells|
  {
    if cells != [] {
      ValuesZeroOneTwo(cells[..|cells| - 1]);
    }
  }

  lemma {:induction false} CountZeroOne(v: seq<real>)
    requires forall x :: 0 <= x < |v| ==> v[x] == 0.0 || v[x] == 1.0
    ensures Count(v, 0.0) + Count(v, 1.0) == |v|
    decreases |v|
  {
    if v != [] {
      CountZeroOne(v[..|v| - 1]);
    }
  }

  lemma {:induction false} CountDecremented(v: seq<real>, x: real)
    ensures Count(Decremented(v), x - 1.0) == Count(v, x)
    decreases |v|
  {
    if v != [] {
      var n := |v| - 1;
      assert Decremented(v)[..n] == Decremented(v[..n]);
      CountDecremented(v[..n], x);
    }
  }

  /** A binary phenotype that passes every check is coded 0/1 (a 1/2 coding
      has been lowered by one), has at least one case and one control, and
      every value is one of the two. */
  lemma BinaryDecoded(cells: seq<Cell>, fromFile: bool)
    requires Decode(cells, true, fromFile, true).Ok?
    ensures var p := Decode(cells, true, fromFile, true).value;
            && (forall x :: 0 <= x < |p.values| ==> p.values[x] == 0.0 || p.values[x] == 1.0)
            && p.cases + p.controls == |p.values| == |Values(cells, true)|
            && p.cases > 0 && p.controls > 0
            && p.cases == Count(Values(cells, true), if 2.0 in Values(cells, true) then 2.0 else 1.0)
  {
    var v := Values(cells, true);
    ValuesZeroOneTwo(cells);
    var p := Decode(cells, true, fromFile, true).value;
    if 2.0 in v {
      CountDecremented(v, 2.0);
      assert forall x :: 0 <= x < |v| ==> v[x] != 0.0 by {
        forall x | 0 <= x < |v| ensures v[x] != 0.0 {
          assert v[x] in v;
        }
      }
    } else {
      assert forall x :: 0 <= x < |v| ==> v[x] != 2.0 by {
        forall x | 0 <= x < |v| ensures v[x] != 2.0 {
          assert v[x] in v;
        }
      }
    }
    CountZeroOne(p.values);
  }

  /** A binary phenotype fails with the mixed-encoding error exactly when
      both a 0 and a 2 occur among the valid values. */
  lemma MixedEncodingIff(cells: seq<Cell>, fromFile: bool)
    ensures Decode(cells, true, fromFile, true) == Err(MixedEncoding)
            <==> 0.0 in Values(cells, true) && 2.0 in Values(cells, true)
  {
    var v := Values(cells, true);
    CountsPartition(cells, true);
    if NotFound(cells, fromFile) == |cells| || CountInvalid(cells, true) == |cells| {
      assert |v| == 0;
      assert MixedEncoding != NoSampleLeft;
    } else {
      PastSanity(cells, fromFile);
      FinishMixed(v, Kept(cells, true));
    }
  }

  /** A binary phenotype with a valid value passes the first checks. */
  lemma PastSanity(cells: seq<Cell>, fromFile: bool)
    requires NotFound(cells, fromFile) < |cells| && CountInvalid(cells, true) < |cells|
    ensures Decode(cells, true, fromFile, true) == Finish(Values(cells, true), Kept(cells, true), true, true)
  {
    if fromFile {
      PastSanityFile(cells);
    } else {
      PastSanityFam(cells);
    }
  }

  lemma PastSanityFile(cells: seq<Cell>)
    requires CountAbsent(cells) < |cells| && CountInvalid(cells, true) < |cells|
    ensures Decode(cells, true, true, true) == Finish(Values(cells, true), Kept(cells, true), true, true)
  {
  }

  lemma PastSanityFam(cells: seq<Cell>)
    requires CountInvalid(cells, true) < |cells|
    ensures Decode(cells, true, false, true) == Finish(Values(cells, true), Kept(cells, true), true, true)
  {
  }

  lemma FinishMixed(v: seq<real>, kept: seq<nat>)
    ensures Finish(v, kept, true, true) == Err(MixedEncoding) <==> 0.0 in v && 2.0 in v
  {
    assert MixedEncoding != NoPhenotype && MixedEncoding != NoControls && MixedEncoding != NoCases;
    if !(0.0 in v && 2.0 in v) {
      var r := Finish(v, kept, true, true);
      assert r.Err? ==> r.msg == NoPhenotype || r.msg == NoControls || r.msg == NoCases;
    }
  }

  /** A continuous phenotype that passes every check keeps the values as
      read, and not all of them are equal. */
  lemma ContinuousDecoded(cells: seq<Cell>, fromFile: bool)
    requires Decode(cells, false, fromFile, true).Ok?
    ensures var p := Decode(cells, false, fromFile, true).value;
            p.values == Values(cells, false) && TwoDistinct(p.values) && p.cases == p.controls == 0
  {
  }

  /** Without regression nothing is rejected. */
  lemma NoRegressAccepts(cells: seq<Cell>, binary: bool, fromFile: bool)
    ensures Decode(cells, binary, fromFile, false).Ok?
  {
  }
}
