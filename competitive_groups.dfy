/** The ordered map `set_index` of `run_competitive` (2003-2008): every
    summary result after the base set is grouped under its SNP count, and the
    groups are visited in ascending size. The `std::map` is modelled as a list
    of groups sorted strictly by size. */
module CompetitiveGroups {
  import opened Results

  /** One entry of the map: a set size and the indices of the sets of that size. */
  datatype Group = Group(size: nat, members: seq<nat>)

  ghost predicate Ordered(g: seq<Group>)
  {
    forall i, j :: 0 <= i < j < |g| ==> g[i].size < g[j].size
  }

  /** `set_index[size]`, the empty list when the key is absent. */
  function MembersOf(g: seq<Group>, size: nat): seq<nat>
    decreases |g|
  {
    if g == [] then [] else if g[0].size == size then g[0].members else MembersOf(g[1..], size)
  }

  function Sizes(g: seq<Group>): set<nat>
    decreases |g|
  {
    if g == [] then {} else {g[0].size} + Sizes(g[1..])
  }

  /** In a sorted list no size lies below the first one. */
  lemma {:induction false} SizesAtLeastFirst(g: seq<Group>, x: nat)
    requires Ordered(g) && g != [] && x in Sizes(g)
    ensures g[0].size <= x
    decreases |g|
  {
    if x != g[0].size {
      assert x in Sizes(g[1..]);
      assert Ordered(g[1..]);
      SizesAtLeastFirst(g[1..], x);
    }
  }

  lemma {:induction false} MembersOfGroup(g: seq<Group>, j: nat)
    requires Ordered(g) && j < |g|
    ensures MembersOf(g, g[j].size) == g[j].members
    decreases |g|
  {
    if j > 0 {
      MembersOfGroup(g[1..], j - 1);
    }
  }

  lemma {:induction false} MembersOfAbsent(g: seq<Group>, size: nat)
    requires size !in Sizes(g)
    ensures MembersOf(g, size) == []
    decreases |g|
  {
    if g != [] {
      MembersOfAbsent(g[1..], size);
    }
  }

  /** `set_index[size].push_back(k)`: appends k to the group of that size,
      creating the group in its sorted place when the size is new. */
  function Insert(g: seq<Group>, size: nat, k: nat): (r: seq<Group>)
    requires Ordered(g)
    ensures Ordered(r)
    ensures Sizes(r) == Sizes(g) + {size}
    ensures forall s :: MembersOf(r, s) == if s == size then MembersOf(g, s) + [k] else MembersOf(g, s)
    decreases |g|
  {
    if g == [] then [Group(size, [k])]
    else if g[0].size == size then [Group(size, g[0].members + [k])] + g[1..]
    else if size < g[0].size then
      var r := [Group(size, [k])] + g;
      assert r[1..] == g;
      assert size !in Sizes(g) by {
        if size in Sizes(g) {
          SizesAtLeastFirst(g, size);
        }
      }
      MembersOfAbsent(g, size);
      r
    else
      assert Ordered(g[1..]);
      var tail := Insert(g[1..], size, k);
      var r := [g[0]] + tail;
      assert r[1..] == tail;
      assert forall x :: x in Sizes(tail) ==> g[0].size < x by {
        forall x | x in Sizes(tail) ensures g[0].size < x {
          if x != size {
            assert x in Sizes(g[1..]);
            if g[1..] != [] {
              SizesAtLeastFirst(g[1..], x);
            }
          }
        }
      }
      assert Ordered(r) by {
        forall j | 0 < j < |r| ensures r[0].size < r[j].size {
          assert r[j] == tail[j - 1];
          SizeInSizes(tail, j - 1);
        }
      }
      r
  }

  lemma {:induction false} SizeInSizes(g: seq<Group>, j: nat)
    requires j < |g|
    ensures g[j].size in Sizes(g)
    decreases |g|
  {
    if j > 0 {
      SizeInSizes(g[1..], j - 1);
    }
  }

  /** The SNP counts of the sets tested: entry k belongs to summary result k + 1
      (result 0 is the base set and is not tested). */
  function SetSizes(summary: seq<PrsResult>): (sizes: seq<nat>)
    ensures |sizes| == if |summary| == 0 then 0 else |summary| - 1
    ensures forall k :: 0 <= k < |sizes| ==> sizes[k] == summary[k + 1].numSnp
  {
    if |summary| == 0 then [] else seq(|summary| - 1, k requires 0 <= k < |summary| - 1 => summary[k + 1].numSnp)
  }

  /** The indices with the given size, in increasing order. */
  function Grouped(sizes: seq<nat>, s: nat): seq<nat>
    decreases |sizes|
  {
    if sizes == [] then []
    else Grouped(sizes[..|sizes| - 1], s) + (if sizes[|sizes| - 1] == s then [|sizes| - 1] else [])
  }

  /** A group lists exactly the sets of its size, each once, in increasing order. */
  lemma {:induction false} GroupedMeaning(sizes: seq<nat>, s: nat)
    ensures forall x :: 0 <= x < |Grouped(sizes, s)| ==>
              Grouped(sizes, s)[x] < |sizes| && sizes[Grouped(sizes, s)[x]] == s
    ensures forall x, y :: 0 <= x < y < |Grouped(sizes, s)| ==> Grouped(sizes, s)[x] < Grouped(sizes, s)[y]
    ensures forall k :: 0 <= k < |sizes| && sizes[k] == s ==> k in Grouped(sizes, s)
    decreases |sizes|
  {
    if sizes != [] {
      var n := |sizes| - 1;
      GroupedMeaning(sizes[..n], s);
      assert forall k :: 0 <= k < n ==> sizes[..n][k] == sizes[k];
    }
  }

  /** The distinct sizes among the first sets. */
  function SizeSet(sizes: seq<nat>): set<nat>
    decreases |sizes|
  {
    if sizes == [] then {} else SizeSet(sizes[..|sizes| - 1]) + {sizes[|sizes| - 1]}
  }

  lemma SizeSetMeaning(sizes: seq<nat>, s: nat)
    ensures s in SizeSet(sizes) <==> exists k :: 0 <= k < |sizes| && sizes[k] == s
    decreases |sizes|
  {
    if sizes != [] {
      var n := |sizes| - 1;
      SizeSetMeaning(sizes[..n], s);
      assert forall k :: 0 <= k < n ==> sizes[..n][k] == sizes[k];
      if s in SizeSet(sizes[..n]) {
        var k :| 0 <= k < n && sizes[..n][k] == s;
        assert sizes[k] == s;
      }
    }
  }

  lemma GroupedSnoc(sizes: seq<nat>, n: nat, s: nat)
    requires n < |sizes|
    ensures Grouped(sizes[..n + 1], s) == Grouped(sizes[..n], s) + (if sizes[n] == s then [n] else [])
  {
    assert sizes[..n + 1][..n] == sizes[..n];
  }

  lemma SizeSetSnoc(sizes: seq<nat>, n: nat)
    requires n < |sizes|
    ensures SizeSet(sizes[..n + 1]) == SizeSet(sizes[..n]) + {sizes[n]}
  {
    assert sizes[..n + 1][..n] == sizes[..n];
  }

  /** The three vectors `run_competitive` builds before permuting: the map
      from set size to sets, every set's observed |t| and its exceed count 0.
      A zero standard error is excluded because the model has no IEEE
      infinities. */
  method GroupSets(summary: seq<PrsResult>) returns (groups: seq<Group>, oriT: seq<real>, permRes: seq<nat>)
    requires forall i :: 1 <= i < |summary| ==> summary[i].se != 0.0
    ensures Ordered(groups)
    ensures |oriT| == |permRes| == |SetSizes(summary)|
    ensures forall k :: 0 <= k < |permRes| ==> permRes[k] == 0
    ensures forall k :: 0 <= k < |oriT| ==>
              oriT[k] == TStat(summary[k + 1])
    ensures forall s :: MembersOf(groups, s) == Grouped(SetSizes(summary), s)
    ensures Sizes(groups) == SizeSet(SetSizes(summary))
  {
    ghost var sizes := SetSizes(summary);
    groups, oriT, permRes := [], [], [];
    if |summary| == 0 {
      return;
    }
    var i := 1;
    while i < |summary|
      invariant 1 <= i <= |summary|
      invariant |oriT| == |permRes| == i - 1
      invariant Ordered(groups)
      invariant forall k :: 0 <= k < |permRes| ==> permRes[k] == 0
      invariant forall k :: 0 <= k < |oriT| ==> oriT[k] == TStat(summary[k + 1])
      invariant forall s :: MembersOf(groups, s) == Grouped(sizes[..i - 1], s)
      invariant Sizes(groups) == SizeSet(sizes[..i - 1])
    {
      var res := summary[i];
      SizeSetSnoc(sizes, i - 1);
      groups := Insert(groups, res.numSnp, |oriT|);
      assert forall s :: MembersOf(groups, s) == Grouped(sizes[..i], s) by {
        forall s ensures MembersOf(groups, s) == Grouped(sizes[..i], s) {
          GroupedSnoc(sizes, i - 1, s);
        }
      }
      oriT := oriT + [TStat(res)];
      permRes := permRes + [0];
      i := i + 1;
    }
    assert sizes[..i - 1] == sizes;
  }

  /** The observed |t| of a set, `fabs(coefficient / se)`. */
  function TStat(r: PrsResult): real
    requires r.se != 0.0
  {
    var t := r.coefficient / r.se;
    if t < 0.0 then -t else t
  }
}
