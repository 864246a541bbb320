/** The permutation null-statistic array (`m_perm_result`): how it is sized,
    how the permutation loops fold statistics into its slots, and the
    empirical p-value counted from it. */
module NullStats {

  function Min(a: real, b: real): real { if a < b then a else b }

  /** `std::vector::resize(n, fill)`: keeps the first n slots, and only slots
      that did not exist before receive `fill`. */
  function Resize(s: seq<real>, n: nat, fill: real): (r: seq<real>)
    ensures |r| == n
    ensures forall i :: 0 <= i < n && i < |s| ==> r[i] == s[i]
    ensures forall i :: |s| <= i < n ==> r[i] == fill
  {
    if n <= |s| then s[..n] else s + seq(n - |s|, _ => fill)
  }

  /** Slots `offset`, ..., `offset + |t| - 1` take the minimum of their value
      and the matching statistic of `t`; every other slot is unchanged. The
      sequential loop folds offset 0; `thread_perm` folds the slice it owns. */
  function MinFoldAt(s: seq<real>, offset: nat, t: seq<real>): (r: seq<real>)
    requires offset + |t| <= |s|
    ensures |r| == |s|
    ensures forall i :: 0 <= i < |s| && !(offset <= i < offset + |t|) ==> r[i] == s[i]
    ensures forall i :: offset <= i < offset + |t| ==>
              r[i] <= s[i] && r[i] <= t[i - offset] && (r[i] == s[i] || r[i] == t[i - offset])
  {
    seq(|s|, i requires 0 <= i < |s| =>
      if offset <= i < offset + |t| then Min(t[i - offset], s[i]) else s[i])
  }

  /** Folding two consecutive slices one after the other is folding their
      concatenation: slicing the permutations in batches of
      `m_perm_per_slice` gives the same array as one sequential pass. */
  lemma MinFoldSlices(s: seq<real>, offset: nat, a: seq<real>, b: seq<real>)
    requires offset + |a| + |b| <= |s|
    ensures MinFoldAt(MinFoldAt(s, offset, a), offset + |a|, b) == MinFoldAt(s, offset, a + b)
  {
    var l := MinFoldAt(MinFoldAt(s, offset, a), offset + |a|, b);
    var r := MinFoldAt(s, offset, a + b);
    forall i | 0 <= i < |s| ensures l[i] == r[i] {
      if offset <= i < offset + |a| {
        assert (a + b)[i - offset] == a[i - offset];
      } else if offset + |a| <= i < offset + |a| + |b| {
        assert (a + b)[i - offset] == b[i - offset - |a|];
      }
    }
  }

  /** Two threads that fold disjoint slices may flush in either order. */
  lemma MinFoldDisjointCommute(s: seq<real>, o1: nat, a: seq<real>, o2: nat, b: seq<real>)
    requires o1 + |a| <= |s| && o2 + |b| <= |s|
    requires o1 + |a| <= o2 || o2 + |b| <= o1
    ensures MinFoldAt(MinFoldAt(s, o1, a), o2, b) == MinFoldAt(MinFoldAt(s, o2, b), o1, a)
  {
    var l := MinFoldAt(MinFoldAt(s, o1, a), o2, b);
    var r := MinFoldAt(MinFoldAt(s, o2, b), o1, a);
    assert forall i :: 0 <= i < |s| ==> l[i] == r[i];
  }

  /** A statistic that a consumer thread computed for permutation `index`. */
  datatype Item = Item(index: nat, t: real)

  ghost predicate InRange(items: seq<Item>, n: nat)
  {
    forall k :: 0 <= k < |items| ==> items[k].index < n
  }

  /** One step of the locked merge of `consume_null_pheno`: the slot is raised
      to the statistic when that is larger. */
  function Raise(s: seq<real>, it: Item): (r: seq<real>)
    requires it.index < |s|
    ensures |r| == |s|
  {
    if s[it.index] < it.t then s[it.index := it.t] else s
  }

  /** The merge of one consumer's thread-local buffer, in buffer order. */
  function MaxMerge(s: seq<real>, items: seq<Item>): (r: seq<real>)
    requires InRange(items, |s|)
    ensures |r| == |s|
    decreases |items|
  {
    if items == [] then s
    else Raise(MaxMerge(s, items[..|items| - 1]), items[|items| - 1])
  }

  /** The largest of x and every statistic of `items` for slot i. */
  function SlotMax(x: real, items: seq<Item>, i: nat): real
    decreases |items|
  {
    if items == [] then x
    else
      var m := SlotMax(x, items[..|items| - 1], i);
      var it := items[|items| - 1];
      if it.index == i && m < it.t then it.t else m
  }

  /** Max-merging sets every slot to the maximum of its old value and the
      statistics reported for it: no slot decreases, every reported value is
      covered, and the new value is the old one or a reported one. */
  lemma {:induction false} MaxMergeSlot(s: seq<real>, items: seq<Item>, i: nat)
    requires InRange(items, |s|) && i < |s|
    ensures MaxMerge(s, items)[i] == SlotMax(s[i], items, i)
    ensures MaxMerge(s, items)[i] >= s[i]
    ensures forall k :: 0 <= k < |items| && items[k].index == i ==> MaxMerge(s, items)[i] >= items[k].t
    ensures MaxMerge(s, items)[i] == s[i]
            || exists k :: 0 <= k < |items| && items[k].index == i && MaxMerge(s, items)[i] == items[k].t
    decreases |items|
  {
    if items != [] {
      var n := |items| - 1;
      MaxMergeSlot(s, items[..n], i);
      assert forall k :: 0 <= k < n ==> items[..n][k] == items[k];
      var m := MaxMerge(s, items[..n])[i];
      if items[n].index == i && m < items[n].t {
      } else {
        if m != s[i] {
          var k :| 0 <= k < n && items[..n][k].index == i && m == items[..n][k].t;
          assert items[k].index == i && MaxMerge(s, items)[i] == items[k].t;
        }
      }
    }
  }

  lemma {:induction false} SlotMaxRaise(x: real, y: real, items: seq<Item>, i: nat)
    ensures SlotMax(if x < y then y else x, items, i) == (var m := SlotMax(x, items, i); if m < y then y else m)
    decreases |items|
  {
    if items != [] {
      SlotMaxRaise(x, y, items[..|items| - 1], i);
    }
  }

  lemma {:induction false} SlotMaxSwap(x: real, a: seq<Item>, b: seq<Item>, i: nat)
    ensures SlotMax(SlotMax(x, a, i), b, i) == SlotMax(SlotMax(x, b, i), a, i)
    decreases |b|
  {
    if b != [] {
      var n := |b| - 1;
      SlotMaxSwap(x, a, b[..n], i);
      if b[n].index == i {
        SlotMaxRaise(SlotMax(x, b[..n], i), b[n].t, a, i);
      }
    }
  }

  /** The consumers of the threaded permutation loop may flush in any order:
      merging two buffers in either order leaves the same array. */
  lemma MaxMergeOrderIrrelevant(s: seq<real>, a: seq<Item>, b: seq<Item>)
    requires InRange(a, |s|) && InRange(b, |s|)
    ensures MaxMerge(MaxMerge(s, a), b) == MaxMerge(MaxMerge(s, b), a)
  {
    var l := MaxMerge(MaxMerge(s, a), b);
    var r := MaxMerge(MaxMerge(s, b), a);
    forall i | 0 <= i < |s| ensures l[i] == r[i] {
      MaxMergeSlot(MaxMerge(s, a), b, i);
      MaxMergeSlot(s, a, i);
      MaxMergeSlot(MaxMerge(s, b), a, i);
      MaxMergeSlot(s, b, i);
      SlotMaxSwap(s[i], a, b, i);
    }
  }

  /** The number of null statistics strictly greater than the observed one
      (the `count_if` of `process_permutations`). */
  function CountGreater(s: seq<real>, t: real): (c: nat)
    ensures c <= |s|
    decreases |s|
  {
    if s == [] then 0
    else CountGreater(s[..|s| - 1], t) + (if s[|s| - 1] > t then 1 else 0)
  }

  /** The count is zero iff no null statistic exceeds the observed one, and it
      is |s| iff every one does. */
  lemma {:induction false} CountGreaterExtremes(s: seq<real>, t: real)
    ensures CountGreater(s, t) == 0 <==> forall i :: 0 <= i < |s| ==> s[i] <= t
    ensures CountGreater(s, t) == |s| <==> forall i :: 0 <= i < |s| ==> s[i] > t
    decreases |s|
  {
    if s != [] {
      var n := |s| - 1;
      CountGreaterExtremes(s[..n], t);
      assert forall i :: 0 <= i < n ==> s[..n][i] == s[i];
    }
  }

  /** Raising the observed statistic never raises the count. */
  lemma {:induction false} CountGreaterAntitone(s: seq<real>, t: real, u: real)
    requires t <= u
    ensures CountGreater(s, u) <= CountGreater(s, t)
    decreases |s|
  {
    if s != [] {
      CountGreaterAntitone(s[..|s| - 1], t, u);
    }
  }

  /** `(count + 1) / (N + 1)`. */
  function EmpiricalP(count: nat, numPerm: nat): (p: real)
    requires count <= numPerm
    ensures 0.0 < p <= 1.0
    ensures p >= 1.0 / (numPerm as real + 1.0)
    ensures p == 1.0 / (numPerm as real + 1.0) <==> count == 0
    ensures p == 1.0 <==> count == numPerm
  {
    (count as real + 1.0) / (numPerm as real + 1.0)
  }
}
