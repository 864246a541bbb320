/** The partial Fisher-Yates shuffle of the background index vector that
    starts every competitive permutation (`null_set_no_thread` 1694-1701,
    `produce_null_prs` 1815-1822). The random engine is replaced by the
    sequence of indices it draws. */
module Shuffle {

  /** Step k may swap position k with any position from k to the end, the
      range `uniform_int_distribution(begin, num_background - 1)` draws from. */
  ghost predicate ValidDraws(draws: seq<nat>, n: nat)
  {
    forall k :: 0 <= k < |draws| ==> k <= draws[k] < n
  }

  function Swap(s: seq<nat>, i: nat, j: nat): (r: seq<nat>)
    requires i < |s| && j < |s|
    ensures |r| == |s|
    ensures r[i] == s[j] && r[j] == s[i]
    ensures forall k :: 0 <= k < |s| && k != i && k != j ==> r[k] == s[k]
  {
    s[i := s[j]][j := s[i]]
  }

  lemma SwapPermutes(s: seq<nat>, i: nat, j: nat)
    requires i < |s| && j < |s|
    ensures multiset(Swap(s, i, j)) == multiset(s)
  {
    if i != j {
      var t := s[i := s[j]];
      assert multiset(t) == multiset(s) - multiset{s[i]} + multiset{s[j]};
      assert multiset(t[j := s[i]]) == multiset(t) - multiset{t[j]} + multiset{s[i]};
    }
  }

  /** The vector after the first |draws| steps of the shuffle. */
  function Shuffled(s: seq<nat>, draws: seq<nat>): (r: seq<nat>)
    requires ValidDraws(draws, |s|)
    ensures |r| == |s|
    decreases |draws|
  {
    if draws == [] then s
    else
      var n := |draws| - 1;
      Swap(Shuffled(s, draws[..n]), n, draws[n])
  }

  /** The shuffle only reorders the background: no index is lost or repeated. */
  lemma {:induction false} ShuffledPermutes(s: seq<nat>, draws: seq<nat>)
    requires ValidDraws(draws, |s|)
    ensures multiset(Shuffled(s, draws)) == multiset(s)
    decreases |draws|
  {
    if draws != [] {
      var n := |draws| - 1;
      ShuffledPermutes(s, draws[..n]);
      SwapPermutes(Shuffled(s, draws[..n]), n, draws[n]);
    }
  }

  /** A step never touches the positions already fixed by the earlier steps,
      so the first k entries are final once step k - 1 is done. */
  lemma {:induction false} ShuffledFixesPrefix(s: seq<nat>, draws: seq<nat>, m: nat)
    requires ValidDraws(draws, |s|) && m <= |draws|
    ensures Shuffled(s, draws)[..m] == Shuffled(s, draws[..m])[..m]
    decreases |draws|
  {
    if |draws| > m {
      var n := |draws| - 1;
      assert draws[..n][..m] == draws[..m];
      ShuffledFixesPrefix(s, draws[..n], m);
    } else {
      assert draws[..m] == draws;
    }
  }

  /** The shuffle in place: `max_size` swaps, step `begin` exchanging
      `background[begin]` with `background[draws[begin]]`. */
  method PartialShuffle(background: array<nat>, draws: seq<nat>)
    requires ValidDraws(draws, background.Length)
    modifies background
    ensures background[..] == Shuffled(old(background[..]), draws)
    ensures multiset(background[..]) == multiset(old(background[..]))
  {
    ghost var start := background[..];
    var begin := 0;
    while begin < |draws|
      invariant 0 <= begin <= |draws|
      invariant background[..] == Shuffled(start, draws[..begin])
    {
      assert draws[..begin + 1][..begin] == draws[..begin];
      var advance := draws[begin];
      background[begin], background[advance] := background[advance], background[begin];
      begin := begin + 1;
    }
    assert draws[..begin] == draws;
    ShuffledPermutes(start, draws);
  }
}
