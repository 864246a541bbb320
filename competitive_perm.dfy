/** The competitive permutation of `run_competitive`: every permutation
    shuffles the background SNPs, draws one null score per set size (the
    first `size` shuffled SNPs, grown size by size through `prev_size`), and
    counts for every set whether the null |t| strictly exceeds its observed
    |t|. The single-thread loop (`null_set_no_thread`) and the
    producer/consumer pair (`produce_null_prs`, `consume_prs`) are both
    proved to compute the same counts. Scoring and regression are the oracle
    `stat`, mapping the chosen background SNPs to the null |t|; the scheduling
    of the queue is the oracle `owner`, naming the consumer that pops each
    message. */
module CompetitivePerm {
  import opened Shuffle
  import opened CompetitiveGroups

  /** `set_index.rbegin()->first`, the largest set size. */
  function MaxSize(groups: seq<Group>): nat
    requires groups != []
  {
    groups[|groups| - 1].size
  }

  /** Every permutation draws `max_size` swap positions in range. */
  ghost predicate PermDraws(draws: seq<seq<nat>>, maxSize: nat, n: nat)
  {
    forall p :: 0 <= p < |draws| ==> |draws[p]| == maxSize && ValidDraws(draws[p], n)
  }

  ghost predicate Fits(groups: seq<Group>, n: nat)
  {
    forall j :: 0 <= j < |groups| ==> groups[j].size <= n
  }

  ghost predicate InBounds(members: seq<nat>, n: nat)
  {
    forall x :: 0 <= x < |members| ==> members[x] < n
  }

  /** Every set index stored in the map names an entry of the count vector. */
  ghost predicate Indexes(groups: seq<Group>, n: nat)
  {
    forall j :: 0 <= j < |groups| ==> InBounds(groups[j].members, n)
  }

  /** A drawn permutation needs `num_background >= max_size`: the last swap
      position `max_size - 1` lies below `num_background`. */
  lemma DrawsBound(draws: seq<seq<nat>>, maxSize: nat, n: nat)
    requires draws != [] && PermDraws(draws, maxSize, n)
    ensures maxSize <= n
  {
    if maxSize > 0 {
      assert maxSize - 1 <= draws[0][maxSize - 1] < n;
    }
  }

  lemma DrawsFit(groups: seq<Group>, draws: seq<seq<nat>>, n: nat)
    requires Ordered(groups) && groups != [] && draws != []
    requires PermDraws(draws, MaxSize(groups), n)
    ensures Fits(groups, n)
  {
    DrawsBound(draws, MaxSize(groups), n);
    forall j | 0 <= j < |groups| ensures groups[j].size <= n {
      if j < |groups| - 1 {
        assert groups[j].size < groups[|groups| - 1].size;
      }
    }
  }

  lemma {:induction false} MembersOfBounded(groups: seq<Group>, size: nat, n: nat)
    requires Indexes(groups, n)
    ensures InBounds(MembersOf(groups, size), n)
    decreases |groups|
  {
    if groups != [] && groups[0].size != size {
      assert Indexes(groups[1..], n) by {
        forall j | 0 <= j < |groups| - 1 ensures InBounds(groups[1..][j].members, n) {
          assert groups[1..][j] == groups[j + 1];
        }
      }
      MembersOfBounded(groups[1..], size, n);
    }
  }

  /** The background order after all the permutations in `draws`: each
      permutation continues from the order the previous one left. */
  function BgAfter(bg0: seq<nat>, draws: seq<seq<nat>>): (r: seq<nat>)
    requires forall p :: 0 <= p < |draws| ==> ValidDraws(draws[p], |bg0|)
    ensures |r| == |bg0|
    ensures multiset(r) == multiset(bg0)
    decreases |draws|
  {
    if draws == [] then bg0
    else
      var n := |draws| - 1;
      var prev := BgAfter(bg0, draws[..n]);
      ShuffledPermutes(prev, draws[n]);
      Shuffled(prev, draws[n])
  }

  /** A null score: the set size it stands for and the background SNPs it
      was built from (`get_null_score` followed by `calculate_score`). */
  datatype NullPrs = NullPrs(size: nat, snps: seq<nat>)

  /** One permutation's null scores, one per set size in ascending order;
      the score for size s uses the first s shuffled SNPs. */
  function Pass(groups: seq<Group>, bg: seq<nat>): (r: seq<NullPrs>)
    requires Fits(groups, |bg|)
    ensures |r| == |groups|
  {
    seq(|groups|, j requires 0 <= j < |groups| => NullPrs(groups[j].size, bg[..groups[j].size]))
  }

  /** Every null score of all permutations, in the order they are produced. */
  function Stream(groups: seq<Group>, bg0: seq<nat>, draws: seq<seq<nat>>): (r: seq<NullPrs>)
    requires Ordered(groups) && groups != []
    requires PermDraws(draws, MaxSize(groups), |bg0|)
    decreases |draws|
  {
    if draws == [] then []
    else
      var n := |draws| - 1;
      DrawsFit(groups, draws, |bg0|);
      Stream(groups, bg0, draws[..n]) + Pass(groups, BgAfter(bg0, draws))
  }

  /** One more permutation: the background is shuffled once more from where
      the previous permutations left it, and the stream gains that pass. */
  lemma StreamSnoc(groups: seq<Group>, bg0: seq<nat>, draws: seq<seq<nat>>, p: nat)
    requires Ordered(groups) && groups != []
    requires PermDraws(draws, MaxSize(groups), |bg0|) && p < |draws|
    ensures Fits(groups, |bg0|)
    ensures BgAfter(bg0, draws[..p + 1]) == Shuffled(BgAfter(bg0, draws[..p]), draws[p])
    ensures Stream(groups, bg0, draws[..p + 1])
            == Stream(groups, bg0, draws[..p]) + Pass(groups, BgAfter(bg0, draws[..p + 1]))
  {
    DrawsFit(groups, draws, |bg0|);
    assert draws[..p + 1][..p] == draws[..p];
  }

  function Hit(observed: real, t: real): nat
  {
    if observed < t then 1 else 0
  }

  /** `set_perm_res[m] += (ori_t_value[m] < t_value)` for every member m. */
  function Bump(counts: seq<nat>, members: seq<nat>, oriT: seq<real>, t: real): (r: seq<nat>)
    requires |oriT| == |counts| && InBounds(members, |counts|)
    ensures |r| == |counts|
    decreases |members|
  {
    if members == [] then counts
    else
      var n := |members| - 1;
      var c := Bump(counts, members[..n], oriT, t);
      var m := members[n];
      c[m := c[m] + Hit(oriT[m], t)]
  }

  /** Counting a sequence of null scores: each is looked up in the map by
      its size (`set_index[size]`) and bumps the sets of that size. */
  function Tally(counts: seq<nat>, groups: seq<Group>, oriT: seq<real>, items: seq<NullPrs>,
                 stat: seq<nat> -> real): (r: seq<nat>)
    requires |oriT| == |counts| && Indexes(groups, |counts|)
    ensures |r| == |counts|
    decreases |items|
  {
    if items == [] then counts
    else
      var n := |items| - 1;
      var c := Tally(counts, groups, oriT, items[..n], stat);
      MembersOfBounded(groups, items[n].size, |counts|);
      Bump(c, MembersOf(groups, items[n].size), oriT, stat(items[n].snps))
  }

  /** Each set's share of one null score: once per listing in its group, and
      only when the null |t| is strictly greater than the set's own. */
  function Hits(groups: seq<Group>, oriT: seq<real>, x: NullPrs, k: nat, stat: seq<nat> -> real): nat
    requires k < |oriT|
  {
    multiset(MembersOf(groups, x.size))[k] * Hit(oriT[k], stat(x.snps))
  }

  function SumHits(groups: seq<Group>, oriT: seq<real>, items: seq<NullPrs>, k: nat,
                   stat: seq<nat> -> real): nat
    requires k < |oriT|
    decreases |items|
  {
    if items == [] then 0
    else
      var n := |items| - 1;
      SumHits(groups, oriT, items[..n], k, stat) + Hits(groups, oriT, items[n], k, stat)
  }

  lemma {:induction false} BumpAt(counts: seq<nat>, members: seq<nat>, oriT: seq<real>, t: real, k: nat)
    requires |oriT| == |counts| && InBounds(members, |counts|) && k < |counts|
    ensures Bump(counts, members, oriT, t)[k] == counts[k] + multiset(members)[k] * Hit(oriT[k], t)
    decreases |members|
  {
    if members != [] {
      var n := |members| - 1;
      BumpAt(counts, members[..n], oriT, t, k);
      assert members == members[..n] + [members[n]];
      assert multiset(members) == multiset(members[..n]) + multiset{members[n]};
    }
  }

  /** A set's final count is its starting count plus its share of every null
      score: counting is additive, whatever the order of the scores. */
  lemma {:induction false} TallyAt(counts: seq<nat>, groups: seq<Group>, oriT: seq<real>, items: seq<NullPrs>,
                                   stat: seq<nat> -> real, k: nat)
    requires |oriT| == |counts| && Indexes(groups, |counts|) && k < |counts|
    ensures Tally(counts, groups, oriT, items, stat)[k] == counts[k] + SumHits(groups, oriT, items, k, stat)
    decreases |items|
  {
    if items != [] {
      var n := |items| - 1;
      TallyAt(counts, groups, oriT, items[..n], stat, k);
      MembersOfBounded(groups, items[n].size, |counts|);
      BumpAt(Tally(counts, groups, oriT, items[..n], stat), MembersOf(groups, items[n].size), oriT,
             stat(items[n].snps), k);
    }
  }

  lemma {:induction false} SumHitsAppend(groups: seq<Group>, oriT: seq<real>, a: seq<NullPrs>, b: seq<NullPrs>,
                                         k: nat, stat: seq<nat> -> real)
    requires k < |oriT|
    ensures SumHits(groups, oriT, a + b, k, stat) == SumHits(groups, oriT, a, k, stat) + SumHits(groups, oriT, b, k, stat)
    decreases |b|
  {
    if b == [] {
      assert a + b == a;
    } else {
      var n := |b| - 1;
      assert (a + b)[..|a| + n] == a + b[..n];
      SumHitsAppend(groups, oriT, a, b[..n], k, stat);
    }
  }

  /** Method form of `Bump`: the innermost loop over one group's sets. */
  method BumpMembers(counts: seq<nat>, members: seq<nat>, oriT: seq<real>, t: real) returns (r: seq<nat>)
    requires |oriT| == |counts| && InBounds(members, |counts|)
    ensures r == Bump(counts, members, oriT, t)
    ensures forall k :: 0 <= k < |counts| ==> r[k] == counts[k] + multiset(members)[k] * Hit(oriT[k], t)
  {
    r := counts;
    var x := 0;
    while x < |members|
      invariant 0 <= x <= |members|
      invariant r == Bump(counts, members[..x], oriT, t)
    {
      assert members[..x + 1][..x] == members[..x];
      var m := members[x];
      r := r[m := r[m] + (if oriT[m] < t then 1 else 0)];
      x := x + 1;
    }
    assert members[..x] == members;
    forall k | 0 <= k < |counts| ensures r[k] == counts[k] + multiset(members)[k] * Hit(oriT[k], t) {
      BumpAt(counts, members, oriT, t, k);
    }
  }

  /** One permutation of `null_set_no_thread` after the shuffle: walks the
      set sizes upwards, extends the chosen SNPs from `prev_size` to the next
      size, and bumps that size's sets. */
  method CountOnePerm(background: array<nat>, groups: seq<Group>, oriT: seq<real>, counts: seq<nat>,
                      stat: seq<nat> -> real) returns (r: seq<nat>)
    requires Ordered(groups) && Fits(groups, background.Length)
    requires |oriT| == |counts| && Indexes(groups, |counts|)
    ensures r == Tally(counts, groups, oriT, Pass(groups, background[..]), stat)
  {
    ghost var pass := Pass(groups, background[..]);
    r := counts;
    var prevSize := 0;
    var snps: seq<nat> := [];
    var j := 0;
    while j < |groups|
      invariant 0 <= j <= |groups|
      invariant prevSize == (if j == 0 then 0 else groups[j - 1].size)
      invariant prevSize <= background.Length
      invariant snps == background[..prevSize]
      invariant r == Tally(counts, groups, oriT, pass[..j], stat)
    {
      var size := groups[j].size;
      if j > 0 {
        assert groups[j - 1].size < size;
      }
      snps := snps + background[prevSize..size];
      assert snps == background[..size];
      prevSize := size;
      MembersOfGroup(groups, j);
      assert InBounds(groups[j].members, |r|);
      assert pass[..j + 1][..j] == pass[..j];
      r := BumpMembers(r, groups[j].members, oriT, stat(snps));
      j := j + 1;
    }
    assert pass[..j] == pass;
  }

  /** The single-thread competitive permutation (`null_set_no_thread`,
      map overload): `|draws|` permutations, each shuffling a private copy
      of the background further and then counting one pass. */
  method NullSetNoThread(groups: seq<Group>, oriT: seq<real>, setPermRes: seq<nat>, bg0: seq<nat>,
                         draws: seq<seq<nat>>, stat: seq<nat> -> real) returns (counts: seq<nat>)
    requires Ordered(groups) && groups != []
    requires |oriT| == |setPermRes| && Indexes(groups, |setPermRes|)
    requires PermDraws(draws, MaxSize(groups), |bg0|)
    ensures counts == Tally(setPermRes, groups, oriT, Stream(groups, bg0, draws), stat)
  {
    var background := new nat[|bg0|](i requires 0 <= i < |bg0| => bg0[i]);
    assert background[..] == bg0;
    counts := setPermRes;
    var processed := 0;
    while processed < |draws|
      invariant 0 <= processed <= |draws|
      invariant background[..] == BgAfter(bg0, draws[..processed])
      invariant counts == Tally(setPermRes, groups, oriT, Stream(groups, bg0, draws[..processed]), stat)
    {
      StreamSnoc(groups, bg0, draws, processed);
      PartialShuffle(background, draws[processed]);
      counts := CountOnePerm(background, groups, oriT, counts, stat);
      TallyAppend(setPermRes, groups, oriT, Stream(groups, bg0, draws[..processed]),
                  Pass(groups, background[..]), stat);
      processed := processed + 1;
    }
    assert draws[..processed] == draws;
  }

  lemma {:induction false} TallyAppend(counts: seq<nat>, groups: seq<Group>, oriT: seq<real>,
                                       a: seq<NullPrs>, b: seq<NullPrs>, stat: seq<nat> -> real)
    requires |oriT| == |counts| && Indexes(groups, |counts|)
    ensures Tally(counts, groups, oriT, a + b, stat)
         == Tally(Tally(counts, groups, oriT, a, stat), groups, oriT, b, stat)
    decreases |b|
  {
    if b == [] {
      assert a + b == a;
    } else {
      var n := |b| - 1;
      assert (a + b)[..|a| + n] == a + b[..n];
      TallyAppend(counts, groups, oriT, a, b[..n], stat);
    }
  }

  /** What travels through `Thread_Queue`: a null score, or the end marker. */
  datatype Message = Job(prs: NullPrs) | Stop

  function Jobs(items: seq<NullPrs>): (r: seq<Message>)
    ensures |r| == |items|
    ensures forall i :: 0 <= i < |items| ==> r[i] == Job(items[i])
  {
    seq(|items|, i requires 0 <= i < |items| => Job(items[i]))
  }

  lemma JobsAppend(a: seq<NullPrs>, b: seq<NullPrs>)
    ensures Jobs(a + b) == Jobs(a) + Jobs(b)
  {
  }

  /** The null scores carried by the messages, in queue order. */
  function JobPayloads(ms: seq<Message>): seq<NullPrs>
    decreases |ms|
  {
    if ms == [] then []
    else
      var n := |ms| - 1;
      JobPayloads(ms[..n]) + (if ms[n].Job? then [ms[n].prs] else [])
  }

  /** The scores a consumer processes before it pops its first end marker. */
  function UntilStop(ms: seq<Message>): seq<NullPrs>
    decreases |ms|
  {
    if ms == [] || ms[0].Stop? then [] else [ms[0].prs] + UntilStop(ms[1..])
  }

  /** One permutation of `produce_null_prs` after the shuffle: the same walk
      over set sizes, queueing each null score with its size. */
  method EmitOnePerm(background: array<nat>, groups: seq<Group>) returns (out: seq<Message>)
    requires Ordered(groups) && Fits(groups, background.Length)
    ensures out == Jobs(Pass(groups, background[..]))
  {
    ghost var pass := Pass(groups, background[..]);
    out := [];
    var prevSize := 0;
    var snps: seq<nat> := [];
    var j := 0;
    while j < |groups|
      invariant 0 <= j <= |groups|
      invariant prevSize == (if j == 0 then 0 else groups[j - 1].size)
      invariant prevSize <= background.Length
      invariant snps == background[..prevSize]
      invariant out == Jobs(pass[..j])
    {
      var size := groups[j].size;
      if j > 0 {
        assert groups[j - 1].size < size;
      }
      snps := snps + background[prevSize..size];
      assert snps == background[..size];
      prevSize := size;
      out := out + [Job(NullPrs(size, snps))];
      j := j + 1;
    }
    assert pass[..j] == pass;
  }

  /** `produce_null_prs`: every permutation's null scores, then one end
      marker per consumer. */
  method ProduceNullPrs(groups: seq<Group>, bg0: seq<nat>, draws: seq<seq<nat>>, numConsumer: nat)
    returns (queue: seq<Message>)
    requires Ordered(groups) && groups != []
    requires PermDraws(draws, MaxSize(groups), |bg0|)
    ensures queue == Jobs(Stream(groups, bg0, draws)) + seq(numConsumer, _ => Stop)
  {
    var background := new nat[|bg0|](i requires 0 <= i < |bg0| => bg0[i]);
    assert background[..] == bg0;
    queue := [];
    var processed := 0;
    while processed < |draws|
      invariant 0 <= processed <= |draws|
      invariant background[..] == BgAfter(bg0, draws[..processed])
      invariant queue == Jobs(Stream(groups, bg0, draws[..processed]))
    {
      StreamSnoc(groups, bg0, draws, processed);
      PartialShuffle(background, draws[processed]);
      var out := EmitOnePerm(background, groups);
      JobsAppend(Stream(groups, bg0, draws[..processed]), Pass(groups, background[..]));
      queue := queue + out;
      processed := processed + 1;
    }
    assert draws[..processed] == draws;
    queue := PushStops(queue, numConsumer);
  }

  /** The end markers of `produce_null_prs`, one per consumer (1843-1845). */
  method PushStops(queue: seq<Message>, numConsumer: nat) returns (r: seq<Message>)
    ensures r == queue + seq(numConsumer, _ => Stop)
  {
    r := queue;
    var i := 0;
    while i < numConsumer
      invariant 0 <= i <= numConsumer
      invariant r == queue + seq(i, _ => Stop)
    {
      r := r + [Stop];
      i := i + 1;
    }
  }

  /** `consume_prs`: pops until the end marker, counting into a private
      vector `temp_perm_res` that starts at zero. */
  method ConsumePrs(ms: seq<Message>, groups: seq<Group>, oriT: seq<real>, numSets: nat,
                    stat: seq<nat> -> real) returns (local: seq<nat>)
    requires Stop in ms
    requires |oriT| == numSets && Indexes(groups, numSets)
    ensures local == Tally(seq(numSets, _ => 0), groups, oriT, UntilStop(ms), stat)
  {
    var zeros: seq<nat> := seq(numSets, _ => 0);
    local := zeros;
    var i := 0;
    while ms[i].Job?
      invariant 0 <= i < |ms| && Stop in ms[i..]
      invariant forall x :: 0 <= x < i ==> ms[x].Job?
      invariant UntilStop(ms) == JobPayloads(ms[..i]) + UntilStop(ms[i..])
      invariant local == Tally(zeros, groups, oriT, JobPayloads(ms[..i]), stat)
      decreases |ms| - i
    {
      var prs := ms[i].prs;
      assert ms[i..][1..] == ms[i + 1..];
      assert ms[..i + 1][..i] == ms[..i];
      MembersOfBounded(groups, prs.size, numSets);
      local := BumpMembers(local, MembersOf(groups, prs.size), oriT, stat(prs.snps));
      i := i + 1;
    }
    assert UntilStop(ms[i..]) == [];
    assert JobPayloads(ms[..i]) + [] == JobPayloads(ms[..i]);
  }

  /** The messages the queue hands to consumer w, in order. */
  function Deal(ms: seq<Message>, owner: nat -> nat, w: nat): seq<NullPrs>
    decreases |ms|
  {
    if ms == [] then []
    else
      var n := |ms| - 1;
      Deal(ms[..n], owner, w) + (if ms[n].Job? && owner(n) == w then [ms[n].prs] else [])
  }

  /** What consumer w pops: its share of the null scores, then an end
      marker. The queue is first in, first out and every end marker follows
      every score, so each consumer sees all of its scores before its end
      marker, and stops there. */
  function Share(ms: seq<Message>, owner: nat -> nat, w: nat): seq<Message>
  {
    Jobs(Deal(ms, owner, w)) + [Stop]
  }

  lemma {:induction false} UntilStopShare(items: seq<NullPrs>)
    ensures UntilStop(Jobs(items) + [Stop]) == items
    decreases |items|
  {
    if items != [] {
      assert (Jobs(items) + [Stop])[1..] == Jobs(items[1..]) + [Stop];
      UntilStopShare(items[1..]);
    }
  }

  /** The sum over consumers 0 .. w - 1 of a set's share of their scores. */
  function SumDealt(groups: seq<Group>, oriT: seq<real>, ms: seq<Message>, owner: nat -> nat, w: nat,
                    k: nat, stat: seq<nat> -> real): nat
    requires k < |oriT|
  {
    if w == 0 then 0
    else SumDealt(groups, oriT, ms, owner, w - 1, k, stat) + SumHits(groups, oriT, Deal(ms, owner, w - 1), k, stat)
  }

  lemma {:induction false} SumDealtStep(groups: seq<Group>, oriT: seq<real>, ms: seq<Message>, owner: nat -> nat,
                                        w: nat, k: nat, stat: seq<nat> -> real)
    requires k < |oriT| && ms != []
    ensures var n := |ms| - 1;
            SumDealt(groups, oriT, ms, owner, w, k, stat)
            == SumDealt(groups, oriT, ms[..n], owner, w, k, stat)
               + (if ms[n].Job? && owner(n) < w then Hits(groups, oriT, ms[n].prs, k, stat) else 0)
  {
    var n := |ms| - 1;
    if w > 0 {
      SumDealtStep(groups, oriT, ms, owner, w - 1, k, stat);
      var tail := if ms[n].Job? && owner(n) == w - 1 then [ms[n].prs] else [];
      SumHitsAppend(groups, oriT, Deal(ms[..n], owner, w - 1), tail, k, stat);
      if tail != [] {
        assert [ms[n].prs][..0] == [];
      }
    }
  }

  /** However the queue deals the scores out, the consumers' shares add up
      to every score exactly once. */
  lemma {:induction false} DealSplits(groups: seq<Group>, oriT: seq<real>, ms: seq<Message>, owner: nat -> nat,
                                      numConsumer: nat, k: nat, stat: seq<nat> -> real)
    requires k < |oriT|
    requires forall i: nat :: owner(i) < numConsumer
    ensures SumDealt(groups, oriT, ms, owner, numConsumer, k, stat) == SumHits(groups, oriT, JobPayloads(ms), k, stat)
    decreases |ms|
  {
    if ms == [] {
      SumDealtEmpty(groups, oriT, owner, numConsumer, k, stat);
    } else {
      var n := |ms| - 1;
      DealSplits(groups, oriT, ms[..n], owner, numConsumer, k, stat);
      SumDealtStep(groups, oriT, ms, owner, numConsumer, k, stat);
      var tail := if ms[n].Job? then [ms[n].prs] else [];
      SumHitsAppend(groups, oriT, JobPayloads(ms[..n]), tail, k, stat);
      if tail != [] {
        assert [ms[n].prs][..0] == [];
      }
    }
  }

  lemma {:induction false} SumDealtEmpty(groups: seq<Group>, oriT: seq<real>, owner: nat -> nat, w: nat,
                                         k: nat, stat: seq<nat> -> real)
    requires k < |oriT|
    ensures SumDealt(groups, oriT, [], owner, w, k, stat) == 0
  {
    if w > 0 {
      SumDealtEmpty(groups, oriT, owner, w - 1, k, stat);
    }
  }

  lemma {:induction false} JobPayloadsOfQueue(items: seq<NullPrs>, stops: nat)
    ensures JobPayloads(Jobs(items) + seq(stops, _ => Stop)) == items
    decreases stops
  {
    if stops == 0 {
      assert Jobs(items) + seq(stops, _ => Stop) == Jobs(items);
      JobPayloadsOfJobs(items);
    } else {
      var q := Jobs(items) + seq(stops, _ => Stop);
      assert q[..|q| - 1] == Jobs(items) + seq(stops - 1, _ => Stop);
      JobPayloadsOfQueue(items, stops - 1);
    }
  }

  lemma {:induction false} JobPayloadsOfJobs(items: seq<NullPrs>)
    ensures JobPayloads(Jobs(items)) == items
    decreases |items|
  {
    if items != [] {
      var n := |items| - 1;
      assert Jobs(items)[..n] == Jobs(items[..n]);
      JobPayloadsOfJobs(items[..n]);
    }
  }

  /** `set_perm_res[i] += temp_perm_res[i]` under the mutex. */
  method AddInto(acc: seq<nat>, local: seq<nat>) returns (r: seq<nat>)
    requires |local| == |acc|
    ensures |r| == |acc|
    ensures forall i :: 0 <= i < |acc| ==> r[i] == acc[i] + local[i]
  {
    r := acc;
    var i := 0;
    while i < |acc|
      invariant 0 <= i <= |acc| && |r| == |acc|
      invariant forall x :: 0 <= x < i ==> r[x] == acc[x] + local[x]
      invariant forall x :: i <= x < |acc| ==> r[x] == acc[x]
    {
      r := r[i := r[i] + local[i]];
      i := i + 1;
    }
  }

  /** The threaded branch of `run_competitive`: one producer, `numConsumer`
      consumers, each merging its private counts at the end. The result is
      the sequential count whatever the scheduling. */
  method RunThreaded(groups: seq<Group>, oriT: seq<real>, setPermRes: seq<nat>, bg0: seq<nat>,
                     draws: seq<seq<nat>>, numConsumer: nat, owner: nat -> nat, stat: seq<nat> -> real)
    returns (counts: seq<nat>)
    requires Ordered(groups) && groups != []
    requires |oriT| == |setPermRes| && Indexes(groups, |setPermRes|)
    requires PermDraws(draws, MaxSize(groups), |bg0|)
    requires forall i: nat :: owner(i) < numConsumer
    ensures counts == Tally(setPermRes, groups, oriT, Stream(groups, bg0, draws), stat)
  {
    var queue := ProduceNullPrs(groups, bg0, draws, numConsumer);
    ghost var stream := Stream(groups, bg0, draws);
    counts := setPermRes;
    var w := 0;
    while w < numConsumer
      invariant 0 <= w <= numConsumer && |counts| == |setPermRes|
      invariant forall k :: 0 <= k < |counts| ==>
                  counts[k] == setPermRes[k] + SumDealt(groups, oriT, queue, owner, w, k, stat)
    {
      ghost var mine := Deal(queue, owner, w);
      var local := ConsumePrs(Share(queue, owner, w), groups, oriT, |setPermRes|, stat);
      UntilStopShare(mine);
      forall k | 0 <= k < |setPermRes|
        ensures local[k] == SumHits(groups, oriT, mine, k, stat)
      {
        TallyAt(seq(|setPermRes|, _ => 0), groups, oriT, mine, stat, k);
      }
      counts := AddInto(counts, local);
      w := w + 1;
    }
    JobPayloadsOfQueue(stream, numConsumer);
    forall k | 0 <= k < |counts|
      ensures counts[k] == Tally(setPermRes, groups, oriT, stream, stat)[k]
    {
      DealSplits(groups, oriT, queue, owner, numConsumer, k, stat);
      TallyAt(setPermRes, groups, oriT, stream, stat, k);
    }
  }

  /** How many of the permutations produce, for a set of the given size, a
      null |t| strictly above the set's observed |t|. */
  function ExceedCount(observed: real, size: nat, maxSize: nat, bg0: seq<nat>, draws: seq<seq<nat>>,
                       stat: seq<nat> -> real): (c: nat)
    requires PermDraws(draws, maxSize, |bg0|) && size <= maxSize
    ensures c <= |draws|
    decreases |draws|
  {
    if draws == [] then 0
    else
      var n := |draws| - 1;
      DrawsBound(draws, maxSize, |bg0|);
      ExceedCount(observed, size, maxSize, bg0, draws[..n], stat) + Hit(observed, stat(BgAfter(bg0, draws)[..size]))
  }

  /** The map `GroupSets` builds from the sizes of the sets. */
  ghost predicate Covers(groups: seq<Group>, sizes: seq<nat>)
  {
    Ordered(groups) && (forall s :: MembersOf(groups, s) == Grouped(sizes, s)) && Sizes(groups) == SizeSet(sizes)
  }

  /** Set k is listed once, in the group of its own size. */
  lemma {:induction false} GroupedCount(sizes: seq<nat>, s: nat, k: nat)
    requires k < |sizes|
    ensures multiset(Grouped(sizes, s))[k] == if sizes[k] == s then 1 else 0
    decreases |sizes|
  {
    var n := |sizes| - 1;
    var tail := if sizes[n] == s then [n] else [];
    assert multiset(Grouped(sizes, s)) == multiset(Grouped(sizes[..n], s)) + multiset(tail);
    if k < n {
      GroupedCount(sizes[..n], s, k);
    } else {
      GroupedMeaning(sizes[..n], s);
      assert k !in Grouped(sizes[..n], s);
    }
  }

  lemma CoversIndexes(groups: seq<Group>, sizes: seq<nat>)
    requires Covers(groups, sizes)
    ensures Indexes(groups, |sizes|)
  {
    forall j | 0 <= j < |groups| ensures InBounds(groups[j].members, |sizes|) {
      MembersOfGroup(groups, j);
      GroupedMeaning(sizes, groups[j].size);
    }
  }

  lemma {:induction false} SizeIndex(g: seq<Group>, x: nat) returns (j: nat)
    requires x in Sizes(g)
    ensures j < |g| && g[j].size == x
    decreases |g|
  {
    if g[0].size == x {
      j := 0;
    } else {
      var i := SizeIndex(g[1..], x);
      j := i + 1;
    }
  }

  /** Every set's size is a key of the map, at most the largest one. */
  lemma SizeIsKey(groups: seq<Group>, sizes: seq<nat>, k: nat) returns (j: nat)
    requires Covers(groups, sizes) && k < |sizes|
    ensures j < |groups| && groups[j].size == sizes[k]
    ensures sizes[k] <= MaxSize(groups)
  {
    SizeSetMeaning(sizes, sizes[k]);
    j := SizeIndex(groups, sizes[k]);
    if j < |groups| - 1 {
      assert groups[j].size < groups[|groups| - 1].size;
    }
  }

  lemma {:induction false} SumHitsPrefix(groups: seq<Group>, oriT: seq<real>, items: seq<NullPrs>, k: nat,
                                         stat: seq<nat> -> real, j: nat, m: nat)
    requires k < |oriT| && j < |items| && m <= |items|
    requires forall i :: 0 <= i < |items| && i != j ==> Hits(groups, oriT, items[i], k, stat) == 0
    ensures SumHits(groups, oriT, items[..m], k, stat) == if j < m then Hits(groups, oriT, items[j], k, stat) else 0
    decreases m
  {
    if m > 0 {
      assert items[..m][..m - 1] == items[..m - 1];
      SumHitsPrefix(groups, oriT, items, k, stat, j, m - 1);
    }
  }

  /** Within one permutation exactly one null score counts for set k: the
      one drawn for its own size. */
  lemma PassHits(groups: seq<Group>, sizes: seq<nat>, oriT: seq<real>, bg: seq<nat>, k: nat,
                 stat: seq<nat> -> real)
    requires Covers(groups, sizes) && Fits(groups, |bg|) && |oriT| == |sizes| && k < |sizes|
    requires sizes[k] <= |bg|
    ensures SumHits(groups, oriT, Pass(groups, bg), k, stat) == Hit(oriT[k], stat(bg[..sizes[k]]))
  {
    var items := Pass(groups, bg);
    var j0 := SizeIsKey(groups, sizes, k);
    forall i | 0 <= i < |items|
      ensures Hits(groups, oriT, items[i], k, stat)
              == if i == j0 then Hit(oriT[k], stat(bg[..sizes[k]])) else 0
    {
      GroupedCount(sizes, groups[i].size, k);
      if i != j0 {
        assert groups[i].size != groups[j0].size by {
          if i < j0 {
            assert groups[i].size < groups[j0].size;
          } else {
            assert groups[j0].size < groups[i].size;
          }
        }
      }
    }
    SumHitsPrefix(groups, oriT, items, k, stat, j0, |items|);
    assert items[..|items|] == items;
  }

  /** Over the whole stream, set k's share is the number of permutations
      whose null |t| for its size strictly exceeds its observed |t|. */
  lemma {:induction false} StreamHits(groups: seq<Group>, sizes: seq<nat>, oriT: seq<real>, bg0: seq<nat>,
                                      draws: seq<seq<nat>>, k: nat, stat: seq<nat> -> real)
    requires Covers(groups, sizes) && groups != [] && |oriT| == |sizes| && k < |sizes|
    requires PermDraws(draws, MaxSize(groups), |bg0|)
    ensures sizes[k] <= MaxSize(groups)
    ensures SumHits(groups, oriT, Stream(groups, bg0, draws), k, stat)
            == ExceedCount(oriT[k], sizes[k], MaxSize(groups), bg0, draws, stat)
    decreases |draws|
  {
    var _ := SizeIsKey(groups, sizes, k);
    if draws != [] {
      var n := |draws| - 1;
      DrawsFit(groups, draws, |bg0|);
      StreamHits(groups, sizes, oriT, bg0, draws[..n], k, stat);
      SumHitsAppend(groups, oriT, Stream(groups, bg0, draws[..n]), Pass(groups, BgAfter(bg0, draws)), k, stat);
      DrawsBound(draws, MaxSize(groups), |bg0|);
      PassHits(groups, sizes, oriT, BgAfter(bg0, draws), k, stat);
    }
  }

  /** The competitive count of every set: its starting count plus the
      number of permutations that beat it (at most one per permutation, by
      `ExceedCount`'s bound). */
  lemma CompetitiveCounts(groups: seq<Group>, sizes: seq<nat>, oriT: seq<real>, setPermRes: seq<nat>,
                          bg0: seq<nat>, draws: seq<seq<nat>>, stat: seq<nat> -> real, k: nat)
    requires Covers(groups, sizes) && groups != []
    requires |oriT| == |setPermRes| == |sizes| && k < |sizes|
    requires PermDraws(draws, MaxSize(groups), |bg0|)
    ensures Indexes(groups, |setPermRes|) && sizes[k] <= MaxSize(groups)
    ensures Tally(setPermRes, groups, oriT, Stream(groups, bg0, draws), stat)[k]
            == setPermRes[k] + ExceedCount(oriT[k], sizes[k], MaxSize(groups), bg0, draws, stat)
  {
    var stream := Stream(groups, bg0, draws);
    var share := SumHits(groups, oriT, stream, k, stat);
    assert Indexes(groups, |setPermRes|) by {
      CoversIndexes(groups, sizes);
    }
    var _ := SizeIsKey(groups, sizes, k);
    assert share == ExceedCount(oriT[k], sizes[k], MaxSize(groups), bg0, draws, stat) by {
      StreamHits(groups, sizes, oriT, bg0, draws, k, stat);
    }
    assert Tally(setPermRes, groups, oriT, stream, stat)[k] == setPermRes[k] + share by {
      TallyAt(setPermRes, groups, oriT, stream, stat, k);
    }
  }
}
