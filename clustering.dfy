/** Greedy chained clustering of the edge coordinates of one axis
    (clusterCoordinates): sort, cut the sorted values wherever a value is
    more than the threshold above the last value added to the current
    cluster, and emit the arithmetic mean of every cluster. */
module Clustering {

  /** Non-decreasing order. */
  ghost predicate Sorted(s: seq<real>)
  {
    forall i, j :: 0 <= i < j < |s| ==> s[i] <= s[j]
  }

  /** Strictly increasing order. */
  ghost predicate StrictlyIncreasing(s: seq<real>)
  {
    forall i, j :: 0 <= i < j < |s| ==> s[i] < s[j]
  }

  function Min(s: seq<real>): (m: real)
    requires |s| > 0
    ensures m in s
    ensures forall i :: 0 <= i < |s| ==> m <= s[i]
  {
    if |s| == 1 then s[0]
    else
      var m' := Min(s[1..]);
      assert s == [s[0]] + s[1..];
      if s[0] <= m' then s[0] else m'
  }

  function Max(s: seq<real>): (m: real)
    requires |s| > 0
    ensures m in s
    ensures forall i :: 0 <= i < |s| ==> s[i] <= m
  {
    if |s| == 1 then s[0]
    else
      var m' := Max(s[1..]);
      assert s == [s[0]] + s[1..];
      if m' <= s[0] then s[0] else m'
  }

  function Last(g: seq<real>): real
    requires |g| > 0
  {
    g[|g| - 1]
  }

  /** How far `g[j]` lies above its predecessor. */
  function Step(g: seq<real>, j: int): real
    requires 0 < j < |g|
  {
    g[j] - g[j - 1]
  }

  /** How far run `k` starts above the end of run `k - 1`. */
  function Jump(gs: seq<seq<real>>, k: int): real
    requires 0 < k < |gs| && |gs[k]| > 0 && |gs[k - 1]| > 0
  {
    gs[k][0] - Last(gs[k - 1])
  }

  // ---------------------------------------------------------------------
  // Sorting. The source calls std::sort; only its result matters: the
  // sorted permutation of the input, which is unique.
  // ---------------------------------------------------------------------

  /** `s` with `x` placed before the first element that is not smaller. */
  function Insert(x: real, s: seq<real>): (r: seq<real>)
    requires Sorted(s)
    ensures Sorted(r)
    ensures multiset(r) == multiset(s) + multiset{x}
  {
    if |s| == 0 || x <= s[0] then [x] + s
    else
      var r' := Insert(x, s[1..]);
      InsertBehindHead(x, s, r');
      [s[0]] + r'
  }

  /** Putting the head back in front of the insertion into the tail. */
  lemma InsertBehindHead(x: real, s: seq<real>, r': seq<real>)
    requires Sorted(s) && |s| > 0 && s[0] < x
    requires Sorted(r') && multiset(r') == multiset(s[1..]) + multiset{x}
    ensures Sorted([s[0]] + r')
    ensures multiset([s[0]] + r') == multiset(s) + multiset{x}
  {
    assert s == [s[0]] + s[1..];
    BoundedPermutation(s[1..], x, r', s[0]);
    var r := [s[0]] + r';
    forall i, j | 0 <= i < j < |r|
      ensures r[i] <= r[j]
    {
      if i > 0 {
        assert r[i] == r'[i - 1] && r[j] == r'[j - 1];
      }
    }
  }

  /** A lower bound of `t` and `x` bounds every permutation of `t + [x]`. */
  lemma BoundedPermutation(t: seq<real>, x: real, r: seq<real>, lo: real)
    requires forall k :: 0 <= k < |t| ==> lo <= t[k]
    requires lo <= x
    requires multiset(r) == multiset(t) + multiset{x}
    ensures forall k :: 0 <= k < |r| ==> lo <= r[k]
  {
    forall k | 0 <= k < |r|
      ensures lo <= r[k]
    {
      assert r[k] in multiset(r);
      if r[k] != x {
        assert r[k] in multiset(t);
      }
    }
  }

  /** The coordinates in ascending order (the effect of std::sort). */
  function SortedCopy(s: seq<real>): (r: seq<real>)
    ensures Sorted(r)
    ensures multiset(r) == multiset(s)
    ensures |r| == |s|
  {
    if |s| == 0 then []
    else
      assert s == s[..|s| - 1] + [s[|s| - 1]];
      var r := Insert(s[|s| - 1], SortedCopy(s[..|s| - 1]));
      assert |r| == |multiset(r)|;
      r
  }

  /** Two sorted permutations of the same values start with the same value. */
  lemma SortedHeadsAgree(a: seq<real>, b: seq<real>)
    requires Sorted(a) && Sorted(b)
    requires multiset(a) == multiset(b) && |a| > 0
    ensures |b| > 0 && a[0] == b[0]
  {
    assert b[0] in multiset(a) && a[0] in multiset(b);
    var i :| 0 <= i < |a| && a[i] == b[0];
    var j :| 0 <= j < |b| && b[j] == a[0];
    assert a[0] <= a[i] && b[0] <= b[j];
  }

  lemma SortedTail(a: seq<real>)
    requires Sorted(a) && |a| > 0
    ensures Sorted(a[1..])
    ensures multiset(a[1..]) == multiset(a) - multiset{a[0]}
  {
    assert a == [a[0]] + a[1..];
  }

  /** Two sorted permutations of the same values are equal, so any correct
      sort gives the clusterer the same input as SortedCopy. */
  lemma {:induction false} SortedPermutationUnique(a: seq<real>, b: seq<real>)
    requires Sorted(a) && Sorted(b)
    requires multiset(a) == multiset(b)
    ensures a == b
  {
    if |a| == 0 {
      assert |b| == |multiset(b)| == 0;
    } else {
      SortedHeadsAgree(a, b);
      SortedTail(a);
      SortedTail(b);
      SortedPermutationUnique(a[1..], b[1..]);
      assert a == [a[0]] + a[1..] && b == [b[0]] + b[1..];
    }
  }

  lemma SortedPermutationEnds(s: seq<real>, r: seq<real>)
    requires |s| > 0 && Sorted(r) && multiset(r) == multiset(s)
    ensures |r| == |s|
    ensures r[0] == Min(s) && r[|r| - 1] == Max(s)
  {
    assert |r| == |multiset(r)| == |multiset(s)| == |s|;
    var lo, hi := Min(s), Max(s);
    assert lo in multiset(r) && hi in multiset(r);
    assert r[0] in multiset(s) && r[|r| - 1] in multiset(s);
    var i :| 0 <= i < |r| && r[i] == lo;
    var i' :| 0 <= i' < |r| && r[i'] == hi;
    var j :| 0 <= j < |s| && s[j] == r[0];
    var j' :| 0 <= j' < |s| && s[j'] == r[|r| - 1];
    assert r[0] <= r[i] && r[i'] <= r[|r| - 1];
    assert lo <= s[j] && s[j'] <= hi;
  }

  /** The first and last sorted values are the minimum and maximum input. */
  lemma SortedCopyEnds(s: seq<real>)
    requires |s| > 0
    ensures SortedCopy(s)[0] == Min(s)
    ensures SortedCopy(s)[|s| - 1] == Max(s)
  {
    SortedPermutationEnds(s, SortedCopy(s));
  }

  // ---------------------------------------------------------------------
  // Means (std::accumulate from 0, divided by the size), exact in reals.
  // ---------------------------------------------------------------------

  /** Left-to-right sum from 0. */
  function Sum(s: seq<real>): real
  {
    if |s| == 0 then 0.0 else Sum(s[..|s| - 1]) + s[|s| - 1]
  }

  /** Arithmetic mean of one cluster (clusters are never empty). */
  function Mean(g: seq<real>): real
  {
    if |g| == 0 then 0.0 else Sum(g) / (|g| as real)
  }

  lemma {:induction false} SumBounds(s: seq<real>, lo: real, hi: real)
    requires forall i :: 0 <= i < |s| ==> lo <= s[i] <= hi
    ensures (|s| as real) * lo <= Sum(s) <= (|s| as real) * hi
  {
    if |s| > 0 {
      SumBounds(s[..|s| - 1], lo, hi);
    }
  }

  lemma QuotientBounds(total: real, n: real, lo: real, hi: real)
    requires n > 0.0
    requires n * lo <= total <= n * hi
    ensures lo <= total / n <= hi
  {
    assert total / n - lo == (total - n * lo) / n;
    assert hi - total / n == (n * hi - total) / n;
  }

  lemma MeanBounds(g: seq<real>, lo: real, hi: real)
    requires |g| > 0
    requires forall i :: 0 <= i < |g| ==> lo <= g[i] <= hi
    ensures lo <= Mean(g) <= hi
  {
    SumBounds(g, lo, hi);
    QuotientBounds(Sum(g), |g| as real, lo, hi);
  }

  /** A cluster's mean lies between its smallest and largest member. */
  lemma MeanWithinCluster(g: seq<real>)
    requires |g| > 0
    ensures Min(g) <= Mean(g) <= Max(g)
  {
    MeanBounds(g, Min(g), Max(g));
  }

  // ---------------------------------------------------------------------
  // Chained grouping of a sorted sequence.
  // ---------------------------------------------------------------------

  /** The clusters the scan over `s` builds: a value joins the current
      (last) cluster when it is at most `threshold` above the last value
      added to that cluster, and otherwise opens a new cluster. */
  function Groups(s: seq<real>, threshold: real): (gs: seq<seq<real>>)
    ensures |s| == 0 <==> |gs| == 0
    ensures |gs| <= |s|
    ensures forall k :: 0 <= k < |gs| ==> |gs[k]| > 0
    ensures |s| > 0 ==> Last(gs[|gs| - 1]) == s[|s| - 1]
    decreases |s|
  {
    if |s| == 0 then []
    else
      var gs' := Groups(s[..|s| - 1], threshold);
      var x := s[|s| - 1];
      if |gs'| > 0 && x - Last(gs'[|gs'| - 1]) <= threshold then
        gs'[..|gs'| - 1] + [gs'[|gs'| - 1] + [x]]
      else
        gs' + [[x]]
  }

  /** One mean per cluster, in cluster order. */
  function Means(gs: seq<seq<real>>): seq<real>
  {
    seq(|gs|, k requires 0 <= k < |gs| => Mean(gs[k]))
  }

  /** The cluster centers of an already sorted sequence. */
  function Centers(s: seq<real>, threshold: real): seq<real>
  {
    Means(Groups(s, threshold))
  }

  /** The values of all groups, in order. */
  function Concat(gs: seq<seq<real>>): seq<real>
  {
    if |gs| == 0 then [] else Concat(gs[..|gs| - 1]) + gs[|gs| - 1]
  }

  /** `gs` cuts `s` into consecutive non-empty runs; inside a run
      neighbouring values are at most `threshold` apart, and the first value
      of a run is more than `threshold` above the last value of the run
      before it. */
  ghost predicate ChainPartition(s: seq<real>, gs: seq<seq<real>>, threshold: real)
  {
    && Concat(gs) == s
    && (forall k :: 0 <= k < |gs| ==> |gs[k]| > 0)
    && (forall k, j :: 0 <= k < |gs| && 0 < j < |gs[k]| ==> Step(gs[k], j) <= threshold)
    && (forall k :: 0 < k < |gs| ==> Jump(gs, k) > threshold)
  }

  lemma ConcatSnoc(gs: seq<seq<real>>, g: seq<real>)
    ensures Concat(gs + [g]) == Concat(gs) + g
  {
    assert (gs + [g])[..|gs|] == gs;
  }

  /** Appending a value within the threshold of the last run extends it. */
  lemma ExtendLastRun(s: seq<real>, gs: seq<seq<real>>, x: real, threshold: real)
    requires ChainPartition(s, gs, threshold)
    requires |gs| > 0 && x - Last(gs[|gs| - 1]) <= threshold
    ensures ChainPartition(s + [x], gs[..|gs| - 1] + [gs[|gs| - 1] + [x]], threshold)
  {
    var m := |gs|;
    var init := gs[..m - 1];
    var l := gs[m - 1];
    var gs2 := init + [l + [x]];
    assert gs == init + [l];
    ConcatSnoc(init, l + [x]);
    ConcatSnoc(init, l);
    forall k, j | 0 <= k < |gs2| && 0 < j < |gs2[k]|
      ensures Step(gs2[k], j) <= threshold
    {
      if k < m - 1 || j < |l| {
        assert Step(gs2[k], j) == Step(gs[k], j);
      }
    }
    forall k | 0 < k < |gs2|
      ensures Jump(gs2, k) > threshold
    {
      assert Jump(gs2, k) == Jump(gs, k);
    }
  }

  /** Appending a value more than the threshold above the last run opens a
      new run. */
  lemma OpenRun(s: seq<real>, gs: seq<seq<real>>, x: real, threshold: real)
    requires ChainPartition(s, gs, threshold)
    requires |gs| > 0 ==> x - Last(gs[|gs| - 1]) > threshold
    ensures ChainPartition(s + [x], gs + [[x]], threshold)
  {
    ConcatSnoc(gs, [x]);
    var gs2 := gs + [[x]];
    forall k, j | 0 <= k < |gs2| && 0 < j < |gs2[k]|
      ensures Step(gs2[k], j) <= threshold
    {
      assert Step(gs2[k], j) == Step(gs[k], j);
    }
    forall k | 0 < k < |gs2|
      ensures Jump(gs2, k) > threshold
    {
      if k < |gs| {
        assert Jump(gs2, k) == Jump(gs, k);
      }
    }
  }

  /** The scan's clusters are exactly the chain partition of the sorted
      values: every gap at most the threshold stays inside a cluster and
      every larger gap separates two clusters. */
  lemma {:induction false} GroupsAreChainPartition(s: seq<real>, threshold: real)
    ensures ChainPartition(s, Groups(s, threshold), threshold)
  {
    if |s| > 0 {
      var s' := s[..|s| - 1];
      GroupsAreChainPartition(s', threshold);
      GroupsSnocChain(s', s[|s| - 1], threshold);
      assert s == s' + [s[|s| - 1]];
    }
  }

  /** One more value keeps the scan's clusters a chain partition. */
  lemma GroupsSnocChain(s: seq<real>, x: real, threshold: real)
    requires ChainPartition(s, Groups(s, threshold), threshold)
    ensures ChainPartition(s + [x], Groups(s + [x], threshold), threshold)
  {
    var gs := Groups(s, threshold);
    var s2 := s + [x];
    assert s2[..|s2| - 1] == s && s2[|s2| - 1] == x;
    if |gs| > 0 && x - Last(gs[|gs| - 1]) <= threshold {
      ExtendLastRun(s, gs, x, threshold);
    } else {
      OpenRun(s, gs, x, threshold);
    }
  }

  /** `gs` without its last value: the last run shortened, or dropped when
      it held that value alone. */
  function DropLast(gs: seq<seq<real>>): seq<seq<real>>
    requires |gs| > 0
  {
    var l := gs[|gs| - 1];
    if |l| <= 1 then gs[..|gs| - 1] else gs[..|gs| - 1] + [l[..|l| - 1]]
  }

  /** Removing the last value of a chain partition leaves a chain partition
      of the shorter sequence. */
  lemma DropLastValue(s: seq<real>, gs: seq<seq<real>>, threshold: real)
    requires ChainPartition(s, gs, threshold) && |gs| > 0
    ensures |s| > 0 && Last(gs[|gs| - 1]) == s[|s| - 1]
    ensures ChainPartition(s[..|s| - 1], DropLast(gs), threshold)
  {
    var m := |gs|;
    var init := gs[..m - 1];
    var l := gs[m - 1];
    assert gs == init + [l];
    ConcatSnoc(init, l);
    if |l| == 1 {
      assert s[..|s| - 1] == Concat(init);
      forall k, j | 0 <= k < |init| && 0 < j < |init[k]|
        ensures Step(init[k], j) <= threshold
      {
        assert Step(init[k], j) == Step(gs[k], j);
      }
      forall k | 0 < k < |init|
        ensures Jump(init, k) > threshold
      {
        assert Jump(init, k) == Jump(gs, k);
      }
    } else {
      var l' := l[..|l| - 1];
      var gs2 := init + [l'];
      ConcatSnoc(init, l');
      assert l == l' + [l[|l| - 1]];
      assert s[..|s| - 1] == Concat(gs2);
      forall k, j | 0 <= k < |gs2| && 0 < j < |gs2[k]|
        ensures Step(gs2[k], j) <= threshold
      {
        assert Step(gs2[k], j) == Step(gs[k], j);
      }
      forall k | 0 < k < |gs2|
        ensures Jump(gs2, k) > threshold
      {
        assert Jump(gs2, k) == Jump(gs, k);
      }
    }
  }

  /** If the scan over all but the last value yields DropLast(gs), the scan
      over all values yields gs. */
  lemma RestoreLastValue(s: seq<real>, gs: seq<seq<real>>, threshold: real)
    requires |gs| > 0 && |gs[|gs| - 1]| > 0
    requires |s| > 0 && Last(gs[|gs| - 1]) == s[|s| - 1]
    requires |gs[|gs| - 1]| > 1 ==> Step(gs[|gs| - 1], |gs[|gs| - 1]| - 1) <= threshold
    requires |gs| > 1 ==> |gs[|gs| - 2]| > 0 && Jump(gs, |gs| - 1) > threshold
    requires Groups(s[..|s| - 1], threshold) == DropLast(gs)
    ensures Groups(s, threshold) == gs
  {
    var m := |gs|;
    var init := gs[..m - 1];
    var l := gs[m - 1];
    assert gs == init + [l];
    if |l| > 1 {
      RestoreInLastRun(s, init, l, threshold);
    } else {
      if m > 1 {
        assert Last(init[m - 2]) == Last(gs[m - 2]);
      }
      RestoreAsNewRun(s, init, l, threshold);
    }
  }

  lemma RestoreInLastRun(s: seq<real>, init: seq<seq<real>>, l: seq<real>, threshold: real)
    requires |s| > 0 && |l| > 1 && Last(l) == s[|s| - 1]
    requires Step(l, |l| - 1) <= threshold
    requires Groups(s[..|s| - 1], threshold) == init + [l[..|l| - 1]]
    ensures Groups(s, threshold) == init + [l]
  {
    var l' := l[..|l| - 1];
    GroupsExtend(s, init, l', threshold);
    assert l' + [s[|s| - 1]] == l;
  }

  lemma RestoreAsNewRun(s: seq<real>, init: seq<seq<real>>, l: seq<real>, threshold: real)
    requires |s| > 0 && l == [s[|s| - 1]]
    requires |init| > 0 ==> |init[|init| - 1]| > 0 && l[0] - Last(init[|init| - 1]) > threshold
    requires Groups(s[..|s| - 1], threshold) == init
    ensures Groups(s, threshold) == init + [l]
  {
    GroupsOpen(s, init, threshold);
  }

  /** Conversely, a chain partition of `s` is the scan's clustering: the two
      definitions agree on every input. */
  lemma {:induction false} ChainPartitionIsGroups(s: seq<real>, gs: seq<seq<real>>, threshold: real)
    requires ChainPartition(s, gs, threshold)
    ensures gs == Groups(s, threshold)
    decreases |s|
  {
    if |gs| == 0 {
      assert s == [];
    } else {
      DropLastValue(s, gs, threshold);
      ChainPartitionIsGroups(s[..|s| - 1], DropLast(gs), threshold);
      var l := gs[|gs| - 1];
      if |l| > 1 {
        assert Step(gs[|gs| - 1], |l| - 1) <= threshold;
      }
      RestoreLastValue(s, gs, threshold);
    }
  }

  lemma GroupsExtend(s: seq<real>, init: seq<seq<real>>, l: seq<real>, threshold: real)
    requires |s| > 0 && |l| > 0
    requires Groups(s[..|s| - 1], threshold) == init + [l]
    requires s[|s| - 1] - Last(l) <= threshold
    ensures Groups(s, threshold) == init + [l + [s[|s| - 1]]]
  {
    assert (init + [l])[..|init|] == init;
  }

  lemma GroupsOpen(s: seq<real>, init: seq<seq<real>>, threshold: real)
    requires |s| > 0
    requires Groups(s[..|s| - 1], threshold) == init
    requires |init| > 0 ==> s[|s| - 1] - Last(init[|init| - 1]) > threshold
    ensures Groups(s, threshold) == init + [[s[|s| - 1]]]
  {
  }

  /** Number of positions where the sorted values jump by more than the
      threshold. */
  function Breaks(s: seq<real>, threshold: real): nat
  {
    if |s| <= 1 then 0
    else Breaks(s[..|s| - 1], threshold) + (if Step(s, |s| - 1) > threshold then 1 else 0)
  }

  /** The scan emits one cluster more than there are jumps. */
  lemma {:induction false} GroupCount(s: seq<real>, threshold: real)
    requires |s| > 0
    ensures |Groups(s, threshold)| == Breaks(s, threshold) + 1
  {
    if |s| > 1 {
      var s' := s[..|s| - 1];
      GroupCount(s', threshold);
      var gs' := Groups(s', threshold);
      assert Last(gs'[|gs'| - 1]) == s[|s| - 2];
      if Step(s, |s| - 1) > threshold {
        GroupsOpen(s, gs', threshold);
      } else {
        assert gs' == gs'[..|gs'| - 1] + [gs'[|gs'| - 1]];
        GroupsExtend(s, gs'[..|gs'| - 1], gs'[|gs'| - 1], threshold);
      }
    }
  }

  lemma {:induction false} NoBreaks(s: seq<real>, threshold: real)
    ensures Breaks(s, threshold) == 0 <==> forall i :: 0 < i < |s| ==> Step(s, i) <= threshold
  {
    if |s| > 1 {
      var s' := s[..|s| - 1];
      NoBreaks(s', threshold);
      forall i | 0 < i < |s'|
        ensures Step(s', i) == Step(s, i)
      {
      }
    }
  }

  lemma OneGroupIsWhole(s: seq<real>, threshold: real)
    requires |Groups(s, threshold)| == 1
    ensures Groups(s, threshold) == [s]
  {
    var gs := Groups(s, threshold);
    GroupsAreChainPartition(s, threshold);
    assert gs == [] + [gs[0]];
    ConcatSnoc([], gs[0]);
    assert Concat([]) == [];
    assert gs[0] == Concat(gs) == s;
  }

  /** Chained values make one cluster whose center is the mean of them all,
      and only chained values do. */
  lemma SingleCluster(s: seq<real>, threshold: real)
    requires |s| > 0
    ensures (forall i :: 0 < i < |s| ==> Step(s, i) <= threshold)
        <==> Centers(s, threshold) == [Mean(s)]
  {
    GroupCount(s, threshold);
    NoBreaks(s, threshold);
    var gs := Groups(s, threshold);
    if |gs| == 1 {
      OneGroupIsWhole(s, threshold);
      assert Centers(s, threshold) == [Mean(s)];
    } else {
      assert |Centers(s, threshold)| != 1;
    }
  }

  /** Non-empty sorted runs with values in [lo, hi], each starting no lower
      than the previous one ends. */
  ghost predicate OrderedRuns(gs: seq<seq<real>>, lo: real, hi: real)
  {
    && (forall k :: 0 <= k < |gs| ==> |gs[k]| > 0 && Sorted(gs[k]))
    && (forall k, j :: 0 <= k < |gs| && 0 <= j < |gs[k]| ==> lo <= gs[k][j] <= hi)
    && (forall k :: 0 < k < |gs| ==> Jump(gs, k) >= 0.0)
  }

  lemma ExtendOrdered(gs: seq<seq<real>>, x: real, lo: real, hi: real)
    requires OrderedRuns(gs, lo, hi) && |gs| > 0 && hi <= x
    ensures OrderedRuns(gs[..|gs| - 1] + [gs[|gs| - 1] + [x]], lo, x)
  {
    var m := |gs|;
    var l := gs[m - 1];
    var gs2 := gs[..m - 1] + [l + [x]];
    assert lo <= l[0];
    forall k | 0 <= k < |gs2|
      ensures |gs2[k]| > 0 && Sorted(gs2[k])
    {
      if k < m - 1 {
        assert gs2[k] == gs[k];
      } else {
        assert forall j :: 0 <= j < |l| ==> l[j] <= x;
      }
    }
    forall k, j | 0 <= k < |gs2| && 0 <= j < |gs2[k]|
      ensures lo <= gs2[k][j] <= x
    {
      if k < m - 1 || j < |l| {
        assert gs2[k][j] == gs[k][j];
      }
    }
    forall k | 0 < k < |gs2|
      ensures Jump(gs2, k) >= 0.0
    {
      assert Jump(gs2, k) == Jump(gs, k);
    }
  }

  lemma OpenOrdered(gs: seq<seq<real>>, x: real, lo: real, hi: real)
    requires OrderedRuns(gs, lo, hi) && hi <= x && lo <= x
    ensures OrderedRuns(gs + [[x]], lo, x)
  {
    var gs2 := gs + [[x]];
    forall k | 0 <= k < |gs2|
      ensures |gs2[k]| > 0 && Sorted(gs2[k])
    {
      if k < |gs| {
        assert gs2[k] == gs[k];
      }
    }
    forall k, j | 0 <= k < |gs2| && 0 <= j < |gs2[k]|
      ensures lo <= gs2[k][j] <= x
    {
      if k < |gs| {
        assert gs2[k] == gs[k];
      }
    }
    forall k | 0 < k < |gs2|
      ensures Jump(gs2, k) >= 0.0
    {
      if k < |gs| {
        assert Jump(gs2, k) == Jump(gs, k);
      } else {
        var l := gs[k - 1];
        assert l[|l| - 1] <= hi;
      }
    }
  }

  /** The clusters of a sorted sequence are sorted runs lying between its
      first and last value, each starting where the previous one ends or
      above. */
  lemma {:induction false} GroupsOfSorted(s: seq<real>, threshold: real)
    requires Sorted(s) && |s| > 0
    ensures OrderedRuns(Groups(s, threshold), s[0], s[|s| - 1])
  {
    var s' := s[..|s| - 1];
    var x := s[|s| - 1];
    if |s'| == 0 {
      assert Groups(s, threshold) == [[x]];
    } else {
      var gs' := Groups(s', threshold);
      assert Sorted(s');
      GroupsOfSorted(s', threshold);
      assert s'[0] == s[0] && s'[|s'| - 1] <= x;
      if x - Last(gs'[|gs'| - 1]) <= threshold {
        ExtendOrdered(gs', x, s[0], s'[|s'| - 1]);
      } else {
        OpenOrdered(gs', x, s[0], s'[|s'| - 1]);
      }
    }
  }

  lemma SortedEnds(g: seq<real>)
    requires |g| > 0 && Sorted(g)
    ensures Min(g) == g[0] && Max(g) == Last(g)
  {
  }

  lemma {:induction false} AdjacentOrder(c: seq<real>, strict: bool)
    requires forall k :: 0 < k < |c| ==> (if strict then Step(c, k) > 0.0 else Step(c, k) >= 0.0)
    ensures strict ==> StrictlyIncreasing(c)
    ensures Sorted(c)
  {
    if |c| > 1 {
      var n := |c|;
      var c' := c[..n - 1];
      forall k | 0 < k < |c'|
        ensures Step(c', k) == Step(c, k)
      {
      }
      AdjacentOrder(c', strict);
      assert Step(c, n - 1) == c[n - 1] - c[n - 2];
      forall i, j | 0 <= i < j < n
        ensures c[i] <= c[j]
        ensures strict ==> c[i] < c[j]
      {
        if j < n - 1 {
          assert c[i] == c'[i] && c[j] == c'[j];
        } else if i < n - 2 {
          assert c[i] == c'[i] && c[n - 2] == c'[n - 2];
        }
      }
    }
  }

  /** Consecutive clusters are separated by more than the threshold. */
  lemma GroupsJumps(s: seq<real>, threshold: real)
    ensures var gs := Groups(s, threshold);
      forall k :: 0 < k < |gs| ==> Jump(gs, k) > threshold
  {
    GroupsAreChainPartition(s, threshold);
  }

  /** The means of ordered runs separated by jumps above the threshold. */
  lemma MeansOfOrderedRuns(gs: seq<seq<real>>, lo: real, hi: real, threshold: real)
    requires OrderedRuns(gs, lo, hi)
    requires forall k :: 0 < k < |gs| ==> Jump(gs, k) > threshold
    ensures var c := Means(gs);
      && (forall k :: 0 <= k < |c| ==> Min(gs[k]) <= c[k] <= Max(gs[k]))
      && (forall k :: 0 <= k < |c| ==> lo <= c[k] <= hi)
      && Sorted(c)
      && (threshold >= 0.0 ==> StrictlyIncreasing(c))
  {
    var c := Means(gs);
    forall k | 0 <= k < |c|
      ensures Min(gs[k]) <= c[k] <= Max(gs[k])
      ensures gs[k][0] <= c[k] <= Last(gs[k])
      ensures lo <= c[k] <= hi
    {
      MeanWithinCluster(gs[k]);
      SortedEnds(gs[k]);
      assert lo <= gs[k][0] && gs[k][|gs[k]| - 1] <= hi;
    }
    forall k | 0 < k < |c|
      ensures Step(c, k) >= 0.0
      ensures threshold >= 0.0 ==> Step(c, k) > 0.0
    {
      assert Jump(gs, k) > threshold && Jump(gs, k) >= 0.0;
      assert c[k - 1] <= Last(gs[k - 1]) && gs[k][0] <= c[k];
    }
    AdjacentOrder(c, threshold >= 0.0);
  }

  /** Every center lies between the least and greatest member of its
      cluster, hence between the least and greatest sorted value; centers
      never decrease, and strictly increase for a non-negative threshold. */
  lemma CentersOrdered(s: seq<real>, threshold: real)
    requires Sorted(s)
    ensures var gs := Groups(s, threshold); var c := Centers(s, threshold);
      && |c| == |gs|
      && (forall k :: 0 <= k < |c| ==> Min(gs[k]) <= c[k] <= Max(gs[k]))
      && (forall k :: 0 <= k < |c| ==> s[0] <= c[k] <= s[|s| - 1])
      && Sorted(c)
      && (threshold >= 0.0 ==> StrictlyIncreasing(c))
  {
    if |s| > 0 {
      GroupsOfSorted(s, threshold);
      GroupsJumps(s, threshold);
      MeansOfOrderedRuns(Groups(s, threshold), s[0], s[|s| - 1], threshold);
    }
  }

  /** The centers computed from the input coordinates lie within the range
      of the input. */
  lemma CentersWithinInput(coords: seq<real>, threshold: real)
    requires |coords| > 0
    ensures var c := Centers(SortedCopy(coords), threshold);
      forall k :: 0 <= k < |c| ==> Min(coords) <= c[k] <= Max(coords)
  {
    CentersOrdered(SortedCopy(coords), threshold);
    SortedCopyEnds(coords);
  }

  lemma MeansSnoc(gs: seq<seq<real>>, g: seq<real>)
    ensures Means(gs + [g]) == Means(gs) + [Mean(g)]
  {
  }

  /** One step of the scan: the next sorted value either joins the current
      cluster or opens a new one. */
  lemma ScanStep(sorted: seq<real>, i: nat, closed: seq<seq<real>>, current: seq<real>, threshold: real)
    requires i < |sorted|
    requires Groups(sorted[..i], threshold) == closed + [current]
    ensures |current| > 0
    ensures sorted[i] - Last(current) <= threshold ==>
      Groups(sorted[..i + 1], threshold) == closed + [current + [sorted[i]]]
    ensures sorted[i] - Last(current) > threshold ==>
      Groups(sorted[..i + 1], threshold) == (closed + [current]) + [[sorted[i]]]
  {
    var s := sorted[..i + 1];
    assert s[..|s| - 1] == sorted[..i] && s[|s| - 1] == sorted[i];
    assert (closed + [current])[|closed|] == current;
    if sorted[i] - Last(current) <= threshold {
      GroupsExtend(s, closed, current, threshold);
    } else {
      GroupsOpen(s, closed + [current], threshold);
    }
  }

  /** clusterCoordinates: sort a copy of the coordinates, then scan them. */
  method ClusterCoordinates(coords: seq<real>, threshold: real) returns (clusters: seq<real>)
    ensures clusters == Centers(SortedCopy(coords), threshold)
    ensures |coords| == 0 ==> clusters == []
    ensures |coords| > 0 ==> 1 <= |clusters| <= |coords|
  {
    if |coords| == 0 {
      return [];
    }
    var sorted := SortedCopy(coords);
    clusters := ScanClusters(sorted, threshold);
  }

  /** The scan of clusterCoordinates over the sorted copy: push the mean of
      every closed cluster, then the mean of the last one. */
  method ScanClusters(sorted: seq<real>, threshold: real) returns (clusters: seq<real>)
    requires |sorted| > 0
    ensures clusters == Centers(sorted, threshold)
  {
    clusters := [];
    var current := [sorted[0]];
    ghost var closed: seq<seq<real>> := [];
    assert Groups(sorted[..1], threshold) == closed + [current] by {
      assert sorted[..1] == [] + [sorted[0]];
      GroupsOpen(sorted[..1], [], threshold);
    }
    var i := 1;
    while i < |sorted|
      invariant 1 <= i <= |sorted|
      invariant Groups(sorted[..i], threshold) == closed + [current]
      invariant clusters == Means(closed)
    {
      ScanStep(sorted, i, closed, current, threshold);
      if sorted[i] - current[|current| - 1] <= threshold {
        current := current + [sorted[i]];
      } else {
        MeansSnoc(closed, current);
        clusters := clusters + [Mean(current)];
        closed := closed + [current];
        current := [sorted[i]];
      }
      i := i + 1;
    }
    MeansSnoc(closed, current);
    clusters := clusters + [Mean(current)];
    assert sorted[..i] == sorted;
  }
}
