/**
 * Rank computation of `BaseMatrix.getRank`: the stable index sort
 * (`indexSort` with `IndexComparator`) and the mid-rank tie correction.
 * The reference definition of a rank is counting based: the number of values
 * strictly below, plus half of the number of OTHER values equal to it.
 */
module Ranks {
  import opened Common
  import opened Sorting

  /** `IndexComparator.compare` on double data: -1, 0 or 1 as data[o1] is below, equal to or above data[o2]. */
  function Compare(data: seq<real>, o1: int, o2: int): (r: int)
    requires 0 <= o1 < |data| && 0 <= o2 < |data|
    ensures -1 <= r <= 1
    ensures r < 0 <==> data[o1] < data[o2]
    ensures r == 0 <==> data[o1] == data[o2]
  {
    if data[o1] < data[o2] then -1
    else if data[o1] > data[o2] then 1
    else 0
  }

  /** The comparator is a consistent three-way comparison, as `Arrays.sort` demands. */
  lemma CompareConsistent(data: seq<real>, a: int, b: int, c: int)
    requires 0 <= a < |data| && 0 <= b < |data| && 0 <= c < |data|
    ensures Compare(data, a, b) == -Compare(data, b, a)
    ensures Compare(data, a, b) <= 0 && Compare(data, b, c) <= 0 ==> Compare(data, a, c) <= 0
  {
  }

  function Key(data: seq<real>, x: int): real {
    if 0 <= x < |data| then data[x] else 0.0
  }

  /**
   * The order in which a STABLE sort by `Compare` leaves the indices
   * 0..k-1 (they start in ascending order): by value, and equal values in
   * index order.
   */
  predicate IndexLe(data: seq<real>, x: int, y: int) {
    var kx, ky := Key(data, x), Key(data, y);
    kx < ky || (kx == ky && x <= y)
  }

  lemma IndexLeIsTotalPreorder(data: seq<real>)
    ensures TotalPreorder((x: int, y: int) => IndexLe(data, x, y))
  {
  }

  /** The indices 0..k-1 in ascending order. */
  function Range(k: nat): (r: seq<int>)
    ensures |r| == k && forall q :: 0 <= q < k ==> r[q] == q
  {
    seq(k, q => q)
  }

  /** `s` lists each of 0..k-1 exactly once. */
  predicate PermutationOf(s: seq<int>, k: nat) {
    && |s| == k
    && (forall q :: 0 <= q < k ==> 0 <= s[q] < k)
    && Distinct(s)
    && (forall p :: 0 <= p < k ==> p in s)
  }

  lemma {:induction false} RangeMultiplicity(k: nat, x: int)
    ensures multiset(Range(k))[x] == if 0 <= x < k then 1 else 0
  {
    if k > 0 {
      RangeMultiplicity(k - 1, x);
      assert Range(k) == Range(k - 1) + [k - 1];
    }
  }

  /** A sequence with the multiset of 0..k-1 is a permutation of it. */
  lemma MultisetPermutation(s: seq<int>, k: nat)
    requires multiset(s) == multiset(Range(k))
    ensures PermutationOf(s, k)
  {
    assert |s| == |multiset(s)| == |multiset(Range(k))| == k;
    forall q | 0 <= q < k ensures 0 <= s[q] < k {
      assert s[q] in multiset(s);
      RangeMultiplicity(k, s[q]);
    }
    forall q1, q2 | 0 <= q1 < q2 < |s| ensures s[q1] != s[q2] {
      if s[q1] == s[q2] {
        Twice(s, q1, q2);
        RangeMultiplicity(k, s[q1]);
        assert false;
      }
    }
    forall p | 0 <= p < k ensures p in s {
      RangeMultiplicity(k, p);
      assert p in multiset(s);
    }
  }

  /**
   * `indexSort`: the indices 0..nVals-1 ordered so that the data values are
   * non-decreasing along them; equal values keep their index order.
   */
  method IndexSort(tData: seq<real>, nVals: nat) returns (index: seq<int>)
    requires nVals <= |tData|
    ensures PermutationOf(index, nVals)
    ensures forall p, q :: 0 <= p < q < nVals ==> tData[index[p]] <= tData[index[q]]
    ensures forall p, q :: 0 <= p < q < nVals && tData[index[p]] == tData[index[q]] ==> index[p] < index[q]
  {
    var a := new int[nVals](i => i);
    assert a[..] == Range(nVals);
    IndexLeIsTotalPreorder(tData);
    InsertionSort(a, (x: int, y: int) => IndexLe(tData, x, y));
    index := a[..];
    MultisetPermutation(index, nVals);
    forall p, q | 0 <= p < q < nVals
      ensures tData[index[p]] <= tData[index[q]]
      ensures tData[index[p]] == tData[index[q]] ==> index[p] < index[q]
    {
      assert IndexLe(tData, index[p], index[q]);
    }
  }

  /** The number of values strictly below `v`. */
  function CountBelow(vals: seq<real>, v: real): nat {
    |set p | 0 <= p < |vals| && vals[p] < v|
  }

  /** The number of values equal to `v`. */
  function CountEqual(vals: seq<real>, v: real): nat {
    |set p | 0 <= p < |vals| && vals[p] == v|
  }

  /**
   * The mid-rank (fractional rank, counted from 0) of the value at position
   * p: the ranks a tied run would occupy, averaged.
   */
  function MidRank(vals: seq<real>, p: int): real
    requires 0 <= p < |vals|
  {
    CountBelow(vals, vals[p]) as real + (CountEqual(vals, vals[p]) - 1) as real / 2.0
  }

  lemma SubsetCard<T>(a: set<T>, b: set<T>)
    requires a <= b
    ensures |a| <= |b|
  {
    assert b == a + (b - a);
  }

  /** The values below and the values equal to vals[p] are disjoint and include p. */
  lemma CountsOf(vals: seq<real>, p: int)
    requires 0 <= p < |vals|
    ensures CountEqual(vals, vals[p]) >= 1
    ensures CountBelow(vals, vals[p]) + CountEqual(vals, vals[p]) <= |vals|
  {
    var v := vals[p];
    var below := set x | 0 <= x < |vals| && vals[x] < v;
    var equal := set x | 0 <= x < |vals| && vals[x] == v;
    assert p in equal;
    assert below !! equal;
    var all := set q | 0 <= q < |vals| :: Range(|vals|)[q];
    assert below + equal <= all by {
      forall x | x in below + equal ensures x in all {
        assert Range(|vals|)[x] == x;
      }
    }
    SubsetCard(below + equal, all);
    ImageCard(Range(|vals|), 0, |vals|);
  }

  /** Every mid-rank lies in [0, k-1]. */
  lemma MidRankBounds(vals: seq<real>, p: int)
    requires 0 <= p < |vals|
    ensures 0.0 <= MidRank(vals, p) <= (|vals| - 1) as real
  {
    CountsOf(vals, p);
  }

  /** Equal values get equal ranks. */
  lemma MidRankTies(vals: seq<real>, p: int, q: int)
    requires 0 <= p < |vals| && 0 <= q < |vals| && vals[p] == vals[q]
    ensures MidRank(vals, p) == MidRank(vals, q)
  {
  }

  /** A strictly smaller value gets a strictly smaller rank. */
  lemma MidRankStrict(vals: seq<real>, p: int, q: int)
    requires 0 <= p < |vals| && 0 <= q < |vals| && vals[p] < vals[q]
    ensures MidRank(vals, p) < MidRank(vals, q)
  {
    var below := set x | 0 <= x < |vals| && vals[x] < vals[p];
    var equal := set x | 0 <= x < |vals| && vals[x] == vals[p];
    var belowQ := set x | 0 <= x < |vals| && vals[x] < vals[q];
    assert below !! equal;
    SubsetCard(below + equal, belowQ);
    CountsOf(vals, p);
  }

  /** The indices at sorted positions lo..hi-1 are hi - lo distinct values. */
  lemma {:induction false} ImageCard(s: seq<int>, lo: nat, hi: nat)
    requires Distinct(s) && lo <= hi <= |s|
    ensures |set q | lo <= q < hi :: s[q]| == hi - lo
  {
    if hi > lo {
      ImageCard(s, lo, hi - 1);
      assert (set q | lo <= q < hi :: s[q]) == (set q | lo <= q < hi - 1 :: s[q]) + {s[hi - 1]};
    }
  }

  /**
   * In a sorted permutation, a maximal run of equal values at sorted
   * positions i..j-1 starts after exactly the values below it and holds
   * exactly the values equal to it.
   */
  lemma RunCounts(vals: seq<real>, index: seq<int>, i: int, j: int)
    requires PermutationOf(index, |vals|)
    requires forall p, q :: 0 <= p < q < |vals| ==> vals[index[p]] <= vals[index[q]]
    requires 0 <= i < j <= |vals|
    requires forall q :: i <= q < j ==> vals[index[q]] == vals[index[i]]
    requires i == 0 || vals[index[i - 1]] != vals[index[i]]
    requires j == |vals| || vals[index[j]] != vals[index[i]]
    ensures CountBelow(vals, vals[index[i]]) == i
    ensures CountEqual(vals, vals[index[i]]) == j - i
  {
    var n, v := |vals|, vals[index[i]];
    var below := set p | 0 <= p < n && vals[p] < v;
    var equal := set p | 0 <= p < n && vals[p] == v;
    // sorted positions before i hold values below v, those from j on values above v
    assert forall q :: 0 <= q < i ==> vals[index[q]] < v by {
      forall q | 0 <= q < i ensures vals[index[q]] < v {
        assert vals[index[q]] <= vals[index[i - 1]];
      }
    }
    assert forall q :: j <= q < n ==> vals[index[q]] > v by {
      forall q | j <= q < n ensures vals[index[q]] > v {
        assert vals[index[j]] <= vals[index[q]];
      }
    }
    forall p | p in below ensures p in set q | 0 <= q < i :: index[q] {
      assert p in index;
      var q :| 0 <= q < n && index[q] == p;
      assert q < i;
    }
    forall p | p in equal ensures p in set q | i <= q < j :: index[q] {
      assert p in index;
      var q :| 0 <= q < n && index[q] == p;
      assert i <= q < j;
    }
    assert below == set q | 0 <= q < i :: index[q];
    assert equal == set q | i <= q < j :: index[q];
    ImageCard(index, 0, i);
    ImageCard(index, i, j);
  }

  /** Every member of such a run has the run's mid-rank, i + (j - i - 1) / 2. */
  lemma RunMidRanks(vals: seq<real>, index: seq<int>, i: int, j: int)
    requires PermutationOf(index, |vals|)
    requires forall p, q :: 0 <= p < q < |vals| ==> vals[index[p]] <= vals[index[q]]
    requires 0 <= i < j <= |vals|
    requires forall q :: i <= q < j ==> vals[index[q]] == vals[index[i]]
    requires i == 0 || vals[index[i - 1]] != vals[index[i]]
    requires j == |vals| || vals[index[j]] != vals[index[i]]
    ensures forall q :: i <= q < j ==> MidRank(vals, index[q]) == i as real + (j - i - 1) as real / 2.0
  {
    RunCounts(vals, index, i, j);
  }

  /**
   * Lines 245-263 of `getRank`: sort the first nVals data values by index,
   * rank them 0..nVals-1 in sorted order and give each maximal tied run its
   * mid-rank. The result is the mid-rank of every value.
   */
  method TieCorrectedRanks(tData: seq<real>, nVals: nat) returns (rank: array<real>)
    requires 0 < nVals <= |tData|
    ensures rank.Length == nVals
    ensures forall p :: 0 <= p < nVals ==> rank[p] == MidRank(tData[..nVals], p)
  {
    var index := IndexSort(tData, nVals);
    rank := new real[nVals];
    for i := 0 to nVals
      invariant forall q :: 0 <= q < i ==> rank[index[q]] == q as real
    {
      rank[index[i]] := i as real;
    }
    CorrectTies(tData, nVals, index, rank);
    forall p | 0 <= p < nVals ensures rank[p] == MidRank(tData[..nVals], p) {
      assert p in index;
      var q :| 0 <= q < nVals && index[q] == p;
    }
  }

  /** The tie-correction loop of `getRank` (lines 252-262), over ranks laid out by sorted position. */
  method CorrectTies(tData: seq<real>, nVals: nat, index: seq<int>, rank: array<real>)
    requires 0 < nVals <= |tData| && rank.Length == nVals
    requires PermutationOf(index, nVals)
    requires forall p, q :: 0 <= p < q < nVals ==> tData[index[p]] <= tData[index[q]]
    requires forall q :: 0 <= q < nVals ==> rank[index[q]] == q as real
    modifies rank
    ensures forall q :: 0 <= q < nVals ==> rank[index[q]] == MidRank(tData[..nVals], index[q])
  {
    ghost var vals := tData[..nVals];
    ghost var mids := seq(nVals, p requires 0 <= p < nVals => MidRank(vals, p));
    var i := 0;
    while i < nVals
      invariant 0 <= i <= nVals
      invariant i == 0 || i == nVals || tData[index[i - 1]] != tData[index[i]]
      invariant forall q :: 0 <= q < i ==> rank[index[q]] == mids[index[q]]
      invariant forall q :: i <= q < nVals ==> rank[index[q]] == q as real
    {
      var j := RunEnd(tData, nVals, index, i);
      var m := j - i;
      var value := rank[index[i]] + (m - 1) as real / 2.0;
      assert forall q :: i <= q < j ==> mids[index[q]] == value by {
        RunMidRanks(vals, index, i, j);
      }
      AssignRun(rank, index, nVals, i, j, value);
      i := i + m;
    }
  }

  /** Line 257: the end of the run of values equal to the one at sorted position i. */
  method RunEnd(tData: seq<real>, nVals: nat, index: seq<int>, i: nat) returns (j: nat)
    requires nVals <= |tData| && PermutationOf(index, nVals) && i < nVals
    ensures i < j <= nVals
    ensures forall q :: i <= q < j ==> tData[index[q]] == tData[index[i]]
    ensures j == nVals || tData[index[j]] != tData[index[i]]
  {
    var value := tData[index[i]];
    j := i + 1;
    while j < nVals && tData[index[j]] == value
      invariant i < j <= nVals
      invariant forall q :: i <= q < j ==> tData[index[q]] == value
    {
      j := j + 1;
    }
  }

  /** Line 260: every member of the run at sorted positions i..j-1 gets `value`. */
  method AssignRun(rank: array<real>, index: seq<int>, nVals: nat, i: nat, j: nat, value: real)
    requires rank.Length == nVals && PermutationOf(index, nVals) && i <= j <= nVals
    modifies rank
    ensures forall q :: 0 <= q < nVals ==> rank[index[q]] == if i <= q < j then value else old(rank[index[q]])
  {
    for k := i to j
      invariant forall q :: 0 <= q < nVals ==> rank[index[q]] == if i <= q < k then value else old(rank[index[q]])
    {
      rank[index[k]] := value;
    }
  }

  /** The worked example: the values [5, 1, 1, 3] have ranks [3, 0.5, 0.5, 2]. */
  lemma RankExample()
    ensures var vals := [5.0, 1.0, 1.0, 3.0];
      MidRank(vals, 0) == 3.0 && MidRank(vals, 1) == 0.5 && MidRank(vals, 2) == 0.5 && MidRank(vals, 3) == 2.0
  {
    var vals := [5.0, 1.0, 1.0, 3.0];
    assert (set p | 0 <= p < 4 && vals[p] < 5.0) == {1, 2, 3};
    assert (set p | 0 <= p < 4 && vals[p] == 5.0) == {0};
    assert (set p | 0 <= p < 4 && vals[p] < 1.0) == {};
    assert (set p | 0 <= p < 4 && vals[p] == 1.0) == {1, 2};
    assert (set p | 0 <= p < 4 && vals[p] < 3.0) == {1, 2};
    assert (set p | 0 <= p < 4 && vals[p] == 3.0) == {3};
  }
}
