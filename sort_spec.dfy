/** Value-level specification of the sort engine: what it means for a run of
    the array to be sorted, the merge of two runs, the inversion count that the
    bubble and insertion sorts' swap counters equal, and the number of moves a
    top-down merge sort makes. */
module SortSpec {

  /** s[lo..hi) is non-decreasing: each of its elements is at most the next
      one (the range itself lies within s). */
  predicate SortedRange(s: seq<int>, lo: int, hi: int)
    decreases hi - lo
  {
    0 <= lo <= hi <= |s| && (hi - lo <= 1 || (s[lo] <= s[lo + 1] && SortedRange(s, lo + 1, hi)))
  }

  predicate Sorted(s: seq<int>) {
    SortedRange(s, 0, |s|)
  }

  /** Any two elements of a sorted range are in order. */
  lemma {:induction false} SortedRangeOrdered(s: seq<int>, lo: int, hi: int, p: int, q: int)
    requires SortedRange(s, lo, hi) && lo <= p <= q < hi
    ensures s[p] <= s[q]
    decreases hi - lo
  {
    if p < q {
      SortedRangeOrdered(s, lo + 1, hi, if p == lo then lo + 1 else p, q);
    }
  }

  lemma SortedRangePairs(s: seq<int>, lo: int, hi: int)
    requires SortedRange(s, lo, hi)
    ensures forall p, q :: lo <= p <= q < hi ==> s[p] <= s[q]
  {
    forall p, q | lo <= p <= q < hi ensures s[p] <= s[q] {
      SortedRangeOrdered(s, lo, hi, p, q);
    }
  }

  /** The converse: a range whose elements are pairwise in order is sorted. */
  lemma {:induction false} PairsSortedRange(s: seq<int>, lo: int, hi: int)
    requires 0 <= lo <= hi <= |s|
    requires forall p, q :: lo <= p < q < hi ==> s[p] <= s[q]
    ensures SortedRange(s, lo, hi)
    decreases hi - lo
  {
    if hi - lo > 1 {
      PairsSortedRange(s, lo + 1, hi);
    }
  }

  /** A sorted range stays sorted when its values are left where they are. */
  lemma {:induction false} SortedRangeFrame(s: seq<int>, t: seq<int>, lo: int, hi: int)
    requires SortedRange(s, lo, hi) && hi <= |t|
    requires forall k :: lo <= k < hi ==> t[k] == s[k]
    ensures SortedRange(t, lo, hi)
    decreases hi - lo
  {
    if hi - lo > 1 {
      SortedRangeFrame(s, t, lo + 1, hi);
    }
  }

  /** A sorted range grows by one slot on the right when the next element is at
      least its last one. */
  lemma {:induction false} SortedRangeAppend(s: seq<int>, lo: int, hi: int)
    requires SortedRange(s, lo, hi) && hi < |s|
    requires lo < hi ==> s[hi - 1] <= s[hi]
    ensures SortedRange(s, lo, hi + 1)
    decreases hi - lo
  {
    if hi - lo > 1 {
      SortedRangeAppend(s, lo + 1, hi);
    }
  }

  /** Two adjacent sorted ranges whose boundary pair is in order form one
      sorted range. */
  lemma {:induction false} SortedRangeJoin(s: seq<int>, lo: int, mid: int, hi: int)
    requires SortedRange(s, lo, mid) && SortedRange(s, mid, hi)
    requires lo < mid < hi ==> s[mid - 1] <= s[mid]
    ensures SortedRange(s, lo, hi)
    decreases mid - lo
  {
    if mid - lo > 1 {
      SortedRangeJoin(s, lo + 1, mid, hi);
    }
  }

  /** Sortedness of a range depends only on the values in it, wherever they sit:
      s[lo..hi) is sorted exactly when its copy t[lo + d..hi + d) is. */
  lemma {:induction false} SortedRangeMoved(s: seq<int>, lo: int, hi: int, t: seq<int>, d: int)
    requires 0 <= lo <= hi <= |s| && 0 <= lo + d && hi + d <= |t|
    requires forall k :: lo <= k < hi ==> t[k + d] == s[k]
    ensures SortedRange(t, lo + d, hi + d) <==> SortedRange(s, lo, hi)
    decreases hi - lo
  {
    if hi - lo > 1 {
      SortedRangeMoved(s, lo + 1, hi, t, d);
    }
  }

  lemma SortedRangeSlice(s: seq<int>, lo: int, hi: int)
    requires 0 <= lo <= hi <= |s|
    ensures SortedRange(s, lo, hi) <==> Sorted(s[lo..hi])
  {
    SortedRangeMoved(s, lo, hi, s[lo..hi], -lo);
  }

  lemma SortedTail(s: seq<int>)
    requires Sorted(s) && s != []
    ensures Sorted(s[1..])
  {
    assert SortedRange(s, 1, |s|) && s[1..|s|] == s[1..];
    SortedRangeSlice(s, 1, |s|);
  }

  /** x is a lower bound of the values of s. */
  predicate AllAtLeast(s: seq<int>, x: int) {
    forall v :: v in s ==> x <= v
  }

  /** x is an upper bound of the values of s. */
  predicate AllAtMost(s: seq<int>, x: int) {
    forall v :: v in s ==> v <= x
  }

  /** x is a strict upper bound of the values of s. */
  predicate AllBelow(s: seq<int>, x: int) {
    forall v :: v in s ==> v < x
  }

  /** A bound on the values is a property of the multiset, so every permutation keeps it. */
  lemma BoundsPermutation(s: seq<int>, t: seq<int>, x: int)
    requires multiset(s) == multiset(t)
    ensures AllAtLeast(s, x) <==> AllAtLeast(t, x)
    ensures AllAtMost(s, x) <==> AllAtMost(t, x)
    ensures AllBelow(s, x) <==> AllBelow(t, x)
  {
    forall v ensures v in s <==> v in t {
      assert v in s <==> v in multiset(s);
      assert v in t <==> v in multiset(t);
    }
  }

  /** s and t have the same length and agree everywhere outside [lo, hi). */
  predicate EqualOutside(s: seq<int>, t: seq<int>, lo: int, hi: int) {
    |s| == |t| && forall k :: 0 <= k < |s| && (k < lo || hi <= k) ==> s[k] == t[k]
  }

  /** t is s with the slots i and j exchanged. */
  predicate Swapped(s: seq<int>, t: seq<int>, i: int, j: int) {
    0 <= i < |s| && 0 <= j < |s| && |t| == |s| && t[i] == s[j] && t[j] == s[i] &&
    forall k :: 0 <= k < |s| && k != i && k != j ==> t[k] == s[k]
  }

  /** Splitting a sequence in three pieces: the middle piece keeps its multiset
      when the whole does and the outer pieces are unchanged. */
  lemma RangePermutation(s: seq<int>, t: seq<int>, lo: int, hi: int)
    requires 0 <= lo <= hi <= |s|
    requires EqualOutside(s, t, lo, hi)
    requires multiset(s) == multiset(t)
    ensures multiset(s[lo..hi]) == multiset(t[lo..hi])
  {
    assert s[..lo] == t[..lo] && s[hi..] == t[hi..];
    SplitMultiset(s, lo, hi);
    SplitMultiset(t, lo, hi);
    MultisetCancel(multiset(s[..lo]) + multiset(s[hi..]), multiset(s[lo..hi]), multiset(t[lo..hi]));
  }

  /** The multiset of a sequence splits along [lo, hi). */
  lemma SplitMultiset(s: seq<int>, lo: int, hi: int)
    requires 0 <= lo <= hi <= |s|
    ensures multiset(s) == (multiset(s[..lo]) + multiset(s[hi..])) + multiset(s[lo..hi])
  {
    assert s == s[..lo] + s[lo..hi] + s[hi..];
  }

  /** The converse: permuting only [lo, hi) permutes the whole sequence. */
  lemma WholePermutation(s: seq<int>, t: seq<int>, lo: int, hi: int)
    requires 0 <= lo <= hi <= |s|
    requires EqualOutside(s, t, lo, hi)
    requires multiset(s[lo..hi]) == multiset(t[lo..hi])
    ensures multiset(s) == multiset(t)
  {
    assert s[..lo] == t[..lo] && s[hi..] == t[hi..];
    assert s == s[..lo] + s[lo..hi] + s[hi..];
    assert t == t[..lo] + t[lo..hi] + t[hi..];
  }

  /** Sorting determines its output: two sorted permutations of one multiset are
      equal, so every sort of the engine leaves the same array behind. */
  lemma {:induction false} SortedUnique(s: seq<int>, t: seq<int>)
    requires Sorted(s) && Sorted(t)
    requires multiset(s) == multiset(t)
    ensures s == t
    decreases |s|
  {
    if |s| == 0 {
      assert |multiset(t)| == 0;
    } else {
      assert |t| == |multiset(t)| == |s|;
      assert t[0] in multiset(s) && s[0] in multiset(t);
      var a :| 0 <= a < |s| && s[a] == t[0];
      var b :| 0 <= b < |t| && t[b] == s[0];
      SortedRangeOrdered(s, 0, |s|, 0, a);
      SortedRangeOrdered(t, 0, |t|, 0, b);
      assert s[0..] == s && t[0..] == t;
      TakeHead(s, 0);
      TakeHead(t, 0);
      MultisetCancel(multiset{s[0]}, multiset(s[1..]), multiset(t[1..]));
      SortedTail(s);
      SortedTail(t);
      SortedUnique(s[1..], t[1..]);
    }
  }

  /** A value not above the head of a sorted sequence can be put in front. */
  lemma SortedCons(x: int, s: seq<int>)
    requires Sorted(s) && (s != [] ==> x <= s[0])
    ensures Sorted([x] + s)
  {
    SortedRangeMoved(s, 0, |s|, [x] + s, 1);
    assert |[x] + s| == |s| + 1;
  }

  // ---------------------------------------------------------------------------
  // Merging two runs

  /** What SortingVisualizer.merge writes once it has taken a[..i] and b[..j]:
      while both runs have elements the smaller head goes first, the left one
      on ties (`<=`); once one run is used up, the rest of the other follows. */
  function MergeFrom(a: seq<int>, b: seq<int>, i: int, j: int): seq<int>
    requires 0 <= i <= |a| && 0 <= j <= |b|
    decreases |a| - i + |b| - j
  {
    if i == |a| && j == |b| then []
    else if j == |b| || (i < |a| && a[i] <= b[j]) then [a[i]] + MergeFrom(a, b, i + 1, j)
    else [b[j]] + MergeFrom(a, b, i, j + 1)
  }

  /** The merge of two whole runs. */
  function Merged(a: seq<int>, b: seq<int>): seq<int> {
    MergeFrom(a, b, 0, 0)
  }

  /** The number of head comparisons merge makes from (i, j) on: one per value
      placed while both runs still have elements. */
  function ComparisonsFrom(a: seq<int>, b: seq<int>, i: int, j: int): nat
    requires 0 <= i <= |a| && 0 <= j <= |b|
    decreases |a| - i + |b| - j
  {
    if i == |a| || j == |b| then 0
    else if a[i] <= b[j] then 1 + ComparisonsFrom(a, b, i + 1, j)
    else 1 + ComparisonsFrom(a, b, i, j + 1)
  }

  function MergeComparisons(a: seq<int>, b: seq<int>): nat {
    ComparisonsFrom(a, b, 0, 0)
  }

  /** The merge from (i, j) holds exactly the values of a[i..] and b[j..]. */
  lemma {:induction false} MergeFromPermutation(a: seq<int>, b: seq<int>, i: int, j: int)
    requires 0 <= i <= |a| && 0 <= j <= |b|
    ensures multiset(MergeFrom(a, b, i, j)) == multiset(a[i..]) + multiset(b[j..])
    decreases |a| - i + |b| - j
  {
    if i == |a| && j == |b| {
      assert a[i..] == [] && b[j..] == [];
    } else if j == |b| || (i < |a| && a[i] <= b[j]) {
      var rest := MergeFrom(a, b, i + 1, j);
      MergeFromPermutation(a, b, i + 1, j);
      TakeHead(a, i);
      calc {
        multiset(MergeFrom(a, b, i, j));
        multiset([a[i]] + rest);
        multiset{a[i]} + multiset(rest);
      }
    } else {
      var rest := MergeFrom(a, b, i, j + 1);
      MergeFromPermutation(a, b, i, j + 1);
      TakeHead(b, j);
      calc {
        multiset(MergeFrom(a, b, i, j));
        multiset([b[j]] + rest);
        multiset{b[j]} + multiset(rest);
      }
    }
  }

  lemma TakeHead(a: seq<int>, i: int)
    requires 0 <= i < |a|
    ensures multiset(a[i..]) == multiset{a[i]} + multiset(a[i + 1..])
  {
    assert a[i..] == [a[i]] + a[i + 1..];
  }

  /** The merge from (i, j) has one value per remaining element. */
  lemma {:induction false} MergeFromLength(a: seq<int>, b: seq<int>, i: int, j: int)
    requires 0 <= i <= |a| && 0 <= j <= |b|
    ensures |MergeFrom(a, b, i, j)| == |a| - i + |b| - j
    decreases |a| - i + |b| - j
  {
    if i == |a| && j == |b| {
    } else if j == |b| || (i < |a| && a[i] <= b[j]) {
      MergeFromLength(a, b, i + 1, j);
    } else {
      MergeFromLength(a, b, i, j + 1);
    }
  }

  lemma MergedPermutation(a: seq<int>, b: seq<int>)
    ensures multiset(Merged(a, b)) == multiset(a) + multiset(b)
    ensures |Merged(a, b)| == |a| + |b|
  {
    MergeFromPermutation(a, b, 0, 0);
    MergeFromLength(a, b, 0, 0);
    assert a[0..] == a && b[0..] == b;
  }

  /** The merge from (i, j) of two sorted runs is sorted, and it starts with
      a[i] or b[j]. */
  lemma {:induction false} MergeFromSorted(a: seq<int>, b: seq<int>, i: int, j: int)
    requires 0 <= i <= |a| && 0 <= j <= |b|
    requires Sorted(a) && Sorted(b)
    ensures Sorted(MergeFrom(a, b, i, j))
    ensures MergeFrom(a, b, i, j) != [] ==>
      (i < |a| && MergeFrom(a, b, i, j)[0] == a[i]) || (j < |b| && MergeFrom(a, b, i, j)[0] == b[j])
    decreases |a| - i + |b| - j
  {
    if i == |a| && j == |b| {
    } else if j == |b| || (i < |a| && a[i] <= b[j]) {
      MergeFromSorted(a, b, i + 1, j);
      if i + 1 < |a| {
        SortedRangeOrdered(a, 0, |a|, i, i + 1);
      }
      SortedCons(a[i], MergeFrom(a, b, i + 1, j));
    } else {
      MergeFromSorted(a, b, i, j + 1);
      if j + 1 < |b| {
        SortedRangeOrdered(b, 0, |b|, j, j + 1);
      }
      SortedCons(b[j], MergeFrom(a, b, i, j + 1));
    }
  }

  lemma MergedSorted(a: seq<int>, b: seq<int>)
    requires Sorted(a) && Sorted(b)
    ensures Sorted(Merged(a, b))
  {
    MergeFromSorted(a, b, 0, 0);
  }

  /** Merge compares at least once per element of the shorter remaining run
      and never for the last value placed. */
  lemma {:induction false} ComparisonsFromBounds(a: seq<int>, b: seq<int>, i: int, j: int)
    requires 0 <= i <= |a| && 0 <= j <= |b|
    ensures (i == |a| || j == |b|) ==> ComparisonsFrom(a, b, i, j) == 0
    ensures i < |a| && j < |b| ==>
      (if |a| - i < |b| - j then |a| - i else |b| - j) <= ComparisonsFrom(a, b, i, j) <= |a| - i + |b| - j - 1
    decreases |a| - i + |b| - j
  {
    if i == |a| || j == |b| {
    } else if a[i] <= b[j] {
      ComparisonsFromBounds(a, b, i + 1, j);
    } else {
      ComparisonsFromBounds(a, b, i, j + 1);
    }
  }

  lemma MergeComparisonsBounds(a: seq<int>, b: seq<int>)
    ensures (a == [] || b == []) ==> MergeComparisons(a, b) == 0
    ensures a != [] && b != [] ==>
      (if |a| < |b| then |a| else |b|) <= MergeComparisons(a, b) <= |a| + |b| - 1
  {
    ComparisonsFromBounds(a, b, 0, 0);
  }

  /** Once the left run is used up the merge is the rest of the right one. */
  lemma {:induction false} MergeFromRight(a: seq<int>, b: seq<int>, j: int)
    requires 0 <= j <= |b|
    ensures MergeFrom(a, b, |a|, j) == b[j..]
    decreases |b| - j
  {
    if j < |b| {
      MergeFromRight(a, b, j + 1);
      assert b[j..] == [b[j]] + b[j + 1..];
    }
  }

  /** Left values not above b[0] all go first, one comparison each. */
  lemma {:induction false} MergeFromOrdered(a: seq<int>, b: seq<int>, i: int)
    requires 0 <= i <= |a| && b != []
    requires forall k :: i <= k < |a| ==> a[k] <= b[0]
    ensures MergeFrom(a, b, i, 0) == a[i..] + b
    ensures ComparisonsFrom(a, b, i, 0) == |a| - i
    decreases |a| - i
  {
    if i == |a| {
      MergeFromRight(a, b, 0);
      assert a[i..] + b == b && b[0..] == b;
    } else {
      MergeFromOrdered(a, b, i + 1);
      assert a[i..] + b == [a[i]] + (a[i + 1..] + b);
    }
  }

  /** Because ties go to the left run, two runs that are already in order merge
      into their concatenation after exactly one comparison per element of the
      left run, even when the last left value equals the first right value. */
  lemma MergedOrderedRuns(a: seq<int>, b: seq<int>)
    requires b != []
    requires AllAtMost(a, b[0])
    ensures Merged(a, b) == a + b
    ensures MergeComparisons(a, b) == |a|
  {
    forall k | 0 <= k < |a| ensures a[k] <= b[0] {
      assert a[k] in a;
    }
    MergeFromOrdered(a, b, 0);
    assert a[0..] == a;
  }

  // ---------------------------------------------------------------------------
  // Inversions

  /** How many elements of s are strictly greater than x. */
  function CountGreater(s: seq<int>, x: int): nat {
    if s == [] then 0
    else CountGreater(s[..|s| - 1], x) + (if s[|s| - 1] > x then 1 else 0)
  }

  /** The number of pairs p < q with s[p] > s[q], counted element by element
      from the left: each element adds the number of earlier elements greater
      than it, which is exactly how many shifts insertion sort makes for it. */
  function Inversions(s: seq<int>): nat {
    if s == [] then 0
    else Inversions(s[..|s| - 1]) + CountGreater(s[..|s| - 1], s[|s| - 1])
  }

  lemma {:induction false} CountGreaterConcat(a: seq<int>, b: seq<int>, x: int)
    ensures CountGreater(a + b, x) == CountGreater(a, x) + CountGreater(b, x)
    decreases |b|
  {
    if b == [] {
      assert a + b == a;
    } else {
      assert (a + b)[..|a + b| - 1] == a + b[..|b| - 1];
      CountGreaterConcat(a, b[..|b| - 1], x);
    }
  }

  /** CountGreater depends only on the multiset of s. */
  lemma {:induction false} CountGreaterPermutation(s: seq<int>, t: seq<int>, x: int)
    requires multiset(s) == multiset(t)
    ensures CountGreater(s, x) == CountGreater(t, x)
    decreases |s|
  {
    if s == [] {
      assert |t| == |multiset(t)| == 0;
    } else {
      var y := s[|s| - 1];
      var s' := s[..|s| - 1];
      assert s == s' + [y];
      assert y in multiset(t);
      var k :| 0 <= k < |t| && t[k] == y;
      var t' := t[..k] + t[k + 1..];
      assert t == t[..k] + [y] + t[k + 1..];
      assert multiset(t) == multiset{y} + multiset(t');
      assert multiset(s) == multiset{y} + multiset(s');
      MultisetCancel(multiset{y}, multiset(s'), multiset(t'));
      CountGreaterPermutation(s', t', x);
      CountGreaterConcat(t[..k], [y], x);
      CountGreaterConcat(t[..k] + [y], t[k + 1..], x);
      CountGreaterConcat(t[..k], t[k + 1..], x);
      assert CountGreater([y], x) == (if y > x then 1 else 0) by {
        assert [y][..0] == [];
      }
    }
  }

  /** If the elements of s up to index m are at most x and the rest exceed it,
      exactly |s| - m elements are greater than x. */
  lemma {:induction false} CountGreaterSplit(s: seq<int>, m: int, x: int)
    requires 0 <= m <= |s|
    requires forall k :: 0 <= k < m ==> s[k] <= x
    requires forall k :: m <= k < |s| ==> s[k] > x
    ensures CountGreater(s, x) == |s| - m
    decreases |s|
  {
    if s != [] {
      var s' := s[..|s| - 1];
      CountGreaterSplit(s', if m <= |s'| then m else |s'|, x);
    }
  }

  lemma {:induction false} SortedNoInversions(s: seq<int>)
    requires Sorted(s)
    ensures Inversions(s) == 0
    decreases |s|
  {
    if s != [] {
      var s' := s[..|s| - 1];
      SortedRangePairs(s, 0, |s|);
      PairsSortedRange(s', 0, |s'|);
      CountGreaterSplit(s', |s'|, s[|s| - 1]);
      SortedNoInversions(s');
    }
  }

  /** A strictly decreasing sequence of length n has n(n-1)/2 inversions, the
      most any sequence has. */
  lemma {:induction false} DecreasingInversions(s: seq<int>)
    requires forall p, q :: 0 <= p < q < |s| ==> s[p] > s[q]
    ensures 2 * Inversions(s) == |s| * (|s| - 1)
    decreases |s|
  {
    if s != [] {
      var s' := s[..|s| - 1];
      CountGreaterSplit(s', 0, s[|s| - 1]);
      DecreasingInversions(s');
    }
  }

  /** [4, 2, 7, 1] has four inversions: 2 is preceded by one greater value,
      7 by none and 1 by three. */
  lemma InsertionExample()
    ensures Inversions([4, 2, 7, 1]) == 4
  {
    assert [4, 2, 7, 1][..3] == [4, 2, 7];
    assert [4, 2, 7][..2] == [4, 2];
    assert [4, 2][..1] == [4];
    assert [4][..0] == [];
  }

  /** Exchanging an adjacent out-of-order pair removes exactly one inversion. */
  lemma {:induction false} AdjacentSwapInversions(s: seq<int>, t: seq<int>, j: int)
    requires 0 <= j && j + 1 < |s| && s[j] > s[j + 1]
    requires Swapped(s, t, j, j + 1)
    ensures Inversions(t) + 1 == Inversions(s)
    decreases |s|
  {
    if |s| == j + 2 {
      var p := s[..j];
      assert s[..|s| - 1] == p + [s[j]] && s[..|s| - 1][..j] == p;
      assert t[..|t| - 1] == p + [s[j + 1]] && t[..|t| - 1][..j] == p;
      CountGreaterConcat(p, [s[j]], s[j + 1]);
      CountGreaterConcat(p, [s[j + 1]], s[j]);
      assert [s[j]][..0] == [] && [s[j + 1]][..0] == [];
    } else {
      var s' := s[..|s| - 1];
      var t' := t[..|t| - 1];
      assert Swapped(s', t', j, j + 1);
      AdjacentSwapInversions(s', t', j);
      SwapPermutation(s', t', j, j + 1);
      CountGreaterPermutation(t', s', s[|s| - 1]);
    }
  }

  /** Exchanging two positions keeps the multiset. */
  lemma SwapPermutation(s: seq<int>, t: seq<int>, i: int, j: int)
    requires Swapped(s, t, i, j)
    ensures multiset(t) == multiset(s)
  {
    var u := s[i := s[j]];
    assert t == u[j := s[i]];
    assert multiset(u) == multiset(s) - multiset{s[i]} + multiset{s[j]};
    assert multiset(u[j := s[i]]) == multiset(u) - multiset{u[j]} + multiset{s[i]};
  }

  lemma MultisetCancel(a: multiset<int>, b: multiset<int>, c: multiset<int>)
    requires a + b == a + c
    ensures b == c
  {
    forall v ensures b[v] == c[v] {
      assert (a + b)[v] == a[v] + b[v] && (a + c)[v] == a[v] + c[v];
    }
  }

  // ---------------------------------------------------------------------------
  // Comparisons made by the quadratic sorts

  /** The number of inner-loop comparisons of the first i passes of bubble or
      selection sort over n elements: pass t compares n - 1 - t pairs. */
  function PassComparisons(n: int, i: nat): int {
    if i == 0 then 0 else PassComparisons(n, i - 1) + (n - i)
  }

  /** The number of unordered pairs of n elements, 0 + 1 + ... + (n - 1). */
  function Pairs(n: nat): nat {
    if n == 0 then 0 else Pairs(n - 1) + (n - 1)
  }

  lemma {:induction false} PairsFormula(n: nat)
    ensures 2 * Pairs(n) == n * (n - 1)
  {
    if n > 0 {
      PairsFormula(n - 1);
      assert (n - 1) * (n - 2) + 2 * (n - 1) == n * (n - 1);
    }
  }

  /** All n - 1 passes over n >= 1 elements compare each pair once:
      (n - 1) + (n - 2) + ... + 1 comparisons. */
  lemma {:induction false} PassComparisonsTotal(n: nat, i: nat)
    requires i < n
    ensures PassComparisons(n, i) + Pairs(n - i) == Pairs(n)
  {
    if i > 0 {
      PassComparisonsTotal(n, i - 1);
    }
  }

  // ---------------------------------------------------------------------------
  // Moves made by the top-down merge sort

  /** The number of element placements mergeSort performs on a range of length
      len: each merge places every element of its range once, and the range is
      split into a left half of (len+1)/2 and a right half of len/2 elements. */
  function MergeSortMoves(len: int): nat
    decreases len
  {
    if len <= 1 then 0
    else MergeSortMoves((len + 1) / 2) + MergeSortMoves(len / 2) + len
  }

  /** The placements mergeSort(l, r) makes: one per element of [l..r] in
      merge, plus those of the two recursive calls, which split at
      m = l + (r - l) / 2. */
  function MergeMoves(l: int, r: int): nat
    decreases r - l
  {
    if l >= r then 0
    else MergeMoves(l, l + (r - l) / 2) + MergeMoves(l + (r - l) / 2 + 1, r) + (r - l + 1)
  }

  /** The count depends only on the length of the range: the left half gets
      the extra element when the length is odd. */
  lemma {:induction false} MergeMovesLength(l: int, r: int)
    ensures MergeMoves(l, r) == MergeSortMoves(r - l + 1)
    decreases r - l
  {
    if l < r {
      var m := l + (r - l) / 2;
      MergeMovesLength(l, m);
      MergeMovesLength(m + 1, r);
      assert (r - l + 1 + 1) / 2 == m - l + 1 && (r - l + 1) / 2 == r - m;
    }
  }

  function Pow2(k: nat): nat {
    if k == 0 then 1 else 2 * Pow2(k - 1)
  }

  /** On 2^k elements merge sort makes exactly k * 2^k moves, whatever the values. */
  lemma {:induction false} MergeSortMovesPow2(k: nat)
    ensures MergeSortMoves(Pow2(k)) == k * Pow2(k)
  {
    if k > 0 {
      var h := Pow2(k - 1);
      Pow2Positive(k - 1);
      MergeSortMovesPow2(k - 1);
      MergeSortMovesDouble(h);
      DoubleProduct(k, h, Pow2(k));
    }
  }

  lemma DoubleProduct(k: int, h: int, p: int)
    requires p == 2 * h
    ensures 2 * ((k - 1) * h) + 2 * h == k * p
  {
  }

  lemma MergeSortMovesDouble(h: int)
    requires h >= 1
    ensures MergeSortMoves(2 * h) == 2 * MergeSortMoves(h) + 2 * h
  {
    assert (2 * h + 1) / 2 == h && (2 * h) / 2 == h;
  }

  lemma {:induction false} Pow2Positive(k: nat)
    ensures Pow2(k) >= 1
  {
    if k > 0 {
      Pow2Positive(k - 1);
    }
  }
}
