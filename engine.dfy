/** The sort engine of SortingVisualizer: the array of bar values, the two step
    counters, the "sorting in progress" flag, and the six in-place sorting
    algorithms that mutate the array through swap or direct assignment.
    Pacing (delay), highlighting and repainting do not change any of this state
    and are left out of the methods. */
module SortEngine {
  import opened SortSpec
  import opened HeapSpec

  /** ARRAY_SIZE, the length of the array the window starts with. */
  const DefaultArraySize := 100

  /** The generator draws rand.nextInt(500), a value in [0, 500), and adds 10. */
  const DrawBound := 500
  const ValueOffset := 10

  /** The entries of the algorithm selector. */
  datatype Algorithm = Bubble | Selection | Insertion | TopDownMerge | Quick | Heap

  /** A sequence of values rand.nextInt(500) can return. */
  predicate ValidDraws(draws: seq<int>) {
    forall k :: 0 <= k < |draws| ==> 0 <= draws[k] < DrawBound
  }

  class SortingVisualizer {
    /** The Java field `array` (a reserved word in Dafny). */
    var arr: array<int>
    var comparisons: int
    var swaps: int
    var sorting: bool

    /** The array part of the constructor: a fresh array of ARRAY_SIZE values
        filled by the generator. */
    constructor (draws: seq<int>)
      requires |draws| == DefaultArraySize && ValidDraws(draws)
      ensures fresh(arr) && arr.Length == DefaultArraySize
      ensures forall k :: 0 <= k < arr.Length ==> arr[k] == draws[k] + ValueOffset
      ensures forall k :: 0 <= k < arr.Length ==> 10 <= arr[k] <= 509
      ensures comparisons == 0 && swaps == 0 && !sorting
    {
      arr := new int[DefaultArraySize];
      comparisons, swaps, sorting := 0, 0, false;
      new;
      GenerateRandomArray(draws);
    }

    /** generateRandomArray: slot k gets draws[k] + 10, and both counters are reset. */
    method GenerateRandomArray(draws: seq<int>)
      requires |draws| == arr.Length && ValidDraws(draws)
      modifies this`comparisons, this`swaps, arr
      ensures forall k :: 0 <= k < arr.Length ==> arr[k] == draws[k] + ValueOffset
      ensures forall k :: 0 <= k < arr.Length ==> 10 <= arr[k] <= 509
      ensures comparisons == 0 && swaps == 0
    {
      var i := 0;
      while i < arr.Length
        invariant 0 <= i <= arr.Length
        invariant forall k :: 0 <= k < i ==> arr[k] == draws[k] + ValueOffset
      {
        arr[i] := draws[i] + ValueOffset;
        i := i + 1;
      }
      comparisons := 0;
      swaps := 0;
    }

    /** The size slider's listener: a new array of the chosen size is generated
        only when no sort is running; otherwise nothing changes. */
    method Resize(newSize: int, draws: seq<int>)
      requires 0 <= newSize && |draws| == newSize && ValidDraws(draws)
      modifies this`arr, this`comparisons, this`swaps
      ensures old(sorting) ==>
        arr == old(arr) && comparisons == old(comparisons) && swaps == old(swaps)
      ensures !old(sorting) ==> fresh(arr) && arr.Length == newSize
      ensures !old(sorting) ==> forall k :: 0 <= k < newSize ==> arr[k] == draws[k] + ValueOffset
      ensures !old(sorting) ==> comparisons == 0 && swaps == 0
    {
      if !sorting {
        arr := new int[newSize];
        GenerateRandomArray(draws);
      }
    }

    /** reset: stops any run and regenerates the array in place. */
    method Reset(draws: seq<int>)
      requires |draws| == arr.Length && ValidDraws(draws)
      modifies this`sorting, this`comparisons, this`swaps, arr
      ensures !sorting && arr == old(arr)
      ensures forall k :: 0 <= k < arr.Length ==> arr[k] == draws[k] + ValueOffset
      ensures comparisons == 0 && swaps == 0
    {
      sorting := false;
      GenerateRandomArray(draws);
    }

    /** startSorting: ignored while a sort is running; otherwise runs the chosen
        algorithm on the whole array (to completion: cancellation is not
        modelled) and clears the flag again. */
    method StartSorting(alg: Algorithm) returns (started: bool)
      modifies this`sorting, this`comparisons, this`swaps, arr
      ensures started == !old(sorting)
      ensures !started ==> arr[..] == old(arr[..]) && sorting
      ensures !started ==> comparisons == old(comparisons) && swaps == old(swaps)
      ensures started ==> !sorting && Sorted(arr[..])
      ensures started ==> multiset(arr[..]) == old(multiset(arr[..]))
      ensures started ==> comparisons >= old(comparisons) && swaps >= old(swaps)
      ensures started && alg == Bubble ==>
        comparisons == old(comparisons) + Pairs(arr.Length) &&
        swaps == old(swaps) + Inversions(old(arr[..]))
      ensures started && alg == Selection ==>
        comparisons == old(comparisons) + Pairs(arr.Length) &&
        (arr.Length > 0 ==> swaps <= old(swaps) + arr.Length - 1)
      ensures started && alg == Insertion ==>
        comparisons == old(comparisons) + Inversions(old(arr[..])) &&
        swaps == old(swaps) + Inversions(old(arr[..]))
      ensures started && alg == TopDownMerge ==> swaps == old(swaps) + MergeMoves(0, arr.Length - 1)
    {
      if sorting {
        return false;
      }
      sorting := true;
      var n := arr.Length;
      match alg {
        case Bubble => BubbleSort();
        case Selection => SelectionSort();
        case Insertion => InsertionSort();
        case TopDownMerge => MergeSort(0, n - 1);
        case Quick => QuickSort(0, n - 1);
        case Heap => HeapSort();
      }
      sorting := false;
      started := true;
    }

    /** swap(i, j): exchanges two slots and leaves every other slot alone. */
    method Swap(i: int, j: int)
      requires 0 <= i < arr.Length && 0 <= j < arr.Length
      modifies arr
      ensures Swapped(old(arr[..]), arr[..], i, j)
    {
      var temp := arr[i];
      arr[i] := arr[j];
      arr[j] := temp;
    }

    /** bubbleSort: n(n-1)/2 comparisons, and one swap per inversion of the input. */
    method BubbleSort()
      modifies this`comparisons, this`swaps, arr
      ensures Sorted(arr[..])
      ensures multiset(arr[..]) == old(multiset(arr[..]))
      ensures comparisons == old(comparisons) + Pairs(arr.Length)
      ensures swaps == old(swaps) + Inversions(old(arr[..]))
    {
      ghost var a0 := arr[..];
      var n := arr.Length;
      var i := 0;
      while i < n - 1
        invariant 0 <= i && (i <= n - 1 || i == 0)
        invariant BubbleOuter(arr[..], i)
        invariant multiset(arr[..]) == multiset(a0)
        invariant comparisons == old(comparisons) + PassComparisons(n, i)
        invariant swaps - old(swaps) + Inversions(arr[..]) == Inversions(a0)
      {
        BubblePass(i);
        i := i + 1;
      }
      if n > 0 {
        PassComparisonsTotal(n, i);
      }
      SortedNoInversions(arr[..]);
    }

    /** Pass i of bubbleSort (its inner j loop): one comparison per adjacent pair
        of [0, n - i), one swap per out-of-order pair, after which the largest
        value of that range sits at n - i - 1. */
    method BubblePass(i: int)
      requires 0 <= i < arr.Length - 1 && BubbleOuter(arr[..], i)
      modifies this`comparisons, this`swaps, arr
      ensures BubbleOuter(arr[..], i + 1)
      ensures multiset(arr[..]) == old(multiset(arr[..]))
      ensures comparisons == old(comparisons) + (arr.Length - i - 1)
      ensures swaps - old(swaps) + Inversions(arr[..]) == Inversions(old(arr[..]))
    {
      ghost var a0 := arr[..];
      var n := arr.Length;
      var j := 0;
      while j < n - i - 1
        invariant BubbleInner(arr[..], i, j)
        invariant multiset(arr[..]) == multiset(a0)
        invariant comparisons == old(comparisons) + j
        invariant swaps - old(swaps) + Inversions(arr[..]) == Inversions(a0)
      {
        comparisons := comparisons + 1;
        if arr[j] > arr[j + 1] {
          ghost var s := arr[..];
          Swap(j, j + 1);
          BubbleSwapStep(s, arr[..], i, j);
          swaps := swaps + 1;
        } else {
          BubbleKeepStep(arr[..], i, j);
        }
        j := j + 1;
      }
      BubblePassEnd(arr[..], i);
    }

    /** selectionSort: n(n-1)/2 comparisons and at most n - 1 swaps, one per
        pass whose minimum is not already in place. */
    method SelectionSort()
      modifies this`comparisons, this`swaps, arr
      ensures Sorted(arr[..])
      ensures multiset(arr[..]) == old(multiset(arr[..]))
      ensures comparisons == old(comparisons) + Pairs(arr.Length)
      ensures old(swaps) <= swaps
      ensures arr.Length > 0 ==> swaps <= old(swaps) + arr.Length - 1
      ensures arr.Length == 0 ==> swaps == old(swaps)
    {
      ghost var a0 := arr[..];
      var n := arr.Length;
      var i := 0;
      while i < n - 1
        invariant 0 <= i && (i <= n - 1 || i == 0)
        invariant SortedRange(arr[..], 0, i)
        invariant 0 < i ==> forall k :: i <= k < n ==> arr[i - 1] <= arr[k]
        invariant multiset(arr[..]) == multiset(a0)
        invariant comparisons == old(comparisons) + PassComparisons(n, i)
        invariant old(swaps) <= swaps <= old(swaps) + i
      {
        var minIdx := MinIndex(i);
        if minIdx != i {
          ghost var s := arr[..];
          Swap(i, minIdx);
          SwapPermutation(s, arr[..], i, minIdx);
          swaps := swaps + 1;
          SortedRangeFrame(s, arr[..], 0, i);
        }
        SortedRangeAppend(arr[..], 0, i);
        i := i + 1;
      }
      if n > 0 {
        PassComparisonsTotal(n, i);
        SortedRangeAppend(arr[..], 0, i);
      }
    }

    /** The inner loop of selectionSort's pass i: the index of the first
        minimum of [i, n) (a later equal value does not replace it, as the
        test is `<`), after n - i - 1 comparisons. */
    method MinIndex(i: int) returns (minIdx: int)
      requires 0 <= i < arr.Length
      modifies this`comparisons
      ensures i <= minIdx < arr.Length
      ensures forall k :: i <= k < arr.Length ==> arr[minIdx] <= arr[k]
      ensures forall k :: i <= k < minIdx ==> arr[minIdx] < arr[k]
      ensures comparisons == old(comparisons) + (arr.Length - i - 1)
    {
      var n := arr.Length;
      minIdx := i;
      var j := i + 1;
      while j < n
        invariant i + 1 <= j <= n
        invariant i <= minIdx < j
        invariant forall k :: i <= k < j ==> arr[minIdx] <= arr[k]
        invariant forall k :: i <= k < minIdx ==> arr[minIdx] < arr[k]
        invariant comparisons == old(comparisons) + (j - i - 1)
      {
        comparisons := comparisons + 1;
        if arr[j] < arr[minIdx] {
          minIdx := j;
        }
        j := j + 1;
      }
    }

    /** insertionSort: each shift counts one comparison and one swap; a failing
        `array[j] > key` test counts nothing, so both counters grow by the number
        of inversions of the input. */
    method InsertionSort()
      modifies this`comparisons, this`swaps, arr
      ensures Sorted(arr[..])
      ensures multiset(arr[..]) == old(multiset(arr[..]))
      ensures comparisons - old(comparisons) == swaps - old(swaps)
      ensures swaps == old(swaps) + Inversions(old(arr[..]))
    {
      ghost var a0 := arr[..];
      var n := arr.Length;
      var i := 1;
      while i < n
        invariant 1 <= i && (i <= n || n == 0)
        invariant n > 0 ==> SortedRange(arr[..], 0, i)
        invariant n > 0 ==> multiset(arr[..i]) == multiset(a0[..i])
        invariant forall k :: i <= k < n ==> arr[k] == a0[k]
        invariant comparisons - old(comparisons) == swaps - old(swaps)
        invariant n > 0 ==> swaps - old(swaps) == Inversions(a0[..i])
        invariant n == 0 ==> swaps == old(swaps)
      {
        ghost var prev := arr[..];
        InsertionCount(a0, prev, i);
        Insert(i);
        i := i + 1;
      }
      if n > 0 {
        assert arr[..] == arr[..n] && a0 == a0[..n];
      }
    }

    /** The body of insertionSort's pass i: the values of the sorted prefix
        [0, i) greater than key = array[i] are shifted one slot right and key
        drops into the gap. Each shift counts one comparison and one swap, so
        both counters grow by the number of values before i greater than key. */
    method Insert(i: int)
      requires 0 < i < arr.Length && SortedRange(arr[..], 0, i)
      modifies this`comparisons, this`swaps, arr
      ensures SortedRange(arr[..], 0, i + 1)
      ensures multiset(arr[..i + 1]) == multiset(old(arr[..i + 1]))
      ensures forall k :: i < k < arr.Length ==> arr[k] == old(arr[k])
      ensures comparisons == old(comparisons) + CountGreater(old(arr[..i]), old(arr[i]))
      ensures swaps == old(swaps) + CountGreater(old(arr[..i]), old(arr[i]))
    {
      ghost var prev := arr[..];
      var key := arr[i];
      var j := i - 1;
      while j >= 0 && arr[j] > key
        invariant Shifting(arr[..], prev, i, j)
        invariant comparisons == old(comparisons) + (i - 1 - j)
        invariant swaps == old(swaps) + (i - 1 - j)
      {
        comparisons := comparisons + 1;
        ghost var s := arr[..];
        arr[j + 1] := arr[j];
        ShiftStep(s, arr[..], prev, i, j);
        j := j - 1;
        swaps := swaps + 1;
      }
      ghost var s := arr[..];
      arr[j + 1] := key;
      InsertionDone(prev, s, arr[..], i, j);
    }

    /** mergeSort(l, r): sorts [l..r] in place, touches nothing outside it, and
        makes exactly MergeMoves(l, r) placements whatever the values. */
    method MergeSort(l: int, r: int)
      requires 0 <= l <= r + 1 <= arr.Length
      modifies this`comparisons, this`swaps, arr
      decreases r - l
      ensures SortedRange(arr[..], l, r + 1)
      ensures multiset(arr[..]) == old(multiset(arr[..]))
      ensures EqualOutside(arr[..], old(arr[..]), l, r + 1)
      ensures swaps == old(swaps) + MergeMoves(l, r)
      ensures comparisons >= old(comparisons)
    {
      if l < r {
        var m := l + (r - l) / 2;
        ghost var s0 := arr[..];
        MergeSort(l, m);
        ghost var s1 := arr[..];
        MergeSort(m + 1, r);
        ghost var s2 := arr[..];
        Merge(l, m, r);
        MergeSortCombine(s0, s1, s2, arr[..], l, m, r);
      }
    }

    /** merge(l, m, r): copies [l..m] and [m+1..r] into the buffers L and R and
        writes back their merge, taking the left element on ties. */
    method Merge(l: int, m: int, r: int)
      requires 0 <= l <= m + 1 <= r + 1 <= arr.Length
      modifies this`comparisons, this`swaps, arr
      ensures arr[l..r + 1] == Merged(old(arr[l..m + 1]), old(arr[m + 1..r + 1]))
      ensures EqualOutside(arr[..], old(arr[..]), l, r + 1)
      ensures multiset(arr[..]) == old(multiset(arr[..]))
      ensures comparisons ==
        old(comparisons) + MergeComparisons(old(arr[l..m + 1]), old(arr[m + 1..r + 1]))
      ensures swaps == old(swaps) + (r - l + 1)
    {
      ghost var a0 := arr[..];
      // the buffers are only read after the copy, so they are kept as values
      var L := arr[l..m + 1];
      var R := arr[m + 1..r + 1];
      var i, j;
      ghost var out;
      i, j, out := MergeRuns(L, R, l);
      out := CopyRest(L, R, l, i, j, a0, out);
      MergeDone(a0, arr[..], l, m, r, out);
    }

    /** The first loop of merge: while both buffers have elements left, one
        comparison writes the smaller head, the left one on ties, to array[k].
        out is what has been written to array[l..k) so far. */
    method MergeRuns(L: seq<int>, R: seq<int>, l: int) returns (i: int, j: int, ghost out: seq<int>)
      requires 0 <= l && l + |L| + |R| <= arr.Length
      modifies arr, this`comparisons, this`swaps
      ensures 0 <= i <= |L| && 0 <= j <= |R| && (i == |L| || j == |R|)
      ensures |out| == i + j && out + MergeFrom(L, R, i, j) == Merged(L, R)
      ensures Written(arr[..], old(arr[..]), l, l + |L| + |R| - 1, out)
      ensures comparisons == old(comparisons) + MergeComparisons(L, R)
      ensures swaps == old(swaps) + (i + j)
    {
      ghost var a0 := arr[..];
      ghost var r := l + |L| + |R| - 1;
      i, j, out := 0, 0, [];
      var k := l;
      while i < |L| && j < |R|
        invariant 0 <= i <= |L| && 0 <= j <= |R| && k == l + i + j && |out| == i + j
        invariant out + MergeFrom(L, R, i, j) == Merged(L, R)
        invariant Written(arr[..], a0, l, r, out)
        invariant comparisons - old(comparisons) + ComparisonsFrom(L, R, i, j) == MergeComparisons(L, R)
        invariant swaps == old(swaps) + (i + j)
      {
        comparisons := comparisons + 1;
        if L[i] <= R[j] {
          ghost var s := arr[..];
          arr[k] := L[i];
          WriteStep(s, arr[..], a0, l, r, out, L[i]);
          TakeNext(out, L[i], MergeFrom(L, R, i + 1, j));
          out := out + [L[i]];
          i := i + 1;
        } else {
          ghost var s := arr[..];
          arr[k] := R[j];
          WriteStep(s, arr[..], a0, l, r, out, R[j]);
          TakeNext(out, R[j], MergeFrom(L, R, i, j + 1));
          out := out + [R[j]];
          j := j + 1;
        }
        k := k + 1;
        swaps := swaps + 1;
      }
    }

    /** The last two loops of merge: once one buffer is used up, what is left
        of L and then what is left of R is copied to array[k..], which
        completes the merge. */
    method CopyRest(L: seq<int>, R: seq<int>, l: int, i0: int, j0: int,
                    ghost a0: seq<int>, ghost out0: seq<int>) returns (ghost out: seq<int>)
      requires 0 <= i0 <= |L| && 0 <= j0 <= |R| && (i0 == |L| || j0 == |R|)
      requires |out0| == i0 + j0 && out0 + MergeFrom(L, R, i0, j0) == Merged(L, R)
      requires Written(arr[..], a0, l, l + |L| + |R| - 1, out0)
      modifies arr, this`swaps
      ensures out == Merged(L, R)
      ensures Written(arr[..], a0, l, l + |L| + |R| - 1, out)
      ensures swaps == old(swaps) + (|L| - i0) + (|R| - j0)
    {
      ghost var r := l + |L| + |R| - 1;
      var i, j, k := i0, j0, l + i0 + j0;
      out := out0;
      while i < |L|
        modifies arr, this`swaps
        invariant i0 <= i <= |L| && j == j0 && k == l + i + j && |out| == i + j
        invariant out + MergeFrom(L, R, i, j) == Merged(L, R)
        invariant Written(arr[..], a0, l, r, out)
        invariant swaps == old(swaps) + (i - i0)
      {
        ghost var s := arr[..];
        arr[k] := L[i];
        WriteStep(s, arr[..], a0, l, r, out, L[i]);
        TakeNext(out, L[i], MergeFrom(L, R, i + 1, j));
        out := out + [L[i]];
        k := k + 1;
        i := i + 1;
        swaps := swaps + 1;
      }
      while j < |R|
        modifies arr, this`swaps
        invariant j0 <= j <= |R| && i == |L| && k == l + i + j && |out| == i + j
        invariant out + MergeFrom(L, R, i, j) == Merged(L, R)
        invariant Written(arr[..], a0, l, r, out)
        invariant swaps == old(swaps) + (|L| - i0) + (j - j0)
      {
        ghost var s := arr[..];
        arr[k] := R[j];
        WriteStep(s, arr[..], a0, l, r, out, R[j]);
        TakeNext(out, R[j], MergeFrom(L, R, i, j + 1));
        out := out + [R[j]];
        k := k + 1;
        j := j + 1;
        swaps := swaps + 1;
      }
      assert out + [] == out;
    }

    /** quickSort(low, high): sorts [low..high] in place and touches nothing
        outside it. */
    method QuickSort(low: int, high: int)
      requires 0 <= low <= high + 1 <= arr.Length
      modifies this`comparisons, this`swaps, arr
      decreases high - low
      ensures SortedRange(arr[..], low, high + 1)
      ensures multiset(arr[..]) == old(multiset(arr[..]))
      ensures EqualOutside(arr[..], old(arr[..]), low, high + 1)
      ensures comparisons >= old(comparisons) && swaps >= old(swaps)
    {
      if low < high {
        ghost var s0 := arr[..];
        var pi := Partition(low, high);
        ghost var s1 := arr[..];
        QuickSort(low, pi - 1);
        ghost var s2 := arr[..];
        QuickSort(pi + 1, high);
        QuickSortCombine(s0, s1, s2, arr[..], low, pi, high);
      }
    }

    /** partition(low, high), Lomuto scheme with array[high] as the pivot. */
    method Partition(low: int, high: int) returns (p: int)
      requires 0 <= low <= high < arr.Length
      modifies this`comparisons, this`swaps, arr
      ensures low <= p <= high
      ensures arr[p] == old(arr[high])
      ensures forall k :: low <= k < p ==> arr[k] < arr[p]
      ensures forall k :: p < k <= high ==> arr[k] >= arr[p]
      ensures multiset(arr[..]) == old(multiset(arr[..]))
      ensures EqualOutside(arr[..], old(arr[..]), low, high + 1)
      ensures comparisons == old(comparisons) + (high - low)
      ensures swaps == old(swaps) + (p - low) + 1
    {
      ghost var a0 := arr[..];
      var pivot := arr[high];
      var i := low - 1;
      var j := low;
      while j < high
        invariant Partitioning(arr[..], a0, low, high, i, j)
        invariant comparisons == old(comparisons) + (j - low)
        invariant swaps == old(swaps) + (i + 1 - low)
      {
        comparisons := comparisons + 1;
        if arr[j] < pivot {
          i := i + 1;
          ghost var s := arr[..];
          Swap(i, j);
          PartitionSwapStep(s, arr[..], a0, low, high, i, j);
          swaps := swaps + 1;
        }
        j := j + 1;
      }
      ghost var s := arr[..];
      Swap(i + 1, high);
      PartitionDone(s, arr[..], a0, low, high, i);
      swaps := swaps + 1;
      p := i + 1;
    }

    /** heapSort: builds a max-heap over the whole array, then repeatedly swaps
        the root to the end of the shrinking heap and sifts the new root down. */
    method HeapSort()
      modifies this`comparisons, this`swaps, arr
      ensures Sorted(arr[..])
      ensures multiset(arr[..]) == old(multiset(arr[..]))
      ensures comparisons >= old(comparisons)
      ensures arr.Length > 0 ==> swaps >= old(swaps) + arr.Length - 1
      ensures swaps >= old(swaps)
    {
      ghost var a0 := arr[..];
      var n := arr.Length;
      var i := n / 2 - 1;
      LeavesAreHeaps(arr[..], n);
      while i >= 0
        invariant -1 <= i <= n / 2 - 1
        invariant HeapFrom(arr[..], n, i + 1)
        invariant multiset(arr[..]) == multiset(a0)
        invariant comparisons >= old(comparisons) && swaps >= old(swaps)
      {
        BuildStep(arr[..], n, i);
        Heapify(n, i, i);
        i := i - 1;
      }
      i := n - 1;
      while i > 0
        invariant -1 <= i < n && (n > 0 ==> 0 <= i)
        invariant n > 0 ==> Extracting(arr[..], a0, i)
        invariant n == 0 ==> multiset(arr[..]) == multiset(a0)
        invariant comparisons >= old(comparisons)
        invariant swaps >= old(swaps) + (n - 1 - i)
      {
        ghost var s := arr[..];
        Swap(0, i);
        swaps := swaps + 1;
        ghost var t := arr[..];
        ExtractStep(s, t, i);
        Heapify(i, 0, 0);
        ExtractNext(s, t, arr[..], a0, i);
        i := i - 1;
      }
    }

    /** heapify(n, i): sifts array[i] down within [0, n). Entered with the heap
        property holding everywhere from lo on except at i, it leaves it holding
        everywhere from lo on, and only permutes [0, n). */
    method Heapify(n: int, i: int, ghost lo: int)
      requires 0 <= lo <= i && 0 <= n <= arr.Length
      requires HeapExcept(arr[..], n, lo, i)
      modifies this`comparisons, this`swaps, arr
      decreases n - i
      ensures HeapFrom(arr[..], n, lo)
      ensures multiset(arr[..]) == old(multiset(arr[..]))
      ensures EqualOutside(arr[..], old(arr[..]), 0, n)
      ensures comparisons >= old(comparisons) && swaps >= old(swaps)
    {
      var largest := i;
      var l := 2 * i + 1;
      var r := 2 * i + 2;
      if l < n {
        comparisons := comparisons + 1;
        if arr[l] > arr[largest] {
          largest := l;
        }
      }
      if r < n {
        comparisons := comparisons + 1;
        if arr[r] > arr[largest] {
          largest := r;
        }
      }
      if largest != i {
        ghost var s := arr[..];
        Swap(i, largest);
        ghost var t := arr[..];
        swaps := swaps + 1;
        SiftStep(s, t, n, lo, i, largest);
        Heapify(n, largest, lo);
        SiftFrame(s, t, arr[..], n, i, largest);
      } else {
        SiftDone(arr[..], n, lo, i);
      }
    }
  }

  /** insertionSort on [4, 2, 7, 1]: the array ends as [1, 2, 4, 7] and each
      counter grows by 4 (one per shift: 1 for key 2, 0 for key 7, 3 for key 1). */
  method InsertionSortExample(v: SortingVisualizer)
    requires v.arr[..] == [4, 2, 7, 1]
    modifies v`comparisons, v`swaps, v.arr
    ensures v.arr[..] == [1, 2, 4, 7]
    ensures v.comparisons == old(v.comparisons) + 4 && v.swaps == old(v.swaps) + 4
  {
    v.InsertionSort();
    InsertionExample();
    assert multiset([4, 2, 7, 1]) == multiset([1, 2, 4, 7]);
    SortedUnique(v.arr[..], [1, 2, 4, 7]);
  }

  // ---------------------------------------------------------------------------
  // Proof steps of the algorithms, stated on snapshots of the array

  /** What bubbleSort keeps between passes: after i passes the last i slots
      are sorted and hold values no smaller than any slot before them. */
  predicate BubbleOuter(s: seq<int>, i: int) {
    0 <= i <= |s| && SortedRange(s, |s| - i, |s|) &&
    (0 < i ==> forall k :: 0 <= k < |s| - i ==> s[k] <= s[|s| - i])
  }

  /** Inside pass i, after j comparisons: s[j] is the largest of s[0..j]. */
  predicate BubbleInner(s: seq<int>, i: int, j: int) {
    BubbleOuter(s, i) && 0 <= j < |s| - i && forall k :: 0 <= k < j ==> s[k] <= s[j]
  }

  /** Exchanging an out-of-order pair carries the running maximum along and
      removes one inversion. */
  lemma BubbleSwapStep(s: seq<int>, t: seq<int>, i: int, j: int)
    requires BubbleInner(s, i, j) && j + 1 < |s| - i && s[j] > s[j + 1]
    requires Swapped(s, t, j, j + 1)
    ensures BubbleInner(t, i, j + 1)
    ensures multiset(t) == multiset(s)
    ensures Inversions(t) + 1 == Inversions(s)
  {
    SortedRangeFrame(s, t, |s| - i, |s|);
    SwapPermutation(s, t, j, j + 1);
    AdjacentSwapInversions(s, t, j);
  }

  lemma BubbleKeepStep(s: seq<int>, i: int, j: int)
    requires BubbleInner(s, i, j) && j + 1 < |s| - i && s[j] <= s[j + 1]
    ensures BubbleInner(s, i, j + 1)
  {
  }

  /** At the end of pass i the maximum of [0, n - i) joins the sorted suffix. */
  lemma BubblePassEnd(s: seq<int>, i: int)
    requires BubbleInner(s, i, |s| - i - 1)
    ensures BubbleOuter(s, i + 1)
  {
  }

  /** The state of insertionSort's shifting loop in pass i, prev being the
      array when the pass began: s[0..j] is untouched, the values prev[j+1..i)
      (all greater than the key prev[i]) sit one slot to the right, and
      nothing after i has moved. */
  predicate Shifting(s: seq<int>, prev: seq<int>, i: int, j: int) {
    0 < i < |prev| == |s| && -1 <= j <= i - 1 &&
    (forall k :: 0 <= k <= j ==> s[k] == prev[k]) &&
    (forall k :: j + 2 <= k <= i ==> s[k] == prev[k - 1]) &&
    (forall k :: j + 1 <= k < i ==> prev[k] > prev[i]) &&
    (forall k :: i < k < |s| ==> s[k] == prev[k])
  }

  /** One shift `array[j + 1] = array[j]` of a value greater than the key. */
  lemma ShiftStep(s: seq<int>, t: seq<int>, prev: seq<int>, i: int, j: int)
    requires Shifting(s, prev, i, j) && 0 <= j && s[j] > prev[i]
    requires t == s[j + 1 := s[j]]
    ensures Shifting(t, prev, i, j - 1)
  {
  }

  /** Dropping the key into the gap at j + 1 ends the pass: [0, i] is sorted
      and a permutation of what it held, and the pass shifted exactly the
      values before i that are greater than the key. */
  lemma InsertionDone(prev: seq<int>, s: seq<int>, t: seq<int>, i: int, j: int)
    requires SortedRange(prev, 0, i) && Shifting(s, prev, i, j)
    requires j >= 0 ==> s[j] <= prev[i]
    requires t == s[j + 1 := prev[i]]
    ensures SortedRange(t, 0, i + 1)
    ensures multiset(t[..i + 1]) == multiset(prev[..i + 1])
    ensures forall k :: i < k < |t| ==> t[k] == prev[k]
    ensures CountGreater(prev[..i], prev[i]) == i - 1 - j
  {
    InsertionSorted(prev, t, i, j);
    InsertionPermutation(prev, t, i, j);
    InsertionShifts(prev, i, j);
  }

  /** One pass of insertionSort, prev being the array before it and f after
      it, j where the shifting stopped: f[0..i] is sorted. */
  lemma InsertionSorted(prev: seq<int>, f: seq<int>, i: int, j: int)
    requires 0 < i < |prev| == |f| && -1 <= j < i
    requires SortedRange(prev, 0, i)
    requires forall k :: 0 <= k <= j ==> f[k] == prev[k]
    requires f[j + 1] == prev[i]
    requires forall k :: j + 2 <= k <= i ==> f[k] == prev[k - 1]
    requires forall k :: j + 1 <= k < i ==> prev[k] > prev[i]
    requires j >= 0 ==> prev[j] <= prev[i]
    ensures SortedRange(f, 0, i + 1)
  {
    SortedRangePairs(prev, 0, i);
    var key := prev[i];
    forall p, q | 0 <= p < q < i + 1 ensures f[p] <= f[q] {
      if q <= j {
      } else if q == j + 1 {
        assert f[p] == prev[p] <= prev[j];
      } else if p <= j {
        assert f[q] == prev[q - 1] && prev[p] <= prev[j] <= key < prev[q - 1];
      } else if p == j + 1 {
      } else {
        assert prev[p - 1] <= prev[q - 1];
      }
    }
    PairsSortedRange(f, 0, i + 1);
  }

  /** The same pass leaves in f[0..i] the values prev[0..i] had. */
  lemma InsertionPermutation(prev: seq<int>, f: seq<int>, i: int, j: int)
    requires 0 < i < |prev| == |f| && -1 <= j < i
    requires forall k :: 0 <= k <= j ==> f[k] == prev[k]
    requires f[j + 1] == prev[i]
    requires forall k :: j + 2 <= k <= i ==> f[k] == prev[k - 1]
    ensures multiset(f[..i + 1]) == multiset(prev[..i + 1])
  {
    assert f[..i + 1] == prev[..j + 1] + [prev[i]] + prev[j + 1..i];
    assert prev[..i + 1] == prev[..j + 1] + prev[j + 1..i] + [prev[i]];
  }

  /** The pass stops shifting at the first value not greater than the key, and
      the prefix is sorted, so it shifts exactly the values greater than it. */
  lemma InsertionShifts(prev: seq<int>, i: int, j: int)
    requires 0 < i < |prev| && -1 <= j < i
    requires SortedRange(prev, 0, i)
    requires forall k :: j + 1 <= k < i ==> prev[k] > prev[i]
    requires j >= 0 ==> prev[j] <= prev[i]
    ensures CountGreater(prev[..i], prev[i]) == i - 1 - j
  {
    var h := prev[..i];
    forall k | 0 <= k < j + 1 ensures h[k] <= prev[i] {
      SortedRangeOrdered(prev, 0, i, k, j);
    }
    CountGreaterSplit(h, j + 1, prev[i]);
  }

  /** Inserting a0[i] into a permutation of a0[0..i) adds the inversions a0[i]
      has with the values before it. */
  lemma InsertionCount(a0: seq<int>, prev: seq<int>, i: int)
    requires 0 < i < |prev| == |a0|
    requires multiset(prev[..i]) == multiset(a0[..i]) && prev[i] == a0[i]
    ensures Inversions(a0[..i + 1]) == Inversions(a0[..i]) + CountGreater(prev[..i], prev[i])
    ensures multiset(prev[..i + 1]) == multiset(a0[..i + 1])
  {
    assert a0[..i + 1][..i] == a0[..i] && a0[..i + 1] == a0[..i] + [a0[i]];
    assert prev[..i + 1] == prev[..i] + [prev[i]];
    CountGreaterPermutation(prev[..i], a0[..i], prev[i]);
  }

  /** The state of merge's write-back loops: s is a0 outside [l..r], and
      the slots from l on hold out, what has been written back so far. */
  predicate Written(s: seq<int>, a0: seq<int>, l: int, r: int, out: seq<int>) {
    0 <= l && l + |out| <= r + 1 <= |s| && EqualOutside(s, a0, l, r + 1) &&
    forall t :: l <= t < l + |out| ==> s[t] == out[t - l]
  }

  /** One write `array[k] = x` at k = l + |out|. */
  lemma WriteStep(s: seq<int>, t: seq<int>, a0: seq<int>, l: int, r: int, out: seq<int>, x: int)
    requires Written(s, a0, l, r, out) && l + |out| <= r
    requires t == s[l + |out| := x]
    ensures Written(t, a0, l, r, out + [x])
  {
  }

  /** Moving the head x of what is left to merge to the end of what is written. */
  lemma TakeNext(out: seq<int>, x: int, rest: seq<int>)
    ensures out + ([x] + rest) == (out + [x]) + rest
  {
  }

  /** Once all of [l..r] is written with the merge of its two old runs, the
      range holds that merge and the array is a permutation of a0. */
  lemma MergeDone(a0: seq<int>, s: seq<int>, l: int, m: int, r: int, out: seq<int>)
    requires 0 <= l <= m + 1 <= r + 1 <= |a0|
    requires out == Merged(a0[l..m + 1], a0[m + 1..r + 1])
    requires Written(s, a0, l, r, out)
    ensures s[l..r + 1] == out
    ensures multiset(s) == multiset(a0)
  {
    MergedPermutation(a0[l..m + 1], a0[m + 1..r + 1]);
    assert s[l..r + 1] == out;
    MergePermutation(a0, s, l, m, r);
  }

  /** The end of merge: [l..r] holds the merge of the two runs read at the
      start and nothing else changed, so the whole array keeps its multiset. */
  lemma MergePermutation(s: seq<int>, t: seq<int>, l: int, m: int, r: int)
    requires 0 <= l <= m + 1 <= r + 1 <= |s|
    requires EqualOutside(s, t, l, r + 1)
    requires t[l..r + 1] == Merged(s[l..m + 1], s[m + 1..r + 1])
    ensures multiset(t) == multiset(s)
  {
    var a, b := s[l..m + 1], s[m + 1..r + 1];
    MergedPermutation(a, b);
    assert s[l..r + 1] == a + b;
    WholePermutation(t, s, l, r + 1);
  }

  /** Merging two sorted adjacent runs gives a sorted range. */
  lemma MergedRunsSorted(s: seq<int>, t: seq<int>, l: int, m: int, r: int)
    requires 0 <= l <= m + 1 <= r + 1 <= |s| == |t|
    requires SortedRange(s, l, m + 1) && SortedRange(s, m + 1, r + 1)
    requires t[l..r + 1] == Merged(s[l..m + 1], s[m + 1..r + 1])
    ensures SortedRange(t, l, r + 1)
  {
    SortedRangeSlice(s, l, m + 1);
    SortedRangeSlice(s, m + 1, r + 1);
    MergedSorted(s[l..m + 1], s[m + 1..r + 1]);
    SortedRangeSlice(t, l, r + 1);
  }

  /** The step of mergeSort(l, r): after the two recursive calls (s1, s2) and
      merge (s3), [l..r] is sorted and nothing outside it changed since s0. */
  lemma MergeSortCombine(s0: seq<int>, s1: seq<int>, s2: seq<int>, s3: seq<int>, l: int, m: int, r: int)
    requires 0 <= l <= m < r < |s0|
    requires SortedRange(s1, l, m + 1) && EqualOutside(s1, s0, l, m + 1)
    requires SortedRange(s2, m + 1, r + 1) && EqualOutside(s2, s1, m + 1, r + 1)
    requires EqualOutside(s3, s2, l, r + 1) && s3[l..r + 1] == Merged(s2[l..m + 1], s2[m + 1..r + 1])
    ensures SortedRange(s3, l, r + 1) && EqualOutside(s3, s0, l, r + 1)
  {
    SortedRangeFrame(s1, s2, l, m + 1);
    MergedRunsSorted(s2, s3, l, m, r);
  }

  /** The state of partition's loop, with pivot a0[high]: [low..i] holds values
      below the pivot, (i..j) values at least the pivot, and the array is a
      permutation of a0 that differs from it only in [low..high). */
  predicate Partitioning(s: seq<int>, a0: seq<int>, low: int, high: int, i: int, j: int) {
    0 <= low <= j <= high < |a0| == |s| && low - 1 <= i < j && s[high] == a0[high] &&
    (forall k :: low <= k <= i ==> s[k] < a0[high]) &&
    (forall k :: i < k < j ==> s[k] >= a0[high]) &&
    multiset(s) == multiset(a0) && EqualOutside(s, a0, low, high)
  }

  /** A value below the pivot is exchanged into the low part, which grows by one. */
  lemma PartitionSwapStep(s: seq<int>, t: seq<int>, a0: seq<int>, low: int, high: int, i: int, j: int)
    requires j < high && Partitioning(s, a0, low, high, i - 1, j) && s[j] < a0[high]
    requires Swapped(s, t, i, j)
    ensures Partitioning(t, a0, low, high, i, j + 1)
  {
    SwapPermutation(s, t, i, j);
  }

  /** The pivot is exchanged into i + 1, between the two parts. */
  lemma PartitionDone(s: seq<int>, t: seq<int>, a0: seq<int>, low: int, high: int, i: int)
    requires Partitioning(s, a0, low, high, i, high)
    requires Swapped(s, t, i + 1, high)
    ensures low <= i + 1 <= high && t[i + 1] == a0[high]
    ensures forall k :: low <= k < i + 1 ==> t[k] < t[i + 1]
    ensures forall k :: i + 1 < k <= high ==> t[k] >= t[i + 1]
    ensures multiset(t) == multiset(a0) && EqualOutside(t, a0, low, high + 1)
  {
    SwapPermutation(s, t, i + 1, high);
  }

  /** After partition (s0 to s1) and both recursive calls of quickSort (s2,
      s3), [low..high] is sorted: the left part's values stay below the pivot
      and the right part's values stay at or above it. */
  lemma QuickSortCombine(s0: seq<int>, s1: seq<int>, s2: seq<int>, s3: seq<int>, low: int, p: int, high: int)
    requires 0 <= low <= p <= high < |s1|
    requires EqualOutside(s1, s0, low, high + 1)
    requires forall k :: low <= k < p ==> s1[k] < s1[p]
    requires forall k :: p < k <= high ==> s1[k] >= s1[p]
    requires SortedRange(s2, low, p)
    requires multiset(s2) == multiset(s1) && EqualOutside(s2, s1, low, p)
    requires SortedRange(s3, p + 1, high + 1)
    requires multiset(s3) == multiset(s2) && EqualOutside(s3, s2, p + 1, high + 1)
    ensures SortedRange(s3, low, high + 1) && EqualOutside(s3, s0, low, high + 1)
  {
    var pivot := s1[p];
    assert s3[p] == s2[p] == pivot;
    SortedRangeFrame(s2, s3, low, p);
    if low < p {
      BelowAfterPermutation(s1, s2, low, p, pivot);
      assert s3[p - 1] == s2[p - 1];
    }
    SortedRangeJoin(s3, low, p, p + 1);
    if p < high {
      assert forall k :: p + 1 <= k < high + 1 ==> s2[k] == s1[k];
      AtLeastAfterPermutation(s2, s3, p + 1, high + 1, pivot);
    }
    SortedRangeJoin(s3, low, p + 1, high + 1);
  }

  /** Rearranging the slots [lo, hi) keeps every one of them below x. */
  lemma BelowAfterPermutation(s: seq<int>, t: seq<int>, lo: int, hi: int, x: int)
    requires 0 <= lo <= hi <= |s|
    requires EqualOutside(t, s, lo, hi) && multiset(s) == multiset(t)
    requires forall k :: lo <= k < hi ==> s[k] < x
    ensures forall k :: lo <= k < hi ==> t[k] < x
  {
    RangePermutation(s, t, lo, hi);
    SliceBounds(s, lo, hi, x);
    BoundsPermutation(s[lo..hi], t[lo..hi], x);
    forall k | lo <= k < hi ensures t[k] < x {
      assert t[k] == t[lo..hi][k - lo] && t[lo..hi][k - lo] in t[lo..hi];
    }
  }

  /** Rearranging the slots [lo, hi) keeps every one of them at least x. */
  lemma AtLeastAfterPermutation(s: seq<int>, t: seq<int>, lo: int, hi: int, x: int)
    requires 0 <= lo <= hi <= |s|
    requires EqualOutside(t, s, lo, hi) && multiset(s) == multiset(t)
    requires forall k :: lo <= k < hi ==> x <= s[k]
    ensures forall k :: lo <= k < hi ==> x <= t[k]
  {
    RangePermutation(s, t, lo, hi);
    SliceBounds(s, lo, hi, x);
    BoundsPermutation(s[lo..hi], t[lo..hi], x);
    forall k | lo <= k < hi ensures x <= t[k] {
      assert t[k] == t[lo..hi][k - lo] && t[lo..hi][k - lo] in t[lo..hi];
    }
  }

  /** Bounds on the slots of a range are bounds on the values of its slice. */
  lemma SliceBounds(s: seq<int>, lo: int, hi: int, x: int)
    requires 0 <= lo <= hi <= |s|
    ensures (forall k :: lo <= k < hi ==> s[k] < x) ==> AllBelow(s[lo..hi], x)
    ensures (forall k :: lo <= k < hi ==> x <= s[k]) ==> AllAtLeast(s[lo..hi], x)
  {
    forall v | v in s[lo..hi] ensures exists k :: lo <= k < hi && s[k] == v {
      var k :| 0 <= k < hi - lo && s[lo..hi][k] == v;
      assert s[lo + k] == v;
    }
  }

  /** heapify's swap and its recursive call only rearrange [0, n). */
  lemma SiftFrame(s: seq<int>, t: seq<int>, u: seq<int>, n: int, i: int, c: int)
    requires Swapped(s, t, i, c) && i < n && c < n
    requires multiset(u) == multiset(t) && EqualOutside(u, t, 0, n)
    ensures multiset(u) == multiset(s) && EqualOutside(u, s, 0, n)
  {
    SwapPermutation(s, t, i, c);
  }

  /** The state of heapSort's second loop over a permutation s of a0: [0, i]
      is a max-heap, [i + 1, n) is sorted and no heap value exceeds it. At
      i = 0 the whole array is sorted. */
  predicate Extracting(s: seq<int>, a0: seq<int>, i: int) {
    0 <= i < |s| && HeapFrom(s, i + 1, 0) && SortedRange(s, i + 1, |s|) &&
    (i + 1 < |s| ==> forall k :: 0 <= k <= i ==> s[k] <= s[i + 1]) &&
    multiset(s) == multiset(a0)
  }

  /** The root swap (s to t) and heapify(i, 0) (t to u) move the loop on by one. */
  lemma ExtractNext(s: seq<int>, t: seq<int>, u: seq<int>, a0: seq<int>, i: int)
    requires 0 < i && Extracting(s, a0, i) && Swapped(s, t, 0, i)
    requires HeapFrom(u, i, 0) && multiset(u) == multiset(t) && EqualOutside(u, t, 0, i)
    ensures Extracting(u, a0, i - 1)
  {
    SwapPermutation(s, t, 0, i);
    ExtractOrder(s, t, u, i, |s|);
  }

  /** One extraction step of heapSort: s before the root swap, t after it, u
      after re-heapifying [0, i). The sorted suffix grows by one slot. */
  lemma ExtractOrder(s: seq<int>, t: seq<int>, u: seq<int>, i: int, n: int)
    requires 0 < i < n == |s| == |t| == |u|
    requires HeapFrom(s, i + 1, 0)
    requires SortedRange(s, i + 1, n)
    requires i + 1 < n ==> forall k :: 0 <= k <= i ==> s[k] <= s[i + 1]
    requires Swapped(s, t, 0, i)
    requires multiset(u) == multiset(t) && EqualOutside(u, t, 0, i)
    ensures SortedRange(u, i, n)
    ensures forall k :: 0 <= k < i ==> u[k] <= u[i]
  {
    SortedRangeFrame(s, u, i + 1, n);
    forall k | 0 <= k <= i ensures s[k] <= s[0] {
      HeapRootMax(s, i + 1, k);
    }
    RangePermutation(t, u, 0, i);
    assert AllAtMost(t[..i], u[i]) by {
      forall v | v in t[..i] ensures v <= u[i] {
        var k :| 0 <= k < i && t[..i][k] == v;
        assert t[k] == v;
      }
    }
    BoundsPermutation(t[..i], u[..i], u[i]);
    forall k | 0 <= k < i ensures u[k] <= u[i] {
      assert u[k] == u[..i][k] && u[k] in u[..i];
    }
  }
}
