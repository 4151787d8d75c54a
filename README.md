# SortingVisualizer sort engine in Dafny

A model of the sorting core of `SortingVisualizer`, a Swing desktop application
that animates six in-place sorting algorithms over an array of bar heights.

- The class `SortEngine.SortingVisualizer` holds the state the algorithms read
  and change:
  - the `int[] array` field, modelled as `arr: array<int>` because `array` is a
    reserved word in Dafny;
  - the step counters `comparisons` and `swaps`;
  - the `sorting` flag.
- Every algorithm is a method on that array. `swap` exchanges two slots, and the
  counters are incremented at the same program points as in the Java code.
  - bubble sort;
  - selection sort, with a first-minimum scan;
  - insertion sort, which shifts values right;
  - top-down merge sort, with value buffers `L`/`R` and ties taken from the left;
  - quick sort, with a Lomuto partition that uses the last element as pivot;
  - heap sort, with a recursive `heapify`.
- Array generation, the resize guard, reset and the start guard are small
  methods on the same class.

Files:

- `sort_spec.dfy`, module `SortSpec`: value-level definitions and their lemmas.
  - `SortedRange` and `Sorted`.
  - `MergeFrom`/`Merged`, the merge of two runs with ties to the left.
  - `ComparisonsFrom`/`MergeComparisons`, the comparisons a merge makes.
  - `Inversions` and `CountGreater`.
  - `Pairs`, which is n(n-1)/2.
  - `MergeSortMoves`/`MergeMoves`, the placements of merge sort.
- `heap_spec.dfy`, module `HeapSpec`: the max-heap property on `array[0..n)`.
  - `HeapFrom`, for edges whose parent is at or after `lo`.
  - `HeapExcept`, the state in which `heapify` is entered.
  - The sift, build and extraction steps.
- `engine.dfy`, module `SortEngine`: the class, plus the per-step lemmas its
  loops use, stated on snapshots `arr[..]` of the array.

Each sorting method is proved against its specification.

- **Every sort:**
  - Leaves `arr` sorted and a permutation of its input, including the empty
    array.
  - Never decreases a counter.
- **Bubble and selection sort:** each adds exactly `Pairs(n)` comparisons.
- **Bubble sort:** adds one swap per inversion of the input.
- **Selection sort:** adds at most n-1 swaps.
- **Insertion sort:**
  - Adds the same amount to both counters.
  - That amount is the number of inversions, so zero on sorted input
    (`SortedNoInversions`).
- **Merge:**
  - Writes exactly `Merged(L, R)` into `[l..r]` and leaves the rest of the
    array unchanged.
  - Adds `MergeComparisons(L, R)` comparisons and `r-l+1` swaps.
- **Partition:** splits around the pivot.
- **Heapify:** restores the heap property.

Insertion sort counts a comparison only inside the body of its shifting loop
(`src/SortingVisualizer.java:239`), so only the `array[j] > key` tests that succeed are counted.
Counting every such test would give 5 comparisons on `[4,2,7,1]`. The code
counts 4, which is also its number of shifts: the array ends as `[1,2,4,7]` and
both counters grow by 4 (`SortEngine.InsertionSortExample`).

## Model

| member | source | states |
|---|---|---|
| SortEngine.SortingVisualizer.constructor | src/SortingVisualizer.java:31-32 | a fresh array of ARRAY_SIZE = 100 slots, slot k holding draws[k] + 10 (so in [10, 509]), counters 0, not sorting |
| SortEngine.SortingVisualizer.GenerateRandomArray | src/SortingVisualizer.java:107-115 | slot k becomes draws[k] + 10 for a draw in [0, 500), so every slot is in [10, 509]; both counters are reset to 0 |
| SortEngine.SortingVisualizer.Resize | src/SortingVisualizer.java:81-87 | while a sort runs nothing changes; otherwise a fresh array of the new size is generated and the counters are reset |
| SortEngine.SortingVisualizer.Reset | src/SortingVisualizer.java:158-170 | clears the sorting flag and regenerates the same array object in place with counters 0 |
| SortEngine.SortingVisualizer.StartSorting | src/SortingVisualizer.java:117-151 | ignored (nothing changes) while a sort runs; otherwise the chosen algorithm leaves the array sorted and a permutation of its input, the counters not decreased, and the flag cleared; bubble sort adds exactly Pairs(n) comparisons and one swap per inversion, selection sort Pairs(n) comparisons and at most n-1 swaps, insertion sort the inversion count to both counters, and merge sort MergeMoves(0, n-1) swaps |
| SortEngine.SortingVisualizer.Swap | src/SortingVisualizer.java:392-397 | slots i and j are exchanged and every other slot is unchanged |
| SortSpec.SwapPermutation | src/SortingVisualizer.java:392-397 | an exchange keeps the multiset of the array |
| SortEngine.SortingVisualizer.BubbleSort | src/SortingVisualizer.java:190-206 | sorted, a permutation of the input, exactly n(n-1)/2 comparisons (Pairs(n)), and exactly one swap per inversion of the input |
| SortEngine.SortingVisualizer.BubblePass | src/SortingVisualizer.java:192-203 | pass i makes n-i-1 comparisons, one swap per inversion it removes, and leaves the maximum of [0, n-i) at n-i-1 with the suffix sorted |
| SortEngine.BubbleSwapStep | src/SortingVisualizer.java:197-200 | exchanging an out-of-order adjacent pair carries the running maximum forward and removes exactly one inversion |
| SortSpec.AdjacentSwapInversions | src/SortingVisualizer.java:197-198 | exchanging an adjacent pair with s[j] > s[j+1] lowers the inversion count by exactly one |
| SortSpec.PairsFormula | src/SortingVisualizer.java:191-194 | 2 * Pairs(n) == n(n-1): the nested loops compare n(n-1)/2 times |
| SortSpec.PassComparisonsTotal | src/SortingVisualizer.java:191-194 | the passes compare (n-1) + (n-2) + ... + 1 times in total |
| SortSpec.DecreasingInversions | src/SortingVisualizer.java:197-199 | a strictly decreasing input has n(n-1)/2 inversions, so bubble sort then swaps on every comparison |
| SortEngine.SortingVisualizer.SelectionSort | src/SortingVisualizer.java:209-229 | sorted, a permutation of the input, exactly n(n-1)/2 comparisons, and at most n-1 swaps (one per pass with minIdx != i) |
| SortEngine.SortingVisualizer.MinIndex | src/SortingVisualizer.java:211-221 | returns the first index of the minimum of [i, n), after n-i-1 comparisons |
| SortEngine.SortingVisualizer.InsertionSort | src/SortingVisualizer.java:232-252 | sorted, a permutation of the input, both counters grow by the same amount, which is the number of inversions of the input |
| SortEngine.SortingVisualizer.Insert | src/SortingVisualizer.java:234-249 | pass i extends the sorted prefix to [0, i], permutes [0, i] only, and counts one comparison and one swap per value before i greater than the key |
| SortEngine.ShiftStep | src/SortingVisualizer.java:237-243 | one shift `array[j+1] = array[j]` of a value greater than the key keeps the shifting state |
| SortEngine.InsertionDone | src/SortingVisualizer.java:248 | dropping the key into the gap sorts [0, i], permutes it, and the number of shifts equals the number of earlier values greater than the key |
| SortEngine.InsertionCount | src/SortingVisualizer.java:233-250 | inserting the i-th input value adds its inversions with the values before it |
| SortSpec.SortedNoInversions | src/SortingVisualizer.java:237-248 | a sorted sequence has no inversions, so insertion sort adds 0 to both counters and bubble sort 0 swaps on sorted input |
| SortSpec.InsertionExample | src/SortingVisualizer.java:237-248 | [4, 2, 7, 1] has 4 inversions: one value before 2 is greater, none before 7, three before 1 |
| SortEngine.InsertionSortExample | src/SortingVisualizer.java:232-252 | insertion sort on [4, 2, 7, 1] leaves [1, 2, 4, 7] and adds exactly 4 to each counter |
| SortEngine.SortingVisualizer.MergeSort | src/SortingVisualizer.java:255-262 | [l..r] sorted, a permutation, nothing outside [l..r] changed, exactly MergeMoves(l, r) swaps whatever the values |
| SortEngine.MergeSortCombine | src/SortingVisualizer.java:258-260 | two sorted halves merged give a sorted [l..r], and only [l..r] changed |
| SortSpec.MergeMovesLength | src/SortingVisualizer.java:255-262 | the number of placements depends only on the length: MergeMoves(l, r) == MergeSortMoves(r-l+1) |
| SortSpec.MergeSortMovesPow2 | src/SortingVisualizer.java:255-262 | on 2^k elements merge sort places exactly k * 2^k values |
| SortEngine.SortingVisualizer.Merge | src/SortingVisualizer.java:264-305 | [l..r] becomes the merge of the old runs [l..m] and [m+1..r] (ties from the left), nothing else changes, the multiset is kept, comparisons grow by MergeComparisons of the runs and swaps by r-l+1 |
| SortEngine.SortingVisualizer.MergeRuns | src/SortingVisualizer.java:274-290 | while both buffers have values, each step compares once and writes the next value of the merge; it stops with one buffer used up |
| SortEngine.SortingVisualizer.CopyRest | src/SortingVisualizer.java:292-304 | the leftovers of L then R complete the merge, one swap per value copied |
| SortEngine.WriteStep | src/SortingVisualizer.java:282-284 | one write `array[k] = x` extends what is written back by x and changes nothing outside [l..r] |
| SortEngine.MergeDone | src/SortingVisualizer.java:264-305 | once [l..r] holds the merge, the array is a permutation of its old contents |
| SortEngine.MergePermutation | src/SortingVisualizer.java:264-305 | writing the merge of the two runs back into [l..r] keeps the multiset of the array |
| SortEngine.MergedRunsSorted | src/SortingVisualizer.java:264-305 | merging two sorted adjacent runs gives a sorted range |
| SortSpec.MergedPermutation | src/SortingVisualizer.java:276-304 | the merge holds exactly the values of both runs |
| SortSpec.MergedSorted | src/SortingVisualizer.java:276-304 | the merge of two sorted runs is sorted |
| SortSpec.MergeComparisonsBounds | src/SortingVisualizer.java:276-278 | a merge compares at least as often as the shorter run is long and at most one time fewer than the two runs' total length, and never when a run is empty |
| SortSpec.MergedOrderedRuns | src/SortingVisualizer.java:281 | ties go left: runs already in order (last left value at most the first right one, equal included) merge to their concatenation with one comparison per left value |
| SortEngine.SortingVisualizer.QuickSort | src/SortingVisualizer.java:308-314 | [low..high] sorted, a permutation, nothing outside [low..high] changed |
| SortEngine.QuickSortCombine | src/SortingVisualizer.java:309-313 | the two recursively sorted sides around the pivot form a sorted [low..high], because permuting a side keeps its bound against the pivot |
| SortEngine.SortingVisualizer.Partition | src/SortingVisualizer.java:316-338 | returns p in [low, high] with array[p] the old array[high], [low, p) below it, (p, high] at least it, a permutation changing only [low..high], high-low comparisons and p-low+1 swaps |
| SortEngine.PartitionSwapStep | src/SortingVisualizer.java:325-329 | moving a value below the pivot into the low part keeps the partition invariant |
| SortEngine.PartitionDone | src/SortingVisualizer.java:334-337 | the final swap puts the pivot between the part below it and the part at or above it |
| SortEngine.BelowAfterPermutation | src/SortingVisualizer.java:311 | rearranging [low, p) keeps all of it below the pivot |
| SortEngine.AtLeastAfterPermutation | src/SortingVisualizer.java:312 | rearranging (p, high] keeps all of it at least the pivot |
| SortEngine.SortingVisualizer.HeapSort | src/SortingVisualizer.java:341-356 | sorted, a permutation, counters not decreased, at least n-1 swaps |
| HeapSpec.LeavesAreHeaps | src/SortingVisualizer.java:344 | the nodes from n/2 on have no children, so the build loop starts from a heap there |
| HeapSpec.BuildStep | src/SortingVisualizer.java:344-346 | heapify(n, i) is entered with the subtrees after i already heaps |
| SortEngine.SortingVisualizer.Heapify | src/SortingVisualizer.java:358-390 | entered with the heap property holding from lo on except at i, leaves it holding from lo on, keeps the multiset and changes nothing at or after n |
| HeapSpec.SiftDone | src/SortingVisualizer.java:383 | when i dominates its children the heap property holds from lo on |
| HeapSpec.SiftStep | src/SortingVisualizer.java:383-388 | exchanging i with its larger child moves the defect down to that child |
| SortEngine.SiftFrame | src/SortingVisualizer.java:384-388 | the swap and the recursive call only rearrange [0, n) |
| HeapSpec.ExtractStep | src/SortingVisualizer.java:349 | after the root moves to the end, [0, i) is a heap except at the root |
| HeapSpec.HeapRootMax | src/SortingVisualizer.java:348-353 | the root of a heap is its maximum |
| SortEngine.ExtractNext | src/SortingVisualizer.java:348-353 | each extraction step keeps the loop state: [0, i) a heap, the suffix sorted and no smaller than any heap value |
| SortEngine.ExtractOrder | src/SortingVisualizer.java:348-353 | after the step array[i] is the maximum of [0..i] and [i, n) is sorted |
| SortSpec.SortedUnique | src/SortingVisualizer.java:190-390 | two sorted permutations of one multiset are equal, so all six sorts leave the same array |

## Left out

- The Swing user interface is not modelled: the window, control panel, buttons, sliders, combo box, status labels, `updateStats`, `SortPanel` and its painting, which uses floating point. Highlight and repaint calls do not touch the modelled state and are not modelled.
- `delay()` is not modelled. It sleeps, polls the pause flag and throws `InterruptedException` on cancellation. Its effect on the array is none when it returns, so the model has each algorithm run to completion.
- The pause flag, `togglePause`, and cancellation followed by the "Stopped" status are not modelled.
- The worker thread is not modelled. `SortEngine.SortingVisualizer.StartSorting` runs the chosen algorithm synchronously and clears the flag when it returns. So no sequence of the class's methods leaves `sorting` true. `sorting == true` stands for a run in progress on the worker thread, and a caller sets the field to model that state; the guards in `Resize` and `StartSorting` are stated for it.
- `SortEngine.SortingVisualizer.Reset`: a reset during a running sort cancels that sort in the source; the model cannot express concurrent runs, so it only clears the flag and regenerates the array.
- `java.util.Random` is not modelled. Its draws are a parameter `draws`, each in [0, 500).
- Java `int` wrap-around of `comparisons` and `swaps` is not modelled; the counters are unbounded integers. One run on at most 200 slots (the size slider's range) adds at most 20099 to a counter and at most 19900 to the others. The 20099 is quick sort's swaps on strictly increasing input: every value is below the pivot, so a range of m slots costs m swaps (self-swaps included), giving n(n+1)/2 - 1 in all. The counters are reset only when an array is generated, so wrap-around needs about 10^5 runs in a row without a Reset or a Resize. The model does not bound the size `Resize` accepts.
- `SortEngine.SortingVisualizer.QuickSort`: states only that the counters do not decrease; exact counts are stated per call of `Partition`.
- `SortEngine.SortingVisualizer.HeapSort`: states only that comparisons do not decrease and that swaps grow by at least n-1; the counts made by `Heapify` depend on the values and are not pinned down.
- `SortEngine.SortingVisualizer.Heapify`: states only that the counters do not decrease.
- `SortEngine.SortingVisualizer.MergeSort`: states only that comparisons do not decrease; the exact count of each merge is stated by `Merge`.
- `SortEngine.SortingVisualizer.Heapify` has an extra ghost parameter `lo`. It says from which parent on the heap property is meant: `i` in the build loop and 0 in the extraction loop.
- Some loops are separate methods. These are the inner loops of bubble sort (`BubblePass`), selection sort (`MinIndex`) and insertion sort (`Insert`), and the first loop (`MergeRuns`) and last two loops (`CopyRest`) of `merge`. Their code, order of writes and counter updates are the source's.
- The buffers `L` and `R` of `merge` are `seq` values copied from the array. They are only read after the copy, so no aliasing is lost.
