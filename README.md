# prose-lang generated examples, modelled in Dafny

This project models the core of the example programs that prose-lang
generates, and proves properties of them:

- **The Rust sort library** (`sort/src`). The model covers all the
  comparison sorts in `basic_sorts.rs`, `advanced_sorts.rs` and
  `esoteric_sorts.rs`, and the integer sorts in `distribution_sorts.rs`.
  - Every routine that works in place on a slice is a `method` on an
    `array<int>`, with the source's loops and their invariants.
  - Each is proved to leave the array sorted and to be a permutation of
    its input.
  - Each loop that repeats until a pass makes no swap is proved to
    terminate. The measure is the weight `Σ k·a[k]`: every exchange of an
    out-of-order pair raises it, and it is bounded over all permutations
    of the input.
  - The shared definitions are in `sort_spec.dfy`.
  - `cycle` is in `cycle_sort.dfy`, the other esoteric sorts in
    `esoteric_sorts.dfy`.
- **The deterministic Knuth shuffle** (`knuth_shuffle.dfy`). The Rust,
  Python and Go programs are modelled side by side. They share a linear
  congruential generator (a = 1103515245, c = 12345, m = 2^31) and
  Algorithm P of section 3.4.2 of Knuth's "The Art of Computer
  Programming", volume 2.
  - The module `LcgSpec` is the reference definition.
  - Each implementation keeps the generator state where the source does:
    a struct field, a Python module global, a Go package variable.
  - Each implementation is proved to produce exactly the reference
    shuffle and the reference generator state.
- **The hello-world micro-service** (`greeting.dfy`), in its TypeScript
  handler (`handleRequest`) and its Go handler (`sayHello`).
  - The greeting rule: "Vanakam World" when a name is missing or empty,
    otherwise "Vanakam <last>, <first>", trimmed.
  - The routing and the response each handler writes.
  - The condition under which both handlers give the same message. The
    trims disagree on two characters.
- **The two keypad calculators** (`calculator.dfy`): `App.tsx`, which
  displays Mandarin digits, and `Calculator.js`, which stores Devanagari
  digits.
  - Each component's state is a class. `inputDigit`, `inputDot`, `clear`
    and `performOperation` are methods on it.
  - The digit conversions are functions, with round-trip lemmas.
  - JavaScript's number arithmetic is a parameter: `parseFloat`, `+ - * /`
    and `String(x)` on floating point.
- **The library front end's root component** (`library_app.dfy`): the
  cart with `addToCart`, `removeFromCart`, `clearCart` and `logout`, the
  sign-in handlers, and the page the router shows.
  - The cart never holds two books with the same id.

Elements of the generic sorts (`T: Ord`) are modelled as `int`. Integers
are unbounded. The three places where the source's `i32` arithmetic
leaves its range are modelled separately, under "## Findings".

## Model

| member | source | states |
|---|---|---|
| BasicSorts.Insertion | examples/algorithms/sort/generated/sort/src/basic_sorts.rs:1-10 | insertion sort leaves the slice sorted and a permutation of its input |
| BasicSorts.InsertStep | examples/algorithms/sort/generated/sort/src/basic_sorts.rs:4-8 | the inner loop of insertion extends the sorted prefix by one slot, permutes, and touches nothing outside the prefix |
| BasicSorts.InsertionSlice | examples/algorithms/sort/generated/sort/src/basic_sorts.rs:1-10 | insertion applied to a sub-slice sorts that window, permutes it, and leaves everything outside it unchanged (as timsort's run sorting uses it) |
| BasicSorts.Selection | examples/algorithms/sort/generated/sort/src/basic_sorts.rs:12-24 | selection sort sorts and permutes; the empty slice is returned at once |
| BasicSorts.Bubble | examples/algorithms/sort/generated/sort/src/basic_sorts.rs:26-39 | bubble sort terminates with the slice sorted and permuted |
| BasicSorts.ExchangeRow | examples/algorithms/sort/generated/sort/src/basic_sorts.rs:45-49 | after the inner loop for i, slot i is at most every later slot, and the earlier slots keep that property |
| BasicSorts.Exchange | examples/algorithms/sort/generated/sort/src/basic_sorts.rs:41-51 | exchange sort sorts and permutes |
| BasicSorts.CarryStep | examples/algorithms/sort/generated/sort/src/basic_sorts.rs:57-61 | one outer step of simple/improved_simple extends the sorted prefix to slot i and permutes |
| BasicSorts.Simple | examples/algorithms/sort/generated/sort/src/basic_sorts.rs:53-63 | simple sort (swap whenever arr[i] < arr[j] for all i, j) sorts and permutes |
| BasicSorts.ImprovedSimple | examples/algorithms/sort/generated/sort/src/basic_sorts.rs:65-75 | improved_simple (i from 1, j up to len - 2) sorts and permutes; slices of length at most one are left alone |
| BasicSorts.CocktailForward | examples/algorithms/sort/generated/sort/src/basic_sorts.rs:85-94 | the forward pass moves the maximum of [start, end] to the end, returns the last swap position, and raises the weight when it swaps |
| BasicSorts.CocktailBackward | examples/algorithms/sort/generated/sort/src/basic_sorts.rs:97-106 | the backward pass moves the minimum to the front of the range and returns the new start |
| BasicSorts.Cocktail | examples/algorithms/sort/generated/sort/src/basic_sorts.rs:77-108 | cocktail sort terminates with the slice sorted and permuted |
| BasicSorts.Comb | examples/algorithms/sort/generated/sort/src/basic_sorts.rs:110-128 | comb sort (gap * 10 / 13, at least 1) terminates sorted and permuted, the empty slice included |
| BasicSorts.OddEvenPass | examples/algorithms/sort/generated/sort/src/basic_sorts.rs:138-150 | a pass over the pairs starting at an odd or even index orders each pair, and it changes nothing exactly when it reports no swap |
| BasicSorts.OddEvenSort | examples/algorithms/sort/generated/sort/src/basic_sorts.rs:130-152 | odd-even sort terminates sorted and permuted |
| SortSpec.Swap | examples/algorithms/sort/generated/sort/src/basic_sorts.rs:6 | `slice::swap` exchanges two slots and leaves the rest unchanged |
| SortSpec.CopyInto | examples/algorithms/sort/generated/sort/src/advanced_sorts.rs:76 | `clone_from_slice` onto a window: the window becomes the source and the rest of the slice is unchanged; over the whole slice, the slice becomes the source |
| SortSpec.CompareExchange | examples/algorithms/sort/generated/sort/src/basic_sorts.rs:33-36 | swap-if-out-of-order swaps exactly when the pair is out of order; a swap strictly raises the weight |
| SortSpec.AdjacentSortedIsSorted | examples/algorithms/sort/generated/sort/src/basic_sorts.rs:30-38 | a pass that finds no adjacent pair out of order proves the whole slice sorted |
| SortSpec.SwapRaisesWeight | examples/algorithms/sort/generated/sort/src/basic_sorts.rs:33-36 | exchanging an out-of-order pair strictly raises Σ k·a[k], the termination measure of the swap-until-stable loops |
| SortSpec.WeightBound | examples/algorithms/sort/generated/sort/src/basic_sorts.rs:30 | every permutation of the input weighs at most len times the sum of the absolute values, so the measure is bounded |
| SortSpec.CountBelowPermutation | examples/algorithms/sort/generated/sort/src/esoteric_sorts.rs:34-38 | permutations have the same number of members below every value, the count cycle sort's position is built from |
| SortSpec.ReversedPermutation | examples/algorithms/sort/generated/sort/src/distribution_sorts.rs:70 | reversing is a permutation |
| AdvancedSorts.Partition | examples/algorithms/sort/generated/sort/src/advanced_sorts.rs:4-14 | Lomuto partition returns p in [low, high] with the old arr[high] at p, everything in [low, p) at most it and everything in (p, high] greater; nothing outside [low, high] moves |
| AdvancedSorts.PartitionScan | examples/algorithms/sort/generated/sort/src/advanced_sorts.rs:5-11 | the scan loop leaves the elements at most the pivot in [low, index] and the greater ones in (index, high) |
| AdvancedSorts.QuicksortRange | examples/algorithms/sort/generated/sort/src/advanced_sorts.rs:16-22 | quicksort_range sorts arr[low..=high] and leaves the rest of the slice unchanged |
| AdvancedSorts.QuicksortCombine | examples/algorithms/sort/generated/sort/src/advanced_sorts.rs:18-20 | sorting both sides of a partition sorts the range |
| AdvancedSorts.Quicksort | examples/algorithms/sort/generated/sort/src/advanced_sorts.rs:24-28 | quicksort sorts and permutes |
| AdvancedSorts.MergeArrays | examples/algorithms/sort/generated/sort/src/advanced_sorts.rs:30-52 | merge_arrays returns the merge of its inputs (ties taken from the left input) |
| AdvancedSorts.MergedFacts | examples/algorithms/sort/generated/sort/src/advanced_sorts.rs:30-52 | the merge holds exactly the elements of both inputs and is sorted when both inputs are |
| AdvancedSorts.MergedFromSorted | examples/algorithms/sort/generated/sort/src/advanced_sorts.rs:34-50 | merging the remaining parts of two sorted inputs gives a sorted sequence |
| AdvancedSorts.MergedFromPermutation | examples/algorithms/sort/generated/sort/src/advanced_sorts.rs:34-50 | merging the remaining parts loses and invents nothing |
| AdvancedSorts.PushRest | examples/algorithms/sort/generated/sort/src/advanced_sorts.rs:43-50 | the tail loops append the rest of one input |
| AdvancedSorts.MergeHalves | examples/algorithms/sort/generated/sort/src/advanced_sorts.rs:62-63 | merging two sorted halves and copying back sorts the slice with the halves' elements |
| AdvancedSorts.ToVec | examples/algorithms/sort/generated/sort/src/advanced_sorts.rs:58-59 | `to_vec` gives a fresh vector holding exactly the given elements |
| AdvancedSorts.Merge | examples/algorithms/sort/generated/sort/src/advanced_sorts.rs:54-64 | top-down merge sort sorts and permutes |
| AdvancedSorts.ParallelMerge | examples/algorithms/sort/generated/sort/src/advanced_sorts.rs:83-103 | parallel_merge sorts and permutes (the two halves sorted one after the other) |
| AdvancedSorts.MergeBlock | examples/algorithms/sort/generated/sort/src/advanced_sorts.rs:72-76 | copying two neighbouring windows out, merging them and writing back replaces the pair by its merge and leaves the rest alone |
| AdvancedSorts.MergeIterPass | examples/algorithms/sort/generated/sort/src/advanced_sorts.rs:70-78 | one pass at width step turns sorted runs of width step into sorted runs of width 2·step |
| AdvancedSorts.MergeIter | examples/algorithms/sort/generated/sort/src/advanced_sorts.rs:66-81 | bottom-up merge sort sorts and permutes |
| AdvancedSorts.HeapifyDown | examples/algorithms/sort/generated/sort/src/advanced_sorts.rs:105-120 | heapify_down restores the heap order on [i, n) given that only i was out of order, and moves nothing before i or from n on |
| AdvancedSorts.SiftSwap | examples/algorithms/sort/generated/sort/src/advanced_sorts.rs:116-118 | swapping the parent with its larger child, when that child is larger, leaves only the child out of order and covered by its new parent |
| AdvancedSorts.RootAbove | examples/algorithms/sort/generated/sort/src/advanced_sorts.rs:128-131 | the root of a max-heap is its largest element |
| AdvancedSorts.ExtractMax | examples/algorithms/sort/generated/sort/src/advanced_sorts.rs:129-130 | swapping the root behind the heap and sifting down grows the sorted suffix by one and keeps the heap |
| AdvancedSorts.HeapSort | examples/algorithms/sort/generated/sort/src/advanced_sorts.rs:122-132 | heap sort sorts and permutes |
| AdvancedSorts.ShellPass | examples/algorithms/sort/generated/sort/src/advanced_sorts.rs:138-144 | one gapped insertion pass leaves every element at most the one d places further on |
| AdvancedSorts.Shell | examples/algorithms/sort/generated/sort/src/advanced_sorts.rs:134-147 | shell sort with gaps len/2, len/4, ..., 1 sorts and permutes |
| AdvancedSorts.CalculateRunSize | examples/algorithms/sort/generated/sort/src/advanced_sorts.rs:149-158 | the run size is n itself below 8, otherwise between 4 and 8, and that many runs of 2^k (k halvings) just cover n |
| AdvancedSorts.HalvingsIsLeast | examples/algorithms/sort/generated/sort/src/advanced_sorts.rs:151-156 | the halving loop stops at the least k with n < 8·2^k |
| AdvancedSorts.SortRun | examples/algorithms/sort/generated/sort/src/advanced_sorts.rs:166-170 | each step of timsort's first loop insertion-sorts the next run and keeps the earlier runs |
| AdvancedSorts.TimsortPass | examples/algorithms/sort/generated/sort/src/advanced_sorts.rs:174-186 | one merge pass at width size (with its early break) doubles the run width |
| AdvancedSorts.Timsort | examples/algorithms/sort/generated/sort/src/advanced_sorts.rs:160-189 | timsort sorts and permutes |
| DistributionSorts.Extremes | examples/algorithms/sort/generated/sort/src/distribution_sorts.rs:5-10 | the scan finds a minimum and a maximum that are members of the data |
| DistributionSorts.Tally | examples/algorithms/sort/generated/sort/src/distribution_sorts.rs:12-15 | the tally loop builds the histogram of the data over [min, max] |
| DistributionSorts.SpreadHistogram | examples/algorithms/sort/generated/sort/src/distribution_sorts.rs:16-24 | writing each value of a histogram as often as it was counted gives the data's elements in sorted order |
| DistributionSorts.SpreadCounts | examples/algorithms/sort/generated/sort/src/distribution_sorts.rs:16-24 | a value occurs in the written-out sequence exactly as often as its tally says |
| DistributionSorts.WriteCopies | examples/algorithms/sort/generated/sort/src/distribution_sorts.rs:19-23 | the inner loop writes the value c times from z on |
| DistributionSorts.WriteSpread | examples/algorithms/sort/generated/sort/src/distribution_sorts.rs:16-24 | the write-back loop fills the data with the spread of the tallies |
| DistributionSorts.Count | examples/algorithms/sort/generated/sort/src/distribution_sorts.rs:3-25 | counting sort sorts and permutes (values unbounded; see Findings) |
| DistributionSorts.DrainHole | examples/algorithms/sort/generated/sort/src/distribution_sorts.rs:137-141 | draining hole j writes its value once per count and leaves the hole at zero |
| DistributionSorts.DrainHoles | examples/algorithms/sort/generated/sort/src/distribution_sorts.rs:135-142 | the write-back loop writes the spread of the holes and empties every hole |
| DistributionSorts.Pigeonhole | examples/algorithms/sort/generated/sort/src/distribution_sorts.rs:122-143 | pigeonhole sort sorts and permutes (values unbounded; see Findings) |
| DistributionSorts.DigitTally | examples/algorithms/sort/generated/sort/src/distribution_sorts.rs:28-32 | the first loop of count_sort counts the elements with each decimal digit at exp |
| DistributionSorts.CountSort | examples/algorithms/sort/generated/sort/src/distribution_sorts.rs:27-42 | count_sort returns its input regrouped stably by the digit at exp |
| DistributionSorts.ByDigitPermutation | examples/algorithms/sort/generated/sort/src/distribution_sorts.rs:27-42 | count_sort's output is a permutation of its input |
| DistributionSorts.ByDigitKeySorted | examples/algorithms/sort/generated/sort/src/distribution_sorts.rs:51-55 | a stable pass at exp turns order modulo exp into order modulo 10·exp (the radix sort invariant) |
| DistributionSorts.PlaceStep | examples/algorithms/sort/generated/sort/src/distribution_sorts.rs:36-40 | placing arr[i] just below its group's running end keeps every group's placed part in order |
| DistributionSorts.RadixPass | examples/algorithms/sort/generated/sort/src/distribution_sorts.rs:52-54 | one pass of unsigned_radix_sort regroups by the digit at exp and extends the order modulo 10·exp |
| DistributionSorts.QuotientZero | examples/algorithms/sort/generated/sort/src/distribution_sorts.rs:51 | the loop test `max / exp > 0` holds exactly when max >= exp |
| DistributionSorts.UnsignedRadixSort | examples/algorithms/sort/generated/sort/src/distribution_sorts.rs:44-56 | LSD radix sort of non-negative values sorts and permutes |
| DistributionSorts.SplitBySign | examples/algorithms/sort/generated/sort/src/distribution_sorts.rs:60-68 | the first loop of radix_sort collects the negated negatives and the non-negatives, in order |
| DistributionSorts.SignSplit | examples/algorithms/sort/generated/sort/src/distribution_sorts.rs:62-68 | splitting by sign loses and invents nothing |
| DistributionSorts.ReverseNegate | examples/algorithms/sort/generated/sort/src/distribution_sorts.rs:70-73 | reverse then negate each element |
| DistributionSorts.NegativesRebuilt | examples/algorithms/sort/generated/sort/src/distribution_sorts.rs:69-73 | the sorted magnitudes, reversed and negated, are the negatives in ascending order |
| DistributionSorts.RadixAssembly | examples/algorithms/sort/generated/sort/src/distribution_sorts.rs:69-83 | negatives then non-negatives, each sorted, form a sorted permutation of the input |
| DistributionSorts.WriteBack | examples/algorithms/sort/generated/sort/src/distribution_sorts.rs:75-83 | the two write-back loops fill the slice with the negatives and then the non-negatives |
| DistributionSorts.RadixSort | examples/algorithms/sort/generated/sort/src/distribution_sorts.rs:58-84 | radix sort with negatives sorts and permutes |
| DistributionSorts.RangeOverflow | examples/algorithms/sort/generated/sort/src/distribution_sorts.rs:11 | in i32, `a_max - a_min + 1` overflows exactly when the values span at least 2^31 - 1, e.g. [0, i32::MAX] |
| DistributionSorts.ExpOverflow | examples/algorithms/sort/generated/sort/src/distribution_sorts.rs:50-55 | in i32, `exp *= 10` overflows exactly when the maximum is at least 10^9 |
| DistributionSorts.NegateOverflow | examples/algorithms/sort/generated/sort/src/distribution_sorts.rs:62-64 | in i32, `-item` fails exactly when i32::MIN is present, and otherwise is the exact negation |
| EsotericSorts.IsSorted | examples/algorithms/sort/generated/sort/src/esoteric_sorts.rs:3-12 | is_sorted answers true exactly when the slice is sorted |
| EsotericSorts.Flip | examples/algorithms/sort/generated/sort/src/esoteric_sorts.rs:63-70 | flip(arr, i) reverses arr[0..=i] and leaves the rest |
| EsotericSorts.TwoFlips | examples/algorithms/sort/generated/sort/src/esoteric_sorts.rs:82-85 | flipping at max and then at i brings the old arr[max] to slot i and rearranges only the prefix |
| EsotericSorts.LargestUpTo | examples/algorithms/sort/generated/sort/src/esoteric_sorts.rs:76-81 | the inner loop of pancake finds the first index of a largest element of arr[0..=i] |
| EsotericSorts.PancakeStep | examples/algorithms/sort/generated/sort/src/esoteric_sorts.rs:76-85 | one step puts a largest element of the prefix at slot i, permuting only the prefix |
| EsotericSorts.PancakeProgress | examples/algorithms/sort/generated/sort/src/esoteric_sorts.rs:75-86 | a step that brings the prefix maximum to slot i extends the sorted suffix that dominates the prefix down to i |
| EsotericSorts.Pancake | examples/algorithms/sort/generated/sort/src/esoteric_sorts.rs:72-87 | pancake sort sorts and permutes |
| EsotericSorts.LeftmostPileAtLeast | examples/algorithms/sort/generated/sort/src/esoteric_sorts.rs:116-125 | the binary search returns the leftmost pile whose top is at least the card (or the pile count) |
| EsotericSorts.Deal | examples/algorithms/sort/generated/sort/src/esoteric_sorts.rs:116-130 | dealing a card keeps every pile non-empty and descending with strictly rising tops, and adds exactly that card |
| EsotericSorts.NewPile | examples/algorithms/sort/generated/sort/src/esoteric_sorts.rs:126-127 | a card above every top starts a new pile on the right; the piles stay descending with rising tops |
| EsotericSorts.OnPile | examples/algorithms/sort/generated/sort/src/esoteric_sorts.rs:128-129 | a card on the leftmost pile whose top is at least the card keeps that pile descending and the tops rising |
| EsotericSorts.MinTop | examples/algorithms/sort/generated/sort/src/esoteric_sorts.rs:92-101 | the scan finds the first pile with the smallest top |
| EsotericSorts.TakeMin | examples/algorithms/sort/generated/sort/src/esoteric_sorts.rs:92-106 | one round pops the smallest top, drops an emptied pile, and that card is at most every card left |
| EsotericSorts.MergePiles | examples/algorithms/sort/generated/sort/src/esoteric_sorts.rs:89-109 | merge_piles outputs exactly the cards of the piles, in sorted order when the piles are descending |
| EsotericSorts.Patience | examples/algorithms/sort/generated/sort/src/esoteric_sorts.rs:111-134 | patience sort sorts and permutes |
| EsotericSorts.ExchangeMirrorPairs | examples/algorithms/sort/generated/sort/src/esoteric_sorts.rs:138-152 | the mirror-pair loop of do_sort permutes, raises the weight when it swaps, and when it does not swap the slice is unchanged and the middle pair is ordered |
| EsotericSorts.DoSort | examples/algorithms/sort/generated/sort/src/esoteric_sorts.rs:136-157 | do_sort reports a swap exactly when it changed the range (raising the weight); reporting none means the range is sorted |
| EsotericSorts.JoinSortedRuns | examples/algorithms/sort/generated/sort/src/esoteric_sorts.rs:153-156 | two sorted halves whose boundary pair is ordered form a sorted range |
| EsotericSorts.Circle | examples/algorithms/sort/generated/sort/src/esoteric_sorts.rs:159-163 | circle sort terminates with the slice sorted and permuted |
| EsotericSorts.OrderEnds | examples/algorithms/sort/generated/sort/src/esoteric_sorts.rs:166-168 | the first step of inner_stooge orders arr[i] and arr[j] |
| EsotericSorts.InnerStooge | examples/algorithms/sort/generated/sort/src/esoteric_sorts.rs:165-175 | inner_stooge(arr, i, j) turns the array into the stooge-sorted window [i, j], everything else unchanged |
| EsotericSorts.SortThirds | examples/algorithms/sort/generated/sort/src/esoteric_sorts.rs:169-174 | the three recursive calls stooge-sort the first two thirds, then the last two thirds, then the first two thirds again |
| EsotericSorts.SortFrontBack | examples/algorithms/sort/generated/sort/src/esoteric_sorts.rs:171-172 | the first two recursive calls stooge-sort the first two thirds and then the last two thirds |
| EsotericSorts.StoogedSorts | examples/algorithms/sort/generated/sort/src/esoteric_sorts.rs:165-175 | stooge sorting a window sorts it and permutes it |
| EsotericSorts.StoogeThirds | examples/algorithms/sort/generated/sort/src/esoteric_sorts.rs:169-174 | sorting the first two thirds, the last two thirds and the first two thirds again sorts a window of three or more |
| EsotericSorts.Stooge | examples/algorithms/sort/generated/sort/src/esoteric_sorts.rs:177-181 | stooge sort sorts and permutes |
| EsotericSorts.StoogedWhole | examples/algorithms/sort/generated/sort/src/esoteric_sorts.rs:177-181 | stooge-sorting the window spanning the whole slice sorts it and permutes it |
| CycleSort.CountLess | examples/algorithms/sort/generated/sort/src/esoteric_sorts.rs:33-38 | the counting loop sets pos to cycle plus the number of later elements below elem |
| CycleSort.SkipEqual | examples/algorithms/sort/generated/sort/src/esoteric_sorts.rs:42-44 | skipping copies of elem stops inside elem's home range, at a slot not holding elem |
| CycleSort.HomesDisjoint | examples/algorithms/sort/generated/sort/src/esoteric_sorts.rs:42-45 | different values have disjoint home ranges |
| CycleSort.HomeCountUpdate | examples/algorithms/sort/generated/sort/src/esoteric_sorts.rs:45 | writing a value into its home range over one that was not at home raises the number of slots at home: the termination measure of `while pos != cycle` |
| CycleSort.Rotated | examples/algorithms/sort/generated/sort/src/esoteric_sorts.rs:45-58 | each write of the cycle either closes it or leaves the displaced element carried, with nothing lost |
| CycleSort.CloseCycle | examples/algorithms/sort/generated/sort/src/esoteric_sorts.rs:46-59 | the inner while loop terminates with the cycle closed |
| CycleSort.CycleAt | examples/algorithms/sort/generated/sort/src/esoteric_sorts.rs:32-59 | one outer step leaves the smallest remaining value at slot cycle and permutes the rest |
| CycleSort.CycleExtends | examples/algorithms/sort/generated/sort/src/esoteric_sorts.rs:31-60 | a closed cycle extends the sorted, split prefix by one slot |
| CycleSort.Cycle | examples/algorithms/sort/generated/sort/src/esoteric_sorts.rs:28-61 | cycle sort sorts and permutes |
| LcgSpec.Step | examples/algorithms/rand/generated/knuth_random_shuffle/rust/src/main.rs:30-33 | one generator step stays below 2^31 |
| LcgSpec.StepFitsU64 | examples/algorithms/rand/generated/knuth_random_shuffle/rust/src/main.rs:31 | from a state below 2^31, a·state + c fits in u64, so the unsigned arithmetic does not wrap |
| LcgSpec.IterateBounded | examples/algorithms/rand/generated/knuth_random_shuffle/rust/src/main.rs:30-33 | every state reached stays below 2^31 |
| LcgSpec.ShufflePermutes | examples/algorithms/rand/generated/knuth_random_shuffle/rust/src/main.rs:41-47 | the shuffle is a permutation of the same length |
| LcgSpec.ShuffleDraws | examples/algorithms/rand/generated/knuth_random_shuffle/rust/src/main.rs:41-47 | the shuffle draws exactly n - 1 values (none for an empty input) |
| LcgSpec.ShortShuffle | examples/algorithms/rand/generated/knuth_random_shuffle/rust/src/main.rs:43 | zero or one item: nothing moves and nothing is drawn |
| RustShuffle.Lcg.constructor | examples/algorithms/rand/generated/knuth_random_shuffle/rust/src/main.rs:24-28 | the seed is reduced mod 2^31 |
| RustShuffle.Lcg.Next | examples/algorithms/rand/generated/knuth_random_shuffle/rust/src/main.rs:30-33 | next advances the state by one step and returns it |
| RustShuffle.Lcg.Intn | examples/algorithms/rand/generated/knuth_random_shuffle/rust/src/main.rs:35-37 | intn returns the next value mod the bound, below the bound |
| RustShuffle.KnuthRandomShuffle | examples/algorithms/rand/generated/knuth_random_shuffle/rust/src/main.rs:41-47 | the slice and the generator end exactly as the reference shuffle says |
| PythonShuffle.Globals.LcgSeed | examples/algorithms/rand/generated/knuth_random_shuffle/python/knuth_random_shuffle.py:25-27 | any seed, negative included, leaves a state in [0, 2^31) congruent to it |
| PythonShuffle.Globals.LcgNext | examples/algorithms/rand/generated/knuth_random_shuffle/python/knuth_random_shuffle.py:30-33 | lcg_next advances the global state by one step and returns it |
| PythonShuffle.Globals.LcgIntn | examples/algorithms/rand/generated/knuth_random_shuffle/python/knuth_random_shuffle.py:36-37 | lcg_intn returns the next value mod the bound |
| PythonShuffle.SeedCongruent | examples/algorithms/rand/generated/knuth_random_shuffle/python/knuth_random_shuffle.py:27 | Python's floor modulo moves a seed by a multiple of 2^31 |
| PythonShuffle.Globals.constructor | examples/algorithms/rand/generated/knuth_random_shuffle/python/knuth_random_shuffle.py:22 | the module global starts at 0 |
| PythonShuffle.KnuthRandomShuffle | examples/algorithms/rand/generated/knuth_random_shuffle/python/knuth_random_shuffle.py:40-46 | the list, shuffled in place and returned, and the global state are the reference shuffle's |
| GoShuffle.Globals.LcgSeed | examples/algorithms/rand/generated/knuth_random_shuffle/go/main.go:25-27 | the seed is reduced mod 2^31 |
| GoShuffle.Globals.LcgNext | examples/algorithms/rand/generated/knuth_random_shuffle/go/main.go:29-32 | lcgNext advances the package state by one step |
| GoShuffle.Globals.LcgIntn | examples/algorithms/rand/generated/knuth_random_shuffle/go/main.go:34-36 | lcgIntn returns the next value mod the bound |
| GoShuffle.KnuthRandomShuffle | examples/algorithms/rand/generated/knuth_random_shuffle/go/main.go:40-47 | the slice, shuffled in place and returned, and the package state are the reference shuffle's, the empty slice included |
| GoShuffle.Globals.constructor | examples/algorithms/rand/generated/knuth_random_shuffle/go/main.go:23 | the package variable starts at 0 |
| Greeting.Trim | examples/hello-world-micro-service/generated/typescript/main.ts:32 | a trim drops exactly the leading and trailing space characters: it is empty iff all of s is space, and otherwise starts and ends with a non-space |
| Greeting.Format | examples/hello-world-micro-service/generated/typescript/main.ts:27 | the greeting is "Vanakam ", the last name, ", " and the first name, each at its offset and with the total length of the parts |
| Greeting.TrimAgrees | examples/hello-world-micro-service/generated/go/main.go:35 | two trims that agree on every character of s give the same result |
| Greeting.TrimStart | examples/hello-world-micro-service/generated/typescript/main.ts:32 | the trim skips exactly the leading space characters and stops at the first non-space |
| Greeting.TrimEnd | examples/hello-world-micro-service/generated/go/main.go:35 | the kept part ends just after the last non-space, and everything after it is space |
| Greeting.FormatAgrees | examples/hello-world-micro-service/generated/go/main.go:34-35 | the two trims agree on the greeting built from names without U+0085 or U+FEFF |
| Greeting.FormatTrimmed | examples/hello-world-micro-service/generated/typescript/main.ts:27-32 | the trimmed greeting keeps "Vanakam <last>," whole and can drop only trailing white space |
| Greeting.FormattedIsNotDefault | examples/hello-world-micro-service/generated/typescript/main.ts:22-28 | no greeting built from two names equals the default |
| Greeting.DefaultTrimmed | examples/hello-world-micro-service/generated/typescript/main.ts:23 | the default greeting survives both trims unchanged |
| Greeting.TsMessage | examples/hello-world-micro-service/generated/typescript/main.ts:15-33 | the TypeScript message is the default exactly when a name is missing or empty; otherwise it is the formatted greeting with only trailing white space dropped, and "Vanakam <last>," survives whole |
| Greeting.HandleRequest | examples/hello-world-micro-service/generated/typescript/main.ts:10-45 | GET /hello gets 200, the JSON content type and the message; anything else gets 404 with no headers and no body |
| Greeting.ServerResponse.constructor | examples/hello-world-micro-service/generated/typescript/main.ts:10 | a fresh response has no status, no headers and no body |
| Greeting.ServerResponse.WriteHead | examples/hello-world-micro-service/generated/typescript/main.ts:39 | `writeHead` sets the status and the headers and leaves the body |
| Greeting.ServerResponse.End | examples/hello-world-micro-service/generated/typescript/main.ts:40 | `end` sets the body and leaves the status and the headers |
| Greeting.QueryGet | examples/hello-world-micro-service/generated/go/main.go:18-19 | `Values.Get` gives the first value of the key or "" |
| Greeting.GoMessage | examples/hello-world-micro-service/generated/go/main.go:24-36 | the Go message is the default exactly when a name is empty; otherwise it is the formatted greeting with only trailing white space dropped, and "Vanakam <last>," survives whole |
| Greeting.SameGreeting | examples/hello-world-micro-service/generated/go/main.go:25-35 | both handlers give the same message for the same names, provided no name holds U+0085 or U+FEFF (the characters only one of the trims removes) |
| Greeting.SayHello | examples/hello-world-micro-service/generated/go/main.go:16-45 | sayHello sets the JSON content type and status 200 and encodes the Go message |
| Greeting.ResponseWriter.constructor | examples/hello-world-micro-service/generated/go/main.go:16 | a fresh writer has no headers, no status and no body |
| Greeting.ResponseWriter.SetHeader | examples/hello-world-micro-service/generated/go/main.go:42 | `Header().Set` adds or replaces one header and leaves the rest |
| Greeting.ResponseWriter.WriteHeader | examples/hello-world-micro-service/generated/go/main.go:43 | `WriteHeader` sets the status only |
| Greeting.ResponseWriter.Encode | examples/hello-world-micro-service/generated/go/main.go:44 | encoding sets the body only |
| Keypad.Apply | examples/calc/generated/calc/src/App.tsx:58-63 | `+ - * /` apply to the previous and input values; any other operator yields the input value |
| Keypad.OrZero | examples/calc/generated/calc/src/App.tsx:57 | `previousValue or 0` in JavaScript: a truthy value is kept, any falsy value becomes 0 |
| Keypad.IndexOf | examples/calc/generated/calc/src/Calculator.js:20 | indexOf returns the first index holding the character, or -1 exactly when it is absent |
| Keypad.DotsAppend | examples/calc/generated/calc/src/App.tsx:27 | appending adds the two strings' decimal points |
| MandarinCalculator.MandarinChar | examples/calc/generated/calc/src/App.tsx:6-7 | an ASCII digit becomes the Mandarin digit at its value, which is one of the ten; any other character is kept |
| MandarinCalculator.AsciiChar | examples/calc/generated/calc/src/App.tsx:5-8 | reading a Mandarin digit back gives the ASCII digit that maps to it; any other character is kept |
| MandarinCalculator.FromMandarinScript | examples/calc/generated/calc/src/App.tsx:5-8 | the reverse reading, character by character and in place |
| MandarinCalculator.ToMandarinScript | examples/calc/generated/calc/src/App.tsx:5-8 | every ASCII digit becomes the Mandarin digit at its value, everything else is kept, in place |
| MandarinCalculator.ToThenFrom | examples/calc/generated/calc/src/App.tsx:5-8 | the display can be read back: text without Mandarin digits is recovered from its display |
| MandarinCalculator.FromThenTo | examples/calc/generated/calc/src/App.tsx:5-8 | text without ASCII digits is the display of its reading |
| MandarinCalculator.Calculator.constructor | examples/calc/generated/calc/src/App.tsx:13-16 | the initial state: display "0", nothing pending, not waiting |
| MandarinCalculator.Calculator.InputDigit | examples/calc/generated/calc/src/App.tsx:19-30 | a digit starts a new display after an operator, replaces a lone "0", or is appended; a display with at most one point keeps at most one |
| MandarinCalculator.Calculator.InputDot | examples/calc/generated/calc/src/App.tsx:33-40 | after an operator the display becomes "0."; otherwise a point is added only when there is none, so the display ends with exactly one |
| MandarinCalculator.Calculator.Clear | examples/calc/generated/calc/src/App.tsx:43-48 | clear restores the initial state from any state |
| MandarinCalculator.Calculator.PerformOperation | examples/calc/generated/calc/src/App.tsx:51-71 | the first operator records the parsed display; a later one with a pending operator shows and stores the applied result (a missing previous value counts as 0 on the left); the new operator is then pending and the calculator waits |
| DevanagariCalculator.ToDevanagari | examples/calc/generated/calc/src/Calculator.js:11-16 | each ASCII digit becomes the Devanagari digit at its value, everything else is kept, in place |
| DevanagariCalculator.FromDevanagari | examples/calc/generated/calc/src/Calculator.js:18-23 | each Devanagari digit becomes its index as an ASCII digit, everything else is kept |
| DevanagariCalculator.ToDevanagariChar | examples/calc/generated/calc/src/Calculator.js:12-15 | an ASCII digit becomes the Devanagari digit at its value; any other character is kept |
| DevanagariCalculator.FromDevanagariChar | examples/calc/generated/calc/src/Calculator.js:19-22 | a Devanagari digit becomes the ASCII digit of its index, which maps back to it; any other character is kept |
| DevanagariCalculator.ToThenFrom | examples/calc/generated/calc/src/Calculator.js:11-23 | text without Devanagari digits survives toDevanagari then fromDevanagari |
| DevanagariCalculator.FromThenTo | examples/calc/generated/calc/src/Calculator.js:11-23 | text without ASCII digits survives fromDevanagari then toDevanagari |
| DevanagariCalculator.ToDevanagariKeepsDots | examples/calc/generated/calc/src/Calculator.js:81 | the conversion keeps every decimal point and adds none |
| DevanagariCalculator.Calculator.constructor | examples/calc/generated/calc/src/Calculator.js:4-7 | the initial display is '०', nothing pending |
| DevanagariCalculator.Calculator.InputDigit | examples/calc/generated/calc/src/Calculator.js:26-34 | the Devanagari digit starts a new display, replaces a lone '०', or is appended; the points are unchanged except after an operator |
| DevanagariCalculator.Calculator.InputDot | examples/calc/generated/calc/src/Calculator.js:37-44 | after an operator the display becomes "०."; otherwise a point is added only when there is none |
| DevanagariCalculator.Calculator.Clear | examples/calc/generated/calc/src/Calculator.js:47-52 | clear restores the initial state |
| DevanagariCalculator.Calculator.PerformOperation | examples/calc/generated/calc/src/Calculator.js:55-87 | as the Mandarin calculator, reading the display through fromDevanagari and showing through toDevanagari; an empty operator string counts as none |
| LibraryApp.Find | examples/full-stack/generated/full-stack/frontend/src/App.jsx:16 | find returns the first entry with the id, and nothing exactly when no entry has it |
| LibraryApp.Without | examples/full-stack/generated/full-stack/frontend/src/App.jsx:22 | the filtered cart holds exactly the entries with another id |
| LibraryApp.WithBook | examples/full-stack/generated/full-stack/frontend/src/App.jsx:15-19 | the cart after adding keeps the old cart as a prefix, grows by at most one entry, holds the book's id, and the only possible new entry is the book, added exactly when its id was absent |
| LibraryApp.WithBookUnique | examples/full-stack/generated/full-stack/frontend/src/App.jsx:15-19 | adding keeps the book ids distinct and leaves the book's id in the cart |
| LibraryApp.WithBookIdempotent | examples/full-stack/generated/full-stack/frontend/src/App.jsx:15-19 | adding twice is adding once; adding a book whose id is present changes nothing |
| LibraryApp.WithBookExtends | examples/full-stack/generated/full-stack/frontend/src/App.jsx:15-19 | adding either leaves the cart or appends the book when no entry has its id, keeping the earlier entries in place |
| LibraryApp.WithoutConcat | examples/full-stack/generated/full-stack/frontend/src/App.jsx:22 | removal distributes over concatenation, so the remaining entries keep their order |
| LibraryApp.WithoutUnique | examples/full-stack/generated/full-stack/frontend/src/App.jsx:21-23 | removing keeps the book ids distinct |
| LibraryApp.WithoutWithBook | examples/full-stack/generated/full-stack/frontend/src/App.jsx:15-23 | removing a book just added gives the cart without that id; removing twice is removing once |
| LibraryApp.WithoutAbsent | examples/full-stack/generated/full-stack/frontend/src/App.jsx:22 | removing an id the cart does not hold changes nothing |
| LibraryApp.WithoutCount | examples/full-stack/generated/full-stack/frontend/src/App.jsx:21-23 | with distinct ids, removing a present id drops exactly one entry |
| LibraryApp.Render | examples/full-stack/generated/full-stack/frontend/src/App.jsx:33-67 | with nobody signed in only the sign-in page is shown; the librarian sees only the admin page at every path; the cart and borrowed pages are shown exactly to a signed-in member whose path the router matches to "/cart" or "/borrowed" |
| LibraryApp.StripTrailingSlashes | examples/full-stack/generated/full-stack/frontend/src/App.jsx:52-64 | the path without its trailing slashes: a prefix of it followed only by slashes, and not itself ending in a slash |
| LibraryApp.LowerAscii | examples/full-stack/generated/full-stack/frontend/src/App.jsx:52-64 | ASCII capitals fold to their lower case and nothing else changes; the result is never an ASCII capital |
| LibraryApp.MatchesTrailingSlash | examples/full-stack/generated/full-stack/frontend/src/App.jsx:52-64 | for every route and path, one more trailing slash changes neither the stripped path nor the match |
| LibraryApp.CartVariantsMatch | examples/full-stack/generated/full-stack/frontend/src/App.jsx:52-60 | "/cart", "/cart/" and "/Cart" all reach the cart route |
| LibraryApp.OtherPathsMiss | examples/full-stack/generated/full-stack/frontend/src/App.jsx:52-64 | "/carts", "/cart/x" and "/borrowed" do not reach the cart route |
| LibraryApp.App.constructor | examples/full-stack/generated/full-stack/frontend/src/App.jsx:11-13 | nobody signed in, not admin, empty cart |
| LibraryApp.App.Login | examples/full-stack/generated/full-stack/frontend/src/App.jsx:34 | signing in sets the user and nothing else |
| LibraryApp.App.AdminLogin | examples/full-stack/generated/full-stack/frontend/src/App.jsx:34 | the admin sign-in sets isAdmin and nothing else |
| LibraryApp.App.AddToCart | examples/full-stack/generated/full-stack/frontend/src/App.jsx:15-19 | the cart becomes the added cart and its ids stay distinct; user and role unchanged |
| LibraryApp.App.RemoveFromCart | examples/full-stack/generated/full-stack/frontend/src/App.jsx:21-23 | the cart becomes the filtered cart and its ids stay distinct |
| LibraryApp.App.ClearCart | examples/full-stack/generated/full-stack/frontend/src/App.jsx:25 | the cart is emptied and nothing else changes |
| LibraryApp.App.Logout | examples/full-stack/generated/full-stack/frontend/src/App.jsx:27-31 | user cleared, not admin, cart empty, and the sign-in page is the only page shown at any path |

## Left out

- `bogo` and its `shuffle` (esoteric_sorts.rs:14-26): they draw from the thread-local random number generator, and bogo's termination is only probabilistic.
- `bucket` (distribution_sorts.rs:86-120): it sorts `f64` values and computes bucket indices in floating point.
- ParallelMerge: the two halves are sorted one after the other, not on two threads. The result is the same, and threads are not modelled.
- Sort elements: the generic `T: Ord` sorts are modelled on `int`. Because of that, the stability of the merges cannot be observed and is not stated.
- Integer widths: the sorts compute on unbounded integers, and the `usize`/`isize` index arithmetic is never near its range. The `i32` overflows are covered under Findings.
- DistributionSorts.CountSort and DistributionSorts.UnsignedRadixSort require non-negative elements. Both are private, and their only caller, radix_sort, passes only non-negative values. Rust's `/` and `%` truncate toward zero, so a negative element whose digit at exp is 0 (such as -10 at exp = 1) is counted without a panic. A negative element whose digit at exp is not 0 casts to a huge `usize` and panics on the index.
- RustShuffle.Lcg.Intn requires a bound in (0, 2^64). A zero bound panics in the source, and the only caller passes i + 1 >= 2.
- PythonShuffle.Globals.LcgIntn requires a positive bound. A zero bound raises in Python, and a negative bound gives a non-positive result. The only caller passes i + 1 >= 2.
- GoShuffle.Globals.LcgIntn requires a positive bound. A negative bound would wrap in the `uint64` conversion. The only caller passes i + 1 >= 2.
- The shuffle programs' `main` functions: argument parsing, clock-based seeding and printing are I/O.
- Greeting: URL parsing and query decoding are left out. The TypeScript handler receives the decoded values as `Option<string>`, and a repeated key (an array value) is not modelled. The Go handler receives the decoded `url.Values`.
- Greeting: `JSON.stringify`, the Go JSON encoder and its trailing newline are left out. The body is the message value itself.
- Greeting: the Go `ServeMux` route (main.go:49), and its 404 for other paths, are left out. `server.listen` and `http.ListenAndServe` are I/O.
- Calculators: the JavaScript number operations are a parameter of the model (`Keypad.Arithmetic`), because they are IEEE floating point. They cover `parseFloat`, truthiness, `+ - * /` and `String(x)`.
- MandarinCalculator.Calculator.PerformOperation and DevanagariCalculator.Calculator.PerformOperation state "at most one decimal point" only under the assumption `ShowsOneDot`: that `String(x)` never writes two points. That is true of JavaScript but not provable without modelling it.
- DevanagariCalculator.Calculator.InputDigit requires 0 <= digit <= 9. Every button passes such a digit; any other value would display `undefined`.
- The calculators' JSX rendering and styling are left out.
- The library front end: the pages it routes to, their API calls and the `Navigate` history entries are outside the root component's state. `Render` names the page finally shown for a path, after the redirects to "/".
- LibraryApp.Render takes the pathname after the router has percent-decoded it. The decoding and the router's basename handling are not modelled.

## Findings

| source | as written | input that shows it | evidently intended | confidence | as-written member | corrected member |
|---|---|---|---|---|---|---|
| examples/algorithms/sort/generated/sort/src/distribution_sorts.rs:11 | `a_max - a_min + 1` is computed in `i32`; pigeonhole repeats it at line 130 | `[0, i32::MAX]` overflows (a panic in a debug build, a wrap-around in a release build) | the range size of any `i32` data, which fits in `usize` | high (not executed) | DistributionSorts.RangeOverflow | DistributionSorts.Count |
| examples/algorithms/sort/generated/sort/src/distribution_sorts.rs:54 | `exp *= 10` on an `i32` after the pass at exp = 10^9 | `[1_000_000_000]` takes exp past `i32::MAX` | stop after the last digit without overflowing | high (not executed) | DistributionSorts.ExpOverflow | DistributionSorts.UnsignedRadixSort |
| examples/algorithms/sort/generated/sort/src/distribution_sorts.rs:64 | `negatives.push(-item)` on an `i32` | `[i32::MIN]` has no `i32` negation | sort every `i32`, including `i32::MIN` | high (not executed) | DistributionSorts.NegateOverflow | DistributionSorts.RadixSort |
