/** The comparison sorts of `basic_sorts.rs`: each sorts a slice in place,
    changing it only by exchanging two elements, so every one of them ends
    with the slice sorted and a permutation of what it held. */
module BasicSorts {
  import opened SortSpec

  /** The inner loop of `insertion` for outer index e (absolute): the
      element at e is moved left (`iter` counts down) until its left
      neighbour within the window is not greater, so a[lo..e) sorted becomes
      a[lo..=e] sorted. */
  method InsertStep(a: array<int>, lo: int, e: int)
    requires 0 <= lo <= e < a.Length
    requires SortedRange(a, lo, e)
    modifies a
    ensures SortedRange(a, lo, e + 1)
    ensures multiset(a[..]) == multiset(old(a[..]))
    ensures forall k :: 0 <= k < a.Length && !(lo <= k <= e) ==> a[k] == old(a[k])
  {
    var iter := e;
    while iter > lo && a[iter - 1] > a[iter]
      invariant lo <= iter <= e
      invariant forall p, q :: lo <= p < q <= e && p != iter && q != iter ==> a[p] <= a[q]
      invariant forall q :: iter < q <= e ==> a[iter] < a[q]
      invariant multiset(a[..]) == multiset(old(a[..]))
      invariant forall k :: 0 <= k < a.Length && !(lo <= k <= e) ==> a[k] == old(a[k])
    {
      Swap(a, iter, iter - 1);
      iter := iter - 1;
    }
  }

  /** `insertion` applied to the window a[lo..hi] (the routine takes a slice,
      and timsort hands it sub-slices): after outer step i the window's
      first i + 1 elements are sorted. */
  method InsertionSlice(a: array<int>, lo: int, hi: int)
    requires 0 <= lo <= hi <= a.Length
    modifies a
    ensures Sorted(a[lo..hi])
    ensures multiset(a[lo..hi]) == multiset(old(a[lo..hi]))
    ensures multiset(a[..]) == multiset(old(a[..]))
    ensures a[..lo] == old(a[..lo]) && a[hi..] == old(a[hi..])
  {
    var length := hi - lo;
    var i := 1;
    while i < length
      invariant 1 <= i && (length > 0 ==> i <= length)
      invariant SortedRange(a, lo, if length > 0 then lo + i else lo)
      invariant multiset(a[..]) == multiset(old(a[..]))
      invariant forall k :: 0 <= k < a.Length && !(lo <= k < hi) ==> a[k] == old(a[k])
    {
      InsertStep(a, lo, lo + i);
      i := i + 1;
    }
    assert a[..lo] == old(a[..lo]) && a[hi..] == old(a[hi..]);
    WholeToWindow(a[..], old(a[..]), lo, hi);
    forall p, q | 0 <= p < q < hi - lo
      ensures a[lo..hi][p] <= a[lo..hi][q]
    {
      assert a[lo..hi][p] == a[lo + p] && a[lo..hi][q] == a[lo + q];
    }
  }

  /** `insertion`: the prefix arr[0..=i] is sorted after outer step i. */
  method Insertion(a: array<int>)
    modifies a
    ensures Sorted(a[..])
    ensures multiset(a[..]) == multiset(old(a[..]))
  {
    ghost var a0 := a[..];
    InsertionSlice(a, 0, a.Length);
    assert a[0..a.Length] == a[..];
    assert a0[0..a.Length] == a0;
  }

  /** `selection`: step i swaps the minimum of arr[i..] into place i. */
  method Selection(a: array<int>)
    modifies a
    ensures Sorted(a[..])
    ensures multiset(a[..]) == multiset(old(a[..]))
  {
    var length := a.Length;
    if length == 0 { return; }
    for i := 0 to length - 1
      invariant forall p, q :: 0 <= p < i && p < q < length ==> a[p] <= a[q]
      invariant multiset(a[..]) == multiset(old(a[..]))
    {
      var min := i;
      for j := i + 1 to length
        invariant i <= min < length
        invariant forall k :: i <= k < j ==> a[min] <= a[k]
      {
        if a[j] < a[min] {
          min := j;
        }
      }
      Swap(a, i, min);
    }
  }

  /** `bubble`: passes over the slice until a pass makes no swap; that last
      pass saw every adjacent pair in order. */
  method Bubble(a: array<int>)
    modifies a
    ensures Sorted(a[..])
    ensures multiset(a[..]) == multiset(old(a[..]))
  {
    var length := a.Length;
    if length == 0 { return; }
    ghost var cap := length * AbsSum(a[..]);
    WeightAtMostAbsSum(a[..]);
    var swapped := true;
    while swapped
      invariant multiset(a[..]) == multiset(old(a[..]))
      invariant Weight(a[..]) <= cap
      invariant !swapped ==> AdjacentSorted(a[..])
      decreases cap - Weight(a[..]), swapped
    {
      swapped := false;
      ghost var before := a[..];
      for i := 0 to length - 1
        invariant multiset(a[..]) == multiset(old(a[..]))
        invariant swapped ==> Weight(a[..]) > Weight(before)
        invariant !swapped ==> a[..] == before
        invariant !swapped ==> forall k :: 0 <= k < i ==> a[k] <= a[k + 1]
        invariant Weight(a[..]) >= Weight(before)
      {
        var exchanged := CompareExchange(a, i, i + 1);
        swapped := swapped || exchanged;
      }
      WeightBound(a[..], old(a[..]));
    }
    AdjacentSortedIsSorted(a[..]);
  }

  /** The inner loop of `exchange` for index i: compare a[i] with every
      later element, swapping when the later one is smaller, so that a[i]
      ends at most everything after it. Only a[i..] is rearranged. */
  method ExchangeRow(a: array<int>, i: int)
    requires 0 <= i < a.Length
    requires forall p, q :: 0 <= p < i && p < q < a.Length ==> a[p] <= a[q]
    modifies a
    ensures forall p, q :: 0 <= p <= i && p < q < a.Length ==> a[p] <= a[q]
    ensures multiset(a[..]) == multiset(old(a[..]))
  {
    for j := i + 1 to a.Length
      invariant forall p, q :: 0 <= p < i && p < q < a.Length ==> a[p] <= a[q]
      invariant forall k :: i < k < j ==> a[i] <= a[k]
      invariant multiset(a[..]) == multiset(old(a[..]))
    {
      if a[i] > a[j] {
        Swap(a, i, j);
      }
    }
  }

  /** `exchange`: step i leaves a[i] at most everything after it. */
  method Exchange(a: array<int>)
    modifies a
    ensures Sorted(a[..])
    ensures multiset(a[..]) == multiset(old(a[..]))
  {
    var length := a.Length;
    if length == 0 { return; }
    for i := 0 to length - 1
      invariant forall p, q :: 0 <= p < i && p < q < length ==> a[p] <= a[q]
      invariant multiset(a[..]) == multiset(old(a[..]))
    {
      ExchangeRow(a, i);
    }
  }

  /** One outer step of `simple` / `improved_simple` for index i: the inner
      index j runs over [0, jEnd). While j < i, a[i] is a carry being
      inserted into the sorted prefix a[0..i); once j passes i, swaps only
      raise a[i]. Either way a[0..=i] ends sorted. */
  method CarryStep(a: array<int>, i: int, jEnd: int)
    requires 0 <= i < a.Length && i <= jEnd <= a.Length
    requires forall p, q :: 0 <= p < q < i ==> a[p] <= a[q]
    modifies a
    ensures forall p, q :: 0 <= p < q <= i ==> a[p] <= a[q]
    ensures multiset(a[..]) == multiset(old(a[..]))
  {
    for j := 0 to jEnd
      invariant j <= i ==> forall p, q :: 0 <= p < q < i ==> a[p] <= a[q]
      invariant j <= i ==> forall p :: 0 <= p < j ==> a[p] <= a[i]
      invariant j > i ==> forall p, q :: 0 <= p < q <= i ==> a[p] <= a[q]
      invariant multiset(a[..]) == multiset(old(a[..]))
    {
      if a[i] < a[j] {
        Swap(a, i, j);
      }
    }
  }

  /** `simple`: for every i, for every j, swap when arr[i] < arr[j]. */
  method Simple(a: array<int>)
    modifies a
    ensures Sorted(a[..])
    ensures multiset(a[..]) == multiset(old(a[..]))
  {
    var length := a.Length;
    if length == 0 { return; }
    for i := 0 to length
      invariant forall p, q :: 0 <= p < q < i ==> a[p] <= a[q]
      invariant multiset(a[..]) == multiset(old(a[..]))
    {
      CarryStep(a, i, length);
    }
  }

  /** `improved_simple`: i starts at 1 and j stops before the last index. */
  method ImprovedSimple(a: array<int>)
    modifies a
    ensures Sorted(a[..])
    ensures multiset(a[..]) == multiset(old(a[..]))
  {
    var length := a.Length;
    if length <= 1 { return; }
    for i := 1 to length
      invariant forall p, q :: 0 <= p < q < i ==> a[p] <= a[q]
      invariant multiset(a[..]) == multiset(old(a[..]))
    {
      CarryStep(a, i, length - 1);
    }
  }

  /** Forward pass of `cocktail` over [start, end]: bubbles the maximum of
      a[0..=end] up to `end`; everything after the returned `newEnd` (the
      position of the last swap, or `start` when none) is then in its final
      place. */
  method CocktailForward(a: array<int>, start: int, end: int) returns (newEnd: int, swapped: bool)
    requires 0 <= start <= end < a.Length
    requires forall p, q :: 0 <= p < start && p < q < a.Length ==> a[p] <= a[q]
    requires forall p, q :: 0 <= p < q < a.Length && end < q ==> a[p] <= a[q]
    modifies a
    ensures start <= newEnd <= end && (swapped ==> newEnd < end)
    ensures !swapped ==> newEnd == start && a[..] == old(a[..])
    ensures swapped ==> Weight(a[..]) > Weight(old(a[..]))
    ensures forall p, q :: 0 <= p < start && p < q < a.Length ==> a[p] <= a[q]
    ensures forall p, q :: 0 <= p < q < a.Length && newEnd < q ==> a[p] <= a[q]
    ensures multiset(a[..]) == multiset(old(a[..]))
  {
    swapped := false;
    newEnd := start;
    for i := start to end
      invariant start <= newEnd <= i && (swapped ==> newEnd < end)
      invariant !swapped ==> newEnd == start && a[..] == old(a[..])
      invariant swapped ==> Weight(a[..]) > Weight(old(a[..]))
      invariant forall k :: 0 <= k <= i ==> a[k] <= a[i]
      invariant forall p, q :: 0 <= p < q <= i && newEnd < q ==> a[p] <= a[q]
      invariant forall p, q :: 0 <= p < start && p < q < a.Length ==> a[p] <= a[q]
      invariant forall p, q :: 0 <= p < q < a.Length && end < q ==> a[p] <= a[q]
      invariant multiset(a[..]) == multiset(old(a[..]))
    {
      var exchanged := CompareExchange(a, i, i + 1);
      if exchanged {
        newEnd := i;
        swapped := true;
      }
    }
  }

  /** Backward pass of `cocktail` over [start, end]: sinks the minimum of
      a[start..] down to `start`; everything before the returned `newStart`
      (the position of the last swap, or `end` when none) is then in its
      final place. */
  method CocktailBackward(a: array<int>, start: int, end: int) returns (newStart: int, swapped: bool)
    requires 0 <= start <= end < a.Length
    requires forall p, q :: 0 <= p < start && p < q < a.Length ==> a[p] <= a[q]
    requires forall p, q :: 0 <= p < q < a.Length && end < q ==> a[p] <= a[q]
    modifies a
    ensures start <= newStart <= end && (swapped ==> start < newStart)
    ensures !swapped ==> newStart == end
    ensures Weight(a[..]) >= Weight(old(a[..]))
    ensures forall p, q :: 0 <= p < newStart && p < q < a.Length ==> a[p] <= a[q]
    ensures forall p, q :: 0 <= p < q < a.Length && end < q ==> a[p] <= a[q]
    ensures multiset(a[..]) == multiset(old(a[..]))
  {
    swapped := false;
    newStart := end;
    var i := end;
    while i > start
      invariant start <= i <= end && i <= newStart <= end
      invariant !swapped ==> newStart == end
      invariant swapped ==> start < newStart
      invariant Weight(a[..]) >= Weight(old(a[..]))
      invariant forall k :: i <= k < a.Length ==> a[i] <= a[k]
      invariant forall p, q :: i <= p < q < a.Length && p < newStart ==> a[p] <= a[q]
      invariant forall p, q :: 0 <= p < start && p < q < a.Length ==> a[p] <= a[q]
      invariant forall p, q :: 0 <= p < q < a.Length && end < q ==> a[p] <= a[q]
      invariant multiset(a[..]) == multiset(old(a[..]))
    {
      var exchanged := CompareExchange(a, i - 1, i);
      if exchanged {
        newStart := i;
        swapped := true;
      }
      i := i - 1;
    }
  }

  /** `cocktail`: alternating forward and backward bubble passes. Everything
      before `start` and after `end` is already in its final place; each
      pass shrinks the window to the position of its last swap, and the
      routine stops after a pass that made no swap. */
  method Cocktail(a: array<int>)
    modifies a
    ensures Sorted(a[..])
    ensures multiset(a[..]) == multiset(old(a[..]))
  {
    var length := a.Length;
    if length == 0 { return; }
    ghost var cap := length * AbsSum(a[..]);
    WeightAtMostAbsSum(a[..]);
    var swapped := true;
    var start := 0;
    var end := length - 1;
    while swapped
      invariant 0 <= start <= end < length
      invariant forall p, q :: 0 <= p < start && p < q < length ==> a[p] <= a[q]
      invariant forall p, q :: 0 <= p < q < length && end < q ==> a[p] <= a[q]
      invariant !swapped ==> Sorted(a[..])
      invariant multiset(a[..]) == multiset(old(a[..]))
      invariant Weight(a[..]) <= cap
      decreases cap - Weight(a[..]), swapped
    {
      ghost var before := a[..];
      end, swapped := CocktailForward(a, start, end);
      if !swapped {
        break;
      }
      var backSwapped;
      start, backSwapped := CocktailBackward(a, start, end);
      swapped := backSwapped;
      WeightBound(a[..], old(a[..]));
    }
  }

  /** `comb`: bubble passes comparing elements `gap` apart, the gap shrinking
      by a factor 10/13 (never below 1); the loop ends only after a pass with
      gap 1 that made no swap. */
  method Comb(a: array<int>)
    modifies a
    ensures Sorted(a[..])
    ensures multiset(a[..]) == multiset(old(a[..]))
  {
    var length := a.Length;
    ghost var cap := length * AbsSum(a[..]);
    WeightAtMostAbsSum(a[..]);
    var gap := length;
    var swapped := true;
    while gap != 1 || swapped
      invariant gap >= 1 || (gap == 0 && length == 0)
      invariant !swapped ==> forall k :: 0 <= k < length - gap ==> a[k] <= a[k + gap]
      invariant multiset(a[..]) == multiset(old(a[..]))
      invariant Weight(a[..]) <= cap
      decreases if gap == 0 then 2 else gap, cap - Weight(a[..]), swapped
    {
      gap := (gap * 10) / 13;
      if gap < 1 {
        gap := 1;
      }
      swapped := false;
      ghost var before := a[..];
      var limit := if length > gap then length - gap else 0;
      for i := 0 to limit
        invariant !swapped ==> a[..] == before
        invariant !swapped ==> forall k :: 0 <= k < i ==> a[k] <= a[k + gap]
        invariant Weight(a[..]) >= Weight(before)
        invariant swapped ==> Weight(a[..]) > Weight(before)
        invariant multiset(a[..]) == multiset(old(a[..]))
      {
        var exchanged := CompareExchange(a, i, i + gap);
        swapped := swapped || exchanged;
      }
      WeightBound(a[..], old(a[..]));
    }
    AdjacentSortedIsSorted(a[..]);
  }

  /** One pass of `odd_even_sort` over the pairs (i, i + 1) with i = first,
      first + 2, ... below length - 1 (first is 1 for the odd pass, 0 for the
      even pass). */
  method OddEvenPass(a: array<int>, first: int) returns (swapped: bool)
    requires first == 0 || first == 1
    modifies a
    ensures !swapped ==> a[..] == old(a[..])
    ensures !swapped ==> forall k :: 0 <= k < a.Length - 1 && k % 2 == first ==> a[k] <= a[k + 1]
    ensures swapped ==> Weight(a[..]) > Weight(old(a[..]))
    ensures multiset(a[..]) == multiset(old(a[..]))
  {
    swapped := false;
    var i := first;
    while i < a.Length - 1
      invariant i >= first && i % 2 == first
      invariant !swapped ==> a[..] == old(a[..])
      invariant !swapped ==> forall k :: 0 <= k < i && k % 2 == first && k < a.Length - 1 ==> a[k] <= a[k + 1]
      invariant Weight(a[..]) >= Weight(old(a[..]))
      invariant swapped ==> Weight(a[..]) > Weight(old(a[..]))
      invariant multiset(a[..]) == multiset(old(a[..]))
    {
      var exchanged := CompareExchange(a, i, i + 1);
      swapped := swapped || exchanged;
      assert !swapped ==> forall k :: 0 <= k <= i && k % 2 == first && k < a.Length - 1 ==> a[k] <= a[k + 1];
      i := i + 2;
    }
  }

  /** `odd_even_sort`: a pass over the odd-indexed pairs and one over the
      even-indexed pairs, repeated until neither swaps. */
  method OddEvenSort(a: array<int>)
    modifies a
    ensures Sorted(a[..])
    ensures multiset(a[..]) == multiset(old(a[..]))
  {
    var length := a.Length;
    if length == 0 { return; }
    ghost var cap := length * AbsSum(a[..]);
    WeightAtMostAbsSum(a[..]);
    var swapped := true;
    while swapped
      invariant !swapped ==> AdjacentSorted(a[..])
      invariant multiset(a[..]) == multiset(old(a[..]))
      invariant Weight(a[..]) <= cap
      decreases cap - Weight(a[..]), swapped
    {
      ghost var before := a[..];
      var oddSwapped := OddEvenPass(a, 1);
      var evenSwapped := OddEvenPass(a, 0);
      swapped := oddSwapped || evenSwapped;
      WeightBound(a[..], old(a[..]));
    }
    AdjacentSortedIsSorted(a[..]);
  }
}
