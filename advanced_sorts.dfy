/** The divide-and-conquer and gap sorts of `advanced_sorts.rs`: quicksort
    with Lomuto partition, top-down and bottom-up merge sort (and the
    parallel variant), heap sort, shell sort and a simplified timsort. */
module AdvancedSorts {
  import opened SortSpec
  import BasicSorts

  predicate AllAtMost(s: seq<int>, bound: int)
  {
    forall x :: x in s ==> x <= bound
  }

  predicate AllAbove(s: seq<int>, bound: int)
  {
    forall x :: x in s ==> x > bound
  }

  lemma AllAtMostPermutation(s: seq<int>, t: seq<int>, bound: int)
    requires multiset(s) == multiset(t) && AllAtMost(t, bound)
    ensures AllAtMost(s, bound)
  {
    forall x | x in s
      ensures x <= bound
    {
      assert x in multiset(s);
      assert x in multiset(t);
      assert x in t;
    }
  }

  lemma AllAbovePermutation(s: seq<int>, t: seq<int>, bound: int)
    requires multiset(s) == multiset(t) && AllAbove(t, bound)
    ensures AllAbove(s, bound)
  {
    forall x | x in s
      ensures x > bound
    {
      assert x in multiset(s);
      assert x in multiset(t);
      assert x in t;
    }
  }

  /** A fresh vector holding a copy of s (`to_vec`). */
  method ToVec(s: seq<int>) returns (v: array<int>)
    ensures fresh(v) && v[..] == s
  {
    v := new int[|s|];
    forall k | 0 <= k < |s| {
      v[k] := s[k];
    }
  }

  // ---------------------------------------------------------------------
  // Quicksort
  // ---------------------------------------------------------------------

  /** The loop of `partition`: every element of [low, high) that is at most
      the pivot arr[high] is swapped forward, so that on exit [low, index]
      holds those and (index, high) the greater ones. */
  method PartitionScan(a: array<int>, low: int, high: int) returns (index: int)
    requires 0 <= low <= high < a.Length
    modifies a
    ensures low - 1 <= index < high
    ensures a[high] == old(a[high])
    ensures forall k :: low <= k <= index ==> a[k] <= a[high]
    ensures forall k :: index < k < high ==> a[k] > a[high]
    ensures multiset(a[..]) == multiset(old(a[..]))
    ensures a[..low] == old(a[..low]) && a[high + 1..] == old(a[high + 1..])
  {
    index := low - 1;
    for i := low to high
      invariant low - 1 <= index < i
      invariant a[high] == old(a[high])
      invariant forall k :: low <= k <= index ==> a[k] <= a[high]
      invariant forall k :: index < k < i ==> a[k] > a[high]
      invariant multiset(a[..]) == multiset(old(a[..]))
      invariant a[..low] == old(a[..low]) && a[high + 1..] == old(a[high + 1..])
    {
      if a[i] <= a[high] {
        index := index + 1;
        Swap(a, index, i);
      }
    }
  }

  /** `partition(arr, low, high)` (Lomuto): the pivot arr[high] ends at the
      returned index p; everything in [low, p) is at most the pivot and
      everything in (p, high] is greater. Nothing outside [low, high] moves. */
  method Partition(a: array<int>, low: int, high: int) returns (p: int)
    requires 0 <= low <= high < a.Length
    modifies a
    ensures low <= p <= high
    ensures a[p] == old(a[high])
    ensures forall k :: low <= k < p ==> a[k] <= a[p]
    ensures forall k :: p < k <= high ==> a[p] < a[k]
    ensures multiset(a[..]) == multiset(old(a[..]))
    ensures a[..low] == old(a[..low]) && a[high + 1..] == old(a[high + 1..])
  {
    var index := PartitionScan(a, low, high);
    ghost var scanned := a[..];
    Swap(a, index + 1, high);
    p := index + 1;
    PivotInPlace(scanned, a[..], low, high, index);
  }

  /** The closing swap of `partition` puts the pivot between the two sides. */
  lemma PivotInPlace(s: seq<int>, t: seq<int>, low: int, high: int, index: int)
    requires 0 <= low && low - 1 <= index < high < |s|
    requires forall k :: low <= k <= index ==> s[k] <= s[high]
    requires forall k :: index < k < high ==> s[k] > s[high]
    requires t == s[index + 1 := s[high]][high := s[index + 1]]
    ensures t[index + 1] == s[high]
    ensures forall k :: low <= k <= index ==> t[k] <= t[index + 1]
    ensures forall k :: index + 1 < k <= high ==> t[index + 1] < t[k]
    ensures t[..low] == s[..low] && t[high + 1..] == s[high + 1..]
  {
    assert t[..low] == s[..low];
    assert t[high + 1..] == s[high + 1..];
  }

  /** Two sorted blocks around a pivot, the left one at most the pivot and
      the right one above it, form a sorted block. */
  lemma PartitionedSorted(s: seq<int>, lo: int, p: int, hi: int)
    requires 0 <= lo <= p < hi <= |s|
    requires Sorted(s[lo..p]) && Sorted(s[p + 1..hi])
    requires AllAtMost(s[lo..p], s[p]) && AllAbove(s[p + 1..hi], s[p])
    ensures Sorted(s[lo..hi])
  {
    forall i, j | lo <= i < j < hi
      ensures s[i] <= s[j]
    {
      if j < p {
        assert s[i] == s[lo..p][i - lo] && s[j] == s[lo..p][j - lo];
      } else if i > p {
        assert s[i] == s[p + 1..hi][i - p - 1] && s[j] == s[p + 1..hi][j - p - 1];
      } else {
        if i < p {
          assert s[i] in s[lo..p];
        }
        if j > p {
          assert s[j] in s[p + 1..hi];
        }
      }
    }
  }

  /** What Partition's postcondition says, as bounds on the two sides. */
  lemma PartitionSides(s: seq<int>, low: int, p: int, high: int)
    requires 0 <= low <= p <= high < |s|
    requires forall k :: low <= k < p ==> s[k] <= s[p]
    requires forall k :: p < k <= high ==> s[p] < s[k]
    ensures AllAtMost(s[low..p], s[p]) && AllAbove(s[p + 1..high + 1], s[p])
  {
  }

  /** After sorting the left side (which changes only [low, p)) and then the
      right side (only (p, high]), the whole range is sorted. */
  lemma QuicksortCombine(parted: seq<int>, mid: seq<int>, fin: seq<int>, low: int, p: int, high: int)
    requires 0 <= low <= p <= high < |parted| == |mid| == |fin|
    requires AllAtMost(parted[low..p], parted[p]) && AllAbove(parted[p + 1..high + 1], parted[p])
    requires multiset(mid) == multiset(parted) && Sorted(mid[low..p])
    requires mid[..low] == parted[..low] && mid[p..] == parted[p..]
    requires multiset(fin) == multiset(mid) && Sorted(fin[p + 1..high + 1])
    requires fin[..p + 1] == mid[..p + 1] && fin[high + 1..] == mid[high + 1..]
    ensures Sorted(fin[low..high + 1])
    ensures multiset(fin) == multiset(parted)
    ensures fin[..low] == parted[..low] && fin[high + 1..] == parted[high + 1..]
  {
    WholeToWindow(mid, parted, low, p);
    AllAtMostPermutation(mid[low..p], parted[low..p], parted[p]);
    WholeToWindow(fin, mid, p + 1, high + 1);
    assert mid[p + 1..high + 1] == parted[p + 1..high + 1];
    AllAbovePermutation(fin[p + 1..high + 1], parted[p + 1..high + 1], parted[p]);
    assert fin[low..p] == mid[low..p];
    assert fin[p] == parted[p];
    PartitionedSorted(fin, low, p, high + 1);
    assert fin[high + 1..] == parted[high + 1..];
    assert fin[..low] == mid[..low];
  }

  /** `quicksort_range(arr, low, high)`: sorts arr[low..=high]; the empty and
      single-element ranges (low >= high) are left alone. */
  method QuicksortRange(a: array<int>, low: int, high: int)
    requires 0 <= low <= high + 1 <= a.Length
    modifies a
    ensures Sorted(a[low..high + 1])
    ensures multiset(a[..]) == multiset(old(a[..]))
    ensures a[..low] == old(a[..low]) && a[high + 1..] == old(a[high + 1..])
    decreases high - low
  {
    if low < high {
      var pivot := Partition(a, low, high);
      ghost var parted := a[..];
      PartitionSides(parted, low, pivot, high);
      QuicksortRange(a, low, pivot - 1);
      ghost var mid := a[..];
      QuicksortRange(a, pivot + 1, high);
      QuicksortCombine(parted, mid, a[..], low, pivot, high);
    } else {
      assert |a[low..high + 1]| <= 1;
    }
  }

  /** `quicksort`: slices shorter than two are returned as they are. */
  method Quicksort(a: array<int>)
    modifies a
    ensures Sorted(a[..])
    ensures multiset(a[..]) == multiset(old(a[..]))
  {
    var len := a.Length;
    if len <= 1 { return; }
    QuicksortRange(a, 0, len - 1);
    assert a[0..len] == a[..];
  }

  // ---------------------------------------------------------------------
  // Merging
  // ---------------------------------------------------------------------

  /** What `merge_arrays` appends once it has taken a[..i] and b[..j]:
      repeatedly the smaller head, a's on ties, then the rest of whichever
      input is left. */
  function MergedFrom(a: seq<int>, b: seq<int>, i: nat, j: nat): seq<int>
    requires i <= |a| && j <= |b|
    decreases |a| - i + |b| - j
  {
    if i == |a| then b[j..]
    else if j == |b| then a[i..]
    else if a[i] <= b[j] then [a[i]] + MergedFrom(a, b, i + 1, j)
    else [b[j]] + MergedFrom(a, b, i, j + 1)
  }

  /** The sequence `merge_arrays(a, b)` returns. */
  function Merged(a: seq<int>, b: seq<int>): seq<int>
  {
    MergedFrom(a, b, 0, 0)
  }

  /** The merge keeps every element of both inputs and nothing else. */
  lemma {:induction false} MergedFromPermutation(a: seq<int>, b: seq<int>, i: nat, j: nat)
    requires i <= |a| && j <= |b|
    ensures multiset(MergedFrom(a, b, i, j)) == multiset(a[i..]) + multiset(b[j..])
    decreases |a| - i + |b| - j
  {
    if i == |a| {
      assert a[i..] == [];
    } else if j == |b| {
      assert b[j..] == [];
    } else if a[i] <= b[j] {
      MergedFromPermutation(a, b, i + 1, j);
      TakeHead(a, i, MergedFrom(a, b, i + 1, j));
    } else {
      MergedFromPermutation(a, b, i, j + 1);
      TakeHead(b, j, MergedFrom(a, b, i, j + 1));
    }
  }

  /** Moving the head of s[i..] onto the front of rest adds it to rest's multiset. */
  lemma TakeHead(s: seq<int>, i: nat, rest: seq<int>)
    requires i < |s|
    ensures multiset([s[i]] + rest) == multiset(rest) + multiset{s[i]}
    ensures multiset(s[i..]) == multiset(s[i + 1..]) + multiset{s[i]}
  {
    assert s[i..] == [s[i]] + s[i + 1..];
  }

  /** A value below everything in a sorted sequence can be put in front. */
  lemma SortedCons(h: int, rest: seq<int>)
    requires Sorted(rest) && AllAtLeast(rest, h)
    ensures Sorted([h] + rest)
  {
    var s := [h] + rest;
    forall i, j | 0 <= i < j < |s|
      ensures s[i] <= s[j]
    {
      if i == 0 {
        assert s[j] in rest;
      } else {
        assert s[i] == rest[i - 1] && s[j] == rest[j - 1];
      }
    }
  }

  /** Every element of s is at least h. */
  predicate AllAtLeast(s: seq<int>, h: int)
  {
    forall x :: x in s ==> h <= x
  }

  /** A suffix of a sorted sequence is sorted, and bounded below by any h
      at most its first element. */
  lemma SortedSuffix(s: seq<int>, i: int, h: int)
    requires Sorted(s) && 0 <= i <= |s|
    requires i < |s| ==> h <= s[i]
    ensures Sorted(s[i..]) && AllAtLeast(s[i..], h)
  {
    forall p, q | 0 <= p < q < |s[i..]|
      ensures s[i..][p] <= s[i..][q]
    {
      assert s[i..][p] == s[i + p] && s[i..][q] == s[i + q];
    }
    forall x | x in s[i..]
      ensures h <= x
    {
      var k :| 0 <= k < |s[i..]| && s[i..][k] == x;
      assert s[i] <= s[i + k];
    }
  }

  /** A lower bound of two sequences bounds every rearrangement of both. */
  lemma AllAtLeastUnion(m: seq<int>, x: seq<int>, y: seq<int>, h: int)
    requires multiset(m) == multiset(x) + multiset(y)
    requires AllAtLeast(x, h) && AllAtLeast(y, h)
    ensures AllAtLeast(m, h)
  {
    forall v | v in m
      ensures h <= v
    {
      assert v in multiset(m);
      if v in multiset(x) {
        assert v in x;
      } else {
        assert v in y;
      }
    }
  }

  /** Merging the rests of two sorted sequences gives a sorted sequence. */
  lemma {:induction false} MergedFromSorted(a: seq<int>, b: seq<int>, i: nat, j: nat)
    requires i <= |a| && j <= |b| && Sorted(a) && Sorted(b)
    ensures Sorted(MergedFrom(a, b, i, j))
    decreases |a| - i + |b| - j
  {
    if i == |a| {
      SortedSuffix(b, j, if j < |b| then b[j] else 0);
    } else if j == |b| {
      SortedSuffix(a, i, a[i]);
    } else if a[i] <= b[j] {
      var rest := MergedFrom(a, b, i + 1, j);
      MergedFromSorted(a, b, i + 1, j);
      MergedFromPermutation(a, b, i + 1, j);
      SortedSuffix(a, i + 1, a[i]);
      SortedSuffix(b, j, a[i]);
      AllAtLeastUnion(rest, a[i + 1..], b[j..], a[i]);
      SortedCons(a[i], rest);
    } else {
      var rest := MergedFrom(a, b, i, j + 1);
      MergedFromSorted(a, b, i, j + 1);
      MergedFromPermutation(a, b, i, j + 1);
      SortedSuffix(a, i, b[j]);
      SortedSuffix(b, j + 1, b[j]);
      AllAtLeastUnion(rest, a[i..], b[j + 1..], b[j]);
      SortedCons(b[j], rest);
    }
  }

  /** The merge is a sorted rearrangement of its two sorted inputs. */
  lemma MergedFacts(a: seq<int>, b: seq<int>)
    ensures |Merged(a, b)| == |a| + |b|
    ensures multiset(Merged(a, b)) == multiset(a) + multiset(b)
    ensures Sorted(a) && Sorted(b) ==> Sorted(Merged(a, b))
  {
    MergedFromPermutation(a, b, 0, 0);
    assert a[0..] == a && b[0..] == b;
    assert |Merged(a, b)| == |multiset(Merged(a, b))|;
    if Sorted(a) && Sorted(b) {
      MergedFromSorted(a, b, 0, 0);
    }
  }

  /** Concatenation is associative. */
  lemma AppendAssoc(x: seq<int>, y: seq<int>, z: seq<int>)
    ensures x + (y + z) == (x + y) + z
  {
  }

  /** Once one input is used up, what is left to merge is the rest of the
      other. */
  lemma MergedFromRest(a: seq<int>, b: seq<int>, i: nat, j: nat)
    requires i <= |a| && j <= |b| && (i == |a| || j == |b|)
    ensures MergedFrom(a, b, i, j) == a[i..] + b[j..]
  {
    if i == |a| {
      assert a[i..] == [];
    } else {
      assert b[j..] == [];
    }
  }

  /** The tail loops of `merge_arrays`: push s[i], s[i + 1], ... onto r. */
  method PushRest(r: seq<int>, s: seq<int>, i: int) returns (out: seq<int>)
    requires 0 <= i <= |s|
    ensures out == r + s[i..]
  {
    out := r;
    var k := i;
    while k < |s|
      invariant i <= k <= |s|
      invariant out + s[k..] == r + s[i..]
    {
      assert s[k..] == [s[k]] + s[k + 1..];
      AppendAssoc(out, [s[k]], s[k + 1..]);
      out := out + [s[k]];
      k := k + 1;
    }
  }

  /** `merge_arrays(a, b)`: while both inputs have elements, push the
      smaller head (a's on ties); then push what is left of a, then of b. */
  method MergeArrays(a: seq<int>, b: seq<int>) returns (r: seq<int>)
    ensures r == Merged(a, b)
  {
    r := [];
    var i := 0;
    var j := 0;
    while i < |a| && j < |b|
      invariant 0 <= i <= |a| && 0 <= j <= |b|
      invariant r + MergedFrom(a, b, i, j) == Merged(a, b)
      decreases |a| - i + |b| - j
    {
      if a[i] <= b[j] {
        AppendAssoc(r, [a[i]], MergedFrom(a, b, i + 1, j));
        r := r + [a[i]];
        i := i + 1;
      } else {
        AppendAssoc(r, [b[j]], MergedFrom(a, b, i, j + 1));
        r := r + [b[j]];
        j := j + 1;
      }
    }
    MergedFromRest(a, b, i, j);
    AppendAssoc(r, a[i..], b[j..]);
    r := PushRest(r, a, i);
    r := PushRest(r, b, j);
  }

  /** Copy two adjacent windows out (`to_vec`), merge them, and write the
      result back over both (`clone_from_slice`), as merge_iter and timsort
      do for every pair of neighbouring runs. */
  method MergeBlock(a: array<int>, lo: int, mid: int, hi: int)
    requires 0 <= lo <= mid <= hi <= a.Length
    modifies a
    ensures a[lo..hi] == Merged(old(a[lo..mid]), old(a[mid..hi]))
    ensures a[..lo] == old(a[..lo]) && a[hi..] == old(a[hi..])
    ensures multiset(a[..]) == multiset(old(a[..]))
  {
    var left := a[lo..mid];
    var right := a[mid..hi];
    var tmp := MergeArrays(left, right);
    MergedFacts(left, right);
    CopyInto(a, lo, tmp);
    ReplaceWindow(old(a[..]), a[..], lo, mid, hi, tmp);
  }

  /** Replacing s[lo..hi] by a rearrangement m of its two halves. */
  lemma ReplaceWindow(s: seq<int>, t: seq<int>, lo: int, mid: int, hi: int, m: seq<int>)
    requires 0 <= lo <= mid <= hi <= |s| && |m| == hi - lo
    requires t == s[..lo] + m + s[hi..]
    requires multiset(m) == multiset(s[lo..mid]) + multiset(s[mid..hi])
    ensures t[lo..hi] == m && t[..lo] == s[..lo] && t[hi..] == s[hi..]
    ensures multiset(t) == multiset(s)
  {
    assert t[lo..hi] == m && t[..lo] == s[..lo] && t[hi..] == s[hi..];
    assert s[lo..hi] == s[lo..mid] + s[mid..hi];
    SliceSplit(s, lo, hi);
    SliceSplit(t, lo, hi);
  }

  /** The end of `merge` and `parallel_merge`: merge the two sorted halves
      and copy the result back over the whole slice. */
  method MergeHalves(items: array<int>, left: array<int>, right: array<int>)
    requires items != left && items != right
    requires items.Length == left.Length + right.Length
    requires Sorted(left[..]) && Sorted(right[..])
    modifies items
    ensures Sorted(items[..])
    ensures multiset(items[..]) == multiset(left[..]) + multiset(right[..])
  {
    var merged := MergeArrays(left[..], right[..]);
    MergedFacts(left[..], right[..]);
    CopyInto(items, 0, merged);
    assert items[..] == merged;
  }

  /** `merge`: top-down merge sort on copies of the two halves. */
  method Merge(items: array<int>)
    modifies items
    ensures Sorted(items[..])
    ensures multiset(items[..]) == multiset(old(items[..]))
    decreases items.Length
  {
    var len := items.Length;
    if len < 2 { return; }
    var middle := len / 2;
    var left := ToVec(items[..middle]);
    var right := ToVec(items[middle..]);
    assert items[..] == left[..] + right[..];
    ghost var halves := multiset(left[..]) + multiset(right[..]);
    Merge(left);
    Merge(right);
    MergeHalves(items, left, right);
    assert multiset(items[..]) == halves;
  }
  /** `parallel_merge`: below 2048 elements it is `merge`; above, the two
      halves are sorted by recursive calls (on two threads in the source;
      they work on separate copies, so running them one after the other
      gives the same result) and merged. */
  method ParallelMerge(items: array<int>)
    modifies items
    ensures Sorted(items[..])
    ensures multiset(items[..]) == multiset(old(items[..]))
    decreases items.Length
  {
    var len := items.Length;
    if len < 2 { return; }
    if len < 2048 {
      Merge(items);
      return;
    }
    var middle := len / 2;
    var left := ToVec(items[..middle]);
    var right := ToVec(items[middle..]);
    assert items[..] == left[..] + right[..];
    ghost var halves := multiset(left[..]) + multiset(right[..]);
    ParallelMerge(left);
    ParallelMerge(right);
    MergeHalves(items, left, right);
    assert multiset(items[..]) == halves;
  }
  // ---------------------------------------------------------------------
  // Bottom-up merging.  Runs(s, w): s is a sequence of sorted runs of
  // width w, the last possibly shorter.  FullRuns(s, w): the same with
  // every run complete.
  // ---------------------------------------------------------------------

  /** Sortedness stated one adjacent pair at a time, without a quantifier,
      so that the run predicates below stay cheap to unfold. */
  ghost predicate Ascending(s: seq<int>)
    decreases |s|
  {
    |s| <= 1 || (s[0] <= s[1] && Ascending(s[1..]))
  }

  lemma {:induction false} AscendingIsSorted(s: seq<int>)
    requires Ascending(s)
    ensures Sorted(s)
    decreases |s|
  {
    if |s| > 1 {
      AscendingIsSorted(s[1..]);
      forall j | 1 <= j < |s|
        ensures s[0] <= s[j]
      {
        assert s[1] == s[1..][0] && s[j] == s[1..][j - 1];
      }
    }
  }

  lemma {:induction false} SortedIsAscending(s: seq<int>)
    requires Sorted(s)
    ensures Ascending(s)
    decreases |s|
  {
    if |s| > 1 {
      SortedIsAscending(s[1..]);
    }
  }

  ghost predicate Runs(s: seq<int>, w: int)
    requires w >= 1
    decreases |s|
  {
    if |s| <= w then Ascending(s) else Ascending(s[..w]) && Runs(s[w..], w)
  }

  ghost predicate FullRuns(s: seq<int>, w: int)
    requires w >= 1
    decreases |s|
  {
    s == [] || (|s| >= w && Ascending(s[..w]) && FullRuns(s[w..], w))
  }

  /** Every sequence is a sequence of sorted runs of width one. */
  lemma {:induction false} RunsOfOne(s: seq<int>)
    ensures Runs(s, 1)
    decreases |s|
  {
    if |s| > 1 {
      RunsOfOne(s[1..]);
    }
  }

  lemma {:induction false} FullRunsAppend(p: seq<int>, q: seq<int>, w: int)
    requires w >= 1 && FullRuns(p, w) && |q| == w && Ascending(q)
    ensures FullRuns(p + q, w)
    decreases |p|
  {
    if p == [] {
      assert p + q == q && q[w..] == [] && q[..w] == q;
    } else {
      FullRunsAppend(p[w..], q, w);
      assert (p + q)[..w] == p[..w] && (p + q)[w..] == p[w..] + q;
    }
  }

  lemma {:induction false} FullRunsThenRuns(p: seq<int>, q: seq<int>, w: int)
    requires w >= 1 && FullRuns(p, w) && Runs(q, w)
    ensures Runs(p + q, w)
    decreases |p|
  {
    if p == [] {
      assert p + q == q;
    } else {
      FullRunsThenRuns(p[w..], q, w);
      assert (p + q)[..w] == p[..w] && (p + q)[w..] == p[w..] + q;
      if |p + q| <= w {
        assert p + q == p[..w];
      }
    }
  }

  /** The first two runs of a sequence of runs, and what follows them. */
  lemma RunsPair(s: seq<int>, w: int)
    requires w >= 1 && Runs(s, w) && |s| > w
    ensures Ascending(s[..w]) && Ascending(s[w..Min(2 * w, |s|)])
    ensures Runs(s[Min(2 * w, |s|)..], w)
  {
    var t := s[w..];
    assert Runs(t, w);
    if |t| <= w {
      assert s[w..Min(2 * w, |s|)] == t;
      assert s[Min(2 * w, |s|)..] == [];
    } else {
      assert s[w..Min(2 * w, |s|)] == t[..w];
      assert s[Min(2 * w, |s|)..] == t[w..];
    }
  }

  /** Widening: a sequence of runs of width w that is no longer than some
      larger width is one run of that width. */
  lemma ShortRuns(s: seq<int>, w: int, wider: int)
    requires 1 <= w <= wider && |s| <= w && Runs(s, w)
    ensures Runs(s, wider)
  {
  }

  function Min(x: int, y: int): int
  {
    if x <= y then x else y
  }

  /** RunsPair, for the runs that start at position i of s. */
  lemma RunsPairAt(s: seq<int>, i: int, w: int)
    requires w >= 1 && 0 <= i && i + w < |s| && Runs(s[i..], w)
    ensures Ascending(s[i..i + w]) && Ascending(s[i + w..Min(i + 2 * w, |s|)])
    ensures Runs(s[Min(i + 2 * w, |s|)..], w)
  {
    var rb := Min(i + 2 * w, |s|);
    RunsPair(s[i..], w);
    assert s[i..][..w] == s[i..i + w];
    assert s[i..][w..Min(2 * w, |s| - i)] == s[i + w..rb];
    assert s[i..][Min(2 * w, |s| - i)..] == s[rb..];
  }

  lemma MergedAscending(x: seq<int>, y: seq<int>)
    requires Ascending(x) && Ascending(y)
    ensures Ascending(Merged(x, y))
  {
    AscendingIsSorted(x);
    AscendingIsSorted(y);
    MergedFacts(x, y);
    SortedIsAscending(Merged(x, y));
  }

  /** Putting a sorted block of width up to `width` after complete runs of
      that width. */
  lemma AppendRun(s: seq<int>, i: int, rb: int, width: int)
    requires width >= 1 && 0 <= i < rb <= |s| && rb <= i + width
    requires FullRuns(s[..i], width) && Ascending(s[i..rb])
    requires rb < |s| ==> rb == i + width
    ensures rb == i + width ==> FullRuns(s[..rb], width)
    ensures rb == |s| ==> Runs(s, width)
  {
    if rb == i + width {
      FullRunsAppend(s[..i], s[i..rb], width);
      assert s[..rb] == s[..i] + s[i..rb];
    }
    if rb == |s| {
      assert s == s[..i] + s[i..rb];
      FullRunsThenRuns(s[..i], s[i..rb], width);
    }
  }

  /** Where a merge pass at width w stands once it reaches position i:
      complete runs of width 2w before i, runs of width w from i on. */
  ghost predicate PassAt(s: seq<int>, i: int, w: int)
    requires w >= 1 && 0 <= i
  {
    if i < |s| then FullRuns(s[..i], 2 * w) && Runs(s[i..], w) else Runs(s, 2 * w)
  }

  /** Where timsort's first loop stands once it reaches position i:
      complete sorted runs of width w before i. */
  ghost predicate RunsBuilt(s: seq<int>, i: int, w: int)
    requires w >= 1 && 0 <= i
  {
    if i < |s| then FullRuns(s[..i], w) else Runs(s, w)
  }

  /** One merge of two neighbouring runs of width w at position i (the
      body of the inner loop of merge_iter and timsort) turns them into one
      run of width 2w. */
  lemma MergeStepRuns(before: seq<int>, after: seq<int>, i: int, w: int)
    requires w >= 1 && 0 <= i && i + w < |before| == |after|
    requires FullRuns(before[..i], 2 * w) && Runs(before[i..], w)
    requires after[..i] == before[..i]
    requires after[Min(i + 2 * w, |before|)..] == before[Min(i + 2 * w, |before|)..]
    requires after[i..Min(i + 2 * w, |before|)]
          == Merged(before[i..i + w], before[i + w..Min(i + 2 * w, |before|)])
    ensures PassAt(after, i + 2 * w, w)
  {
    var rb := Min(i + 2 * w, |before|);
    RunsPairAt(before, i, w);
    MergedAscending(before[i..i + w], before[i + w..rb]);
    AppendRun(after, i, rb, 2 * w);
  }

  /** Merge the two runs of width w starting at i (copy them out, merge,
      write back), as both merge_iter and timsort do. */
  method MergeRunPair(items: array<int>, i: int, w: int)
    requires w >= 1 && 0 <= i && i + w < items.Length
    requires PassAt(items[..], i, w)
    modifies items
    ensures PassAt(items[..], i + 2 * w, w)
    ensures multiset(items[..]) == multiset(old(items[..]))
  {
    var rightBound := Min(i + 2 * w, items.Length);
    ghost var before := items[..];
    MergeBlock(items, i, i + w, rightBound);
    MergeStepRuns(before, items[..], i, w);
  }

  /** When fewer than w elements remain after position i, the pass is over. */
  lemma FinishPass(s: seq<int>, i: int, w: int)
    requires w >= 1 && 0 <= i && |s| <= i + w
    requires PassAt(s, i, w)
    ensures Runs(s, 2 * w)
  {
    if i < |s| {
    ShortRuns(s[i..], w, 2 * w);
      FullRunsThenRuns(s[..i], s[i..], 2 * w);
      assert s[..i] + s[i..] == s;
    }
  }

  /** The inner loop of merge_iter: merge every pair of neighbouring runs
      of width `step`, giving runs of width 2 * step. */
  method MergeIterPass(items: array<int>, step: int)
    requires step >= 1 && Runs(items[..], step)
    modifies items
    ensures Runs(items[..], 2 * step)
    ensures multiset(items[..]) == multiset(old(items[..]))
  {
    var len := items.Length;
    var i := 0;
    assert items[..0] == [] && items[0..] == items[..];
    while i + step < len
      invariant 0 <= i
      invariant PassAt(items[..], i, step)
      invariant multiset(items[..]) == multiset(old(items[..]))
    {
      MergeRunPair(items, i, step);
      i := i + 2 * step;
    }
    FinishPass(items[..], i, step);
  }

  /** `merge_iter`: bottom-up merge sort with widths 1, 2, 4, ... */
  method MergeIter(items: array<int>)
    modifies items
    ensures Sorted(items[..])
    ensures multiset(items[..]) == multiset(old(items[..]))
  {
    var len := items.Length;
    var step := 1;
    RunsOfOne(items[..]);
    while step < len
      invariant step >= 1
      invariant Runs(items[..], step)
      invariant multiset(items[..]) == multiset(old(items[..]))
    {
      MergeIterPass(items, step);
      step := step * 2;
    }
    AscendingIsSorted(items[..]);
  }

  // ---------------------------------------------------------------------
  // Heap sort
  // ---------------------------------------------------------------------

  /** In the heap made of the first n slots, node k is at least each of its
      children 2k+1 and 2k+2. */
  predicate Dominates(s: seq<int>, n: int, k: int)
    requires 0 <= k && n <= |s|
  {
    (2 * k + 1 < n ==> s[k] >= s[2 * k + 1]) && (2 * k + 2 < n ==> s[k] >= s[2 * k + 2])
  }

  /** Slots [lo, n) are all ordered with respect to their children, except
      possibly slot `except` (pass -1 for none). */
  predicate HeapExcept(s: seq<int>, lo: int, n: int, except: int)
    requires 0 <= lo && n <= |s|
  {
    forall k :: lo <= k < n && k != except ==> Dominates(s, n, k)
  }

  /** The parent of slot i, when it belongs to [lo, n), is at least i's
      children: what sifting i down relies on. */
  predicate ParentCovers(s: seq<int>, lo: int, n: int, i: int)
    requires 0 <= lo <= i && n <= |s|
  {
    0 < i && lo <= (i - 1) / 2 ==>
      (2 * i + 1 < n ==> s[(i - 1) / 2] >= s[2 * i + 1]) &&
      (2 * i + 2 < n ==> s[(i - 1) / 2] >= s[2 * i + 2])
  }

  /** Every slot of a heap is at most its root. */
  lemma {:induction false} RootAbove(s: seq<int>, n: int, k: int)
    requires 0 <= k < n <= |s|
    requires HeapExcept(s, 0, n, -1)
    ensures s[k] <= s[0]
    decreases k
  {
    if k > 0 {
      var parent := (k - 1) / 2;
      RootAbove(s, n, parent);
      assert Dominates(s, n, parent);
    }
  }

  /** Swapping slot i with its larger child m, when that child is larger
      than i, leaves only m out of order, with m's parent covering it. */
  lemma SiftSwap(s: seq<int>, lo: int, n: int, i: int, m: int)
    requires 0 <= lo <= i < m < n <= |s|
    requires m == 2 * i + 1 || m == 2 * i + 2
    requires s[m] > s[i]
    requires 2 * i + 1 < n ==> s[m] >= s[2 * i + 1]
    requires 2 * i + 2 < n ==> s[m] >= s[2 * i + 2]
    requires HeapExcept(s, lo, n, i) && ParentCovers(s, lo, n, i)
    ensures HeapExcept(s[i := s[m]][m := s[i]], lo, n, m)
    ensures ParentCovers(s[i := s[m]][m := s[i]], lo, n, m)
  {
    var t := s[i := s[m]][m := s[i]];
    forall k | lo <= k < n && k != m
      ensures Dominates(t, n, k)
    {
      if k != i {
        assert Dominates(s, n, k);
      }
    }
    assert Dominates(s, n, m);
  }

  /** `heapify_down(slice, n, i)`: sift slice[i] down until it is at least
      both children. Every node of [lo, n) other than i is already ordered
      (and i's parent, if in range, is at least i's children); afterwards all
      of [lo, n) is. The value left at i is one of i's old value and its
      children's; slots before i and from n on do not move. */
  method HeapifyDown(a: array<int>, n: int, i: int, ghost lo: int)
    requires 0 <= lo <= i < n <= a.Length
    requires HeapExcept(a[..], lo, n, i) && ParentCovers(a[..], lo, n, i)
    modifies a
    ensures HeapExcept(a[..], lo, n, -1)
    ensures a[i] == old(a[i]) || (2 * i + 1 < n && a[i] == old(a[2 * i + 1]))
                              || (2 * i + 2 < n && a[i] == old(a[2 * i + 2]))
    ensures multiset(a[..]) == multiset(old(a[..]))
    ensures forall k :: 0 <= k < a.Length && (k < i || n <= k) ==> a[k] == old(a[k])
    decreases n - i
  {
    var l := 2 * i + 1;
    var r := 2 * i + 2;
    var max := i;
    if l < n && a[l] > a[max] {
      max := l;
    }
    if r < n && a[r] > a[max] {
      max := r;
    }
    if max != i {
      SiftSwap(a[..], lo, n, i, max);
      Swap(a, i, max);
      HeapifyDown(a, n, max, lo);
    } else {
      assert Dominates(a[..], n, i);
    }
  }

  /** `heap_sort`: build a max-heap bottom-up, then repeatedly move the root
      behind the heap and sift the new root down. */
  method HeapSort(a: array<int>)
    modifies a
    ensures Sorted(a[..])
    ensures multiset(a[..]) == multiset(old(a[..]))
  {
    var n := a.Length;
    if n <= 1 { return; }
    var i := n / 2;
    while i > 0
      invariant 0 <= i <= n / 2
      invariant HeapExcept(a[..], i, n, -1)
      invariant multiset(a[..]) == multiset(old(a[..]))
    {
      i := i - 1;
      HeapifyDown(a, n, i, i);
    }
    i := n - 1;
    while i >= 1
      invariant 0 <= i < n
      invariant HeapExcept(a[..], 0, i + 1, -1)
      invariant SortedFrom(a[..], i + 1) && SplitAt(a[..], i + 1)
      invariant multiset(a[..]) == multiset(old(a[..]))
    {
      ExtractMax(a, i);
      i := i - 1;
    }
    assert SortedFrom(a[..], 0);
  }

  /** Swapping the root of the heap [0, i] to slot i extends the sorted
      suffix by one slot and leaves [0, i) a heap except at its root. */
  lemma ExtractFacts(heap: seq<int>, before: seq<int>, i: int)
    requires 1 <= i < |heap|
    requires HeapExcept(heap, 0, i + 1, -1)
    requires SortedFrom(heap, i + 1) && SplitAt(heap, i + 1)
    requires before == heap[i := heap[0]][0 := heap[i]]
    ensures HeapExcept(before, 0, i, 0)
    ensures SortedFrom(before, i) && SplitAt(before, i)
  {
    forall k | 1 <= k < i
      ensures Dominates(before, i, k)
    {
      assert Dominates(heap, i + 1, k);
    }
    forall k | 0 <= k <= i
      ensures heap[k] <= heap[0]
    {
      RootAbove(heap, i + 1, k);
    }
    forall p, q | 0 <= p < i <= q < |before|
      ensures before[p] <= before[q]
    {
      if q > i {
        assert heap[0] <= heap[q];
      }
    }
  }

  /** Sifting inside [0, i) only rearranges [0, i), so the sorted suffix
      and the split at i survive it. */
  lemma SuffixAfterSift(before: seq<int>, after: seq<int>, i: int)
    requires 1 <= i < |before| == |after|
    requires multiset(after) == multiset(before) && after[i..] == before[i..]
    requires SortedFrom(before, i) && SplitAt(before, i)
    ensures SortedFrom(after, i) && SplitAt(after, i)
  {
    assert AllAtMost(before[..i], before[i]) by {
      forall x | x in before[..i]
        ensures x <= before[i]
      {
        var p :| 0 <= p < i && before[p] == x;
      }
    }
    WholeToWindow(after, before, 0, i);
    AllAtMostPermutation(after[..i], before[..i], before[i]);
    forall p, q | 0 <= p < i <= q < |after|
      ensures after[p] <= after[q]
    {
      assert after[p] in after[..i];
      assert after[i] == before[i] && after[q] == before[q];
    }
    forall p, q | i <= p < q < |after|
      ensures after[p] <= after[q]
    {
      assert after[p] == before[p] && after[q] == before[q];
    }
  }

  /** One step of the second loop of heap_sort: swap the root of the heap
      [0, i] with slot i, then restore the heap on [0, i). */
  method ExtractMax(a: array<int>, i: int)
    requires 1 <= i < a.Length
    requires HeapExcept(a[..], 0, i + 1, -1)
    requires SortedFrom(a[..], i + 1) && SplitAt(a[..], i + 1)
    modifies a
    ensures HeapExcept(a[..], 0, i, -1)
    ensures SortedFrom(a[..], i) && SplitAt(a[..], i)
    ensures multiset(a[..]) == multiset(old(a[..]))
  {
    ghost var heap := a[..];
    Swap(a, i, 0);
    ghost var before := a[..];
    ExtractFacts(heap, before, i);
    HeapifyDown(a, i, 0, 0);
    assert a[i..] == before[i..];
    SuffixAfterSift(before, a[..], i);
  }

  // ---------------------------------------------------------------------
  // Shell sort
  // ---------------------------------------------------------------------

  /** Every element is at most the one d places further on. */
  predicate GapSorted(s: seq<int>, d: int)
    requires d >= 1
  {
    forall k :: 0 <= k && k + d < |s| ==> s[k] <= s[k + d]
  }

  /** The body of shell's outer loop for one gap d: gapped insertion sort,
      after which the array is d-sorted. */
  method ShellPass(a: array<int>, d: int)
    requires 1 <= d <= a.Length
    modifies a
    ensures GapSorted(a[..], d)
    ensures multiset(a[..]) == multiset(old(a[..]))
  {
    var len := a.Length;
    for i := d to len
      invariant forall k :: 0 <= k && k + d < i ==> a[k] <= a[k + d]
      invariant multiset(a[..]) == multiset(old(a[..]))
    {
      var j := i;
      while j >= d && a[j - d] > a[j]
        invariant 0 <= j <= i
        invariant forall k :: 0 <= k && k + d <= i && k != j && k + d != j ==> a[k] <= a[k + d]
        invariant j >= d && j + d <= i ==> a[j - d] <= a[j + d]
        invariant j + d <= i ==> a[j] <= a[j + d]
        invariant multiset(a[..]) == multiset(old(a[..]))
        decreases j
      {
        Swap(a, j, j - d);
        j := j - d;
      }
    }
  }

  /** `shell`: gaps len/2, len/4, ..., 1. */
  method Shell(a: array<int>)
    modifies a
    ensures Sorted(a[..])
    ensures multiset(a[..]) == multiset(old(a[..]))
  {
    var len := a.Length;
    var d := len / 2;
    while d > 0
      invariant 0 <= d <= len / 2
      invariant d == 0 ==> Sorted(a[..])
      invariant multiset(a[..]) == multiset(old(a[..]))
    {
      ShellPass(a, d);
      if d == 1 {
        AdjacentSortedIsSorted(a[..]);
      }
      d := d / 2;
    }
  }

  // ---------------------------------------------------------------------
  // Timsort
  // ---------------------------------------------------------------------

  function Pow2(k: nat): (p: nat)
    ensures p >= 1
  {
    if k == 0 then 1 else 2 * Pow2(k - 1)
  }

  /** How many times calculate_run_size halves its argument: until it is
      below 8. */
  function Halvings(n: nat): nat
  {
    if n < 8 then 0 else 1 + Halvings(n / 2)
  }

  /** Halvings(n) is the least k with n < 8 * 2^k. */
  lemma {:induction false} HalvingsIsLeast(n: nat)
    ensures n < 8 * Pow2(Halvings(n))
    ensures Halvings(n) > 0 ==> 8 * Pow2(Halvings(n) - 1) <= n
  {
    if n >= 8 {
      HalvingsIsLeast(n / 2);
      if Halvings(n / 2) > 0 {
        assert Pow2(Halvings(n) - 1) == 2 * Pow2(Halvings(n / 2) - 1);
      }
    }
  }

  /** The halving step of calculate_run_size keeps
      n0 == n * 2^k + low with the dropped bits low < 2^k. */
  lemma HalvingStep(n0: int, n: int, k: nat, low: int)
    requires n >= 0 && 0 <= low < Pow2(k) && n0 == n * Pow2(k) + low
    ensures n0 == (n / 2) * Pow2(k + 1) + ((n % 2) * Pow2(k) + low)
    ensures 0 <= (n % 2) * Pow2(k) + low < Pow2(k + 1)
  {
    var p := Pow2(k);
    var m, b := n / 2, n % 2;
    assert n == 2 * m + b;
    Distribute(p, 2 * m, b);
    assert Pow2(k + 1) == 2 * p;
    assert b == 0 || b == 1;
  }

  /** What the run size means: r runs of length p cover n = m * p + low
      elements (0 <= low < p, r = m plus one if low > 0); r - 1 do not. */
  lemma CeilingBounds(n: int, m: int, p: int, low: int, r: int)
    requires p > 0 && 0 <= low < p && n == m * p + low
    requires r == m + (if low > 0 then 1 else 0)
    ensures (r - 1) * p < n <= r * p
  {
    Distribute(p, m, 1);
    Distribute(p, m, -1);
  }

  /** `calculate_run_size(n)`: halve n until it is below 8, remembering
      whether any halving dropped a 1 bit, and add that bit back: the
      result is n / 2^k rounded up, where k = Halvings(n), and lies in
      [4, 8] once n >= 8. */
  method CalculateRunSize(dataLength: int) returns (r: int)
    requires dataLength >= 0
    ensures dataLength < 8 ==> r == dataLength
    ensures dataLength >= 8 ==> 4 <= r <= 8
    ensures (r - 1) * Pow2(Halvings(dataLength)) < dataLength <= r * Pow2(Halvings(dataLength))
  {
    var n := dataLength;
    var remainder := 0;
    ghost var k: nat := 0;
    ghost var low := 0;
    while n >= 8
      invariant n >= 0 && 0 <= low < Pow2(k)
      invariant dataLength == n * Pow2(k) + low
      invariant remainder == if low > 0 then 1 else 0
      invariant Halvings(dataLength) == k + Halvings(n)
      invariant k > 0 ==> n >= 4
      decreases n
    {
      HalvingStep(dataLength, n, k, low);
      if n % 2 == 1 {
        remainder := 1;
      }
      low := (n % 2) * Pow2(k) + low;
      n := n / 2;
      k := k + 1;
    }
    r := n + remainder;
    CeilingBounds(dataLength, n, Pow2(k), low, r);
  }

  /** The first loop of timsort, one step: insertion-sort the run starting
      at `lower`. */
  method SortRun(data: array<int>, lower: int, w: int)
    requires w >= 1 && 0 <= lower < data.Length
    requires RunsBuilt(data[..], lower, w)
    modifies data
    ensures RunsBuilt(data[..], lower + w, w)
    ensures multiset(data[..]) == multiset(old(data[..]))
  {
    var upper := Min(lower + w, data.Length);
    ghost var before := data[..];
    BasicSorts.InsertionSlice(data, lower, upper);
    SortedRunFacts(before, data[..], lower, upper, w);
  }

  /** A freshly sorted block [lower, upper) of width w (shorter only at the
      end) after complete runs extends them. */
  lemma SortedRunFacts(before: seq<int>, after: seq<int>, lower: int, upper: int, w: int)
    requires w >= 1 && 0 <= lower < upper <= |after| == |before|
    requires upper == Min(lower + w, |after|)
    requires RunsBuilt(before, lower, w) && after[..lower] == before[..lower]
    requires Sorted(after[lower..upper])
    ensures RunsBuilt(after, lower + w, w)
  {
    SortedIsAscending(after[lower..upper]);
    AppendRun(after, lower, upper, w);
  }

  /** One pass of timsort's merge loop at width `size`; it stops (`break`)
      once no right-hand run is left. */
  method TimsortPass(data: array<int>, size: int)
    requires size >= 1 && Runs(data[..], size)
    modifies data
    ensures Runs(data[..], 2 * size)
    ensures multiset(data[..]) == multiset(old(data[..]))
  {
    var len := data.Length;
    var lowerBound := 0;
    assert data[..0] == [] && data[0..] == data[..];
    while lowerBound < len
      invariant 0 <= lowerBound
      invariant PassAt(data[..], lowerBound, size)
      invariant multiset(data[..]) == multiset(old(data[..]))
    {
      var middleBound := lowerBound + size - 1;
      if middleBound >= len - 1 {
        break;
      }
      MergeRunPair(data, lowerBound, size);
      lowerBound := lowerBound + size * 2;
    }
    FinishPass(data[..], lowerBound, size);
  }

  /** `timsort`: insertion-sort runs of calculate_run_size(len) elements,
      then merge neighbouring runs bottom-up. */
  method Timsort(data: array<int>)
    modifies data
    ensures Sorted(data[..])
    ensures multiset(data[..]) == multiset(old(data[..]))
  {
    var len := data.Length;
    if len <= 1 { return; }
    var runSize := CalculateRunSize(len);
    var lower := 0;
    assert data[..0] == [];
    while lower < len
      invariant 0 <= lower
      invariant RunsBuilt(data[..], lower, runSize)
      invariant multiset(data[..]) == multiset(old(data[..]))
    {
      SortRun(data, lower, runSize);
      lower := lower + runSize;
    }
    var size := runSize;
    while size < len
      invariant size >= 1 && Runs(data[..], size)
      invariant multiset(data[..]) == multiset(old(data[..]))
    {
      TimsortPass(data, size);
      size := size * 2;
    }
    AscendingIsSorted(data[..]);
  }
}
