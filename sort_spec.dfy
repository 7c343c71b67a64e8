/** Vocabulary shared by the models of the sorting library: order, the in-place
    exchange every routine is built from, and the progress measure that makes
    the "repeat passes until nothing moves" loops terminate. Elements are
    integers, standing for any totally ordered element type. */
module SortSpec {

  /** s is in non-decreasing order. */
  predicate Sorted(s: seq<int>)
  {
    forall i, j :: 0 <= i < j < |s| ==> s[i] <= s[j]
  }

  /** No adjacent pair is out of order: what a pass that made no swap observes. */
  predicate AdjacentSorted(s: seq<int>)
  {
    forall i :: 0 <= i < |s| - 1 ==> s[i] <= s[i + 1]
  }

  /** The slice a[lo..hi] of an array is in non-decreasing order. */
  ghost predicate SortedRange(a: array<int>, lo: int, hi: int)
    requires 0 <= lo <= hi <= a.Length
    reads a
  {
    forall i, j :: lo <= i < j < hi ==> a[i] <= a[j]
  }

  /** The slots from i on are in non-decreasing order. */
  predicate SortedFrom(s: seq<int>, i: int)
    requires 0 <= i
  {
    forall p, q :: i <= p < q < |s| ==> s[p] <= s[q]
  }

  /** Nothing before slot i exceeds anything from slot i on. */
  predicate SplitAt(s: seq<int>, i: int)
    requires 0 <= i
  {
    forall p, q :: 0 <= p < i <= q < |s| ==> s[p] <= s[q]
  }

  lemma {:induction false} AdjacentSortedIsSorted(s: seq<int>)
    requires AdjacentSorted(s)
    ensures Sorted(s)
  {
    forall i, j | 0 <= i < j < |s|
      ensures s[i] <= s[j]
    {
      var k := i;
      while k < j
        invariant i <= k <= j
        invariant s[i] <= s[k]
      {
        k := k + 1;
      }
    }
  }

  /** A sorted sequence has no out-of-order adjacent pair (the converse above). */
  lemma SortedIsAdjacentSorted(s: seq<int>)
    requires Sorted(s)
    ensures AdjacentSorted(s)
  {
  }

  /** A permutation of a sequence of length at most one is that sequence: the
      routines that return early on short input leave it untouched. */
  lemma {:induction false} ShortPermutationIsIdentity(s: seq<int>, t: seq<int>)
    requires |s| <= 1 && multiset(s) == multiset(t)
    ensures s == t
  {
    assert |t| == |multiset(t)| == |multiset(s)| == |s|;
    if |s| == 1 {
      assert s[0] in multiset(t);
      assert t == [t[0]];
    }
  }

  /** Rust's `slice::swap`. */
  method Swap(a: array<int>, i: int, j: int)
    requires 0 <= i < a.Length && 0 <= j < a.Length
    modifies a
    ensures a[..] == old(a[..])[i := old(a[j])][j := old(a[i])]
    ensures a[i] == old(a[j]) && a[j] == old(a[i])
    ensures forall k :: 0 <= k < a.Length && k != i && k != j ==> a[k] == old(a[k])
    ensures multiset(a[..]) == multiset(old(a[..]))
  {
    a[i], a[j] := a[j], a[i];
  }

  /** Rust's `clone_from_slice` and `copy_from_slice` onto the window
      a[lo..lo + |src|]: the window becomes src and the rest of a is
      unchanged; with lo = 0 and |src| == a.Length the whole of a
      becomes src. */
  method CopyInto(a: array<int>, lo: int, src: seq<int>)
    requires 0 <= lo && lo + |src| <= a.Length
    modifies a
    ensures a[..] == old(a[..lo]) + src + old(a[lo + |src|..])
    ensures lo == 0 && |src| == a.Length ==> a[..] == src
  {
    forall k | lo <= k < lo + |src| {
      a[k] := src[k - lo];
    }
    assert a[..] == old(a[..lo]) + src + old(a[lo + |src|..]);
  }

  /** The step every "swap if out of order" pass repeats: exchange a[i] and
      a[j] (i < j) when a[i] > a[j], and report whether it did. */
  method CompareExchange(a: array<int>, i: int, j: int) returns (swapped: bool)
    requires 0 <= i < j < a.Length
    modifies a
    ensures swapped == (old(a[i]) > old(a[j]))
    ensures a[i] <= a[j]
    ensures swapped ==> a[i] == old(a[j]) && a[j] == old(a[i])
    ensures swapped ==> Weight(a[..]) > Weight(old(a[..]))
    ensures !swapped ==> a[..] == old(a[..])
    ensures forall k :: 0 <= k < a.Length && k != i && k != j ==> a[k] == old(a[k])
    ensures multiset(a[..]) == multiset(old(a[..]))
  {
    swapped := a[i] > a[j];
    if swapped {
      SwapRaisesWeight(a[..], i, j);
      Swap(a, i, j);
    }
  }

  // ---------------------------------------------------------------------
  // Progress measure.  Weight(s) = sum of k * s[k].  Exchanging an
  // out-of-order pair moves the larger value to the later index, which
  // raises Weight; and no permutation of s weighs more than |s| * AbsSum(s).
  // ---------------------------------------------------------------------

  function Sum(s: seq<int>): int
  {
    if s == [] then 0 else s[0] + Sum(s[1..])
  }

  /** Sum of k * s[k], written without multiplication: each element after
      the first contributes once more per step it sits further right. */
  function Weight(s: seq<int>): int
  {
    if |s| <= 1 then 0 else Sum(s[1..]) + Weight(s[1..])
  }

  function Abs(x: int): nat
  {
    if x < 0 then -x else x
  }

  function AbsSum(s: seq<int>): nat
  {
    if s == [] then 0 else AbsSum(s[..|s| - 1]) + Abs(s[|s| - 1])
  }

  lemma {:induction false} SumUpdate(s: seq<int>, k: int, v: int)
    requires 0 <= k < |s|
    ensures Sum(s[k := v]) == Sum(s) + (v - s[k])
  {
    if k > 0 {
      assert s[k := v][1..] == s[1..][k - 1 := v];
      SumUpdate(s[1..], k - 1, v);
    } else {
      assert s[k := v][1..] == s[1..];
    }
  }

  lemma {:induction false} WeightUpdate(s: seq<int>, k: int, v: int)
    requires 0 <= k < |s|
    ensures Weight(s[k := v]) == Weight(s) + k * (v - s[k])
  {
    var t := s[k := v];
    if k == 0 {
      assert t[1..] == s[1..];
    } else {
      assert t[1..] == s[1..][k - 1 := v];
      SumUpdate(s[1..], k - 1, v);
      WeightUpdate(s[1..], k - 1, v);
      Distribute(k - 1, 1, v - s[k]);
    }
  }

  lemma {:induction false} SwapRaisesWeight(s: seq<int>, i: int, j: int)
    requires 0 <= i < j < |s| && s[i] > s[j]
    ensures Weight(s[i := s[j]][j := s[i]]) > Weight(s)
  {
    var t := s[i := s[j]];
    WeightUpdate(s, i, s[j]);
    WeightUpdate(t, j, s[i]);
    assert Weight(t[j := s[i]]) == Weight(s) + (j - i) * (s[i] - s[j]);
    PositiveProduct(j - i, s[i] - s[j]);
  }

  lemma PositiveProduct(x: int, y: int)
    requires x > 0 && y > 0
    ensures x * y > 0
  {
  }

  lemma {:induction false} AbsSumAppend(s: seq<int>, t: seq<int>)
    ensures AbsSum(s + t) == AbsSum(s) + AbsSum(t)
  {
    if t == [] {
      assert s + t == s;
    } else {
      var n := |t|;
      assert (s + t)[..|s + t| - 1] == s + t[..n - 1];
      AbsSumAppend(s, t[..n - 1]);
    }
  }

  /** AbsSum depends only on the multiset of elements. */
  lemma {:induction false} AbsSumPermutation(s: seq<int>, t: seq<int>)
    requires multiset(s) == multiset(t)
    ensures AbsSum(s) == AbsSum(t)
    decreases |s|
  {
    assert |s| == |multiset(s)| == |t|;
    if s != [] {
      var n := |s|;
      var x := s[n - 1];
      assert s == s[..n - 1] + [x];
      assert x in multiset(t);
      var k :| 0 <= k < |t| && t[k] == x;
      assert t == t[..k] + [x] + t[k + 1..];
      var rest := t[..k] + t[k + 1..];
      assert multiset(t) == multiset(t[..k]) + multiset([x]) + multiset(t[k + 1..]);
      assert multiset(s) == multiset(s[..n - 1]) + multiset([x]);
      assert multiset(rest) == multiset(t[..k]) + multiset(t[k + 1..]);
      calc {
        multiset(s[..n - 1]);
        multiset(s) - multiset{x};
        multiset(t) - multiset{x};
        multiset(rest);
      }
      AbsSumPermutation(s[..n - 1], rest);
      AbsSumAppend(t[..k] + [x], t[k + 1..]);
      AbsSumAppend(t[..k], [x]);
      AbsSumAppend(t[..k], t[k + 1..]);
      assert AbsSum([x]) == Abs(x) by {
        assert [x][..0] == [];
      }
    }
  }

  lemma AbsSumCons(s: seq<int>)
    requires |s| > 0
    ensures AbsSum(s) == Abs(s[0]) + AbsSum(s[1..])
  {
    assert s == [s[0]] + s[1..];
    AbsSumAppend([s[0]], s[1..]);
    assert AbsSum([s[0]]) == Abs(s[0]) by {
      assert [s[0]][..0] == [];
    }
  }

  lemma {:induction false} SumAtMostAbsSum(s: seq<int>)
    ensures Sum(s) <= AbsSum(s)
  {
    if s != [] {
      SumAtMostAbsSum(s[1..]);
      AbsSumCons(s);
    }
  }

  lemma {:induction false} WeightAtMostAbsSum(s: seq<int>)
    ensures Weight(s) <= |s| * AbsSum(s)
  {
    if |s| > 1 {
      var r := s[1..];
      WeightAtMostAbsSum(r);
      SumAtMostAbsSum(r);
      AbsSumCons(s);
      WeightStepBound(Weight(r), Sum(r), |s|, Abs(s[0]), AbsSum(r));
    }
  }

  /** The arithmetic step of WeightAtMostAbsSum: a window one longer, with
      one more element in front, stays within the bound. */
  lemma WeightStepBound(w: int, sum: int, n: int, head: nat, rest: nat)
    requires n >= 1 && w <= (n - 1) * rest && sum <= rest
    ensures w + sum <= n * (head + rest)
  {
    Distribute(rest, n - 1, 1);
    Distribute(n, head, rest);
    MulMonotone(n, 0, head);
  }

  lemma Distribute(c: int, x: int, y: int)
    ensures c * (x + y) == c * x + c * y
  {
  }

  lemma MulMonotone(c: int, x: int, y: int)
    requires c >= 0 && x <= y
    ensures c * x <= c * y
  {
  }

  /** Every permutation of t weighs at most |t| * AbsSum(t), so a loop whose
      every productive pass raises Weight can run only finitely many passes. */
  lemma WeightBound(s: seq<int>, t: seq<int>)
    requires multiset(s) == multiset(t)
    ensures Weight(s) <= |t| * AbsSum(t)
  {
    assert |s| == |multiset(s)| == |t|;
    WeightAtMostAbsSum(s);
    AbsSumPermutation(s, t);
  }

  // ---------------------------------------------------------------------
  // Slices.  A routine applied to `&mut arr[lo..hi]` permutes that window
  // and leaves the rest of the array alone.
  // ---------------------------------------------------------------------

  lemma {:induction false} SliceSplit(s: seq<int>, lo: int, hi: int)
    requires 0 <= lo <= hi <= |s|
    ensures multiset(s) == multiset(s[..lo]) + multiset(s[lo..hi]) + multiset(s[hi..])
  {
    assert s == s[..lo] + s[lo..hi] + s[hi..];
  }

  /** A permutation of the whole array that fixes everything outside the
      window permutes the window. */
  lemma WholeToWindow(s: seq<int>, t: seq<int>, lo: int, hi: int)
    requires 0 <= lo <= hi <= |s| == |t|
    requires multiset(s) == multiset(t)
    requires s[..lo] == t[..lo] && s[hi..] == t[hi..]
    ensures multiset(s[lo..hi]) == multiset(t[lo..hi])
  {
    SliceSplit(s, lo, hi);
    SliceSplit(t, lo, hi);
    calc {
      multiset(s[lo..hi]);
      multiset(s) - multiset(s[..lo]) - multiset(s[hi..]);
      multiset(t) - multiset(t[..lo]) - multiset(t[hi..]);
      multiset(t[lo..hi]);
    }
  }

  /** A permutation of a window, with the rest fixed, permutes the whole. */
  lemma WindowToWhole(s: seq<int>, t: seq<int>, lo: int, hi: int)
    requires 0 <= lo <= hi <= |s| == |t|
    requires multiset(s[lo..hi]) == multiset(t[lo..hi])
    requires s[..lo] == t[..lo] && s[hi..] == t[hi..]
    ensures multiset(s) == multiset(t)
  {
    SliceSplit(s, lo, hi);
    SliceSplit(t, lo, hi);
  }

  /** A permutation keeps every lower bound on the members. */
  lemma PermutationAbove(s: seq<int>, orig: seq<int>, lo: int)
    requires multiset(s) == multiset(orig)
    requires forall k :: 0 <= k < |orig| ==> lo <= orig[k]
    ensures forall k :: 0 <= k < |s| ==> lo <= s[k]
  {
    forall k | 0 <= k < |s|
      ensures lo <= s[k]
    {
      assert s[k] in multiset(orig);
    }
  }

  /** A permutation keeps every upper bound on the members. */
  lemma PermutationBelow(s: seq<int>, orig: seq<int>, hi: int)
    requires multiset(s) == multiset(orig)
    requires forall k :: 0 <= k < |orig| ==> orig[k] <= hi
    ensures forall k :: 0 <= k < |s| ==> s[k] <= hi
  {
    forall k | 0 <= k < |s|
      ensures s[k] <= hi
    {
      assert s[k] in multiset(orig);
    }
  }

  // ---------------------------------------------------------------------
  // Counting by threshold: how many members lie below a value. A
  // permutation keeps every such count, which is how stooge sort and cycle
  // sort locate the slots an element may end in.
  // ---------------------------------------------------------------------

  /** The number of members of s below x. */
  function CountBelow(s: seq<int>, x: int): (r: nat)
    ensures r <= |s|
  {
    if s == [] then 0 else (if s[0] < x then 1 else 0) + CountBelow(s[1..], x)
  }

  lemma SplitHead(a: seq<int>, b: seq<int>)
    requires a != []
    ensures (a + b)[0] == a[0] && (a + b)[1..] == a[1..] + b
  {
    assert (a + b)[1..] == a[1..] + b;
  }

  /** Counting below x adds up over a concatenation. */
  lemma {:induction false} CountBelowConcat(a: seq<int>, b: seq<int>, x: int)
    ensures CountBelow(a + b, x) == CountBelow(a, x) + CountBelow(b, x)
    decreases |a|
  {
    if a == [] {
      assert a + b == b;
    } else {
      SplitHead(a, b);
      CountBelowConcat(a[1..], b, x);
    }
  }

  /** Taking out the member at j removes its share of the count. */
  lemma CountBelowRemove(t: seq<int>, j: int, x: int)
    requires 0 <= j < |t|
    ensures CountBelow(t, x) == CountBelow(t[..j] + t[j + 1..], x) + (if t[j] < x then 1 else 0)
    ensures multiset(t[..j] + t[j + 1..]) == multiset(t) - multiset{t[j]}
  {
    assert t == t[..j] + ([t[j]] + t[j + 1..]);
    CountBelowConcat(t[..j], [t[j]] + t[j + 1..], x);
    CountBelowConcat([t[j]], t[j + 1..], x);
    CountBelowConcat(t[..j], t[j + 1..], x);
    assert [t[j]][1..] == [];
  }

  /** A permutation has the same count below every x. */
  lemma {:induction false} CountBelowPermutation(s: seq<int>, t: seq<int>, x: int)
    requires multiset(s) == multiset(t)
    ensures CountBelow(s, x) == CountBelow(t, x)
    decreases |s|
  {
    assert |s| == |multiset(s)| == |t|;
    if s != [] {
      assert s[0] in multiset(t);
      var j :| 0 <= j < |t| && t[j] == s[0];
      var rest := t[..j] + t[j + 1..];
      CountBelowRemove(t, j, x);
      assert s == [s[0]] + s[1..];
      assert multiset(s[1..]) == multiset(s) - multiset{s[0]};
      CountBelowPermutation(s[1..], rest, x);
    }
  }

  /** Members all below x are all counted; members all at least x none. */
  lemma {:induction false} CountBelowExtremes(s: seq<int>, x: int)
    ensures (forall k :: 0 <= k < |s| ==> s[k] < x) ==> CountBelow(s, x) == |s|
    ensures (forall k :: 0 <= k < |s| ==> s[k] >= x) ==> CountBelow(s, x) == 0
  {
    if s != [] {
      CountBelowExtremes(s[1..], x);
    }
  }

  /** In a sorted r, a member below y has every earlier member below y
      too. */
  lemma SortedPrefixBelow(r: seq<int>, y: int, k: int)
    requires Sorted(r) && 0 <= k < |r|
    ensures r[k] < y ==> CountBelow(r, y) >= k + 1
  {
    assert r == r[..k + 1] + r[k + 1..];
    CountBelowConcat(r[..k + 1], r[k + 1..], y);
    CountBelowExtremes(r[..k + 1], y);
  }

  /** In a sorted r with at least c members at or above y, the last c
      members are at or above y. */
  lemma SortedTop(r: seq<int>, y: int, c: int)
    requires Sorted(r) && 0 <= c <= |r| && |r| - CountBelow(r, y) >= c
    ensures forall k :: |r| - c <= k < |r| ==> r[k] >= y
  {
    forall k | |r| - c <= k < |r|
      ensures r[k] >= y
    {
      SortedPrefixBelow(r, y, k);
    }
  }

  // ---------------------------------------------------------------------
  // Reversal, as done by `Vec::reverse` and by the prefix flips of the
  // pancake sorts.
  // ---------------------------------------------------------------------

  /** s back to front. */
  function Reversed(s: seq<int>): seq<int>
  {
    seq(|s|, k requires 0 <= k < |s| => s[|s| - 1 - k])
  }

  /** Reversing peels the last element off to the front. */
  lemma ReversedLast(s: seq<int>)
    requires s != []
    ensures Reversed(s) == [s[|s| - 1]] + Reversed(s[..|s| - 1])
  {
  }

  /** Reversing permutes. */
  lemma {:induction false} ReversedPermutation(s: seq<int>)
    ensures multiset(Reversed(s)) == multiset(s)
    decreases |s|
  {
    if s != [] {
      var init := s[..|s| - 1];
      ReversedLast(s);
      ReversedPermutation(init);
      assert s == init + [s[|s| - 1]];
    }
  }
}
