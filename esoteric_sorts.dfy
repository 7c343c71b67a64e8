/** The unusual sorts of `esoteric_sorts.rs`: an order check, pancake sort
    by prefix flips, circle sort by mirrored compare-exchanges, stooge sort
    by overlapping two-thirds, patience sort by piles, and cycle sort by
    rotating each element straight to its final slot. */
module EsotericSorts {
  import opened SortSpec

  // ---------------------------------------------------------------------
  // is_sorted
  // ---------------------------------------------------------------------

  /** `is_sorted`: scan adjacent pairs, answering false at the first one out
      of order. */
  method IsSorted(arr: array<int>) returns (sorted: bool)
    ensures sorted <==> Sorted(arr[..])
  {
    var len := arr.Length;
    if len <= 1 {
      return true;
    }
    for i := 0 to len - 1
      invariant forall k :: 0 <= k < i ==> arr[k] <= arr[k + 1]
    {
      if arr[i] > arr[i + 1] {
        return false;
      }
    }
    AdjacentSortedIsSorted(arr[..]);
    return true;
  }

  // ---------------------------------------------------------------------
  // pancake
  // ---------------------------------------------------------------------

  /** `flip(arr, i)`: reverse the prefix arr[0..=i] by swapping its ends
      inwards. */
  method Flip(arr: array<int>, i: int)
    requires 0 <= i < arr.Length
    modifies arr
    ensures arr[..] == Reversed(old(arr[..i + 1])) + old(arr[i + 1..])
  {
    var j, k := 0, i;
    while j < k
      invariant 0 <= j && j + k == i && j <= k + 1
      invariant forall p :: 0 <= p < j ==> arr[p] == old(arr[i - p])
      invariant forall p :: k < p <= i ==> arr[p] == old(arr[i - p])
      invariant forall p :: j <= p <= k ==> arr[p] == old(arr[p])
      invariant forall p :: i < p < arr.Length ==> arr[p] == old(arr[p])
    {
      Swap(arr, j, k);
      j, k := j + 1, k - 1;
    }
    assert arr[..] == Reversed(old(arr[..i + 1])) + old(arr[i + 1..]);
  }

  /** The prefix after flipping at m and then at i: the old a[m] arrives at
      slot i, the prefix a[..i + 1] is only rearranged, and the rest stays. */
  lemma TwoFlips(a: seq<int>, m: int, i: int)
    requires 0 <= m <= i < |a|
    ensures var b := Reversed(a[..m + 1]) + a[m + 1..];
            var c := Reversed(b[..i + 1]) + b[i + 1..];
            |c| == |a| && c[i] == a[m] &&
            multiset(c[..i + 1]) == multiset(a[..i + 1]) && c[i + 1..] == a[i + 1..]
  {
    var b := Reversed(a[..m + 1]) + a[m + 1..];
    var c := Reversed(b[..i + 1]) + b[i + 1..];
    assert b[..i + 1] == Reversed(a[..m + 1]) + a[m + 1..i + 1];
    ReversedPermutation(a[..m + 1]);
    ReversedPermutation(b[..i + 1]);
    assert a[..i + 1] == a[..m + 1] + a[m + 1..i + 1];
    assert c[..i + 1] == Reversed(b[..i + 1]);
    assert b[i + 1..] == a[i + 1..];
  }

  /** One step of `pancake` for slot i: find the largest of arr[0..=i] and,
      unless it is already at i, flip it to the front and then to slot i. */
  method PancakeStep(arr: array<int>, i: int)
    requires 1 <= i < arr.Length
    modifies arr
    ensures forall k :: 0 <= k <= i ==> arr[k] <= arr[i]
    ensures multiset(arr[..i + 1]) == multiset(old(arr[..i + 1]))
    ensures arr[i + 1..] == old(arr[i + 1..])
  {
    var max := LargestUpTo(arr, i);
    ghost var a := arr[..];
    if max != i {
      Flip(arr, max);
      Flip(arr, i);
      TwoFlips(a, max, i);
      PrefixStaysBelow(arr[..], a, i, a[max]);
    }
  }

  /** The inner loop of `pancake`: the first index of a largest element of
      arr[0..=i]. */
  method LargestUpTo(arr: array<int>, i: int) returns (max: int)
    requires 0 <= i < arr.Length
    ensures 0 <= max <= i
    ensures forall k :: 0 <= k <= i ==> arr[k] <= arr[max]
    ensures forall k :: 0 <= k < max ==> arr[k] < arr[max]
  {
    max := 0;
    for j := 1 to i + 1
      invariant 0 <= max < j
      invariant forall k :: 0 <= k < j ==> arr[k] <= arr[max]
      invariant forall k :: 0 <= k < max ==> arr[k] < arr[max]
    {
      if arr[j] > arr[max] {
        max := j;
      }
    }
  }

  /** Rearranging a prefix whose members are at most hi keeps them so. */
  lemma PrefixStaysBelow(c: seq<int>, a: seq<int>, i: int, hi: int)
    requires 0 <= i < |c| && i < |a|
    requires multiset(c[..i + 1]) == multiset(a[..i + 1])
    requires forall k :: 0 <= k <= i ==> a[k] <= hi
    ensures forall k :: 0 <= k <= i ==> c[k] <= hi
  {
    PermutationBelow(c[..i + 1], a[..i + 1], hi);
    assert forall k :: 0 <= k <= i ==> c[..i + 1][k] == c[k];
  }

  /** A step that puts the largest of the prefix at slot i and only
      rearranges the prefix extends the sorted, dominating suffix to i. */
  lemma PancakeProgress(before: seq<int>, after: seq<int>, i: int)
    requires 0 <= i < |before| == |after|
    requires SortedFrom(before, i + 1) && SplitAt(before, i + 1)
    requires forall k :: 0 <= k <= i ==> after[k] <= after[i]
    requires multiset(after[..i + 1]) == multiset(before[..i + 1])
    requires after[i + 1..] == before[i + 1..]
    ensures SortedFrom(after, i) && SplitAt(after, i)
    ensures multiset(after) == multiset(before)
  {
    assert before == before[..i + 1] + before[i + 1..];
    assert after == after[..i + 1] + after[i + 1..];
    var pre := after[..i + 1];
    forall q | i + 1 <= q < |after|
      ensures forall k :: 0 <= k < |pre| ==> pre[k] <= after[q]
    {
      assert after[q] == before[q];
      PermutationBelow(pre, before[..i + 1], before[q]);
    }
  }

  /** `pancake`: for i from the last slot down to 1, bring the largest of
      arr[0..=i] to slot i. */
  method Pancake(arr: array<int>)
    modifies arr
    ensures Sorted(arr[..])
    ensures multiset(arr[..]) == multiset(old(arr[..]))
  {
    var len := arr.Length;
    if len <= 1 { return; }
    for i := len downto 1
      invariant SortedFrom(arr[..], i) && SplitAt(arr[..], i)
      invariant multiset(arr[..]) == multiset(old(arr[..]))
    {
      ghost var before := arr[..];
      PancakeStep(arr, i);
      PancakeProgress(before, arr[..], i);
    }
  }

  // ---------------------------------------------------------------------
  // stooge
  // ---------------------------------------------------------------------

  // ---------------------------------------------------------------------
  // Patience sort.  A pile is a Vec whose last element is its top.
  // ---------------------------------------------------------------------

  /** The top card of a non-empty pile: `pile.last().unwrap()`. */
  function Top(pile: seq<int>): int
    requires |pile| > 0
  {
    pile[|pile| - 1]
  }

  /** Every card of the pile is at least every card put on it later. */
  predicate Descending(pile: seq<int>)
  {
    forall p, q :: 0 <= p < q < |pile| ==> pile[p] >= pile[q]
  }

  /** No pile is empty: `merge_piles` may take the top of any of them. */
  predicate NonEmpty(piles: seq<seq<int>>)
  {
    forall p :: 0 <= p < |piles| ==> |piles[p]| > 0
  }

  predicate AllDescending(piles: seq<seq<int>>)
  {
    forall p :: 0 <= p < |piles| ==> Descending(piles[p])
  }

  /** The tops rise strictly from left to right. */
  predicate RisingTops(piles: seq<seq<int>>)
    requires NonEmpty(piles)
  {
    forall p, q :: 0 <= p < q < |piles| ==> Top(piles[p]) < Top(piles[q])
  }

  /** x is at most every card in the piles. */
  predicate AllAtLeast(piles: seq<seq<int>>, x: int)
  {
    forall p, j :: 0 <= p < |piles| && 0 <= j < |piles[p]| ==> x <= piles[p][j]
  }

  /** All the cards in the piles. */
  function Cards(piles: seq<seq<int>>): multiset<int>
  {
    if piles == [] then multiset{} else multiset(piles[0]) + Cards(piles[1..])
  }

  lemma {:induction false} CardsConcat(a: seq<seq<int>>, b: seq<seq<int>>)
    ensures Cards(a + b) == Cards(a) + Cards(b)
    decreases |a|
  {
    if a == [] {
      assert a + b == b;
    } else {
      assert (a + b)[1..] == a[1..] + b;
      CardsConcat(a[1..], b);
    }
  }

  /** The cards of the piles before k, of pile k, and of the piles after. */
  lemma CardsSplit(piles: seq<seq<int>>, k: int)
    requires 0 <= k < |piles|
    ensures Cards(piles) == Cards(piles[..k]) + multiset(piles[k]) + Cards(piles[k + 1..])
  {
    assert piles == piles[..k] + piles[k..];
    CardsConcat(piles[..k], piles[k..]);
    assert piles[k..][1..] == piles[k + 1..];
  }

  /** Replacing pile k trades its cards for the new pile's. */
  lemma CardsUpdate(piles: seq<seq<int>>, k: int, pile: seq<int>)
    requires 0 <= k < |piles|
    ensures Cards(piles[k := pile]) + multiset(piles[k]) == Cards(piles) + multiset(pile)
  {
    var next := piles[k := pile];
    CardsSplit(piles, k);
    CardsSplit(next, k);
    assert next[..k] == piles[..k] && next[k + 1..] == piles[k + 1..];
  }

  /** Removing an empty pile keeps the cards. */
  lemma CardsRemoveEmpty(piles: seq<seq<int>>, k: int)
    requires 0 <= k < |piles| && piles[k] == []
    ensures Cards(piles[..k] + piles[k + 1..]) == Cards(piles)
  {
    CardsSplit(piles, k);
    CardsConcat(piles[..k], piles[k + 1..]);
  }

  /** The search of `patience` for the pile to put a card on: the leftmost
      pile whose top is at least the card, or the number of piles when
      there is none. */
  method LeftmostPileAtLeast(piles: seq<seq<int>>, card: int) returns (left: int)
    requires NonEmpty(piles) && RisingTops(piles)
    ensures 0 <= left <= |piles|
    ensures forall p :: 0 <= p < left ==> Top(piles[p]) < card
    ensures forall p :: left <= p < |piles| ==> Top(piles[p]) >= card
  {
    left := 0;
    var right := |piles|;
    while left < right
      invariant 0 <= left <= right <= |piles|
      invariant forall p :: 0 <= p < left ==> Top(piles[p]) < card
      invariant forall p :: right <= p < |piles| ==> Top(piles[p]) >= card
    {
      var mid := left + (right - left) / 2;
      if Top(piles[mid]) >= card {
        right := mid;
      } else {
        left := mid + 1;
      }
    }
  }

  /** Dealing one card onto the piles, as `patience` does: on the leftmost
      pile whose top is at least the card, or onto a new pile at the right.
      Every pile stays descending, the tops keep rising, and the card joins
      the others. */
  method Deal(piles: seq<seq<int>>, card: int) returns (dealt: seq<seq<int>>)
    requires NonEmpty(piles) && AllDescending(piles) && RisingTops(piles)
    ensures NonEmpty(dealt) && AllDescending(dealt) && RisingTops(dealt)
    ensures Cards(dealt) == Cards(piles) + multiset{card}
  {
    var left := LeftmostPileAtLeast(piles, card);
    if left == |piles| {
      dealt := piles + [[card]];
      NewPile(piles, card);
      NewPileCards(piles, card);
    } else {
      dealt := piles[left := piles[left] + [card]];
      OnPile(piles, left, card);
      OnPileCards(piles, left, card);
    }
  }

  /** A card above every top starts a new pile at the right. */
  lemma NewPile(piles: seq<seq<int>>, card: int)
    requires NonEmpty(piles) && AllDescending(piles) && RisingTops(piles)
    requires forall p :: 0 <= p < |piles| ==> Top(piles[p]) < card
    ensures NonEmpty(piles + [[card]]) && AllDescending(piles + [[card]])
    ensures RisingTops(piles + [[card]])
  {
    var dealt := piles + [[card]];
    forall p | 0 <= p < |dealt|
      ensures |dealt[p]| > 0 && Descending(dealt[p])
    {
      if p < |piles| {
        assert dealt[p] == piles[p];
      }
    }
    forall p, q | 0 <= p < q < |dealt|
      ensures Top(dealt[p]) < Top(dealt[q])
    {
      assert dealt[p] == piles[p];
      if q < |piles| {
        assert dealt[q] == piles[q];
      }
    }
  }

  /** A new pile adds its one card to the cards. */
  lemma NewPileCards(piles: seq<seq<int>>, card: int)
    ensures Cards(piles + [[card]]) == Cards(piles) + multiset{card}
  {
    CardsConcat(piles, [[card]]);
    assert [[card]][1..] == [];
  }

  /** A card goes on the leftmost pile whose top is at least the card:
      that pile stays descending and the tops keep rising. */
  lemma OnPile(piles: seq<seq<int>>, left: int, card: int)
    requires NonEmpty(piles) && AllDescending(piles) && RisingTops(piles)
    requires 0 <= left < |piles| && card <= Top(piles[left])
    requires forall p :: 0 <= p < left ==> Top(piles[p]) < card
    ensures var dealt := piles[left := piles[left] + [card]];
      NonEmpty(dealt) && AllDescending(dealt) && RisingTops(dealt)
  {
    var dealt := piles[left := piles[left] + [card]];
    DescendingPush(piles[left], card);
    forall p, q | 0 <= p < q < |dealt|
      ensures Top(dealt[p]) < Top(dealt[q])
    {
      if p == left {
        assert Top(piles[p]) < Top(piles[q]);
      }
    }
  }

  /** Putting a card on a pile adds it to the cards. */
  lemma OnPileCards(piles: seq<seq<int>>, left: int, card: int)
    requires 0 <= left < |piles|
    ensures Cards(piles[left := piles[left] + [card]]) == Cards(piles) + multiset{card}
  {
    var pile := piles[left] + [card];
    CardsUpdate(piles, left, pile);
    assert multiset(pile) == multiset(piles[left]) + multiset{card};
    Cancel(Cards(piles[left := pile]), multiset(piles[left]), Cards(piles) + multiset{card});
  }

  /** Adding the same cards to both sides of an equation can be undone. */
  lemma Cancel(a: multiset<int>, b: multiset<int>, c: multiset<int>)
    requires a + b == c + b
    ensures a == c
  {
    assert forall z :: a[z] == (a + b)[z] - b[z];
  }

  /** A card no larger than the top keeps a pile descending. */
  lemma DescendingPush(pile: seq<int>, card: int)
    requires |pile| > 0 && Descending(pile) && card <= Top(pile)
    ensures Descending(pile + [card])
  {
    var next := pile + [card];
    forall p, q | 0 <= p < q < |next|
      ensures next[p] >= next[q]
    {
      if q == |pile| {
        assert next[p] >= Top(pile);
      }
    }
  }

  /** The smallest top, the first one when several are equal, as
      `merge_piles` finds it. */
  method MinTop(piles: seq<seq<int>>) returns (minId: int)
    requires |piles| > 0 && NonEmpty(piles)
    ensures 0 <= minId < |piles|
    ensures forall p :: 0 <= p < |piles| ==> Top(piles[minId]) <= Top(piles[p])
    ensures forall p :: 0 <= p < minId ==> Top(piles[minId]) < Top(piles[p])
  {
    minId := 0;
    var minValue := Top(piles[0]);
    for i := 1 to |piles|
      invariant 0 <= minId < i && minValue == Top(piles[minId])
      invariant forall p :: 0 <= p < i ==> minValue <= Top(piles[p])
      invariant forall p :: 0 <= p < minId ==> minValue < Top(piles[p])
    {
      var last := Top(piles[i]);
      if minValue <= last {
        continue;
      }
      minValue := last;
      minId := i;
    }
  }

  /** One round of `merge_piles`: find the smallest top, pop it, and drop
      its pile if that emptied it. The card leaves the piles; over
      descending piles it is at most every card. */
  method TakeMin(piles: seq<seq<int>>) returns (minValue: int, next: seq<seq<int>>)
    requires |piles| > 0 && NonEmpty(piles)
    ensures NonEmpty(next)
    ensures Cards(next) + multiset{minValue} == Cards(piles)
    ensures forall x :: AllAtLeast(piles, x) ==> x <= minValue && AllAtLeast(next, x)
    ensures AllDescending(piles) ==> AllDescending(next) && AllAtLeast(piles, minValue)
  {
    var minId := MinTop(piles);
    var pile := piles[minId];
    minValue := Top(pile);
    var rest := pile[..|pile| - 1];
    assert pile == rest + [minValue];
    assert multiset(pile) == multiset(rest) + multiset{minValue};
    CardsUpdate(piles, minId, rest);
    next := piles[minId := rest];
    Cancel(Cards(next) + multiset{minValue}, multiset(rest), Cards(piles));
    if |next[minId]| == 0 {
      CardsRemoveEmpty(next, minId);
      next := next[..minId] + next[minId + 1..];
    }
    PoppedPiles(piles, minId, next);
    if AllDescending(piles) {
      MinTopBelowAll(piles, minId);
    }
  }

  /** Every pile left after a pop is a pile that was there or the popped
      pile's remainder: emptiness, order and bounds carry over. */
  lemma PoppedPiles(piles: seq<seq<int>>, k: int, next: seq<seq<int>>)
    requires 0 <= k < |piles| && NonEmpty(piles)
    requires var rest := piles[k][..|piles[k]| - 1];
      next == if rest == [] then piles[..k] + piles[k + 1..] else piles[k := rest]
    ensures NonEmpty(next)
    ensures forall x :: AllAtLeast(piles, x) ==> x <= Top(piles[k]) && AllAtLeast(next, x)
    ensures AllDescending(piles) ==> AllDescending(next)
  {
    var rest := piles[k][..|piles[k]| - 1];
    forall p | 0 <= p < |next|
      ensures var q := if rest == [] && p >= k then p + 1 else p;
        0 <= q < |piles| && 0 < |next[p]| <= |piles[q]| && next[p] == piles[q][..|next[p]|]
    {
    }
    assert Top(piles[k]) == piles[k][|piles[k]| - 1];
  }

  /** The smallest top of descending piles is at most every card. */
  lemma MinTopBelowAll(piles: seq<seq<int>>, minId: int)
    requires 0 <= minId < |piles| && NonEmpty(piles) && AllDescending(piles)
    requires forall p :: 0 <= p < |piles| ==> Top(piles[minId]) <= Top(piles[p])
    ensures AllAtLeast(piles, Top(piles[minId]))
  {
    forall p, j | 0 <= p < |piles| && 0 <= j < |piles[p]|
      ensures Top(piles[minId]) <= piles[p][j]
    {
      assert piles[p][j] >= Top(piles[p]);
    }
  }

  /** `merge_piles`: move the smallest top to the output until no pile is
      left. The output holds exactly the cards of the piles, and when
      every pile is descending (as `patience` builds them) it is sorted. */
  method MergePiles(piles0: seq<seq<int>>) returns (ret: seq<int>)
    requires NonEmpty(piles0)
    ensures multiset(ret) == Cards(piles0)
    ensures AllDescending(piles0) ==> Sorted(ret)
  {
    ghost var desc := AllDescending(piles0);
    var piles := piles0;
    ret := [];
    while |piles| > 0
      invariant Merging(piles0, desc, ret, piles)
      decreases |Cards(piles)|
    {
      var minValue, next := TakeMin(piles);
      MergeStep(piles0, desc, ret, piles, minValue, next);
      ret := ret + [minValue];
      piles := next;
    }
  }

  /** What `merge_piles` keeps while it runs: the output and the piles
      together hold the starting cards and, over descending piles, the
      output is sorted and at most every card still in the piles. */
  ghost predicate Merging(piles0: seq<seq<int>>, desc: bool, ret: seq<int>, piles: seq<seq<int>>)
  {
    NonEmpty(piles) &&
    multiset(ret) + Cards(piles) == Cards(piles0) &&
    (desc ==> AllDescending(piles) && Sorted(ret)) &&
    (desc && ret != [] ==> AllAtLeast(piles, ret[|ret| - 1]))
  }

  /** Moving the card TakeMin took to the output keeps Merging, and the
      piles lose a card. */
  lemma MergeStep(piles0: seq<seq<int>>, desc: bool, ret: seq<int>, piles: seq<seq<int>>,
                  minValue: int, next: seq<seq<int>>)
    requires Merging(piles0, desc, ret, piles)
    requires NonEmpty(next)
    requires Cards(next) + multiset{minValue} == Cards(piles)
    requires forall x :: AllAtLeast(piles, x) ==> x <= minValue && AllAtLeast(next, x)
    requires AllDescending(piles) ==> AllDescending(next) && AllAtLeast(piles, minValue)
    ensures Merging(piles0, desc, ret + [minValue], next)
    ensures |Cards(next)| < |Cards(piles)|
  {
    if desc {
      SortedAppend(ret, minValue);
    }
    assert multiset(ret + [minValue]) == multiset(ret) + multiset{minValue};
  }

  /** A card no smaller than the last keeps the output sorted. */
  lemma SortedAppend(s: seq<int>, x: int)
    requires Sorted(s) && (s != [] ==> s[|s| - 1] <= x)
    ensures Sorted(s + [x])
  {
  }

  /** `patience`: deal every card onto the piles, then merge them. */
  method Patience(arr: array<int>)
    modifies arr
    ensures Sorted(arr[..])
    ensures multiset(arr[..]) == multiset(old(arr[..]))
  {
    var len := arr.Length;
    if len <= 1 { return; }
    var piles: seq<seq<int>> := [];
    for c := 0 to len
      invariant NonEmpty(piles) && AllDescending(piles) && RisingTops(piles)
      invariant Cards(piles) == multiset(arr[..c])
      invariant arr[..] == old(arr[..])
    {
      assert arr[..c + 1] == arr[..c] + [arr[c]];
      piles := Deal(piles, arr[c]);
    }
    assert arr[..len] == arr[..];
    var sorted := MergePiles(piles);
    assert |sorted| == |multiset(sorted)| == |multiset(arr[..])| == len;
    CopyInto(arr, 0, sorted);
  }

  /** Two sorted neighbouring runs [lo, mid] and [mid + 1, hi) whose
      meeting pair is in order form one sorted run. */
  lemma JoinSortedRuns(a: array<int>, lo: int, mid: int, hi: int)
    requires 0 <= lo <= mid && mid + 1 < hi <= a.Length
    requires SortedRange(a, lo, mid + 1) && SortedRange(a, mid + 1, hi)
    requires a[mid] <= a[mid + 1]
    ensures SortedRange(a, lo, hi)
  {
    forall p, q | lo <= p < q < hi
      ensures a[p] <= a[q]
    {
      if p <= mid < q {
        assert a[p] <= a[mid] && a[mid + 1] <= a[q];
      }
    }
  }

  /** `do_sort(arr, left, right)`: compare-exchange the mirror pairs of the
      window from the outside in (and the middle slot with its right
      neighbour when the window has odd length), then recurse on both
      halves. It reports whether anything moved: if nothing did, the
      window is sorted; if something did, Weight rose. */
  method DoSort(arr: array<int>, left: int, right: int) returns (swapped: bool)
    requires 0 <= left <= right < arr.Length
    modifies arr
    ensures multiset(arr[..]) == multiset(old(arr[..]))
    ensures Weight(arr[..]) >= Weight(old(arr[..]))
    ensures swapped ==> Weight(arr[..]) > Weight(old(arr[..]))
    ensures !swapped ==> arr[..] == old(arr[..]) && SortedRange(arr, left, right + 1)
    decreases right - left
  {
    if left == right { return false; }
    var mid := left + (right - left) / 2;
    swapped := ExchangeMirrorPairs(arr, left, right);
    var leftHalf := DoSort(arr, left, mid);
    var rightHalf := DoSort(arr, mid + 1, right);
    if !(swapped || leftHalf || rightHalf) {
      JoinSortedRuns(arr, left, mid, right + 1);
    }
    swapped := swapped || leftHalf || rightHalf;
  }

  /** The first half of `do_sort`: compare-exchange the mirror pairs from
      the outside in, then the middle slot of an odd window with its right
      neighbour. When nothing moved, the two middle slots are in order. */
  method ExchangeMirrorPairs(arr: array<int>, left: int, right: int) returns (swapped: bool)
    requires 0 <= left < right < arr.Length
    modifies arr
    ensures multiset(arr[..]) == multiset(old(arr[..]))
    ensures Weight(arr[..]) >= Weight(old(arr[..]))
    ensures swapped ==> Weight(arr[..]) > Weight(old(arr[..]))
    ensures !swapped ==> arr[..] == old(arr[..])
    ensures var mid := left + (right - left) / 2;
      !swapped ==> arr[mid] <= arr[mid + 1]
  {
    swapped := false;
    var low, high := left, right;
    while low < high
      invariant left <= low && high <= right && low - left == right - high && low <= high + 1
      invariant multiset(arr[..]) == multiset(old(arr[..]))
      invariant Weight(arr[..]) >= Weight(old(arr[..]))
      invariant swapped ==> Weight(arr[..]) > Weight(old(arr[..]))
      invariant !swapped ==> arr[..] == old(arr[..])
      invariant !swapped ==> forall k :: left <= k < low ==> arr[k] <= arr[left + right - k]
    {
      var exchanged := CompareExchange(arr, low, high);
      swapped := swapped || exchanged;
      low := low + 1;
      high := high - 1;
    }
    if low == high && low + 1 <= right {
      var exchanged := CompareExchange(arr, low, low + 1);
      swapped := swapped || exchanged;
    }
  }

  /** `circle`: repeat do_sort over the whole slice until it reports that
      nothing moved. */
  method Circle(arr: array<int>)
    modifies arr
    ensures Sorted(arr[..])
    ensures multiset(arr[..]) == multiset(old(arr[..]))
  {
    var len := arr.Length;
    if len <= 1 { return; }
    ghost var cap := len * AbsSum(arr[..]);
    WeightAtMostAbsSum(arr[..]);
    var more := true;
    while more
      invariant multiset(arr[..]) == multiset(old(arr[..]))
      invariant Weight(arr[..]) <= cap
      invariant !more ==> SortedRange(arr, 0, len)
      decreases cap - Weight(arr[..]), more
    {
      more := DoSort(arr, 0, len - 1);
      WeightBound(arr[..], old(arr[..]));
    }
  }

  /** After the first sort of stooge sort, a member y of the first third is
      at most every slot of the middle third, which the second sort
      rearranges together with the last third: so the second sort leaves at
      least t members >= y in the top t slots. */
  lemma FirstThirdBelowTop(w1: seq<int>, w2: seq<int>, t: int, m: int, p: int)
    requires 1 <= t && 3 * t <= |w1| && m == |w1| - t && |w2| == |w1| && 0 <= p < t
    requires Sorted(w1[..m])
    requires multiset(w2[t..]) == multiset(w1[t..]) && Sorted(w2[t..])
    ensures forall q :: m <= q < |w2| ==> w1[p] <= w2[q]
  {
    var y := w1[p];
    var mid := w1[t..m];
    assert w1[t..] == mid + w1[m..];
    assert forall k :: 0 <= k < |mid| ==> mid[k] == w1[..m][t + k];
    assert forall k :: 0 <= k < |mid| ==> mid[k] >= y;
    CountBelowExtremes(mid, y);
    CountBelowConcat(mid, w1[m..], y);
    CountBelowPermutation(w2[t..], w1[t..], y);
    SortedTop(w2[t..], y, t);
    forall q | m <= q < |w2|
      ensures y <= w2[q]
    {
      assert w2[q] == w2[t..][q - t];
    }
  }

  /** After the second sort, nothing in the first m slots exceeds anything
      in the last t. */
  lemma SecondSortSplits(w1: seq<int>, w2: seq<int>, t: int, m: int)
    requires 1 <= t && 3 * t <= |w1| && m == |w1| - t && |w2| == |w1|
    requires Sorted(w1[..m])
    requires w2[..t] == w1[..t] && multiset(w2[t..]) == multiset(w1[t..]) && Sorted(w2[t..])
    ensures SplitAt(w2, m)
  {
    forall p, q | 0 <= p < m <= q < |w2|
      ensures w2[p] <= w2[q]
    {
      if p < t {
        FirstThirdBelowTop(w1, w2, t, m, p);
        assert w2[p] == w2[..t][p];
      } else {
        assert w2[p] == w2[t..][p - t] && w2[q] == w2[t..][q - t];
      }
    }
  }

  /** The third sort rearranges only the first m slots, which lie below the
      sorted last slots: the whole is then sorted. */
  lemma ThirdSortFinishes(w2: seq<int>, w3: seq<int>, t: int, m: int)
    requires 0 <= t <= m <= |w2| == |w3| && SplitAt(w2, m) && Sorted(w2[t..])
    requires multiset(w3[..m]) == multiset(w2[..m]) && w3[m..] == w2[m..] && Sorted(w3[..m])
    ensures Sorted(w3)
  {
    var low := w3[..m];
    forall p, q | 0 <= p < q < |w3|
      ensures w3[p] <= w3[q]
    {
      if q < m {
        assert w3[p] == low[p] && w3[q] == low[q];
      } else if p >= m {
        assert w3[p] == w2[p] == w2[t..][p - t] && w3[q] == w2[q] == w2[t..][q - t];
      } else {
        assert w3[p] == low[p] && w3[q] == w2[q];
        var front := w2[..m];
        assert forall k :: 0 <= k < |front| ==> front[k] <= w2[q];
        PermutationBelow(low, front, w2[q]);
      }
    }
  }

  /** Each of the three sorts rearranges part of the window. */
  lemma ThirdsPermutation(w0: seq<int>, w1: seq<int>, w2: seq<int>, w3: seq<int>, t: int, m: int)
    requires 0 <= t <= |w0| && 0 <= m <= |w0| && |w1| == |w2| == |w3| == |w0|
    requires multiset(w1[..m]) == multiset(w0[..m]) && w1[m..] == w0[m..]
    requires w2[..t] == w1[..t] && multiset(w2[t..]) == multiset(w1[t..])
    requires multiset(w3[..m]) == multiset(w2[..m]) && w3[m..] == w2[m..]
    ensures multiset(w3) == multiset(w0)
  {
    assert w3 == w3[..m] + w3[m..];
    assert w2 == w2[..m] + w2[m..];
    assert w2 == w2[..t] + w2[t..];
    assert w1 == w1[..t] + w1[t..];
    assert w1 == w1[..m] + w1[m..];
    assert w0 == w0[..m] + w0[m..];
    calc {
      multiset(w3);
      multiset(w3[..m]) + multiset(w3[m..]);
      multiset(w2[..m]) + multiset(w2[m..]);
      multiset(w2);
      multiset(w2[..t]) + multiset(w2[t..]);
      multiset(w1[..t]) + multiset(w1[t..]);
      multiset(w1);
      multiset(w1[..m]) + multiset(w1[m..]);
      multiset(w0[..m]) + multiset(w0[m..]);
      multiset(w0);
    }
  }

  /** The three overlapping sorts of stooge sort on a window of n >= 3
      slots, with t = n / 3 and m = n - t: sort the first m, then the last
      m, then the first m again. Together they sort the window. */
  lemma StoogeThirds(w0: seq<int>, w1: seq<int>, w2: seq<int>, w3: seq<int>, t: int, m: int)
    requires 1 <= t && 3 * t <= |w0| && m == |w0| - t
    requires |w1| == |w2| == |w3| == |w0|
    requires multiset(w1[..m]) == multiset(w0[..m]) && w1[m..] == w0[m..] && Sorted(w1[..m])
    requires w2[..t] == w1[..t] && multiset(w2[t..]) == multiset(w1[t..]) && Sorted(w2[t..])
    requires multiset(w3[..m]) == multiset(w2[..m]) && w3[m..] == w2[m..] && Sorted(w3[..m])
    ensures Sorted(w3) && multiset(w3) == multiset(w0)
  {
    SecondSortSplits(w1, w2, t, m);
    ThirdSortFinishes(w2, w3, t, m);
    ThirdsPermutation(w0, w1, w2, w3, t, m);
  }

  /** The first step of inner_stooge: exchange s[i] and s[j] when out of
      order. */
  function OrderedEnds(s: seq<int>, i: int, j: int): (r: seq<int>)
    requires 0 <= i <= j < |s|
    ensures |r| == |s|
  {
    if s[i] > s[j] then s[i := s[j]][j := s[i]] else s
  }

  /** OrderedEnds rearranges s and leaves s[i] <= s[j]; on a window of one
      or two slots that sorts it. */
  lemma OrderedEndsSorts(s: seq<int>, i: int, j: int)
    requires 0 <= i <= j < |s|
    ensures multiset(OrderedEnds(s, i, j)) == multiset(s)
    ensures OrderedEnds(s, i, j)[i] <= OrderedEnds(s, i, j)[j]
    ensures i == 0 && j == |s| - 1 <= 1 ==> Sorted(OrderedEnds(s, i, j))
  {
    var r := OrderedEnds(s, i, j);
    if s[i] > s[j] {
      assert multiset(r) == multiset(s);
    }
  }

  /** The third t of a window of n slots that inner_stooge steps by. */
  function Third(n: int): (t: int)
    requires n >= 0
    ensures 0 <= 3 * t <= n < 3 * t + 3
  {
    n / 3
  }


  /** What `inner_stooge` leaves in the window it is given: put the ends in
      order, then, for three or more slots, the three overlapping sorts. */
  function Stooged(w: seq<int>): (r: seq<int>)
    ensures |r| == |w|
    decreases |w|, 1
  {
    if |w| == 0 then w
    else
      var w0 := OrderedEnds(w, 0, |w| - 1);
      if |w| > 2 then ThirdsSorted(w0) else w0
  }

  /** The three recursive calls of `inner_stooge` on a window of n >= 3
      slots, t = n / 3 and m = n - t: the first m slots, the last m, the
      first m again. */
  function ThirdsSorted(w0: seq<int>): (r: seq<int>)
    requires |w0| > 2
    ensures |r| == |w0|
    decreases |w0|, 0
  {
    var t := Third(|w0|);
    var m := |w0| - t;
    var w1 := Stooged(w0[..m]) + w0[m..];
    var w2 := w1[..t] + Stooged(w1[t..]);
    Stooged(w2[..m]) + w2[m..]
  }

  /** One unfolding of Stooged, for three or more slots. */
  lemma StoogedThirdsUnfold(w: seq<int>, k: int)
    requires |w| > 2 && k == |w| - 1
    ensures Stooged(w) == ThirdsSorted(OrderedEnds(w, 0, k))
  {
  }

  /** The parts of x + y. */
  lemma ConcatSplit(x: seq<int>, y: seq<int>)
    ensures (x + y)[..|x|] == x && (x + y)[|x|..] == y
  {
  }

  /** Stooge sort sorts: Stooged(w) is w in ascending order. */
  lemma {:induction false} StoogedSorts(w: seq<int>)
    ensures Sorted(Stooged(w)) && multiset(Stooged(w)) == multiset(w)
    decreases |w|, 1
  {
    if |w| > 0 {
      var w0 := OrderedEnds(w, 0, |w| - 1);
      OrderedEndsSorts(w, 0, |w| - 1);
      if |w| > 2 {
        ThirdsSortedSorts(w0);
      }
    }
  }

  /** The three overlapping sorts sort a window of three or more slots. */
  lemma {:induction false} ThirdsSortedSorts(w0: seq<int>)
    requires |w0| > 2
    ensures Sorted(ThirdsSorted(w0)) && multiset(ThirdsSorted(w0)) == multiset(w0)
    decreases |w0|, 0
  {
    var t := Third(|w0|);
    var m := |w0| - t;
    var s1 := Stooged(w0[..m]);
    var w1 := s1 + w0[m..];
    StoogedSorts(w0[..m]);
    ConcatSplit(s1, w0[m..]);
    var s2 := Stooged(w1[t..]);
    var w2 := w1[..t] + s2;
    StoogedSorts(w1[t..]);
    ConcatSplit(w1[..t], s2);
    var s3 := Stooged(w2[..m]);
    var w3 := s3 + w2[m..];
    StoogedSorts(w2[..m]);
    ConcatSplit(s3, w2[m..]);
    StoogeThirds(w0, w1, w2, w3, t, m);
  }

  /** s with the window [i, e) replaced by w. */
  function Spliced(s: seq<int>, i: int, e: int, w: seq<int>): (r: seq<int>)
    requires 0 <= i <= e <= |s| && |w| == e - i
    ensures |r| == |s|
  {
    s[..i] + w + s[e..]
  }

  /** The three parts of Spliced(s, i, e, w). */
  lemma SplicedParts(s: seq<int>, i: int, e: int, w: seq<int>)
    requires 0 <= i <= e <= |s| && |w| == e - i
    ensures var r := Spliced(s, i, e, w); r[i..e] == w && r[..i] == s[..i] && r[e..] == s[e..]
  {
    var r := Spliced(s, i, e, w);
    assert r == s[..i] + w + s[e..];
  }

  /** Ordering the ends of the window [i, j] of s is ordering the ends of
      the window itself. */
  lemma OrderedEndsSpliced(s: seq<int>, i: int, j: int)
    requires 0 <= i <= j < |s|
    ensures OrderedEnds(s, i, j) == Spliced(s, i, j + 1, OrderedEnds(s[i..j + 1], 0, j - i))
  {
    var r := OrderedEnds(s, i, j);
    var w := s[i..j + 1];
    var rw := OrderedEnds(w, 0, j - i);
    assert w[0] == s[i] && w[j - i] == s[j];
    assert forall k :: 0 <= k < |rw| ==> rw[k] == r[i + k];
    assert r == r[..i] + r[i..j + 1] + r[j + 1..];
  }

  /** The whole array after `inner_stooge(arr, i, j)`: the window [i, j]
      stooge-sorted, every other slot as it was. */
  function StoogedAt(s: seq<int>, i: int, j: int): (r: seq<int>)
    requires 0 <= i <= j < |s|
    ensures |r| == |s|
  {
    Spliced(s, i, j + 1, Stooged(s[i..j + 1]))
  }

  /** Stooge-sorting the front [i, k] of a window [i, j] that holds v. */
  lemma FrontStooged(a: seq<int>, v: seq<int>, i: int, k: int, j: int)
    requires 0 <= i <= k <= j < |a| && |v| == j - i + 1
    ensures StoogedAt(Spliced(a, i, j + 1, v), i, k) == Spliced(a, i, j + 1, Stooged(v[..k - i + 1]) + v[k - i + 1..])
  {
    var b := Spliced(a, i, j + 1, v);
    SplicedParts(a, i, j + 1, v);
    assert b[i..k + 1] == v[..k - i + 1];
    var x := Stooged(v[..k - i + 1]);
    var c := Spliced(b, i, k + 1, x);
    SplicedParts(b, i, k + 1, x);
    assert c[i..j + 1] == x + v[k - i + 1..] by {
      assert c[i..j + 1] == c[i..k + 1] + c[k + 1..j + 1];
    }
    assert c[j + 1..] == b[j + 1..] by {
      assert c[j + 1..] == c[k + 1..][j - k..];
      assert b[j + 1..] == b[k + 1..][j - k..];
    }
    SplicedEqual(c, a, i, j + 1, x + v[k - i + 1..]);
  }

  /** Stooge-sorting the back [l, j] of a window [i, j] that holds v. */
  lemma BackStooged(a: seq<int>, v: seq<int>, i: int, l: int, j: int)
    requires 0 <= i <= l <= j < |a| && |v| == j - i + 1
    ensures StoogedAt(Spliced(a, i, j + 1, v), l, j) == Spliced(a, i, j + 1, v[..l - i] + Stooged(v[l - i..]))
  {
    var b := Spliced(a, i, j + 1, v);
    SplicedParts(a, i, j + 1, v);
    assert b[l..j + 1] == v[l - i..];
    var x := Stooged(v[l - i..]);
    var c := Spliced(b, l, j + 1, x);
    SplicedParts(b, l, j + 1, x);
    assert c[i..j + 1] == v[..l - i] + x by {
      assert c[i..j + 1] == c[i..l] + c[l..j + 1];
    }
    assert c[..i] == b[..i] by {
      assert c[..i] == c[..l][..i];
      assert b[..i] == b[..l][..i];
    }
    SplicedEqual(c, a, i, j + 1, v[..l - i] + x);
  }

  /** A sequence that agrees with s outside [i, e) and holds w inside is
      Spliced(s, i, e, w). */
  lemma SplicedEqual(c: seq<int>, s: seq<int>, i: int, e: int, w: seq<int>)
    requires 0 <= i <= e <= |s| == |c| && |w| == e - i
    requires c[..i] == s[..i] && c[i..e] == w && c[e..] == s[e..]
    ensures c == Spliced(s, i, e, w)
  {
    assert c == c[..i] + c[i..e] + c[e..];
  }

  /** Stooge-sorting the first two thirds of a window [i, j] that holds v. */
  lemma FrontThirds(a: seq<int>, v: seq<int>, i: int, j: int, t: int)
    requires 0 <= i <= j < |a| && |v| == j - i + 1 && 0 <= t < |v|
    ensures StoogedAt(Spliced(a, i, j + 1, v), i, j - t) == Spliced(a, i, j + 1, Stooged(v[..|v| - t]) + v[|v| - t..])
  {
    FrontStooged(a, v, i, j - t, j);
    assert (j - t) - i + 1 == |v| - t;
  }

  /** Stooge-sorting the last two thirds of a window [i, j] that holds v. */
  lemma BackThirds(a: seq<int>, v: seq<int>, i: int, j: int, t: int)
    requires 0 <= i <= j < |a| && |v| == j - i + 1 && 0 <= t < |v|
    ensures StoogedAt(Spliced(a, i, j + 1, v), i + t, j) == Spliced(a, i, j + 1, v[..t] + Stooged(v[t..]))
  {
    BackStooged(a, v, i, i + t, j);
    assert (i + t) - i == t;
  }

  /** The three overlapping sorts, done in place on the window [i, j]
      that holds v, leave ThirdsSorted(v) there. */
  lemma ThirdsAt(a: seq<int>, v: seq<int>, i: int, j: int, t: int)
    requires 0 <= i <= j < |a| && |v| == j - i + 1 > 2 && t == Third(|v|)
    ensures StoogedAt(StoogedAt(StoogedAt(Spliced(a, i, j + 1, v), i, j - t), i + t, j), i, j - t)
            == Spliced(a, i, j + 1, ThirdsSorted(v))
  {
    FrontThirds(a, v, i, j, t);
    var w1 := Stooged(v[..|v| - t]) + v[|v| - t..];
    BackThirds(a, w1, i, j, t);
    var w2 := w1[..t] + Stooged(w1[t..]);
    FrontThirds(a, w2, i, j, t);
  }

  /** One level of `inner_stooge` on the whole array, for a window of
      three or more slots. */
  lemma StoogedAtThirds(a: seq<int>, i: int, j: int, t: int)
    requires 0 <= i <= j < |a| && j - i + 1 > 2 && t == Third(j - i + 1)
    ensures StoogedAt(a, i, j) == StoogedAt(StoogedAt(StoogedAt(OrderedEnds(a, i, j), i, j - t), i + t, j), i, j - t)
  {
    var v0 := OrderedEnds(a[i..j + 1], 0, j - i);
    OrderedEndsSpliced(a, i, j);
    StoogedThirdsUnfold(a[i..j + 1], j - i);
    assert StoogedAt(a, i, j) == Spliced(a, i, j + 1, ThirdsSorted(v0));
    ThirdsAt(a, v0, i, j, t);
  }

  /** One level of `inner_stooge` on the whole array, for a window of at
      most two slots. */
  lemma StoogedAtEnds(a: seq<int>, i: int, j: int)
    requires 0 <= i <= j < |a| && j - i + 1 <= 2
    ensures StoogedAt(a, i, j) == OrderedEnds(a, i, j)
  {
    OrderedEndsSpliced(a, i, j);
  }

  /** The first step of inner_stooge, in place. */
  method OrderEnds(arr: array<int>, i: int, j: int)
    requires 0 <= i <= j < arr.Length
    modifies arr
    ensures arr[..] == OrderedEnds(old(arr[..]), i, j)
  {
    if arr[i] > arr[j] {
      Swap(arr, i, j);
    }
  }

  /** `inner_stooge(arr, i, j)`, in place. */
  method InnerStooge(arr: array<int>, i: int, j: int)
    requires 0 <= i <= j < arr.Length
    modifies arr
    ensures arr[..] == StoogedAt(old(arr[..]), i, j)
    decreases j - i, 2
  {
    ghost var a := arr[..];
    OrderEnds(arr, i, j);
    if j - i + 1 > 2 {
      var t := Third(j - i + 1);
      SortThirds(arr, i, j, t);
      StoogedAtThirds(a, i, j, t);
    } else {
      StoogedAtEnds(a, i, j);
    }
  }

  /** The three recursive calls of inner_stooge on a window of three or
      more slots: the first two thirds, the last two, the first two again. */
  method SortThirds(arr: array<int>, i: int, j: int, t: int)
    requires 0 <= i <= j < arr.Length && j - i + 1 > 2 && t == Third(j - i + 1)
    modifies arr
    ensures arr[..] == StoogedAt(StoogedAt(StoogedAt(old(arr[..]), i, j - t), i + t, j), i, j - t)
    decreases j - i, 1
  {
    SortFrontBack(arr, i, j, t);
    InnerStooge(arr, i, j - t);
  }

  /** The first two of those calls: the first two thirds, then the last
      two. */
  method SortFrontBack(arr: array<int>, i: int, j: int, t: int)
    requires 0 <= i <= j < arr.Length && j - i + 1 > 2 && t == Third(j - i + 1)
    modifies arr
    ensures arr[..] == StoogedAt(StoogedAt(old(arr[..]), i, j - t), i + t, j)
    decreases j - i, 0
  {
    InnerStooge(arr, i, j - t);
    InnerStooge(arr, i + t, j);
  }

  /** `stooge`: inner_stooge over the whole slice. */
  method Stooge(arr: array<int>)
    modifies arr
    ensures Sorted(arr[..])
    ensures multiset(arr[..]) == multiset(old(arr[..]))
  {
    var len := arr.Length;
    if len <= 1 { return; }
    InnerStooge(arr, 0, len - 1);
    StoogedWhole(old(arr[..]));
  }

  /** Stooge-sorting the window that spans the whole sequence sorts it. */
  lemma StoogedWhole(a: seq<int>)
    requires |a| > 0
    ensures Sorted(StoogedAt(a, 0, |a| - 1))
    ensures multiset(StoogedAt(a, 0, |a| - 1)) == multiset(a)
  {
    assert a[0..|a|] == a;
    var r := StoogedAt(a, 0, |a| - 1);
    SplicedParts(a, 0, |a|, Stooged(a));
    assert r == r[0..|a|];
    StoogedSorts(a);
  }
}
