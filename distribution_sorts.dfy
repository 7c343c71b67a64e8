/** The integer sorts of `distribution_sorts.rs`: count and pigeonhole tally
    every value of [min, max] and write the tallies back out in order;
    radix_sort splits off the negatives and sorts both halves with a least
    significant digit radix sort built on a stable counting sort by one
    decimal digit. Values are mathematical integers; the places where the
    source's i32 arithmetic overflows are modelled separately (see the
    `AsWritten` members at the end). */
module DistributionSorts {
  import opened SortSpec

  datatype Option<T> = None | Some(value: T)

  // ---------------------------------------------------------------------
  // Histograms: count and pigeonhole
  // ---------------------------------------------------------------------

  /** The value v, n times. */
  function Repeat(v: int, n: nat): seq<int>
  {
    seq(n, _ => v)
  }

  /** counts[0] copies of lo, then counts[1] copies of lo + 1, and so on:
      what the write-back loops of count and pigeonhole produce. */
  function Spread(lo: int, counts: seq<nat>): seq<int>
    decreases |counts|
  {
    if counts == [] then [] else Repeat(lo, counts[0]) + Spread(lo + 1, counts[1..])
  }

  /** The sum of the tallies. */
  function Total(counts: seq<nat>): nat
  {
    if counts == [] then 0 else counts[0] + Total(counts[1..])
  }

  lemma RepeatMore(v: int, n: nat)
    ensures Repeat(v, n + 1) == Repeat(v, n) + [v]
  {
  }

  lemma {:induction false} RepeatCount(v0: int, n: nat, v: int)
    ensures multiset(Repeat(v0, n))[v] == if v == v0 then n else 0
  {
    if n > 0 {
      RepeatCount(v0, n - 1, v);
      RepeatMore(v0, n - 1);
    } else {
      assert Repeat(v0, n) == [];
    }
  }

  /** Writing one more tally extends the spread at its end. */
  lemma {:induction false} SpreadAppend(lo: int, counts: seq<nat>, c: nat)
    ensures Spread(lo, counts + [c]) == Spread(lo, counts) + Repeat(lo + |counts|, c)
    decreases |counts|
  {
    if counts == [] {
      assert [c][1..] == [];
      assert Spread(lo, [c]) == Repeat(lo, c) + Spread(lo + 1, []);
    } else {
      assert (counts + [c])[1..] == counts[1..] + [c];
      SpreadAppend(lo + 1, counts[1..], c);
    }
  }

  lemma {:induction false} SpreadLength(lo: int, counts: seq<nat>)
    ensures |Spread(lo, counts)| == Total(counts)
    decreases |counts|
  {
    if counts != [] {
      SpreadLength(lo + 1, counts[1..]);
    }
  }

  /** A spread is sorted, and its values lie in [lo, lo + |counts|). */
  lemma {:induction false} SpreadSorted(lo: int, counts: seq<nat>)
    ensures Sorted(Spread(lo, counts))
    ensures forall k :: 0 <= k < |Spread(lo, counts)| ==> lo <= Spread(lo, counts)[k] < lo + |counts|
    decreases |counts|
  {
    if counts != [] {
      var head, rest := Repeat(lo, counts[0]), Spread(lo + 1, counts[1..]);
      SpreadSorted(lo + 1, counts[1..]);
      var s := head + rest;
      assert s == Spread(lo, counts);
      forall p, q | 0 <= p < q < |s|
        ensures s[p] <= s[q]
      {
        if p >= |head| {
          assert s[p] == rest[p - |head|] && s[q] == rest[q - |head|];
        } else if q >= |head| {
          assert s[q] == rest[q - |head|];
        }
      }
      forall k | 0 <= k < |s|
        ensures lo <= s[k] < lo + |counts|
      {
        if k >= |head| {
          assert s[k] == rest[k - |head|];
        }
      }
    }
  }

  /** Value v occurs in the spread as often as its tally says. */
  lemma {:induction false} SpreadCounts(lo: int, counts: seq<nat>, v: int)
    ensures multiset(Spread(lo, counts))[v] == if lo <= v < lo + |counts| then counts[v - lo] else 0
    decreases |counts|
  {
    if counts != [] {
      var head, rest := Repeat(lo, counts[0]), Spread(lo + 1, counts[1..]);
      SpreadCounts(lo + 1, counts[1..], v);
      RepeatCount(lo, counts[0], v);
      assert multiset(head + rest)[v] == multiset(head)[v] + multiset(rest)[v];
    }
  }

  /** counts is the histogram of s over [lo, lo + |counts|), and s has no
      value outside that range. */
  ghost predicate IsHistogram(s: seq<int>, lo: int, counts: seq<nat>)
  {
    (forall k :: 0 <= k < |s| ==> lo <= s[k] < lo + |counts|) &&
    (forall k :: 0 <= k < |counts| ==> counts[k] == multiset(s)[lo + k])
  }

  /** Spreading the histogram of s gives s's elements in sorted order, and
      the tallies add up to |s|. */
  lemma SpreadHistogram(s: seq<int>, lo: int, counts: seq<nat>)
    requires IsHistogram(s, lo, counts)
    ensures multiset(Spread(lo, counts)) == multiset(s)
    ensures Sorted(Spread(lo, counts))
    ensures Total(counts) == |s|
  {
    forall v
      ensures multiset(Spread(lo, counts))[v] == multiset(s)[v]
    {
      SpreadCounts(lo, counts, v);
      if !(lo <= v < lo + |counts|) {
        assert v !in s;
      }
    }
    assert multiset(Spread(lo, counts)) == multiset(s);
    SpreadSorted(lo, counts);
    SpreadLength(lo, counts);
    assert |multiset(Spread(lo, counts))| == |multiset(s)|;
  }

  /** The min/max scan at the top of count and pigeonhole. */
  method Extremes(data: array<int>) returns (lo: int, hi: int)
    requires data.Length > 0
    ensures lo in data[..] && hi in data[..]
    ensures forall k :: 0 <= k < data.Length ==> lo <= data[k] <= hi
  {
    lo, hi := data[0], data[0];
    for i := 0 to data.Length
      invariant lo in data[..] && hi in data[..]
      invariant forall k :: 0 <= k < i ==> lo <= data[k] <= hi
    {
      if data[i] < lo {
        lo := data[i];
      }
      if data[i] > hi {
        hi := data[i];
      }
    }
  }

  /** The tally loop of count and pigeonhole: slot k ends holding the number
      of occurrences of lo + k. */
  method Tally(data: array<int>, lo: int, size: nat) returns (count: array<nat>)
    requires forall k :: 0 <= k < data.Length ==> lo <= data[k] < lo + size
    ensures fresh(count) && count.Length == size
    ensures IsHistogram(data[..], lo, count[..])
  {
    count := new nat[size](_ => 0);
    for i := 0 to data.Length
      invariant forall k :: 0 <= k < size ==> count[k] == multiset(data[..i])[lo + k]
    {
      assert data[..i + 1] == data[..i] + [data[i]];
      count[data[i] - lo] := count[data[i] - lo] + 1;
    }
    assert data[..data.Length] == data[..];
  }

  /** One step of a write-back loop: the tally at i is consumed next. */
  lemma SpreadNext(lo: int, counts: seq<nat>, i: int)
    requires 0 <= i < |counts|
    ensures Spread(lo, counts[..i + 1]) == Spread(lo, counts[..i]) + Repeat(lo + i, counts[i])
    ensures |Spread(lo + i, counts[i..])| == counts[i] + |Spread(lo + i + 1, counts[i + 1..])|
  {
    assert counts[..i + 1] == counts[..i] + [counts[i]];
    SpreadAppend(lo, counts[..i], counts[i]);
    assert counts[i..][1..] == counts[i + 1..];
  }

  /** The inner `while current_c > 0` loop of count: write v at z, z + 1,
      ..., c times. */
  method WriteCopies(data: array<int>, z: int, v: int, c: nat) returns (next: int)
    requires 0 <= z && z + c <= data.Length
    modifies data
    ensures next == z + c
    ensures data[..next] == old(data[..z]) + Repeat(v, c)
  {
    next := z;
    var currentC := c;
    while currentC > 0
      invariant 0 <= currentC <= c && next == z + (c - currentC)
      invariant data[..next] == old(data[..z]) + Repeat(v, c - currentC)
    {
      RepeatMore(v, c - currentC);
      data[next] := v;
      assert data[..next + 1] == data[..next] + [v];
      next := next + 1;
      currentC := currentC - 1;
    }
  }

  /** The write-back loop of count: value lo + i is written count[i] times,
      for i = 0, 1, ..., so the slice becomes the spread of the tallies. */
  method WriteSpread(data: array<int>, count: array<nat>, lo: int)
    requires Total(count[..]) == data.Length
    modifies data
    ensures data[..] == Spread(lo, count[..])
  {
    SpreadLength(lo, count[..]);
    assert count[..0] == [] && count[0..] == count[..];
    var z := 0;
    for i := 0 to count.Length
      invariant 0 <= z <= data.Length
      invariant data[..z] == Spread(lo, count[..i])
      invariant z + |Spread(lo + i, count[i..])| == data.Length
    {
      SpreadNext(lo, count[..], i);
      z := WriteCopies(data, z, i + lo, count[i]);
    }
    assert count[..count.Length] == count[..];
    assert data[..] == data[..z];
  }

  /** `count`: tally every value of [min, max], then write each value
      min + i out count[i] times. */
  method Count(data: array<int>)
    modifies data
    ensures Sorted(data[..])
    ensures multiset(data[..]) == multiset(old(data[..]))
  {
    if data.Length == 0 { return; }
    var aMin, aMax := Extremes(data);
    var range := aMax - aMin + 1;
    var count := Tally(data, aMin, range);
    SpreadHistogram(data[..], aMin, count[..]);
    WriteSpread(data, count, aMin);
  }

  /** The inner `while holes[j] > 0` loop of pigeonhole: write v at i,
      i + 1, ..., decrementing hole j down to zero. */
  method DrainHole(arr: array<int>, holes: array<nat>, j: int, i: int, v: int) returns (next: int)
    requires 0 <= j < holes.Length && 0 <= i && i + holes[j] <= arr.Length
    modifies arr, holes
    ensures next == i + old(holes[j])
    ensures arr[..next] == old(arr[..i]) + Repeat(v, old(holes[j]))
    ensures holes[..] == old(holes[..])[j := 0]
  {
    next := i;
    while holes[j] > 0
      invariant 0 <= holes[j] <= old(holes[j]) && next == i + (old(holes[j]) - holes[j])
      invariant holes[..] == old(holes[..])[j := holes[j]]
      invariant arr[..next] == old(arr[..i]) + Repeat(v, old(holes[j]) - holes[j])
    {
      RepeatMore(v, old(holes[j]) - holes[j]);
      holes[j] := holes[j] - 1;
      arr[next] := v;
      assert arr[..next + 1] == arr[..next] + [v];
      next := next + 1;
    }
  }

  /** The write-back loop of pigeonhole: hole j is drained into value
      min + j, for j = 0, 1, ..., so the slice becomes the spread of the
      original tallies and every hole ends empty. */
  method DrainHoles(arr: array<int>, holes: array<nat>, min: int)
    requires Total(holes[..]) == arr.Length
    modifies arr, holes
    ensures arr[..] == Spread(min, old(holes[..]))
    ensures forall k :: 0 <= k < holes.Length ==> holes[k] == 0
  {
    ghost var counts := holes[..];
    SpreadLength(min, counts);
    assert counts[..0] == [] && counts[0..] == counts;
    var i := 0;
    for j := 0 to holes.Length
      invariant holes[j..] == counts[j..]
      invariant forall k :: 0 <= k < j ==> holes[k] == 0
      invariant 0 <= i <= arr.Length
      invariant arr[..i] == Spread(min, counts[..j])
      invariant i + |Spread(min + j, counts[j..])| == arr.Length
    {
      SpreadNext(min, counts, j);
      i := DrainHole(arr, holes, j, i, j + min);
      assert holes[j + 1..] == counts[j + 1..];
    }
    assert counts[..holes.Length] == counts;
    assert arr[..] == arr[..i];
  }

  /** `pigeonhole`: the same tallies, consumed by decrementing each hole as
      its value is written. */
  method Pigeonhole(arr: array<int>)
    modifies arr
    ensures Sorted(arr[..])
    ensures multiset(arr[..]) == multiset(old(arr[..]))
  {
    if arr.Length == 0 { return; }
    var min, max := Extremes(arr);
    var size := max - min + 1;
    var holes := Tally(arr, min, size);
    SpreadHistogram(arr[..], min, holes[..]);
    DrainHoles(arr, holes, min);
  }

  // ---------------------------------------------------------------------
  // count_sort: a stable counting sort by one decimal digit
  // ---------------------------------------------------------------------

  /** The decimal digit of x at place exp, `(x / exp) % 10`. */
  function Digit(x: int, exp: int): int
    requires exp >= 1
  {
    (x / exp) % 10
  }

  /** The elements of s whose digit at exp is d, in their order in s. */
  function WithDigit(s: seq<int>, exp: int, d: int): seq<int>
    requires exp >= 1
  {
    if s == [] then []
    else (if Digit(s[0], exp) == d then [s[0]] else []) + WithDigit(s[1..], exp, d)
  }

  /** How many elements of s have a digit below d at exp: where group d
      starts in count_sort's output. */
  function Below(s: seq<int>, exp: int, d: int): nat
    requires exp >= 1
  {
    if s == [] then 0 else (if Digit(s[0], exp) < d then 1 else 0) + Below(s[1..], exp, d)
  }

  /** Where group d ends in count_sort's output: the number of elements
      with digit at most d. */
  function GroupEnd(s: seq<int>, exp: int, d: int): nat
    requires exp >= 1
  {
    Below(s, exp, d + 1)
  }

  /** The elements with digit d, then those with digit d + 1, ..., 9. */
  function Blocks(s: seq<int>, exp: int, d: int): seq<int>
    requires exp >= 1
    decreases 10 - d
  {
    if d >= 10 then [] else WithDigit(s, exp, d) + Blocks(s, exp, d + 1)
  }

  /** What count_sort(arr, exp) returns: arr regrouped by the digit at exp,
      each group in arr's order. */
  function ByDigit(s: seq<int>, exp: int): seq<int>
    requires exp >= 1
  {
    Blocks(s, exp, 0)
  }

  /** The head and tail of a + b, taken apart without unfolding anything
      defined on a + b. */
  lemma ConcatParts(a: seq<int>, b: seq<int>)
    ensures a == [] ==> a + b == b
    ensures a != [] ==> a + b != [] && (a + b)[0] == a[0] && (a + b)[1..] == a[1..] + b
  {
    if a == [] {
      assert a + b == b;
    } else {
      assert (a + b)[1..] == a[1..] + b;
    }
  }

  lemma {:induction false} WithDigitConcat(a: seq<int>, b: seq<int>, exp: int, d: int)
    requires exp >= 1
    ensures WithDigit(a + b, exp, d) == WithDigit(a, exp, d) + WithDigit(b, exp, d)
  {
    if a == [] {
      ConcatParts(a, b);
    } else {
      ConcatParts(a, b);
      WithDigitConcat(a[1..], b, exp, d);
    }
  }

  /** Everything WithDigit keeps comes from s and has digit d. */
  lemma {:induction false} WithDigitMembers(s: seq<int>, exp: int, d: int)
    requires exp >= 1
    ensures forall y :: y in WithDigit(s, exp, d) ==> y in s && Digit(y, exp) == d
  {
    if s != [] {
      WithDigitMembers(s[1..], exp, d);
    }
  }

  /** The digits of all elements lie in [0, 10), so every element is in
      exactly one group: the groups of [x] + r are those of r with x added to
      the group of its digit. */
  lemma {:induction false} BlocksCons(s: seq<int>, exp: int, d: int)
    requires exp >= 1 && 0 <= d && s != []
    ensures multiset(Blocks(s, exp, d))
         == multiset(Blocks(s[1..], exp, d)) + (if Digit(s[0], exp) >= d then multiset{s[0]} else multiset{})
    decreases 10 - d
  {
    if d < 10 {
      BlocksCons(s, exp, d + 1);
    }
  }

  lemma HeadTail(s: seq<int>)
    requires s != []
    ensures multiset(s) == multiset(s[1..]) + multiset{s[0]}
  {
    assert s == [s[0]] + s[1..];
  }

  /** count_sort returns a permutation of its input. */
  lemma {:induction false} ByDigitPermutation(s: seq<int>, exp: int)
    requires exp >= 1
    ensures multiset(ByDigit(s, exp)) == multiset(s)
  {
    if s == [] {
      BlocksEmpty(exp, 0);
    } else {
      ByDigitPermutation(s[1..], exp);
      BlocksCons(s, exp, 0);
      HeadTail(s);
    }
  }

  lemma {:induction false} BlocksEmpty(exp: int, d: int)
    requires exp >= 1
    ensures Blocks([], exp, d) == []
    decreases 10 - d
  {
    if d < 10 {
      BlocksEmpty(exp, d + 1);
    }
  }

  /** Group d starts where group d - 1 ends. */
  lemma {:induction false} BelowStep(s: seq<int>, exp: int, d: int)
    requires exp >= 1
    ensures GroupEnd(s, exp, d) == Below(s, exp, d) + |WithDigit(s, exp, d)|
  {
    if s != [] {
      BelowStep(s[1..], exp, d);
    }
  }

  /** No digit is below 0, and every digit is below 10. */
  lemma {:induction false} BelowEnds(s: seq<int>, exp: int)
    requires exp >= 1
    ensures Below(s, exp, 0) == 0 && Below(s, exp, 10) == |s|
  {
    if s != [] {
      BelowEnds(s[1..], exp);
    }
  }

  lemma {:induction false} BelowMonotone(s: seq<int>, exp: int, d1: int, d2: int)
    requires exp >= 1 && d1 <= d2
    ensures Below(s, exp, d1) <= Below(s, exp, d2)
  {
    if s != [] {
      BelowMonotone(s[1..], exp, d1, d2);
    }
  }

  /** The slots [Below(e), GroupEnd(e)) of out hold group e. */
  ghost predicate GroupAt(out: seq<int>, s: seq<int>, exp: int, e: int)
    requires exp >= 1
  {
    Below(s, exp, e) <= GroupEnd(s, exp, e) <= |out| &&
    out[Below(s, exp, e)..GroupEnd(s, exp, e)] == WithDigit(s, exp, e)
  }

  /** An array whose slot ranges [Below(d), Below(d + 1)) hold the groups
      holds ByDigit from Below(d) on. */
  lemma {:induction false} BlocksFromSlices(out: seq<int>, s: seq<int>, exp: int, d: int)
    requires exp >= 1 && 0 <= d <= 10 && Below(s, exp, 10) == |out|
    requires forall e :: d <= e < 10 ==> GroupAt(out, s, exp, e)
    ensures Below(s, exp, d) <= |out| && out[Below(s, exp, d)..] == Blocks(s, exp, d)
    decreases 10 - d
  {
    if d < 10 {
      BlocksFromSlices(out, s, exp, d + 1);
      assert GroupAt(out, s, exp, d);
      var lo, mid := Below(s, exp, d), GroupEnd(s, exp, d);
      assert out[lo..] == out[lo..mid] + out[mid..];
    }
  }

  /** Group d in the state of count_sort's placement loop, which walks arr
      from the back: digits[d] is the next free slot (counting down) of
      group d, and the slots above it up to the group's end already hold
      group d's members from arr[i..]. */
  ghost predicate GroupPlaced(s: seq<int>, exp: int, i: int, out: seq<int>, digits: seq<int>, d: int)
    requires exp >= 1 && 0 <= i <= |s| && |digits| == 10 && 0 <= d < 10
  {
    digits[d] == Below(s, exp, d) + |WithDigit(s[..i], exp, d)| &&
    digits[d] <= GroupEnd(s, exp, d) <= |out| &&
    out[digits[d]..GroupEnd(s, exp, d)] == WithDigit(s[i..], exp, d)
  }

  /** The state of the placement loop, all groups at once. */
  ghost predicate Placed(s: seq<int>, exp: int, i: int, out: seq<int>, digits: seq<int>)
    requires exp >= 1
  {
    0 <= i <= |s| && |out| == |s| && |digits| == 10 &&
    forall d :: 0 <= d < 10 ==> GroupPlaced(s, exp, i, out, digits, d)
  }

  /** Moving i down past s[i - 1] takes it out of the prefix and puts it at
      the front of the suffix, in the group of its digit only. */
  lemma StepBack(s: seq<int>, exp: int, i: int, d: int)
    requires exp >= 1 && 0 < i <= |s|
    ensures |WithDigit(s[..i], exp, d)|
         == |WithDigit(s[..i - 1], exp, d)| + (if Digit(s[i - 1], exp) == d then 1 else 0)
    ensures WithDigit(s[i - 1..], exp, d)
         == (if Digit(s[i - 1], exp) == d then [s[i - 1]] else []) + WithDigit(s[i..], exp, d)
  {
    var x := s[i - 1];
    assert s[..i] == s[..i - 1] + [x];
    WithDigitConcat(s[..i - 1], [x], exp, d);
    assert [x][1..] == [];
    assert s[i - 1..][1..] == s[i..];
  }

  /** Writing at slot w of group e (e != d) leaves group d's placed part
      alone, since the groups occupy disjoint ranges. */
  lemma PlaceOther(s: seq<int>, exp: int, i: int, out: seq<int>, digits: seq<int>, e: int, d: int)
    requires exp >= 1 && 0 < i <= |s| && |out| == |s| && |digits| == 10
    requires e == Digit(s[i - 1], exp) && 0 <= d < 10 && d != e
    requires 0 <= e < 10 && Below(s, exp, e) < digits[e] <= GroupEnd(s, exp, e) <= |out|
    requires GroupPlaced(s, exp, i, out, digits, d)
    ensures GroupPlaced(s, exp, i - 1, out[digits[e] - 1 := s[i - 1]], digits[e := digits[e] - 1], d)
  {
    StepBack(s, exp, i, d);
    var w := digits[e] - 1;
    if d < e {
      BelowMonotone(s, exp, d + 1, e);
    } else {
      BelowMonotone(s, exp, e + 1, d);
    }
    assert out[w := s[i - 1]][digits[d]..GroupEnd(s, exp, d)] == out[digits[d]..GroupEnd(s, exp, d)];
  }

  /** Placing arr[i - 1] at digits[e] - 1, for its digit e, and moving that
      group's running end down keeps the placement state. */
  lemma PlaceStep(s: seq<int>, exp: int, i: int, out: seq<int>, digits: seq<int>)
    requires exp >= 1 && 0 < i
    requires Placed(s, exp, i, out, digits)
    ensures 0 <= Digit(s[i - 1], exp) < 10
    ensures Below(s, exp, Digit(s[i - 1], exp)) < digits[Digit(s[i - 1], exp)] <= |out|
    ensures Placed(s, exp, i - 1,
                   out[digits[Digit(s[i - 1], exp)] - 1 := s[i - 1]],
                   digits[Digit(s[i - 1], exp) := digits[Digit(s[i - 1], exp)] - 1])
  {
    var x := s[i - 1];
    var e := Digit(x, exp);
    StepBack(s, exp, i, e);
    assert GroupPlaced(s, exp, i, out, digits, e);
    var w := digits[e] - 1;
    var out', digits' := out[w := x], digits[e := w];
    assert out'[w..GroupEnd(s, exp, e)] == [x] + out[digits[e]..GroupEnd(s, exp, e)];
    assert GroupPlaced(s, exp, i - 1, out', digits', e);
    var j := i - 1;
    forall d | 0 <= d < 10
      ensures GroupPlaced(s, exp, j, out', digits', d)
    {
      if d != e {
        PlaceOther(s, exp, i, out, digits, e, d);
      }
    }
  }

  /** The running totals are the group ends, so the loop starts with every
      group's placed part empty. */
  lemma PlacedStart(s: seq<int>, exp: int, out: seq<int>, digits: seq<int>)
    requires exp >= 1 && |out| == |s| && |digits| == 10
    requires forall d :: 0 <= d < 10 ==> digits[d] == GroupEnd(s, exp, d)
    ensures Placed(s, exp, |s|, out, digits)
  {
    BelowEnds(s, exp);
    assert s[..|s|] == s && s[|s|..] == [];
    forall d | 0 <= d < 10
      ensures GroupPlaced(s, exp, |s|, out, digits, d)
    {
      BelowStep(s, exp, d);
      BelowMonotone(s, exp, d + 1, 10);
    }
  }

  /** When the walk reaches the front, every group is in place. */
  lemma PlacedEnd(s: seq<int>, exp: int, out: seq<int>, digits: seq<int>)
    requires exp >= 1 && Placed(s, exp, 0, out, digits)
    ensures out == ByDigit(s, exp)
  {
    BelowEnds(s, exp);
    assert s[..0] == [] && s[0..] == s;
    forall e | 0 <= e < 10
      ensures GroupAt(out, s, exp, e)
    {
      assert GroupPlaced(s, exp, 0, out, digits, e);
    }
    BlocksFromSlices(out, s, exp, 0);
  }

  /** The first loop of count_sort: tally the digits. */
  method DigitTally(arr: array<int>, exp: int) returns (digits: array<int>)
    requires exp >= 1
    ensures fresh(digits) && digits.Length == 10
    ensures forall d :: 0 <= d < 10 ==> digits[d] == |WithDigit(arr[..], exp, d)|
  {
    digits := new int[10](_ => 0);
    for i := 0 to arr.Length
      invariant forall d :: 0 <= d < 10 ==> digits[d] == |WithDigit(arr[..i], exp, d)|
    {
      assert arr[..i + 1] == arr[..i] + [arr[i]];
      forall d | 0 <= d < 10
        ensures |WithDigit(arr[..i + 1], exp, d)|
             == |WithDigit(arr[..i], exp, d)| + (if Digit(arr[i], exp) == d then 1 else 0)
      {
        WithDigitConcat(arr[..i], [arr[i]], exp, d);
        assert [arr[i]][1..] == [];
      }
      var digit := Digit(arr[i], exp);
      digits[digit] := digits[digit] + 1;
    }
    assert arr[..arr.Length] == arr[..];
  }

  /** `count_sort(arr, exp)`: tally digits, turn the tallies into running
      totals (the end of each group), then walk arr from the back placing
      each element just below its group's end. */
  method CountSort(arr: array<int>, exp: int) returns (output: array<int>)
    requires exp >= 1
    requires forall k :: 0 <= k < arr.Length ==> arr[k] >= 0
    ensures fresh(output)
    ensures output[..] == ByDigit(arr[..], exp)
  {
    ghost var s := arr[..];
    var digits := DigitTally(arr, exp);
    output := new int[arr.Length](_ => 0);
    BelowEnds(s, exp);
    BelowStep(s, exp, 0);
    for i := 1 to 10
      invariant forall d :: 0 <= d < i ==> digits[d] == GroupEnd(s, exp, d)
      invariant forall d :: i <= d < 10 ==> digits[d] == |WithDigit(s, exp, d)|
    {
      BelowStep(s, exp, i);
      digits[i] := digits[i] + digits[i - 1];
    }
    PlacedStart(s, exp, output[..], digits[..]);
    var i := arr.Length;
    while i > 0
      invariant Placed(s, exp, i, output[..], digits[..])
    {
      PlaceStep(s, exp, i, output[..], digits[..]);
      i := i - 1;
      var digitIndex := Digit(arr[i], exp);
      output[digits[digitIndex] - 1] := arr[i];
      digits[digitIndex] := digits[digitIndex] - 1;
    }
    PlacedEnd(s, exp, output[..], digits[..]);
  }

  // ---------------------------------------------------------------------
  // Least significant digit radix sort
  // ---------------------------------------------------------------------

  /** s is ordered by value modulo m: what the passes over the digits
      below m have achieved. */
  ghost predicate KeySorted(s: seq<int>, m: int)
    requires m >= 1
  {
    forall p, q :: 0 <= p < q < |s| ==> s[p] % m <= s[q] % m
  }

  /** Euclidean division is unique: a remainder in [0, m) is the remainder. */
  lemma ModUnique(x: int, m: int, a: int, b: int)
    requires m >= 1 && x == a * m + b && 0 <= b < m
    ensures x % m == b
  {
    var q, r := x / m, x % m;
    assert (a - q) * m == r - b;
    if a - q >= 1 {
      MulMonotone(m, 1, a - q);
    } else if a - q <= -1 {
      MulMonotone(m, a - q, -1);
    }
  }

  /** The value modulo 10 * e is the digit at e, scaled, above the value
      modulo e. */
  lemma ModDecompose(x: int, e: int)
    requires e >= 1
    ensures 0 <= x % e < e && 0 <= Digit(x, e) < 10
    ensures x % (10 * e) == Digit(x, e) * e + x % e
  {
    var q, r := x / e, x % e;
    var hi, d := q / 10, q % 10;
    assert x == q * e + r;
    assert q == hi * 10 + d;
    calc {
      x;
      (hi * 10 + d) * e + r;
      hi * (10 * e) + (d * e + r);
    }
    MulMonotone(e, d, 9);
    ModUnique(x, 10 * e, hi, d * e + r);
  }

  /** Keeping the members of one digit keeps the order by value modulo e. */
  lemma {:induction false} WithDigitKeySorted(s: seq<int>, e: int, d: int)
    requires e >= 1 && KeySorted(s, e)
    ensures KeySorted(WithDigit(s, e, d), e)
    ensures forall k :: 0 <= k < |WithDigit(s, e, d)| ==> Digit(WithDigit(s, e, d)[k], e) == d
    ensures forall k :: 0 <= k < |WithDigit(s, e, d)| ==> WithDigit(s, e, d)[k] in s
  {
    if s != [] {
      var rest := WithDigit(s[1..], e, d);
      WithDigitKeySorted(s[1..], e, d);
      if Digit(s[0], e) == d {
        var w := [s[0]] + rest;
        assert WithDigit(s, e, d) == w;
        forall p, q | 0 <= p < q < |w|
          ensures w[p] % e <= w[q] % e
        {
          if p == 0 {
            assert rest[q - 1] in s[1..];
            var j :| 0 <= j < |s[1..]| && s[1..][j] == rest[q - 1];
            assert s[j + 1] == w[q];
          }
        }
      }
    }
  }

  /** Two runs ordered by key, every key of the first at most every key of
      the second, concatenate to a run ordered by key. */
  lemma KeySortedConcat(a: seq<int>, b: seq<int>, m: int)
    requires m >= 1 && KeySorted(a, m) && KeySorted(b, m)
    requires forall i, j :: 0 <= i < |a| && 0 <= j < |b| ==> a[i] % m <= b[j] % m
    ensures KeySorted(a + b, m)
  {
    var c := a + b;
    forall p, q | 0 <= p < q < |c|
      ensures c[p] % m <= c[q] % m
    {
      if q < |a| {
        assert c[p] == a[p] && c[q] == a[q];
      } else if p >= |a| {
        assert c[p] == b[p - |a|] && c[q] == b[q - |a|];
      } else {
        assert c[p] == a[p] && c[q] == b[q - |a|];
      }
    }
  }

  /** Group d of a sequence ordered by value modulo e is ordered by value
      modulo 10 * e, its keys being d * e plus a key below e. */
  lemma GroupKeySorted(s: seq<int>, e: int, d: int)
    requires e >= 1 && 0 <= d < 10 && KeySorted(s, e)
    ensures KeySorted(WithDigit(s, e, d), 10 * e)
    ensures forall k :: 0 <= k < |WithDigit(s, e, d)| ==>
      d * e <= WithDigit(s, e, d)[k] % (10 * e) < (d + 1) * e
  {
    var w := WithDigit(s, e, d);
    WithDigitKeySorted(s, e, d);
    forall k | 0 <= k < |w|
      ensures w[k] % (10 * e) == d * e + w[k] % e
    {
      ModDecompose(w[k], e);
    }
  }

  /** The groups d, d + 1, ..., 9 of a sequence ordered by value modulo e
      form a sequence ordered by value modulo 10 * e, with every key at
      least d * e. */
  lemma {:induction false} BlocksKeySorted(s: seq<int>, e: int, d: int)
    requires e >= 1 && 0 <= d && KeySorted(s, e)
    ensures KeySorted(Blocks(s, e, d), 10 * e)
    ensures forall k :: 0 <= k < |Blocks(s, e, d)| ==> d * e <= Blocks(s, e, d)[k] % (10 * e)
    decreases 10 - d
  {
    if d < 10 {
      BlocksKeySorted(s, e, d + 1);
      GroupKeySorted(s, e, d);
      KeySortedConcat(WithDigit(s, e, d), Blocks(s, e, d + 1), 10 * e);
    }
  }

  /** One pass of count_sort at e extends the order from value modulo e to
      value modulo 10 * e: the step of the least significant digit radix
      sort. */
  lemma ByDigitKeySorted(s: seq<int>, e: int)
    requires e >= 1 && KeySorted(s, e)
    ensures KeySorted(ByDigit(s, e), 10 * e)
  {
    BlocksKeySorted(s, e, 0);
  }

  /** On values in [0, exp), the order by value modulo exp is the order. */
  lemma KeySortedBelow(s: seq<int>, exp: int)
    requires exp >= 1 && KeySorted(s, exp)
    requires forall k :: 0 <= k < |s| ==> 0 <= s[k] < exp
    ensures Sorted(s)
  {
    forall p, q | 0 <= p < q < |s|
      ensures s[p] <= s[q]
    {
      assert s[p] % exp == s[p] && s[q] % exp == s[q];
    }
  }

  /** A value that the loop test `max / exp > 0` sees as zero is below exp. */
  lemma QuotientZero(max: int, exp: int)
    requires 0 <= max && exp >= 1
    ensures max / exp > 0 <==> max >= exp
  {
    if max >= exp {
      assert max / exp >= 1;
    }
  }

  /** The body of unsigned_radix_sort's loop: count_sort at exp, copied
      back over arr. */
  method RadixPass(arr: array<int>, exp: int)
    requires exp >= 1 && KeySorted(arr[..], exp)
    requires forall k :: 0 <= k < arr.Length ==> arr[k] >= 0
    modifies arr
    ensures arr[..] == ByDigit(old(arr[..]), exp)
    ensures KeySorted(arr[..], 10 * exp)
    ensures multiset(arr[..]) == multiset(old(arr[..]))
  {
    ghost var s := arr[..];
    var sorted := CountSort(arr, exp);
    ByDigitPermutation(s, exp);
    ByDigitKeySorted(s, exp);
    assert |sorted[..]| == |multiset(s)| == arr.Length;
    CopyInto(arr, 0, sorted[..]);
  }

  /** `unsigned_radix_sort`: find the maximum, then run count_sort at
      exp = 1, 10, 100, ... while the maximum still has a digit at exp,
      copying each pass back. Its one caller passes only non-negative
      values; a negative one would give count_sort a negative digit index.
      exp is a mathematical integer here: see `ExpOverflowsAsWritten` for
      the source's i32. */
  method UnsignedRadixSort(arr: array<int>)
    requires forall k :: 0 <= k < arr.Length ==> arr[k] >= 0
    modifies arr
    ensures Sorted(arr[..])
    ensures multiset(arr[..]) == multiset(old(arr[..]))
  {
    if arr.Length == 0 { return; }
    ghost var orig := arr[..];
    var maxElement := arr[0];
    for i := 0 to arr.Length
      invariant 0 <= maxElement && forall k :: 0 <= k < i ==> arr[k] <= maxElement
    {
      if arr[i] > maxElement { maxElement := arr[i]; }
    }
    var exp := 1;
    QuotientZero(maxElement, exp);
    while maxElement / exp > 0
      invariant exp >= 1 && (maxElement / exp > 0 <==> maxElement >= exp)
      invariant KeySorted(arr[..], exp)
      invariant multiset(arr[..]) == multiset(orig)
      decreases maxElement - exp
    {
      PermutationAbove(arr[..], orig, 0);
      RadixPass(arr, exp);
      exp := exp * 10;
      QuotientZero(maxElement, exp);
    }
    PermutationAbove(arr[..], orig, 0);
    PermutationBelow(arr[..], orig, maxElement);
    KeySortedBelow(arr[..], exp);
  }

  /** The negative members of s, in order. */
  function Negatives(s: seq<int>): (r: seq<int>)
    ensures forall k :: 0 <= k < |r| ==> r[k] < 0
  {
    if s == [] then []
    else Negatives(s[..|s| - 1]) + (if s[|s| - 1] < 0 then [s[|s| - 1]] else [])
  }

  /** The non-negative members of s, in order. */
  function NonNegatives(s: seq<int>): (r: seq<int>)
    ensures forall k :: 0 <= k < |r| ==> r[k] >= 0
  {
    if s == [] then []
    else NonNegatives(s[..|s| - 1]) + (if s[|s| - 1] < 0 then [] else [s[|s| - 1]])
  }

  /** Each member of s negated. */
  function Negated(s: seq<int>): seq<int>
  {
    seq(|s|, k requires 0 <= k < |s| => -s[k])
  }

  lemma InitLast(s: seq<int>)
    requires s != []
    ensures multiset(s) == multiset(s[..|s| - 1]) + multiset{s[|s| - 1]}
  {
    assert s == s[..|s| - 1] + [s[|s| - 1]];
  }

  /** Splitting by sign loses and invents nothing. */
  lemma {:induction false} SignSplit(s: seq<int>)
    ensures multiset(Negatives(s)) + multiset(NonNegatives(s)) == multiset(s)
    decreases |s|
  {
    if s != [] {
      SignSplit(s[..|s| - 1]);
      InitLast(s);
    }
  }

  lemma NegatedLast(s: seq<int>)
    requires s != []
    ensures Negated(s) == Negated(s[..|s| - 1]) + [-s[|s| - 1]]
  {
  }

  /** Negating moves the count of v to -v. */
  lemma {:induction false} NegatedCount(s: seq<int>, v: int)
    ensures multiset(Negated(s))[v] == multiset(s)[-v]
    decreases |s|
  {
    if s != [] {
      var init := s[..|s| - 1];
      NegatedCount(init, v);
      InitLast(s);
      NegatedLast(s);
    }
  }

  /** Negating undoes the reversal's order: a sorted t becomes sorted
      again. */
  lemma NegatedReversedSorted(t: seq<int>)
    requires Sorted(t)
    ensures Sorted(Negated(Reversed(t)))
  {
    var n := Negated(Reversed(t));
    forall p, q | 0 <= p < q < |n|
      ensures n[p] <= n[q]
    {
      assert n[p] == -t[|t| - 1 - p] && n[q] == -t[|t| - 1 - q];
    }
  }

  /** Negation carries permutations over. */
  lemma NegatedPermutation(a: seq<int>, b: seq<int>)
    requires multiset(a) == multiset(Negated(b))
    ensures multiset(Negated(a)) == multiset(b)
  {
    forall v
      ensures multiset(Negated(a))[v] == multiset(b)[v]
    {
      NegatedCount(a, v);
      NegatedCount(b, -v);
    }
  }

  /** The sorted magnitudes of the negatives, reversed and negated, are the
      negatives, sorted. */
  lemma NegativesRebuilt(s: seq<int>, t: seq<int>)
    requires Sorted(t) && multiset(t) == multiset(Negated(Negatives(s)))
    ensures Sorted(Negated(Reversed(t)))
    ensures multiset(Negated(Reversed(t))) == multiset(Negatives(s))
  {
    NegatedReversedSorted(t);
    ReversedPermutation(t);
    NegatedPermutation(Reversed(t), Negatives(s));
  }

  /** Sorted negatives followed by sorted non-negatives are sorted. */
  lemma SignJoin(n: seq<int>, u: seq<int>)
    requires Sorted(n) && Sorted(u)
    requires forall k :: 0 <= k < |n| ==> n[k] < 0
    requires forall k :: 0 <= k < |u| ==> u[k] >= 0
    ensures Sorted(n + u)
  {
    var r := n + u;
    forall p, q | 0 <= p < q < |r|
      ensures r[p] <= r[q]
    {
      if q < |n| {
        assert r[p] == n[p] && r[q] == n[q];
      } else if p >= |n| {
        assert r[p] == u[p - |n|] && r[q] == u[q - |n|];
      } else {
        assert r[p] == n[p] && r[q] == u[q - |n|];
      }
    }
  }

  /** What radix_sort writes back: the sorted magnitudes of the negatives,
      reversed and negated, then the sorted non-negatives. If those two
      sorts did their job, the result is s sorted. */
  lemma RadixAssembly(s: seq<int>, t: seq<int>, u: seq<int>)
    requires Sorted(t) && multiset(t) == multiset(Negated(Negatives(s)))
    requires Sorted(u) && multiset(u) == multiset(NonNegatives(s))
    ensures Sorted(Negated(Reversed(t)) + u)
    ensures multiset(Negated(Reversed(t)) + u) == multiset(s)
  {
    var n := Negated(Reversed(t));
    SignSplit(s);
    NegativesRebuilt(s, t);
    PermutationBelow(n, Negatives(s), -1);
    PermutationAbove(u, NonNegatives(s), 0);
    SignJoin(n, u);
  }

  /** The first loop of radix_sort: push -x for each negative x and x for
      each other x, in order. */
  method SplitBySign(arr: array<int>) returns (negatives: seq<int>, nonNegatives: seq<int>)
    ensures negatives == Negated(Negatives(arr[..]))
    ensures nonNegatives == NonNegatives(arr[..])
  {
    negatives, nonNegatives := [], [];
    for i := 0 to arr.Length
      invariant negatives == Negated(Negatives(arr[..i]))
      invariant nonNegatives == NonNegatives(arr[..i])
    {
      assert arr[..i + 1][..i] == arr[..i];
      if arr[i] < 0 {
        negatives := negatives + [-arr[i]];
      } else {
        nonNegatives := nonNegatives + [arr[i]];
      }
    }
    assert arr[..arr.Length] == arr[..];
  }

  /** `negatives.reverse()` followed by `*n *= -1` on each. */
  method ReverseNegate(neg: array<int>)
    modifies neg
    ensures neg[..] == Negated(Reversed(old(neg[..])))
  {
    forall k | 0 <= k < neg.Length {
      neg[k] := neg[neg.Length - 1 - k];
    }
    forall k | 0 <= k < neg.Length {
      neg[k] := -neg[k];
    }
  }

  /** The two write-back loops of radix_sort. */
  method WriteBack(arr: array<int>, neg: array<int>, nonNeg: array<int>)
    requires arr != neg && arr != nonNeg && neg.Length + nonNeg.Length == arr.Length
    modifies arr
    ensures arr[..] == neg[..] + nonNeg[..]
  {
    forall k | 0 <= k < neg.Length {
      arr[k] := neg[k];
    }
    forall k | 0 <= k < nonNeg.Length {
      arr[neg.Length + k] := nonNeg[k];
    }
  }

  /** A vector handed to a routine that takes a slice: an array holding
      the sequence. */
  method FromSeq(s: seq<int>) returns (a: array<int>)
    ensures fresh(a) && a[..] == s
  {
    a := new int[|s|](k requires 0 <= k < |s| => s[k]);
  }

  /** `radix_sort`: push the negated negatives and the non-negatives into
      two vectors, radix-sort both, reverse and negate the first, and write
      the two back one after the other. Negating is exact here: see
      `NegatedAsWritten` for the source's i32. */
  method RadixSort(arr: array<int>)
    modifies arr
    ensures Sorted(arr[..])
    ensures multiset(arr[..]) == multiset(old(arr[..]))
  {
    if arr.Length < 1 { return; }
    ghost var s := arr[..];
    var negatives, nonNegatives := SplitBySign(arr);
    var neg := FromSeq(negatives);
    UnsignedRadixSort(neg);
    ghost var t := neg[..];
    ReverseNegate(neg);
    var nonNeg := FromSeq(nonNegatives);
    UnsignedRadixSort(nonNeg);
    SignSplit(s);
    assert neg.Length + nonNeg.Length == |multiset(s)| == arr.Length;
    WriteBack(arr, neg, nonNeg);
    RadixAssembly(s, t, nonNeg[..]);
  }

  // ---------------------------------------------------------------------
  // The source's i32 arithmetic. The methods above compute on unbounded
  // integers; these members follow the three places where the i32
  // arithmetic of the source leaves the i32 range (a panic in a debug
  // build, a wrap-around in a release build).
  // ---------------------------------------------------------------------

  const I32Min: int := -0x8000_0000
  const I32Max: int := 0x7fff_ffff

  /** An i32 operation whose exact result is v: None when v is out of
      range. */
  function CheckedI32(v: int): (r: Option<int>)
    ensures r.Some? <==> I32Min <= v <= I32Max
    ensures r.Some? ==> r.value == v
  {
    if I32Min <= v <= I32Max then Some(v) else None
  }

  /** `a_max - a_min + 1` of count (and `max - min + 1` of pigeonhole) in
      i32. */
  function RangeAsWritten(lo: int, hi: int): Option<int>
  {
    match CheckedI32(hi - lo)
    case None => None
    case Some(d) => CheckedI32(d + 1)
  }

  /** For i32 extremes lo <= hi the range computation overflows exactly
      when the values span at least 2^31 - 1, e.g. for [0, i32::MAX]. */
  lemma RangeOverflow(lo: int, hi: int)
    requires I32Min <= lo <= hi <= I32Max
    ensures RangeAsWritten(lo, hi).None? <==> hi - lo >= I32Max
    ensures RangeAsWritten(lo, hi).Some? ==> RangeAsWritten(lo, hi).value == hi - lo + 1
    ensures RangeAsWritten(0, I32Max).None?
  {
  }

  /** The powers of ten that unsigned_radix_sort's exp runs through. */
  function Pow10(k: nat): (r: nat)
    ensures r >= 1
  {
    if k == 0 then 1 else 10 * Pow10(k - 1)
  }

  /** Whether unsigned_radix_sort's loop, from exp on, multiplies exp by 10
      past i32::MAX before `max / exp > 0` fails. */
  predicate ExpOverflowsAsWritten(max: int, exp: int)
    requires exp >= 1
    decreases I32Max - exp
  {
    max / exp > 0 &&
    match CheckedI32(exp * 10)
    case None => true
    case Some(next) => ExpOverflowsAsWritten(max, next)
  }

  lemma {:induction false} ExpOverflowFrom(max: int, k: nat)
    requires 0 <= max && k <= 9
    ensures ExpOverflowsAsWritten(max, Pow10(k)) <==> max >= Pow10(9)
    decreases 9 - k
  {
    var exp := Pow10(k);
    assert Pow10(9) == 1_000_000_000;
    QuotientZero(max, exp);
    if k < 9 {
      ExpOverflowFrom(max, k + 1);
      PowMonotone(k + 1, 9);
      assert CheckedI32(exp * 10) == Some(Pow10(k + 1));
      PowMonotone(k, 9);
    }
  }

  lemma {:induction false} PowMonotone(k: nat, j: nat)
    requires k <= j
    ensures 1 <= Pow10(k) <= Pow10(j)
    decreases j
  {
    if k < j {
      PowMonotone(k, j - 1);
    }
  }

  /** unsigned_radix_sort's exp overflows i32 exactly when the maximum
      element has ten decimal digits, e.g. for [1_000_000_000]. */
  lemma ExpOverflow(max: int)
    requires 0 <= max
    ensures ExpOverflowsAsWritten(max, 1) <==> max >= 1_000_000_000
  {
    ExpOverflowFrom(max, 0);
  }

  /** radix_sort's first loop in i32: pushing `-item` fails when item has
      no i32 negation. On success it yields the negated negatives. */
  function NegatedAsWritten(s: seq<int>): Option<seq<int>>
  {
    if s == [] then Some([])
    else
      match NegatedAsWritten(s[..|s| - 1])
      case None => None
      case Some(init) =>
        match CheckedI32(-s[|s| - 1])
        case None => None
        case Some(v) => Some(init + [v])
  }

  /** For i32 input, negating fails exactly when i32::MIN is present; on
      success the result is the exact negation. */
  lemma {:induction false} NegateOverflow(s: seq<int>)
    requires forall k :: 0 <= k < |s| ==> I32Min <= s[k] <= I32Max
    ensures NegatedAsWritten(s).None? <==> I32Min in s
    ensures NegatedAsWritten(s).Some? ==> NegatedAsWritten(s).value == Negated(s)
    decreases |s|
  {
    if s != [] {
      var init := s[..|s| - 1];
      NegateOverflow(init);
      assert s == init + [s[|s| - 1]];
      NegatedLast(s);
    }
  }
}
