/** `cycle` of `esoteric_sorts.rs`: for each slot in turn, carry the element
    found there to the slot its rank among the later elements names, pick up
    the element it displaces, and go on until an element lands back in the
    starting slot. Every write puts an element inside its home range (the
    slots a sorted order would give its value), which is why the loop ends. */
module CycleSort {
  import opened SortSpec

  // ---------------------------------------------------------------------
  // Counting facts used to locate home slots.
  // ---------------------------------------------------------------------

  /** Counting below x over one more member. */
  lemma CountBelowSnoc(s: seq<int>, v: int, x: int)
    ensures CountBelow(s + [v], x) == CountBelow(s, x) + (if v < x then 1 else 0)
  {
    CountBelowConcat(s, [v], x);
    assert [v][1..] == [];
  }

  /** A higher threshold counts at least as many members. */
  lemma {:induction false} CountBelowMonotone(s: seq<int>, x: int, y: int)
    requires x <= y
    ensures CountBelow(s, x) <= CountBelow(s, y)
  {
    if s != [] {
      CountBelowMonotone(s[1..], x, y);
    }
  }

  /** Nothing counted below x: every member is at least x. */
  lemma {:induction false} CountBelowZero(s: seq<int>, x: int)
    requires CountBelow(s, x) == 0
    ensures forall k :: 0 <= k < |s| ==> x <= s[k]
  {
    if s != [] {
      CountBelowZero(s[1..], x);
      assert forall k :: 1 <= k < |s| ==> s[1..][k - 1] == s[k];
    }
  }

  /** A run of slots all holding v is no longer than the number of copies of
      v, written as the members below v + 1 that are not below v. */
  lemma EqualRunBound(s: seq<int>, lo: int, hi: int, v: int)
    requires 0 <= lo <= hi <= |s|
    requires forall k :: lo <= k < hi ==> s[k] == v
    ensures hi - lo <= CountBelow(s, v + 1) - CountBelow(s, v)
  {
    var run := s[lo..hi];
    assert s == s[..lo] + run + s[hi..];
    CountBelowConcat(s[..lo] + run, s[hi..], v);
    CountBelowConcat(s[..lo] + run, s[hi..], v + 1);
    CountBelowConcat(s[..lo], run, v);
    CountBelowConcat(s[..lo], run, v + 1);
    CountBelowExtremes(run, v);
    CountBelowExtremes(run, v + 1);
    CountBelowMonotone(s[..lo], v, v + 1);
    CountBelowMonotone(s[hi..], v, v + 1);
  }

  // ---------------------------------------------------------------------
  // Home ranges.  While the cycle that starts at slot `cycle` runs, the
  // elements of the window arr[cycle..] as it was at the start (A) are
  // only moved around, so a value v belongs in the slots
  // cycle + CountBelow(A, v) up to, not including,
  // cycle + CountBelow(A, v + 1).
  // ---------------------------------------------------------------------

  /** Slot k is one of the slots value v ends in. */
  predicate AtHome(A: seq<int>, cycle: int, k: int, v: int)
  {
    CountBelow(A, v) <= k - cycle < CountBelow(A, v + 1)
  }

  /** Distinct values have disjoint home ranges. */
  lemma HomesDisjoint(A: seq<int>, cycle: int, k: int, v: int, w: int)
    requires v != w && AtHome(A, cycle, k, v)
    ensures !AtHome(A, cycle, k, w)
  {
    if w < v {
      CountBelowMonotone(A, w + 1, v);
    } else {
      CountBelowMonotone(A, v + 1, w);
    }
  }

  /** How many of the slots lo, lo + 1, ... of a hold a value at home. */
  function HomeCount(a: seq<int>, A: seq<int>, cycle: int, lo: nat): (r: nat)
    ensures r <= |a| - lo || lo > |a|
    decreases |a| - lo
  {
    if lo >= |a| then 0
    else (if AtHome(A, cycle, lo, a[lo]) then 1 else 0) + HomeCount(a, A, cycle, lo + 1)
  }

  /** Writing a value at home over one that was not adds one to the count. */
  lemma {:induction false} HomeCountUpdate(a: seq<int>, A: seq<int>, cycle: int, lo: nat, pos: int, v: int)
    requires lo <= pos < |a|
    requires !AtHome(A, cycle, pos, a[pos]) && AtHome(A, cycle, pos, v)
    ensures HomeCount(a[pos := v], A, cycle, lo) == HomeCount(a, A, cycle, lo) + 1
    decreases pos - lo
  {
    if lo < pos {
      HomeCountUpdate(a, A, cycle, lo + 1, pos, v);
    }
    if lo == pos {
      HomeCountSame(a, a[pos := v], A, cycle, lo + 1);
    }
  }

  /** Sequences that agree from lo on have the same count from lo on. */
  lemma {:induction false} HomeCountSame(a: seq<int>, b: seq<int>, A: seq<int>, cycle: int, lo: nat)
    requires |a| == |b| && forall k :: lo <= k < |a| ==> a[k] == b[k]
    ensures HomeCount(a, A, cycle, lo) == HomeCount(b, A, cycle, lo)
    decreases |a| - lo
  {
    if lo < |a| {
      HomeCountSame(a, b, A, cycle, lo + 1);
    }
  }

  // ---------------------------------------------------------------------
  // The state of one cycle.
  // ---------------------------------------------------------------------

  /** In the middle of the cycle starting at slot `cycle`, with A the window
      at its start: the starting slot still holds a stale copy of A[0], the
      later slots together with the carried element are the window's
      members, and A[0] was not the smallest (else the cycle never began). */
  ghost predicate Carrying(a: seq<int>, cycle: int, elem: int, A: seq<int>)
  {
    0 <= cycle < |a| && |A| == |a| - cycle &&
    a[cycle] == A[0] && CountBelow(A, A[0]) >= 1 &&
    multiset(a[cycle + 1..]) + multiset{elem} == multiset(A)
  }

  /** The cycle is closed: the window is a rearrangement of A whose first
      slot holds a smallest member. */
  ghost predicate Placed(a: seq<int>, cycle: int, A: seq<int>)
  {
    0 <= cycle < |a| &&
    multiset(a[cycle..]) == multiset(A) &&
    forall k :: cycle < k < |a| ==> a[cycle] <= a[k]
  }

  /** While carrying elem, the later slots hold as many members below elem
      as A does, and one fewer up to elem. */
  lemma CarriedCounts(t: seq<int>, elem: int, A: seq<int>)
    requires multiset(t) + multiset{elem} == multiset(A)
    ensures CountBelow(t, elem) == CountBelow(A, elem)
    ensures CountBelow(t, elem + 1) + 1 == CountBelow(A, elem + 1)
  {
    assert multiset(t + [elem]) == multiset(A);
    CountBelowPermutation(t + [elem], A, elem);
    CountBelowPermutation(t + [elem], A, elem + 1);
    CountBelowSnoc(t, elem, elem);
    CountBelowSnoc(t, elem, elem + 1);
  }

  // ---------------------------------------------------------------------
  // The loops of `cycle`.
  // ---------------------------------------------------------------------

  /** The counting loop: slot `cycle` moved right once for every later
      element below elem. */
  method CountLess(arr: array<int>, cycle: int, elem: int) returns (pos: int)
    requires 0 <= cycle < arr.Length
    ensures pos == cycle + CountBelow(arr[cycle + 1..], elem)
  {
    pos := cycle;
    for counter := cycle + 1 to arr.Length
      invariant pos == cycle + CountBelow(arr[cycle + 1..counter], elem)
    {
      assert arr[cycle + 1..counter + 1] == arr[cycle + 1..counter] + [arr[counter]];
      CountBelowSnoc(arr[cycle + 1..counter], arr[counter], elem);
      if arr[counter] < elem {
        pos := pos + 1;
      }
    }
    assert arr[cycle + 1..arr.Length] == arr[cycle + 1..];
  }

  /** The skipping loop: step over slots that already hold a copy of elem.
      It stays inside elem's home range, so inside the array, and stops on
      a slot holding something else. */
  method SkipEqual(arr: array<int>, cycle: int, elem: int, pos0: int, ghost A: seq<int>) returns (pos: int)
    requires Carrying(arr[..], cycle, elem, A)
    requires pos0 == cycle + CountBelow(arr[cycle + 1..], elem)
    ensures AtHome(A, cycle, pos, elem) && cycle <= pos < arr.Length
    ensures arr[pos] != elem
  {
    var t := arr[cycle + 1..];
    CarriedCounts(t, elem, A);
    CountBelowMonotone(t, elem, elem + 1);
    pos := pos0;
    while elem == arr[pos]
      invariant pos0 <= pos < cycle + CountBelow(A, elem + 1)
      invariant forall k :: pos0 <= k < pos ==> arr[k] == elem
      decreases arr.Length - pos
    {
      assert forall k :: pos0 - cycle - 1 <= k < pos - cycle ==> t[k] == arr[cycle + 1 + k];
      EqualRunBound(t, pos0 - cycle - 1, pos - cycle, elem);
      pos := pos + 1;
    }
  }

  /** One write of the cycle: the carried element goes to its slot and the
      element there is picked up. Away from the starting slot the count of
      elements at home rises; at the starting slot the cycle closes. */
  lemma Rotated(a: seq<int>, cycle: int, elem: int, A: seq<int>, pos: int)
    requires Carrying(a, cycle, elem, A)
    requires AtHome(A, cycle, pos, elem) && cycle <= pos < |a| && a[pos] != elem
    ensures pos == cycle ==> Placed(a[pos := elem], cycle, A)
    ensures pos != cycle ==> Carrying(a[pos := elem], cycle, a[pos], A)
    ensures pos != cycle ==>
      HomeCount(a[pos := elem], A, cycle, cycle + 1) == HomeCount(a, A, cycle, cycle + 1) + 1
  {
    var b := a[pos := elem];
    var t := a[cycle + 1..];
    if pos == cycle {
      assert b[cycle..] == [elem] + t;
      assert multiset(b[cycle..]) == multiset(A);
      CountBelowZero(A, elem);
      forall k | cycle < k < |b|
        ensures b[cycle] <= b[k]
      {
        assert b[k] == t[k - cycle - 1];
        assert b[k] in multiset(A);
      }
    } else {
      var j := pos - cycle - 1;
      assert b[cycle + 1..] == t[j := elem];
      assert multiset(t[j := elem]) + multiset{a[pos]} == multiset(t) + multiset{elem};
      HomesDisjoint(A, cycle, pos, elem, a[pos]);
      HomeCountUpdate(a, A, cycle, cycle + 1, pos, elem);
    }
  }

  /** The loop `while pos != cycle`: find the carried element's slot, put it
      there, pick up what was there, until the starting slot is written. */
  method CloseCycle(arr: array<int>, cycle: int, elem0: int, pos0: int, ghost A: seq<int>)
    requires Carrying(arr[..], cycle, elem0, A) && pos0 != cycle
    modifies arr
    ensures Placed(arr[..], cycle, A)
    ensures arr[..cycle] == old(arr[..cycle])
  {
    var elem, pos := elem0, pos0;
    while pos != cycle
      invariant arr[..cycle] == old(arr[..cycle])
      invariant pos != cycle ==> Carrying(arr[..], cycle, elem, A)
      invariant pos == cycle ==> Placed(arr[..], cycle, A)
      decreases if pos == cycle then 0 else 1, arr.Length - HomeCount(arr[..], A, cycle, cycle + 1)
    {
      pos := CountLess(arr, cycle, elem);
      pos := SkipEqual(arr, cycle, elem, pos, A);
      if elem != arr[pos] {
        Rotated(arr[..], cycle, elem, A, pos);
        arr[pos], elem := elem, arr[pos];
      }
    }
  }

  /** One pass of the outer loop of `cycle`, for slot `cycle`: afterwards
      the window arr[cycle..] is rearranged with a smallest member first,
      and nothing before it moved. */
  method CycleAt(arr: array<int>, cycle: int)
    requires 0 <= cycle < arr.Length
    modifies arr
    ensures Placed(arr[..], cycle, old(arr[cycle..]))
    ensures arr[..cycle] == old(arr[..cycle])
  {
    ghost var A := arr[cycle..];
    var elem := arr[cycle];
    var pos := CountLess(arr, cycle, elem);
    assert A == [elem] + arr[cycle + 1..];
    CountBelowConcat([elem], arr[cycle + 1..], elem);
    if pos == cycle {
      CountBelowZero(arr[cycle + 1..], elem);
      assert forall k :: cycle < k < arr.Length ==> arr[k] == arr[cycle + 1..][k - cycle - 1];
      return;
    }
    pos := SkipEqual(arr, cycle, elem, pos, A);
    Rotated(arr[..], cycle, elem, A, pos);
    arr[pos], elem := elem, arr[pos];
    CloseCycle(arr, cycle, elem, pos, A);
  }

  /** A closed cycle extends the sorted prefix by one slot. */
  lemma CycleExtends(before: seq<int>, after: seq<int>, cycle: int)
    requires 0 <= cycle < |before| == |after|
    requires SortedFrom(before[..cycle], 0) && SplitAt(before, cycle)
    requires Placed(after, cycle, before[cycle..]) && after[..cycle] == before[..cycle]
    ensures SortedFrom(after[..cycle + 1], 0) && SplitAt(after, cycle + 1)
    ensures multiset(after) == multiset(before)
  {
    assert before == before[..cycle] + before[cycle..];
    assert after == after[..cycle] + after[cycle..];
    forall p, q | 0 <= p < cycle <= q < |after|
      ensures after[p] <= after[q]
    {
      assert after[q] in multiset(before[cycle..]);
      var k :| cycle <= k < |before| && before[k] == after[q];
    }
  }

  /** `cycle`: run a cycle from every slot but the last. The result is
      sorted and a rearrangement of the input. */
  method Cycle(arr: array<int>)
    modifies arr
    ensures Sorted(arr[..])
    ensures multiset(arr[..]) == multiset(old(arr[..]))
  {
    var len := arr.Length;
    if len <= 1 { return; }
    for cycle := 0 to len - 1
      invariant multiset(arr[..]) == multiset(old(arr[..]))
      invariant SortedFrom(arr[..cycle], 0) && SplitAt(arr[..], cycle)
    {
      ghost var before := arr[..];
      CycleAt(arr, cycle);
      CycleExtends(before, arr[..], cycle);
    }
    assert arr[..] == arr[..len - 1] + [arr[len - 1]];
  }
}
