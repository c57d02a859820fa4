/** SET9/A1/a1.cpp, class QuickSort: Lomuto quicksort on whole strings that
    charges min(|x|, |pivot|) characters to its counter per scanned element.
    The functional model works on the whole sequence with the same range
    bounds [low, high] the C++ functions take. */
module WholeStringQuickSort {
  import opened Strings

  // ---------------------------------------------------------------------------
  // Functional model

  /** How many of s[low], ..., s[j - 1] lie below the pivot: after scanning
      up to j, partition's i is low - 1 plus this. */
  function BelowCount(s: seq<Str>, pivot: Str, low: int, j: int): (r: nat)
    requires 0 <= low <= j <= |s|
    ensures r <= j - low
    decreases j - low
  {
    if j == low then 0
    else BelowCount(s, pivot, low, j - 1) + (if Less(s[j - 1], pivot) then 1 else 0)
  }

  /** partition's loop after scanning the positions low .. j - 1 of s: an
      element below the pivot is swapped with the first scanned element that
      is not. */
  function LomutoOf(s: seq<Str>, pivot: Str, low: int, j: int): (r: seq<Str>)
    requires 0 <= low <= j <= |s|
    ensures |r| == |s|
    decreases j - low
  {
    if j == low then s
    else if Less(s[j - 1], pivot) then
      Swap(LomutoOf(s, pivot, low, j - 1), low + BelowCount(s, pivot, low, j - 1), j - 1)
    else LomutoOf(s, pivot, low, j - 1)
  }

  /** Where partition puts the pivot s[high]. */
  function PivotIndex(s: seq<Str>, low: int, high: int): (r: int)
    requires 0 <= low <= high < |s|
    ensures low <= r <= high
  {
    low + BelowCount(s, s[high], low, high)
  }

  /** partition: scan [low, high - 1] against s[high], then swap the pivot
      into place. */
  function PartitionOf(s: seq<Str>, low: int, high: int): (r: seq<Str>)
    requires 0 <= low <= high < |s|
    ensures |r| == |s|
  {
    Swap(LomutoOf(s, s[high], low, high), PivotIndex(s, low, high), high)
  }

  /** What scanning low .. j - 1 adds to the counter: min(|x|, |pivot|) for
      every scanned x. */
  function ScanCost(s: seq<Str>, pivot: Str, low: int, j: int): nat
    requires 0 <= low <= j <= |s|
    decreases j - low
  {
    if j == low then 0 else ScanCost(s, pivot, low, j - 1) + Min(|s[j - 1]|, |pivot|)
  }

  /** What quickSort(array, low, high) adds to the counter on contents s:
      the partition's scan, then the two recursive calls. Each call only
      reads and writes its own range, so both are charged on the
      partitioned contents (see QuickSortCostLocal). */
  function QuickSortCostOf(s: seq<Str>, low: int, high: int): nat
    requires 0 <= low && high < |s|
    decreases high - low
  {
    if low < high then
      var t, p := PartitionOf(s, low, high), PivotIndex(s, low, high);
      ScanCost(s, s[high], low, high) + QuickSortCostOf(t, low, p - 1) + QuickSortCostOf(t, p + 1, high)
    else 0
  }

  // ---------------------------------------------------------------------------
  // Properties of the functional model

  /** t agrees with s everywhere outside [low, high]. */
  predicate SameOutside(s: seq<Str>, t: seq<Str>, low: int, high: int) {
    |t| == |s| && forall k :: 0 <= k < |s| && (k < low || high < k) ==> t[k] == s[k]
  }

  /** The range [low, high] of t is in non-decreasing order. */
  predicate SortedBetween(t: seq<Str>, low: int, high: int)
    requires 0 <= low && high < |t|
  {
    forall i, j :: low <= i < j <= high ==> LessEq(t[i], t[j])
  }

  /** t is s with [low, high] rearranged into sorted order: what an
      in-place sort of that range leaves behind. */
  predicate SortsBetween(s: seq<Str>, t: seq<Str>, low: int, high: int)
    requires 0 <= low && high < |s|
  {
    SameOutside(s, t, low, high) && multiset(t) == multiset(s) && SortedBetween(t, low, high)
  }

  /** Positions low .. m - 1 of t hold elements below the pivot and
      positions m .. j - 1 elements that are not. */
  predicate BelowThenNot(t: seq<Str>, pivot: Str, low: int, m: int, j: int)
    requires 0 <= low <= m <= j <= |t|
  {
    && (forall k :: low <= k < m ==> Less(t[k], pivot))
    && (forall k :: m <= k < j ==> !Less(t[k], pivot))
  }

  /** The scan touches nothing outside low .. j - 1. */
  lemma {:induction false} LomutoUnscanned(s: seq<Str>, pivot: Str, low: int, j: int, k: int)
    requires 0 <= low <= j <= |s| && 0 <= k < |s| && (k < low || j <= k)
    ensures LomutoOf(s, pivot, low, j)[k] == s[k]
    decreases j - low
  {
    if j > low {
      LomutoUnscanned(s, pivot, low, j - 1, k);
    }
  }

  /** The loop invariant of partition, proved of the model: the scanned
      positions hold the elements below the pivot, then those that are
      not. */
  lemma {:induction false} LomutoLayout(s: seq<Str>, pivot: Str, low: int, j: int)
    requires 0 <= low <= j <= |s|
    ensures BelowThenNot(LomutoOf(s, pivot, low, j), pivot, low, low + BelowCount(s, pivot, low, j), j)
    decreases j - low
  {
    if j > low {
      LomutoLayout(s, pivot, low, j - 1);
      LomutoUnscanned(s, pivot, low, j - 1, j - 1);
      var t := LomutoOf(s, pivot, low, j - 1);
      var m := low + BelowCount(s, pivot, low, j - 1);
      if Less(s[j - 1], pivot) {
        SwapBelowStep(t, pivot, low, m, j);
      } else {
        KeepStep(t, pivot, low, m, j);
      }
    }
  }

  /** One scan step that finds an element below the pivot. */
  lemma SwapBelowStep(t: seq<Str>, pivot: Str, low: int, m: int, j: int)
    requires 0 <= low <= m < j <= |t|
    requires BelowThenNot(t, pivot, low, m, j - 1) && Less(t[j - 1], pivot)
    ensures BelowThenNot(Swap(t, m, j - 1), pivot, low, m + 1, j)
  {
  }

  /** One scan step that finds an element not below the pivot. */
  lemma KeepStep(t: seq<Str>, pivot: Str, low: int, m: int, j: int)
    requires 0 <= low <= m < j <= |t|
    requires BelowThenNot(t, pivot, low, m, j - 1) && !Less(t[j - 1], pivot)
    ensures BelowThenNot(t, pivot, low, m, j)
  {
  }

  /** The scan only swaps, so it permutes the sequence. */
  lemma {:induction false} LomutoPermutes(s: seq<Str>, pivot: Str, low: int, j: int)
    requires 0 <= low <= j <= |s|
    ensures multiset(LomutoOf(s, pivot, low, j)) == multiset(s)
    decreases j - low
  {
    if j > low {
      LomutoPermutes(s, pivot, low, j - 1);
      SwapPermutes(LomutoOf(s, pivot, low, j - 1), low + BelowCount(s, pivot, low, j - 1), j - 1);
    }
  }

  /** partition leaves the pivot at PivotIndex, the elements below it
      before it and the others after it, permutes the sequence and keeps
      everything outside [low, high]. */
  lemma PartitionLayout(s: seq<Str>, low: int, high: int)
    requires 0 <= low <= high < |s|
    ensures var t, p := PartitionOf(s, low, high), PivotIndex(s, low, high);
      && t[p] == s[high]
      && (forall k :: low <= k < p ==> Less(t[k], s[high]))
      && (forall k :: p < k <= high ==> !Less(t[k], s[high]))
      && SameOutside(s, t, low, high)
      && multiset(t) == multiset(s)
  {
    var pivot := s[high];
    var u := LomutoOf(s, pivot, low, high);
    var p := PivotIndex(s, low, high);
    LomutoLayout(s, pivot, low, high);
    LomutoPermutes(s, pivot, low, high);
    LomutoUnscanned(s, pivot, low, high, high);
    forall k | 0 <= k < |s| && (k < low || high < k)
      ensures u[k] == s[k]
    {
      LomutoUnscanned(s, pivot, low, high, k);
    }
    SwapPermutes(u, p, high);
  }

  /** Equal multisets of the whole sequences and equal contents outside
      [low, high] give equal multisets of the range. */
  lemma RangeMultiset(s: seq<Str>, t: seq<Str>, low: int, high: int)
    requires 0 <= low <= high + 1 <= |s|
    requires SameOutside(s, t, low, high) && multiset(t) == multiset(s)
    ensures multiset(t[low..high + 1]) == multiset(s[low..high + 1])
  {
    var h := high + 1;
    assert t[..low] == s[..low];
    assert t[h..] == s[h..];
    assert s == s[..low] + s[low..h] + s[h..];
    assert t == t[..low] + t[low..h] + t[h..];
    calc {
      multiset(t[low..h]);
      multiset(t) - multiset(t[..low]) - multiset(t[h..]);
      multiset(s) - multiset(s[..low]) - multiset(s[h..]);
      multiset(s[low..h]);
    }
  }

  /** Rearranging a range whose elements are all below the pivot keeps
      them all below it. */
  lemma BelowPermuted(s: seq<Str>, t: seq<Str>, pivot: Str, low: int, high: int)
    requires 0 <= low <= high + 1 <= |s| == |t|
    requires multiset(t[low..high + 1]) == multiset(s[low..high + 1])
    requires forall k :: low <= k <= high ==> Less(s[k], pivot)
    ensures forall k :: low <= k <= high ==> Less(t[k], pivot)
  {
    forall k | low <= k <= high
      ensures Less(t[k], pivot)
    {
      assert t[k] == t[low..high + 1][k - low];
      assert t[k] in multiset(s[low..high + 1]);
      var i :| 0 <= i < high + 1 - low && s[low..high + 1][i] == t[k];
      assert s[low + i] == t[k];
    }
  }

  /** Rearranging a range none of whose elements is below the pivot keeps
      it so. */
  lemma NotBelowPermuted(s: seq<Str>, t: seq<Str>, pivot: Str, low: int, high: int)
    requires 0 <= low <= high + 1 <= |s| == |t|
    requires multiset(t[low..high + 1]) == multiset(s[low..high + 1])
    requires forall k :: low <= k <= high ==> !Less(s[k], pivot)
    ensures forall k :: low <= k <= high ==> !Less(t[k], pivot)
  {
    forall k | low <= k <= high
      ensures !Less(t[k], pivot)
    {
      assert t[k] == t[low..high + 1][k - low];
      assert t[k] in multiset(s[low..high + 1]);
      var i :| 0 <= i < high + 1 - low && s[low..high + 1][i] == t[k];
      assert s[low + i] == t[k];
    }
  }

  /** Two sorted ranges on either side of the pivot, the lower one below it
      and the upper one not, make one sorted range. */
  lemma SortedAroundPivot(v: seq<Str>, low: int, p: int, high: int)
    requires 0 <= low <= p <= high < |v|
    requires SortedBetween(v, low, p - 1) && SortedBetween(v, p + 1, high)
    requires forall k :: low <= k < p ==> Less(v[k], v[p])
    requires forall k :: p < k <= high ==> !Less(v[k], v[p])
    ensures SortedBetween(v, low, high)
  {
    forall i, j | low <= i < j <= high
      ensures LessEq(v[i], v[j])
    {
      if i < p && p < j {
        LessImpliesLessEq(v[i], v[p]);
        LessEqTransitive(v[i], v[p], v[j]);
      } else if i < p && j == p {
        LessImpliesLessEq(v[i], v[p]);
      }
    }
  }

  /** The recursive step of quickSort: partition, sort below the pivot,
      sort above it. */
  lemma QuickSortStep(s: seq<Str>, u: seq<Str>, v: seq<Str>, low: int, high: int)
    requires 0 <= low < high < |s|
    requires SortsBetween(PartitionOf(s, low, high), u, low, PivotIndex(s, low, high) - 1)
    requires SortsBetween(u, v, PivotIndex(s, low, high) + 1, high)
    ensures SortsBetween(s, v, low, high)
  {
    PartitionLayout(s, low, high);
    QuickSortJoin(s, PartitionOf(s, low, high), u, v, low, PivotIndex(s, low, high), high);
  }

  /** The pivot between the two sorted parts completes the sorted range. */
  lemma QuickSortJoin(s: seq<Str>, t: seq<Str>, u: seq<Str>, v: seq<Str>, low: int, p: int, high: int)
    requires 0 <= low <= p <= high < |s|
    requires SameOutside(s, t, low, high) && multiset(t) == multiset(s)
    requires t[p] == s[high]
    requires forall k :: low <= k < p ==> Less(t[k], s[high])
    requires forall k :: p < k <= high ==> !Less(t[k], s[high])
    requires SortsBetween(t, u, low, p - 1) && SortsBetween(u, v, p + 1, high)
    ensures SortsBetween(s, v, low, high)
  {
    var pivot := s[high];
    RangeMultiset(t, u, low, p - 1);
    BelowPermuted(t, u, pivot, low, p - 1);
    RangeMultiset(u, v, p + 1, high);
    assert forall k :: p < k <= high ==> !Less(u[k], pivot) by {
      forall k | p < k <= high
        ensures !Less(u[k], pivot)
      {
        assert u[k] == t[k];
      }
    }
    NotBelowPermuted(u, v, pivot, p + 1, high);
    assert v[p] == pivot by {
      assert v[p] == u[p];
      assert u[p] == t[p];
    }
    assert forall k :: low <= k < p ==> Less(v[k], pivot) by {
      forall k | low <= k < p
        ensures Less(v[k], pivot)
      {
        assert v[k] == u[k];
      }
    }
    assert SortedBetween(v, low, p - 1) by {
      forall i, j | low <= i < j <= p - 1
        ensures LessEq(v[i], v[j])
      {
        assert v[i] == u[i] && v[j] == u[j];
      }
    }
    SortedAroundPivot(v, low, p, high);
  }

  // ---------------------------------------------------------------------------
  // The counter depends only on the range being sorted

  /** s and t have the same length and agree on [low, high]. */
  predicate SameWithin(s: seq<Str>, t: seq<Str>, low: int, high: int) {
    |t| == |s| && forall k :: 0 <= k < |s| && low <= k <= high ==> t[k] == s[k]
  }

  lemma {:induction false} BelowCountLocal(s: seq<Str>, t: seq<Str>, pivot: Str, low: int, j: int)
    requires 0 <= low <= j <= |s| && SameWithin(s, t, low, j - 1)
    ensures BelowCount(s, pivot, low, j) == BelowCount(t, pivot, low, j)
    decreases j - low
  {
    if j > low {
      BelowCountLocal(s, t, pivot, low, j - 1);
    }
  }

  lemma {:induction false} ScanCostLocal(s: seq<Str>, t: seq<Str>, pivot: Str, low: int, j: int)
    requires 0 <= low <= j <= |s| && SameWithin(s, t, low, j - 1)
    ensures ScanCost(s, pivot, low, j) == ScanCost(t, pivot, low, j)
    decreases j - low
  {
    if j > low {
      ScanCostLocal(s, t, pivot, low, j - 1);
    }
  }

  /** Scanning two sequences that agree on [low, high] keeps them agreeing
      there. */
  lemma {:induction false} LomutoLocal(s: seq<Str>, t: seq<Str>, pivot: Str, low: int, j: int, high: int)
    requires 0 <= low <= j <= high + 1 <= |s| && SameWithin(s, t, low, high)
    ensures SameWithin(LomutoOf(s, pivot, low, j), LomutoOf(t, pivot, low, j), low, high)
    decreases j - low
  {
    if j > low {
      LomutoLocal(s, t, pivot, low, j - 1, high);
      BelowCountLocal(s, t, pivot, low, j - 1);
      SwapLocal(LomutoOf(s, pivot, low, j - 1), LomutoOf(t, pivot, low, j - 1),
                low + BelowCount(s, pivot, low, j - 1), j - 1, low, high);
    }
  }

  lemma SwapLocal(s: seq<Str>, t: seq<Str>, x: int, y: int, low: int, high: int)
    requires 0 <= low <= x <= high < |s| && low <= y <= high && SameWithin(s, t, low, high)
    ensures SameWithin(Swap(s, x, y), Swap(t, x, y), low, high)
  {
  }

  /** partition on two sequences that agree on [low, high] puts the pivot
      at the same place and leaves them agreeing there. */
  lemma PartitionLocal(s: seq<Str>, t: seq<Str>, low: int, high: int)
    requires 0 <= low <= high < |s| && SameWithin(s, t, low, high)
    ensures PivotIndex(s, low, high) == PivotIndex(t, low, high)
    ensures SameWithin(PartitionOf(s, low, high), PartitionOf(t, low, high), low, high)
  {
    BelowCountLocal(s, t, s[high], low, high);
    LomutoLocal(s, t, s[high], low, high, high);
    SwapLocal(LomutoOf(s, s[high], low, high), LomutoOf(t, s[high], low, high),
              PivotIndex(s, low, high), high, low, high);
  }

  /** What quickSort(array, low, high) adds to the counter depends only on
      the contents of [low, high]. */
  lemma {:induction false} QuickSortCostLocal(s: seq<Str>, t: seq<Str>, low: int, high: int)
    requires 0 <= low && high < |s| && SameWithin(s, t, low, high)
    ensures QuickSortCostOf(s, low, high) == QuickSortCostOf(t, low, high)
    decreases high - low, 1
  {
    if low < high {
      var s1, t1, p := PartitionOf(s, low, high), PartitionOf(t, low, high), PivotIndex(s, low, high);
      assert && PivotIndex(t, low, high) == p
             && ScanCost(s, s[high], low, high) == ScanCost(t, t[high], low, high)
             && QuickSortCostOf(s1, low, p - 1) == QuickSortCostOf(t1, low, p - 1)
             && QuickSortCostOf(s1, p + 1, high) == QuickSortCostOf(t1, p + 1, high) by {
        PartitionLocal(s, t, low, high);
        ScanCostLocal(s, t, s[high], low, high);
        QuickSortCostLocalParts(s1, t1, low, p, high);
      }
    }
  }

  /** The two recursive calls of quickSort, on sequences that agree on the
      whole range. */
  lemma QuickSortCostLocalParts(s: seq<Str>, t: seq<Str>, low: int, p: int, high: int)
    requires 0 <= low <= p <= high < |s| && SameWithin(s, t, low, high)
    ensures QuickSortCostOf(s, low, p - 1) == QuickSortCostOf(t, low, p - 1)
    ensures QuickSortCostOf(s, p + 1, high) == QuickSortCostOf(t, p + 1, high)
    decreases high - low, 0
  {
    QuickSortCostLocal(s, t, low, p - 1);
    QuickSortCostLocal(s, t, p + 1, high);
  }

  // ---------------------------------------------------------------------------
  // Glue for the recursive method

  /** The counter of one level of quickSort: the call above the pivot sees
      the partitioned contents there, untouched by the call below it. */
  lemma QuickSortCostStep(s0: seq<Str>, s2: seq<Str>, low: int, high: int, c0: int, c1: int, c2: int)
    requires 0 <= low < high < |s0|
    requires c0 == ScanCost(s0, s0[high], low, high)
    requires SortsBetween(PartitionOf(s0, low, high), s2, low, PivotIndex(s0, low, high) - 1)
    requires c1 == QuickSortCostOf(PartitionOf(s0, low, high), low, PivotIndex(s0, low, high) - 1)
    requires c2 == QuickSortCostOf(s2, PivotIndex(s0, low, high) + 1, high)
    ensures c0 + c1 + c2 == QuickSortCostOf(s0, low, high)
  {
    var t, p := PartitionOf(s0, low, high), PivotIndex(s0, low, high);
    QuickSortCostLocal(s2, t, p + 1, high);
  }

  // ---------------------------------------------------------------------------
  // The class

  class QuickSort {
    /** Characters compared by the last sort. */
    var compareCount: int

    constructor()
      ensures compareCount == 0
    {
      compareCount := 0;
    }

    /** sort: resets the counter and quick-sorts the whole array. */
    method Sort(a: array<Str>)
      modifies this, a
      ensures Sorted(a[..]) && multiset(a[..]) == multiset(old(a[..]))
      ensures compareCount == QuickSortCostOf(old(a[..]), 0, a.Length - 1)
    {
      compareCount := 0;
      var count := QuickSortRange(a, 0, a.Length - 1);
      compareCount := compareCount + count;
    }

    /** quickSort(array, low, high): sorts [low, high] in place and returns
        what it adds to the counter. */
    static method QuickSortRange(a: array<Str>, low: int, high: int) returns (count: int)
      requires 0 <= low && high < a.Length
      modifies a
      ensures SortsBetween(old(a[..]), a[..], low, high)
      ensures count == QuickSortCostOf(old(a[..]), low, high)
      decreases high - low
    {
      count := 0;
      if low < high {
        ghost var s0 := a[..];
        var pi, c0 := Partition(a, low, high);
        var c1 := QuickSortRange(a, low, pi - 1);
        ghost var s2 := a[..];
        var c2 := QuickSortRange(a, pi + 1, high);
        QuickSortStep(s0, s2, a[..], low, high);
        QuickSortCostStep(s0, s2, low, high, c0, c1, c2);
        count := c0 + c1 + c2;
      }
    }

    /** partition(array, low, high); returns the pivot's final index and
        what it adds to the counter. */
    static method Partition(a: array<Str>, low: int, high: int) returns (pi: int, count: int)
      requires 0 <= low <= high < a.Length
      modifies a
      ensures pi == PivotIndex(old(a[..]), low, high)
      ensures a[..] == PartitionOf(old(a[..]), low, high)
      ensures count == ScanCost(old(a[..]), old(a[..])[high], low, high)
    {
      ghost var s := a[..];
      var pivot := a[high];
      var i := low - 1;
      count := 0;
      var j := low;
      while j < high
        invariant low <= j <= high
        invariant a[..] == LomutoOf(s, pivot, low, j)
        invariant i == low - 1 + BelowCount(s, pivot, low, j)
        invariant count == ScanCost(s, pivot, low, j)
      {
        i, count := ScanOne(a, s, pivot, low, j, i, count);
        j := j + 1;
      }
      LomutoUnscanned(s, pivot, low, high, high);
      a[i + 1], a[high] := a[high], a[i + 1];
      pi := i + 1;
    }

    /** One iteration of partition's loop: charge the comparison of a[j]
        with the pivot and swap a[j] down if it is below the pivot. */
    static method ScanOne(a: array<Str>, ghost s: seq<Str>, pivot: Str, low: int, j: int, i: int, count: int)
      returns (i': int, count': int)
      requires 0 <= low <= j < a.Length == |s|
      requires a[..] == LomutoOf(s, pivot, low, j)
      requires i == low - 1 + BelowCount(s, pivot, low, j) && count == ScanCost(s, pivot, low, j)
      modifies a
      ensures a[..] == LomutoOf(s, pivot, low, j + 1)
      ensures i' == low - 1 + BelowCount(s, pivot, low, j + 1) && count' == ScanCost(s, pivot, low, j + 1)
    {
      LomutoUnscanned(s, pivot, low, j, j);
      count' := count + Min(|a[j]|, |pivot|);
      i' := i;
      if Less(a[j], pivot) {
        i' := i + 1;
        a[i'], a[j] := a[j], a[i'];
      }
    }
  }
}
