/** SET9/A1/a1q.cpp, class StringQuickSort (and its copy in a1rq.cpp): a
    three-way radix quicksort on the character at index. Strings whose
    character at index is below the pivot go left, equal ones to the middle
    (sorted again at index + 1), and the rest, exhausted strings included, to
    the right. Its guard reads strings[0] rather than the range, and a range
    whose pivot string is exhausted is partitioned into its right part alone
    and handed to the same call again, so a call need not return: the model
    takes a fuel bound on the recursion depth and reports running out. */
module StringQuickSort {
  import opened Strings

  /** What a call leaves behind: the contents and the passes it counted, or
      Diverged when its recursion is deeper than the fuel allows. */
  datatype Outcome = Done(s: seq<Str>, count: nat) | Diverged

  /** The contents after partitioning and the cursors less and greater. */
  datatype Parts = Parts(s: seq<Str>, less: int, greater: int)

  /** The character at index of x exists and is below the pivot. */
  predicate Below(x: Str, index: nat, pivot: int) {
    index < |x| && x[index] < pivot
  }

  /** The character at index of x exists and equals the pivot. */
  predicate AtPivot(x: Str, index: nat, pivot: int) {
    index < |x| && x[index] == pivot
  }

  /** t agrees with s outside the half-open range [lo, hi). */
  predicate SameOutside(s: seq<Str>, t: seq<Str>, lo: int, hi: int) {
    |t| == |s| && forall k :: 0 <= k < |s| && !(lo <= k < hi) ==> t[k] == s[k]
  }

  /** No string of [start, end) ends before index: every call the recursion
      makes has this, so the pivot read strings[pivotIndex][index] is at most
      one past the last character, where std::string holds '\0'. */
  predicate NoneEndBefore(s: seq<Str>, start: int, end: int, index: nat)
    requires 0 <= start <= end <= |s|
  {
    forall k :: start <= k < end ==> index <= |s[k]|
  }

  /** The three regions of the partition loop: [start, less) below the
      pivot, [less, equal) at the pivot, [greater, end) neither. */
  predicate Regions(s: seq<Str>, index: nat, pivot: int, start: int, less: int, equal: int, greater: int, end: int)
    requires 0 <= start <= less <= equal <= greater <= end <= |s|
  {
    && (forall k :: start <= k < less ==> Below(s[k], index, pivot))
    && (forall k :: less <= k < equal ==> AtPivot(s[k], index, pivot))
    && (forall k :: greater <= k < end ==> !Below(s[k], index, pivot) && !AtPivot(s[k], index, pivot))
  }

  // ---------------------------------------------------------------------------
  // The functional model

  /** The partition loop from the state (less, equal, greater): a string
      below the pivot is swapped to less, one at the pivot is passed over,
      any other string is swapped to just below greater. */
  function ScanOf(s: seq<Str>, index: nat, pivot: int, less: int, equal: int, greater: int): (r: Parts)
    requires 0 <= less <= equal <= greater <= |s|
    ensures |r.s| == |s| && less <= r.less <= r.greater <= greater
    decreases greater - equal
  {
    if equal >= greater then Parts(s, less, greater)
    else if Below(s[equal], index, pivot) then ScanOf(Swap(s, less, equal), index, pivot, less + 1, equal + 1, greater)
    else if AtPivot(s[equal], index, pivot) then ScanOf(s, index, pivot, less, equal + 1, greater)
    else ScanOf(Swap(s, equal, greater - 1), index, pivot, less, equal, greater - 1)
  }

  /** The pivot: the character at index of the middle string of the range,
      '\0' when that string ends there. */
  function PivotOf(s: seq<Str>, start: int, end: int, index: nat): int
    requires 0 <= start < end <= |s| && index <= |s[start + (end - start) / 2]|
  {
    Key(s[start + (end - start) / 2], index)
  }

  /** The partition of [start, end) at index. */
  function PartitionOf(s: seq<Str>, start: int, end: int, index: nat): (r: Parts)
    requires 0 <= start < end <= |s| && NoneEndBefore(s, start, end, index)
    ensures |r.s| == |s| && start <= r.less <= r.greater <= end
  {
    ScanOf(s, index, PivotOf(s, start, end, index), start, start, end)
  }

  /** stringQuickSort(strings, start, end, index) with at most fuel nested
      calls: nothing for fewer than two strings or when index has reached
      the length of strings[0]; otherwise partition (end - start counted
      passes), sort the left part at index, the middle part at index + 1
      if index is still below the length of the current strings[0], and
      the right part at index. */
  function QuickSortOf(s: seq<Str>, start: int, end: int, index: nat, fuel: nat): (r: Outcome)
    requires 0 <= start <= end <= |s| && NoneEndBefore(s, start, end, index)
    ensures r.Done? ==> SameOutside(s, r.s, start, end)
    decreases fuel, 0
  {
    if end - start <= 1 || index >= |s[0]| then Done(s, 0)
    else if fuel == 0 then Diverged
    else
      var p := PartitionOf(s, start, end, index);
      PartitionLengths(s, start, end, index);
      AfterPartitionOf(p.s, start, p.less, p.greater, end, index, fuel - 1, end - start)
  }

  /** The three recursive calls of a call once its range is partitioned
      into t; count holds the passes so far. */
  function AfterPartitionOf(t: seq<Str>, start: int, less: int, greater: int, end: int, index: nat, fuel: nat, count: nat): (r: Outcome)
    requires 0 <= start <= less <= greater <= end <= |t| && 0 < |t|
    requires NoneEndBefore(t, start, less, index) && NoneEndBefore(t, less, greater, index + 1)
    requires NoneEndBefore(t, greater, end, index)
    ensures r.Done? ==> SameOutside(t, r.s, start, end)
    decreases fuel, 3
  {
    match QuickSortOf(t, start, less, index, fuel)
    case Diverged => Diverged
    case Done(u, c1) => AfterLeftOf(u, less, greater, end, index, fuel, count + c1)
  }

  /** The rest of a call once its left part is sorted into u: the middle part
      at index + 1 when index is below the length of u[0], then the right
      part; count holds the passes so far. */
  function AfterLeftOf(u: seq<Str>, less: int, greater: int, end: int, index: nat, fuel: nat, count: nat): (r: Outcome)
    requires 0 <= less <= greater <= end <= |u| && 0 < |u|
    requires NoneEndBefore(u, less, greater, index + 1) && NoneEndBefore(u, greater, end, index)
    ensures r.Done? ==> SameOutside(u, r.s, less, end)
    decreases fuel, 2
  {
    if index < |u[0]| then
      match QuickSortOf(u, less, greater, index + 1, fuel)
      case Diverged => Diverged
      case Done(v, c2) => AfterMiddleOf(v, greater, end, index, fuel, count + c2)
    else AfterMiddleOf(u, greater, end, index, fuel, count)
  }

  /** The last step of a call: the right part, sorted at the same index. */
  function AfterMiddleOf(v: seq<Str>, greater: int, end: int, index: nat, fuel: nat, count: nat): (r: Outcome)
    requires 0 <= greater <= end <= |v| && NoneEndBefore(v, greater, end, index)
    ensures r.Done? ==> SameOutside(v, r.s, greater, end)
    decreases fuel, 1
  {
    match QuickSortOf(v, greater, end, index, fuel)
    case Diverged => Diverged
    case Done(w, c3) => Done(w, count + c3)
  }

  // ---------------------------------------------------------------------------
  // Properties of the functional model

  /** A permutation that leaves everything outside [lo, hi) alone permutes
      that range. */
  lemma RangeMultiset(s: seq<Str>, t: seq<Str>, lo: int, hi: int)
    requires 0 <= lo <= hi <= |s|
    requires SameOutside(s, t, lo, hi) && multiset(s) == multiset(t)
    ensures multiset(t[lo..hi]) == multiset(s[lo..hi])
  {
    assert t[..lo] == s[..lo];
    assert t[hi..] == s[hi..];
    assert s == s[..lo] + s[lo..hi] + s[hi..];
    assert t == t[..lo] + t[lo..hi] + t[hi..];
    calc {
      multiset(t[lo..hi]);
      multiset(t) - multiset(t[..lo]) - multiset(t[hi..]);
      multiset(s) - multiset(s[..lo]) - multiset(s[hi..]);
      multiset(s[lo..hi]);
    }
  }

  /** Every string of a range permuted in place comes from that range. */
  lemma PermutedRangeFrom(s: seq<Str>, t: seq<Str>, lo: int, hi: int, k: int) returns (m: int)
    requires 0 <= lo <= k < hi <= |s|
    requires SameOutside(s, t, lo, hi) && multiset(s) == multiset(t)
    ensures lo <= m < hi && t[k] == s[m]
  {
    RangeMultiset(s, t, lo, hi);
    assert t[k] == t[lo..hi][k - lo];
    assert t[k] in multiset(s[lo..hi]);
    var i :| 0 <= i < hi - lo && s[lo..hi][i] == t[k];
    m := lo + i;
  }

  /** A step of the partition loop on a string below the pivot. */
  lemma BelowStep(s: seq<Str>, index: nat, pivot: int, start: int, less: int, equal: int, greater: int, end: int)
    requires 0 <= start <= less <= equal < greater <= end <= |s|
    requires Regions(s, index, pivot, start, less, equal, greater, end)
    requires Below(s[equal], index, pivot)
    ensures Regions(Swap(s, less, equal), index, pivot, start, less + 1, equal + 1, greater, end)
  {
  }

  /** A step of the partition loop on a string neither below nor at the
      pivot. */
  lemma AboveStep(s: seq<Str>, index: nat, pivot: int, start: int, less: int, equal: int, greater: int, end: int)
    requires 0 <= start <= less <= equal < greater <= end <= |s|
    requires Regions(s, index, pivot, start, less, equal, greater, end)
    requires !Below(s[equal], index, pivot) && !AtPivot(s[equal], index, pivot)
    ensures Regions(Swap(s, equal, greater - 1), index, pivot, start, less, equal, greater - 1, end)
  {
  }

  /** The partition loop keeps its three regions. */
  lemma {:induction false} ScanRegions(s: seq<Str>, index: nat, pivot: int, start: int, less: int, equal: int, greater: int, end: int)
    requires 0 <= start <= less <= equal <= greater <= end <= |s|
    requires Regions(s, index, pivot, start, less, equal, greater, end)
    ensures var r := ScanOf(s, index, pivot, less, equal, greater);
            Regions(r.s, index, pivot, start, r.less, r.greater, r.greater, end)
    decreases greater - equal
  {
    if equal >= greater {
    } else if Below(s[equal], index, pivot) {
      BelowStep(s, index, pivot, start, less, equal, greater, end);
      ScanRegions(Swap(s, less, equal), index, pivot, start, less + 1, equal + 1, greater, end);
    } else if AtPivot(s[equal], index, pivot) {
      ScanRegions(s, index, pivot, start, less, equal + 1, greater, end);
    } else {
      AboveStep(s, index, pivot, start, less, equal, greater, end);
      ScanRegions(Swap(s, equal, greater - 1), index, pivot, start, less, equal, greater - 1, end);
    }
  }

  /** The partition loop only permutes. */
  lemma {:induction false} ScanPermutes(s: seq<Str>, index: nat, pivot: int, less: int, equal: int, greater: int)
    requires 0 <= less <= equal <= greater <= |s|
    ensures multiset(ScanOf(s, index, pivot, less, equal, greater).s) == multiset(s)
    decreases greater - equal, 1
  {
    if equal >= greater {
    } else if Below(s[equal], index, pivot) {
      SwapStepPermutes(s, index, pivot, less, equal, greater, less, equal, less + 1, equal + 1, greater);
    } else if AtPivot(s[equal], index, pivot) {
      ScanPermutes(s, index, pivot, less, equal + 1, greater);
    } else {
      SwapStepPermutes(s, index, pivot, less, equal, greater, equal, greater - 1, less, equal, greater - 1);
    }
  }

  /** A swapping step of the partition loop followed by the rest of it. */
  lemma {:induction false} SwapStepPermutes(s: seq<Str>, index: nat, pivot: int, less: int, equal: int, greater: int,
                                            i: int, j: int, less': int, equal': int, greater': int)
    requires 0 <= less <= equal < greater <= |s| && 0 <= i < |s| && 0 <= j < |s|
    requires 0 <= less' <= equal' <= greater' <= |s| && greater' - equal' < greater - equal
    requires ScanOf(s, index, pivot, less, equal, greater) == ScanOf(Swap(s, i, j), index, pivot, less', equal', greater')
    ensures multiset(ScanOf(s, index, pivot, less, equal, greater).s) == multiset(s)
    decreases greater - equal, 0
  {
    SwapPermutes(s, i, j);
    ScanPermutes(Swap(s, i, j), index, pivot, less', equal', greater');
  }

  /** The partition loop only moves strings between less and greater. */
  lemma {:induction false} ScanFrame(s: seq<Str>, index: nat, pivot: int, less: int, equal: int, greater: int)
    requires 0 <= less <= equal <= greater <= |s|
    ensures SameOutside(s, ScanOf(s, index, pivot, less, equal, greater).s, less, greater)
    decreases greater - equal
  {
    var r := ScanOf(s, index, pivot, less, equal, greater);
    if equal >= greater {
    } else if Below(s[equal], index, pivot) {
      var t := Swap(s, less, equal);
      ScanFrame(t, index, pivot, less + 1, equal + 1, greater);
      SameOutsideWiden(s, t, r.s, less, greater, less + 1, greater);
    } else if AtPivot(s[equal], index, pivot) {
      ScanFrame(s, index, pivot, less, equal + 1, greater);
    } else {
      var t := Swap(s, equal, greater - 1);
      ScanFrame(t, index, pivot, less, equal, greater - 1);
      SameOutsideWiden(s, t, r.s, less, greater, less, greater - 1);
    }
  }

  /** Two changes confined to [lo, hi) and to a part of it are together
      confined to [lo, hi). */
  lemma SameOutsideWiden(s: seq<Str>, t: seq<Str>, u: seq<Str>, lo: int, hi: int, lo2: int, hi2: int)
    requires SameOutside(s, t, lo, hi) && SameOutside(t, u, lo2, hi2)
    requires lo <= lo2 && hi2 <= hi
    ensures SameOutside(s, u, lo, hi)
  {
  }

  /** t rearranges s within [lo, hi) and leaves the rest alone. */
  predicate PermutesWithin(s: seq<Str>, t: seq<Str>, lo: int, hi: int) {
    multiset(t) == multiset(s) && SameOutside(s, t, lo, hi)
  }

  /** Two rearrangements, the second within the range of the first, make
      one. */
  lemma PermutesWithinChain(s: seq<Str>, t: seq<Str>, u: seq<Str>, lo: int, hi: int, lo2: int, hi2: int)
    requires PermutesWithin(s, t, lo, hi) && PermutesWithin(t, u, lo2, hi2)
    requires lo <= lo2 && hi2 <= hi
    ensures PermutesWithin(s, u, lo, hi)
  {
  }

  /** The partition of [start, end) permutes that range alone. */
  lemma PartitionPermutes(s: seq<Str>, start: int, end: int, index: nat)
    requires 0 <= start < end <= |s| && NoneEndBefore(s, start, end, index)
    ensures PermutesWithin(s, PartitionOf(s, start, end, index).s, start, end)
  {
    var pivot := PivotOf(s, start, end, index);
    ScanPermutes(s, index, pivot, start, start, end);
    ScanFrame(s, index, pivot, start, start, end);
  }

  /** The partition of [start, end) permutes that range into strings
      below the pivot, strings at the pivot and the rest; the pivot string
      itself lands in the middle unless it ends at index. */
  lemma PartitionSpec(s: seq<Str>, start: int, end: int, index: nat)
    requires 0 <= start < end <= |s| && NoneEndBefore(s, start, end, index)
    ensures var r := PartitionOf(s, start, end, index);
            && Regions(r.s, index, PivotOf(s, start, end, index), start, r.less, r.greater, r.greater, end)
            && PermutesWithin(s, r.s, start, end)
            && (index < |s[start + (end - start) / 2]| ==> r.less < r.greater)
  {
    var pivot := PivotOf(s, start, end, index);
    ScanRegions(s, index, pivot, start, start, start, end, end);
    PartitionPermutes(s, start, end, index);
    var r := PartitionOf(s, start, end, index);
    var mid := start + (end - start) / 2;
    if index < |s[mid]| {
      assert AtPivot(s[mid], index, pivot);
      var m := PermutedRangeFrom(r.s, s, start, end, mid);
      assert r.less <= m < r.greater;
    }
  }

  /** The partition hands each recursive call a range in which no string
      ends before its index: the left part and the middle part hold strings
      with a character at index, the right part strings of the range. */
  lemma PartitionLengths(s: seq<Str>, start: int, end: int, index: nat)
    requires 0 <= start < end <= |s| && NoneEndBefore(s, start, end, index)
    ensures var r := PartitionOf(s, start, end, index);
            && SameOutside(s, r.s, start, end)
            && NoneEndBefore(r.s, start, r.less, index)
            && NoneEndBefore(r.s, r.less, r.greater, index + 1)
            && NoneEndBefore(r.s, r.greater, end, index)
  {
    PartitionSpec(s, start, end, index);
    var r := PartitionOf(s, start, end, index);
    forall k | r.greater <= k < end
      ensures index <= |r.s[k]|
    {
      var m := PermutedRangeFrom(s, r.s, start, end, k);
    }
  }

  /** A call that finishes has only permuted the strings of its range. */
  lemma {:induction false} QuickSortOfPermutes(s: seq<Str>, start: int, end: int, index: nat, fuel: nat)
    requires 0 <= start <= end <= |s| && NoneEndBefore(s, start, end, index)
    ensures var o := QuickSortOf(s, start, end, index, fuel);
            o.Done? ==> PermutesWithin(s, o.s, start, end)
    decreases fuel, 0
  {
    if end - start <= 1 || index >= |s[0]| || fuel == 0 {
    } else {
      var p := PartitionOf(s, start, end, index);
      PartitionPermutes(s, start, end, index);
      PartitionLengths(s, start, end, index);
      AfterPartitionPermutes(p.s, start, p.less, p.greater, end, index, fuel - 1, end - start);
      var o := AfterPartitionOf(p.s, start, p.less, p.greater, end, index, fuel - 1, end - start);
      if o.Done? {
        PermutesWithinChain(s, p.s, o.s, start, end, start, end);
      }
    }
  }

  lemma {:induction false} AfterPartitionPermutes(t: seq<Str>, start: int, less: int, greater: int, end: int, index: nat, fuel: nat, count: nat)
    requires 0 <= start <= less <= greater <= end <= |t| && 0 < |t|
    requires NoneEndBefore(t, start, less, index) && NoneEndBefore(t, less, greater, index + 1)
    requires NoneEndBefore(t, greater, end, index)
    ensures var o := AfterPartitionOf(t, start, less, greater, end, index, fuel, count);
            o.Done? ==> PermutesWithin(t, o.s, start, end)
    decreases fuel, 3
  {
    QuickSortOfPermutes(t, start, less, index, fuel);
    var o1 := QuickSortOf(t, start, less, index, fuel);
    if o1.Done? {
      AfterLeftPermutes(o1.s, less, greater, end, index, fuel, count + o1.count);
      var o := AfterLeftOf(o1.s, less, greater, end, index, fuel, count + o1.count);
      if o.Done? {
        PermutesWithinChain(t, o1.s, o.s, start, end, less, end);
      }
    }
  }

  lemma {:induction false} AfterLeftPermutes(u: seq<Str>, less: int, greater: int, end: int, index: nat, fuel: nat, count: nat)
    requires 0 <= less <= greater <= end <= |u| && 0 < |u|
    requires NoneEndBefore(u, less, greater, index + 1) && NoneEndBefore(u, greater, end, index)
    ensures var o := AfterLeftOf(u, less, greater, end, index, fuel, count);
            o.Done? ==> PermutesWithin(u, o.s, less, end)
    decreases fuel, 2
  {
    if index < |u[0]| {
      QuickSortOfPermutes(u, less, greater, index + 1, fuel);
      var o2 := QuickSortOf(u, less, greater, index + 1, fuel);
      if o2.Done? {
        AfterMiddlePermutes(o2.s, greater, end, index, fuel, count + o2.count);
        var o := AfterMiddleOf(o2.s, greater, end, index, fuel, count + o2.count);
        if o.Done? {
          PermutesWithinChain(u, o2.s, o.s, less, end, greater, end);
        }
      }
    } else {
      AfterMiddlePermutes(u, greater, end, index, fuel, count);
    }
  }

  lemma {:induction false} AfterMiddlePermutes(v: seq<Str>, greater: int, end: int, index: nat, fuel: nat, count: nat)
    requires 0 <= greater <= end <= |v| && NoneEndBefore(v, greater, end, index)
    ensures var o := AfterMiddleOf(v, greater, end, index, fuel, count);
            o.Done? ==> PermutesWithin(v, o.s, greater, end)
    decreases fuel, 1
  {
    QuickSortOfPermutes(v, greater, end, index, fuel);
  }

  /** A range of at least two strings that all end exactly at index, while
      strings[0] is longer: the situation the recursion cannot leave. */
  predicate Stuck(s: seq<Str>, start: int, end: int, index: nat)
    requires 0 <= start <= end <= |s|
  {
    end - start >= 2 && index < |s[0]| && forall k :: start <= k < end ==> |s[k]| == index
  }

  /** In a stuck range every string goes to the right part, which is the
      whole range again, still stuck: no fuel is enough. */
  lemma {:induction false} StuckDiverges(s: seq<Str>, start: int, end: int, index: nat, fuel: nat)
    requires 0 <= start <= end <= |s|
    requires Stuck(s, start, end, index)
    ensures QuickSortOf(s, start, end, index, fuel) == Diverged
    decreases fuel
  {
    if fuel > 0 {
      var p := PartitionOf(s, start, end, index);
      var t := p.s;
      PartitionSpec(s, start, end, index);
      var pivot := PivotOf(s, start, end, index);
      forall k | start <= k < end
        ensures |t[k]| == index && !Below(t[k], index, pivot) && !AtPivot(t[k], index, pivot)
      {
        var m := PermutedRangeFrom(s, t, start, end, k);
      }
      assert !Below(t[start], index, pivot) && !AtPivot(t[start], index, pivot);
      assert p.less == start;
      assert p.greater == start;
      assert !(start <= 0 < end);
      assert t[0] == s[0];
      assert QuickSortOf(t, start, start, index, fuel - 1) == Done(t, 0);
      assert QuickSortOf(t, start, start, index + 1, fuel - 1) == Done(t, 0);
      StuckDiverges(t, start, end, index, fuel - 1);
      assert AfterMiddleOf(t, start, end, index, fuel - 1, end - start) == Diverged;
      assert AfterLeftOf(t, start, start, end, index, fuel - 1, end - start) == Diverged;
      assert AfterPartitionOf(t, start, start, start, end, index, fuel - 1, end - start) == Diverged;
    }
  }

  /** Every string has length n and characters 1..127. */
  predicate Uniform(s: seq<Str>, n: nat) {
    AllValid(s) && forall k :: 0 <= k < |s| ==> |s[k]| == n
  }

  /** The strings of [lo, hi) agree on every key below n. */
  predicate CommonPrefix(s: seq<Str>, lo: int, hi: int, n: nat)
    requires 0 <= lo <= hi <= |s|
  {
    forall i, j :: lo <= i < hi && lo <= j < hi ==> SameKeysBelow(s[i], s[j], n)
  }

  /** [lo, hi) is in order. */
  predicate SortedRange(s: seq<Str>, lo: int, hi: int)
    requires 0 <= lo <= hi <= |s|
  {
    forall i, j :: lo <= i < j < hi ==> LessEq(s[i], s[j])
  }

  lemma UniformPermuted(s: seq<Str>, t: seq<Str>, lo: int, hi: int, n: nat)
    requires 0 <= lo <= hi <= |s|
    requires Uniform(s, n) && PermutesWithin(s, t, lo, hi)
    ensures Uniform(t, n)
  {
    forall k | 0 <= k < |t|
      ensures ValidStr(t[k]) && |t[k]| == n
    {
      if lo <= k < hi {
        var m := PermutedRangeFrom(s, t, lo, hi, k);
      }
    }
  }

  /** Permuting a part [lo2, hi2) of [lo, hi) keeps a common prefix of
      [lo, hi). */
  lemma CommonPrefixPermuted(s: seq<Str>, t: seq<Str>, lo: int, hi: int, lo2: int, hi2: int, n: nat)
    requires 0 <= lo <= lo2 <= hi2 <= hi <= |s|
    requires CommonPrefix(s, lo, hi, n) && PermutesWithin(s, t, lo2, hi2)
    ensures CommonPrefix(t, lo, hi, n)
  {
    forall i | lo <= i < hi
      ensures exists m :: lo <= m < hi && t[i] == s[m]
    {
      if lo2 <= i < hi2 {
        var m := PermutedRangeFrom(s, t, lo2, hi2, i);
      } else {
        assert t[i] == s[i];
      }
    }
  }

  /** Permuting one of the three regions keeps every region's class. */
  lemma RegionsPermuted(t: seq<Str>, u: seq<Str>, index: nat, pivot: int, start: int, less: int, greater: int, end: int, lo: int, hi: int)
    requires 0 <= start <= less <= greater <= end <= |t|
    requires Regions(t, index, pivot, start, less, greater, greater, end)
    requires PermutesWithin(t, u, lo, hi)
    requires (lo == start && hi == less) || (lo == less && hi == greater) || (lo == greater && hi == end)
    ensures Regions(u, index, pivot, start, less, greater, greater, end)
  {
    forall k | lo <= k < hi
      ensures exists m :: lo <= m < hi && u[k] == t[m]
    {
      var m := PermutedRangeFrom(t, u, lo, hi, k);
    }
  }

  lemma SortedRangeKept(u: seq<Str>, v: seq<Str>, lo: int, hi: int, lo2: int, hi2: int)
    requires 0 <= lo <= hi <= |u|
    requires SortedRange(u, lo, hi) && SameOutside(u, v, lo2, hi2)
    requires hi <= lo2 || hi2 <= lo
    ensures SortedRange(v, lo, hi)
  {
  }

  /** Three sorted regions below, at and above the pivot make a sorted
      range, when the strings share their keys below index and none of
      them ends before index. */
  lemma JoinRegions(w: seq<Str>, index: nat, pivot: int, start: int, less: int, greater: int, end: int, n: nat)
    requires 0 <= start <= less <= greater <= end <= |w|
    requires Uniform(w, n) && index < n
    requires CommonPrefix(w, start, end, index)
    requires Regions(w, index, pivot, start, less, greater, greater, end)
    requires SortedRange(w, start, less) && SortedRange(w, less, greater) && SortedRange(w, greater, end)
    ensures SortedRange(w, start, end)
  {
    forall i, j | start <= i < j < end
      ensures LessEq(w[i], w[j])
    {
      if (i < less && less <= j) || (i < greater && greater <= j) {
        assert Key(w[i], index) < Key(w[j], index);
        KeyDecides(w[i], w[j], index);
        LessImpliesLessEq(w[i], w[j]);
      }
    }
  }

  /** Strings of length n that agree on every key below index >= n are
      equal, so their range is in order. */
  lemma ExhaustedSorted(s: seq<Str>, start: int, end: int, index: nat, n: nat)
    requires 0 <= start <= end <= |s|
    requires Uniform(s, n) && n <= index && CommonPrefix(s, start, end, index)
    ensures SortedRange(s, start, end)
  {
    forall i, j | start <= i < j < end
      ensures LessEq(s[i], s[j])
    {
      SameKeysEqual(s[i], s[j], index);
      LessIrreflexive(s[i]);
    }
  }

  /** With strings of one length, a call that finishes leaves its range in
      order. */
  lemma {:induction false} QuickSortOfSortsUniform(s: seq<Str>, start: int, end: int, index: nat, fuel: nat, n: nat)
    requires 0 <= start <= end <= |s| && NoneEndBefore(s, start, end, index)
    requires Uniform(s, n) && CommonPrefix(s, start, end, index)
    ensures var o := QuickSortOf(s, start, end, index, fuel);
            o.Done? ==> SortedRange(o.s, start, end)
    decreases fuel, 1
  {
    if end - start <= 1 {
    } else if index >= |s[0]| {
      ExhaustedSorted(s, start, end, index, n);
    } else if fuel > 0 {
      PartitionedSortsUniform(s, start, end, index, fuel, n);
    }
  }

  /** The partitioning case of QuickSortOfSortsUniform. */
  lemma {:induction false} PartitionedSortsUniform(s: seq<Str>, start: int, end: int, index: nat, fuel: nat, n: nat)
    requires 0 <= start && start + 2 <= end <= |s| && index < |s[0]| && 0 < fuel
    requires NoneEndBefore(s, start, end, index)
    requires Uniform(s, n) && CommonPrefix(s, start, end, index)
    ensures var o := QuickSortOf(s, start, end, index, fuel);
            o.Done? ==> SortedRange(o.s, start, end)
    decreases fuel, 0
  {
    var p := PartitionOf(s, start, end, index);
    PartitionSpec(s, start, end, index);
    UniformPermuted(s, p.s, start, end, n);
    CommonPrefixPermuted(s, p.s, start, end, start, end, index);
    AfterPartitionSortsUniform(p.s, PivotOf(s, start, end, index), start, p.less, p.greater, end, index, fuel - 1, end - start, n);
  }

  /** The three calls of QuickSortOfSortsUniform after the partition. */
  lemma {:induction false} AfterPartitionSortsUniform(t: seq<Str>, pivot: int, start: int, less: int, greater: int, end: int, index: nat, fuel: nat, count: nat, n: nat)
    requires 0 <= start <= less <= greater <= end <= |t| && 0 < |t|
    requires Uniform(t, n) && index < n && CommonPrefix(t, start, end, index)
    requires Regions(t, index, pivot, start, less, greater, greater, end)
    ensures var o := AfterPartitionOf(t, start, less, greater, end, index, fuel, count);
            o.Done? ==> SortedRange(o.s, start, end)
    decreases fuel, 4
  {
    QuickSortOfSortsUniform(t, start, less, index, fuel, n);
    QuickSortOfPermutes(t, start, less, index, fuel);
    var o1 := QuickSortOf(t, start, less, index, fuel);
    if o1.Done? {
      var u := o1.s;
      UniformPermuted(t, u, start, less, n);
      RegionsPermuted(t, u, index, pivot, start, less, greater, end, start, less);
      CommonPrefixPermuted(t, u, start, end, start, less, index);
      AfterLeftSortsUniform(u, pivot, start, less, greater, end, index, fuel, count + o1.count, n);
    }
  }

  /** The middle and right calls of QuickSortOfSortsUniform, with the left
      part already in order. */
  lemma {:induction false} AfterLeftSortsUniform(u: seq<Str>, pivot: int, start: int, less: int, greater: int, end: int, index: nat, fuel: nat, count: nat, n: nat)
    requires 0 <= start <= less <= greater <= end <= |u| && 0 < |u|
    requires Uniform(u, n) && index < n && CommonPrefix(u, start, end, index)
    requires Regions(u, index, pivot, start, less, greater, greater, end)
    requires SortedRange(u, start, less)
    ensures var o := AfterLeftOf(u, less, greater, end, index, fuel, count);
            o.Done? ==> SortedRange(o.s, start, end)
    decreases fuel, 3
  {
    forall i, j | less <= i < greater && less <= j < greater
      ensures SameKeysBelow(u[i], u[j], index + 1)
    {
      assert SameKeysBelow(u[i], u[j], index);
    }
    QuickSortOfSortsUniform(u, less, greater, index + 1, fuel, n);
    QuickSortOfPermutes(u, less, greater, index + 1, fuel);
    var o2 := QuickSortOf(u, less, greater, index + 1, fuel);
    if o2.Done? {
      var v := o2.s;
      UniformPermuted(u, v, less, greater, n);
      RegionsPermuted(u, v, index, pivot, start, less, greater, end, less, greater);
      CommonPrefixPermuted(u, v, start, end, less, greater, index);
      SortedRangeKept(u, v, start, less, less, greater);
      AfterMiddleSortsUniform(v, pivot, start, less, greater, end, index, fuel, count + o2.count, n);
    }
  }

  /** The right call of QuickSortOfSortsUniform, with the left and middle
      parts already in order. */
  lemma {:induction false} AfterMiddleSortsUniform(v: seq<Str>, pivot: int, start: int, less: int, greater: int, end: int, index: nat, fuel: nat, count: nat, n: nat)
    requires 0 <= start <= less <= greater <= end <= |v|
    requires Uniform(v, n) && index < n && CommonPrefix(v, start, end, index)
    requires Regions(v, index, pivot, start, less, greater, greater, end)
    requires SortedRange(v, start, less) && SortedRange(v, less, greater)
    ensures var o := AfterMiddleOf(v, greater, end, index, fuel, count);
            o.Done? ==> SortedRange(o.s, start, end)
    decreases fuel, 2
  {
    QuickSortOfSortsUniform(v, greater, end, index, fuel, n);
    QuickSortOfPermutes(v, greater, end, index, fuel);
    var o3 := QuickSortOf(v, greater, end, index, fuel);
    if o3.Done? {
      var w := o3.s;
      UniformPermuted(v, w, greater, end, n);
      RegionsPermuted(v, w, index, pivot, start, less, greater, end, greater, end);
      CommonPrefixPermuted(v, w, start, end, greater, end, index);
      SortedRangeKept(v, w, start, less, greater, end);
      SortedRangeKept(v, w, less, greater, greater, end);
      JoinRegions(w, index, pivot, start, less, greater, end, n);
    }
  }

  /** With strings of one length n over 1..127, a call finishes once the
      fuel covers the size of its range plus the characters left to read:
      the pivot string has a character at index, so it lands in the middle
      part and the left and right parts are smaller, while the middle part
      moves on to index + 1 and the guard on strings[0] stops it at n. */
  lemma {:induction false} QuickSortOfFinishesUniform(s: seq<Str>, start: int, end: int, index: nat, fuel: nat, n: nat)
    requires 0 <= start <= end <= |s| && NoneEndBefore(s, start, end, index)
    requires Uniform(s, n) && fuel >= end - start + n - index
    ensures QuickSortOf(s, start, end, index, fuel).Done?
    decreases fuel, 0
  {
    if end - start > 1 && index < |s[0]| {
      var p := PartitionOf(s, start, end, index);
      PartitionSpec(s, start, end, index);
      PartitionLengths(s, start, end, index);
      assert p.less < p.greater by {
        assert |s[start + (end - start) / 2]| == n;
      }
      UniformPermuted(s, p.s, start, end, n);
      AfterPartitionFinishesUniform(p.s, start, p.less, p.greater, end, index, fuel - 1, end - start, n);
    }
  }

  /** The three calls of QuickSortOfFinishesUniform after the partition. */
  lemma {:induction false} AfterPartitionFinishesUniform(t: seq<Str>, start: int, less: int, greater: int, end: int, index: nat, fuel: nat, count: nat, n: nat)
    requires 0 <= start <= less <= greater <= end <= |t| && 0 < |t|
    requires NoneEndBefore(t, start, less, index) && NoneEndBefore(t, less, greater, index + 1)
    requires NoneEndBefore(t, greater, end, index)
    requires Uniform(t, n) && index < n
    requires fuel >= less - start + n - index && fuel >= greater - less + n - index - 1 && fuel >= end - greater + n - index
    ensures AfterPartitionOf(t, start, less, greater, end, index, fuel, count).Done?
    decreases fuel, 3
  {
    QuickSortOfFinishesUniform(t, start, less, index, fuel, n);
    QuickSortOfPermutes(t, start, less, index, fuel);
    var o1 := QuickSortOf(t, start, less, index, fuel);
    UniformPermuted(t, o1.s, start, less, n);
    AfterLeftFinishesUniform(o1.s, less, greater, end, index, fuel, count + o1.count, n);
  }

  /** The middle and right calls of QuickSortOfFinishesUniform. */
  lemma {:induction false} AfterLeftFinishesUniform(u: seq<Str>, less: int, greater: int, end: int, index: nat, fuel: nat, count: nat, n: nat)
    requires 0 <= less <= greater <= end <= |u| && 0 < |u|
    requires NoneEndBefore(u, less, greater, index + 1) && NoneEndBefore(u, greater, end, index)
    requires Uniform(u, n) && index < n
    requires fuel >= greater - less + n - index - 1 && fuel >= end - greater + n - index
    ensures AfterLeftOf(u, less, greater, end, index, fuel, count).Done?
    decreases fuel, 2
  {
    assert index < |u[0]|;
    QuickSortOfFinishesUniform(u, less, greater, index + 1, fuel, n);
    QuickSortOfPermutes(u, less, greater, index + 1, fuel);
    var o2 := QuickSortOf(u, less, greater, index + 1, fuel);
    UniformPermuted(u, o2.s, less, greater, n);
    AfterMiddleFinishesUniform(o2.s, greater, end, index, fuel, count + o2.count, n);
  }

  /** The right call of QuickSortOfFinishesUniform. */
  lemma {:induction false} AfterMiddleFinishesUniform(v: seq<Str>, greater: int, end: int, index: nat, fuel: nat, count: nat, n: nat)
    requires 0 <= greater <= end <= |v| && NoneEndBefore(v, greater, end, index)
    requires Uniform(v, n) && fuel >= end - greater + n - index
    ensures AfterMiddleOf(v, greater, end, index, fuel, count).Done?
    decreases fuel, 1
  {
    QuickSortOfFinishesUniform(v, greater, end, index, fuel, n);
  }

  /** sort on strings of one length n over 1..127, with fuel for |s| + n
      nested calls, finishes with a sorted permutation of its input. */
  lemma QuickSortSortsUniform(s: seq<Str>, n: nat, fuel: nat)
    requires Uniform(s, n) && fuel >= |s| + n
    ensures var o := QuickSortOf(s, 0, |s|, 0, fuel);
            o.Done? && Sorted(o.s) && multiset(o.s) == multiset(s)
  {
    QuickSortOfFinishesUniform(s, 0, |s|, 0, fuel, n);
    QuickSortOfSortsUniform(s, 0, |s|, 0, fuel, n);
    QuickSortOfPermutes(s, 0, |s|, 0, fuel);
  }

  /** "aaaa", "b", "bc": at index 1 the pivot of {"b", "bc"} is 'c', and the
      exhausted "b" goes right of "bc"; the result is out of order. */
  lemma PrefixPlacedAfter(fuel: nat)
    requires fuel >= 2
    ensures QuickSortOf([[97, 97, 97, 97], [98], [98, 99]], 0, 3, 0, fuel)
            == Done([[97, 97, 97, 97], [98, 99], [98]], 5)
    ensures !Sorted([[97, 97, 97, 97], [98, 99], [98]])
  {
    var s: seq<Str> := [[97, 97, 97, 97], [98], [98, 99]];
    var t: seq<Str> := [[97, 97, 97, 97], [98, 99], [98]];
    assert PartitionOf(s, 0, 3, 0) == Parts(s, 1, 3);
    assert PartitionOf(s, 1, 3, 1) == Parts(t, 1, 2);
    assert QuickSortOf(t, 1, 1, 1, fuel - 2) == Done(t, 0);
    assert QuickSortOf(t, 1, 2, 2, fuel - 2) == Done(t, 0);
    assert QuickSortOf(t, 2, 3, 1, fuel - 2) == Done(t, 0);
    assert AfterMiddleOf(t, 2, 3, 1, fuel - 2, 2) == Done(t, 2);
    assert AfterLeftOf(t, 1, 2, 3, 1, fuel - 2, 2) == Done(t, 2);
    assert QuickSortOf(s, 1, 3, 1, fuel - 1) == Done(t, 2);
    assert QuickSortOf(s, 0, 1, 0, fuel - 1) == Done(s, 0);
    assert QuickSortOf(t, 3, 3, 0, fuel - 1) == Done(t, 0);
    assert AfterMiddleOf(t, 3, 3, 0, fuel - 1, 5) == Done(t, 5);
    assert AfterLeftOf(s, 1, 3, 3, 0, fuel - 1, 3) == Done(t, 5);
    assert Less(t[2], t[1]);
  }

  /** "a", "zab", "za": the call on {"zab", "za"} at index 1 stops at once
      because "a", at position 0, has length 1; the result is out of order. */
  lemma GuardReadsFirstString(fuel: nat)
    requires fuel >= 1
    ensures QuickSortOf([[97], [122, 97, 98], [122, 97]], 0, 3, 0, fuel)
            == Done([[97], [122, 97, 98], [122, 97]], 3)
    ensures !Sorted([[97], [122, 97, 98], [122, 97]])
  {
    var s: seq<Str> := [[97], [122, 97, 98], [122, 97]];
    assert PartitionOf(s, 0, 3, 0) == Parts(s, 1, 3);
    assert QuickSortOf(s, 0, 1, 0, fuel - 1) == Done(s, 0);
    assert QuickSortOf(s, 1, 3, 1, fuel - 1) == Done(s, 0);
    assert QuickSortOf(s, 3, 3, 0, fuel - 1) == Done(s, 0);
    assert AfterMiddleOf(s, 3, 3, 0, fuel - 1, 3) == Done(s, 3);
    assert AfterLeftOf(s, 1, 3, 3, 0, fuel - 1, 3) == Done(s, 3);
    assert Less(s[2], s[1]);
  }

  /** "aa", "b", "b": the middle part {"b", "b"} is stuck at index 1, so the
      call never finishes. */
  lemma EqualShortStringsDiverge(fuel: nat)
    ensures QuickSortOf([[97, 97], [98], [98]], 0, 3, 0, fuel) == Diverged
  {
    var s: seq<Str> := [[97, 97], [98], [98]];
    if fuel > 0 {
      assert PartitionOf(s, 0, 3, 0) == Parts(s, 1, 3);
      StuckDiverges(s, 1, 3, 1, fuel - 1);
      assert QuickSortOf(s, 0, 1, 0, fuel - 1) == Done(s, 0);
      assert AfterLeftOf(s, 1, 3, 3, 0, fuel - 1, 3) == Diverged;
    }
  }

  // ---------------------------------------------------------------------------
  // The class

  class StringQuickSort {
    /** The static compareCount of a1q.cpp (and of the copy in a1rq.cpp). */
    var compareCount: int

    constructor()
      ensures compareCount == 0
    {
      compareCount := 0;
    }

    /** sort(strings): resets the counter and sorts the whole vector from
        character 0. */
    method Sort(a: array<Str>, fuel: nat) returns (finished: bool)
      modifies this, a
      ensures var o := QuickSortOf(old(a[..]), 0, a.Length, 0, fuel);
              finished == o.Done? && (finished ==> a[..] == o.s && compareCount == o.count)
    {
      compareCount := 0;
      finished := QuickSortRange(a, 0, a.Length, 0, fuel);
    }

    /** stringQuickSort(strings, start, end, index). */
    method QuickSortRange(a: array<Str>, start: int, end: int, index: nat, fuel: nat) returns (finished: bool)
      requires 0 <= start <= end <= a.Length && NoneEndBefore(a[..], start, end, index)
      modifies this, a
      ensures var o := QuickSortOf(old(a[..]), start, end, index, fuel);
              finished == o.Done? && (finished ==> a[..] == o.s && compareCount == old(compareCount) + o.count)
      decreases fuel, 0
    {
      if end - start <= 1 {
        return true;
      }
      if index >= |a[0]| {
        return true;
      }
      if fuel == 0 {
        return false;
      }
      ghost var s := a[..];
      var less, greater := Partition(a, start, end, index);
      PartitionLengths(s, start, end, index);
      finished := SortAfterPartition(a, start, less, greater, end, index, fuel - 1, end - start);
    }

    /** The three recursive calls of stringQuickSort; count is the number
        of passes the call has made so far. */
    method SortAfterPartition(a: array<Str>, start: int, less: int, greater: int, end: int, index: nat, fuel: nat, ghost count: nat) returns (finished: bool)
      requires 0 <= start <= less <= greater <= end <= a.Length && 0 < a.Length
      requires NoneEndBefore(a[..], start, less, index) && NoneEndBefore(a[..], less, greater, index + 1)
      requires NoneEndBefore(a[..], greater, end, index)
      modifies this, a
      ensures var o := AfterPartitionOf(old(a[..]), start, less, greater, end, index, fuel, count);
              finished == o.Done? && (finished ==> a[..] == o.s && compareCount == old(compareCount) + o.count - count)
      decreases fuel, 3
    {
      ghost var c0 := compareCount;
      finished := QuickSortRange(a, start, less, index, fuel);
      if finished {
        finished := SortAfterLeft(a, less, greater, end, index, fuel, count + (compareCount - c0));
      }
    }

    /** The middle and right recursive calls of stringQuickSort; count is
        the number of passes the call has made so far. */
    method SortAfterLeft(a: array<Str>, less: int, greater: int, end: int, index: nat, fuel: nat, ghost count: nat) returns (finished: bool)
      requires 0 <= less <= greater <= end <= a.Length && 0 < a.Length
      requires NoneEndBefore(a[..], less, greater, index + 1) && NoneEndBefore(a[..], greater, end, index)
      modifies this, a
      ensures var o := AfterLeftOf(old(a[..]), less, greater, end, index, fuel, count);
              finished == o.Done? && (finished ==> a[..] == o.s && compareCount == old(compareCount) + o.count - count)
      decreases fuel, 2
    {
      ghost var c := count;
      if index < |a[0]| {
        ghost var c0 := compareCount;
        finished := QuickSortRange(a, less, greater, index + 1, fuel);
        if !finished {
          return;
        }
        c := count + (compareCount - c0);
      }
      finished := SortAfterMiddle(a, greater, end, index, fuel, c);
    }

    /** The right recursive call of stringQuickSort. */
    method SortAfterMiddle(a: array<Str>, greater: int, end: int, index: nat, fuel: nat, ghost count: nat) returns (finished: bool)
      requires 0 <= greater <= end <= a.Length && NoneEndBefore(a[..], greater, end, index)
      modifies this, a
      ensures var o := AfterMiddleOf(old(a[..]), greater, end, index, fuel, count);
              finished == o.Done? && (finished ==> a[..] == o.s && compareCount == old(compareCount) + o.count - count)
      decreases fuel, 1
    {
      finished := QuickSortRange(a, greater, end, index, fuel);
    }

    /** The partition loop of stringQuickSort: one counted pass per step,
        and every step either advances equal or lowers greater. */
    method Partition(a: array<Str>, start: int, end: int, index: nat) returns (less: int, greater: int)
      requires 0 <= start < end <= a.Length && NoneEndBefore(a[..], start, end, index)
      modifies this, a
      ensures PartitionOf(old(a[..]), start, end, index) == Parts(a[..], less, greater)
      ensures compareCount == old(compareCount) + (end - start)
    {
      ghost var s0 := a[..];
      var pivotIndex := start + (end - start) / 2;
      var pivot := Key(a[pivotIndex], index);
      less := start;
      var equal := start;
      greater := end;
      while equal < greater
        invariant start <= less <= equal <= greater <= end
        invariant ScanOf(a[..], index, pivot, less, equal, greater) == ScanOf(s0, index, pivot, start, start, end)
        invariant compareCount == old(compareCount) + (equal - start) + (end - greater)
        decreases greater - equal
      {
        compareCount := compareCount + 1;
        if Below(a[equal], index, pivot) {
          SwapStrings(a, less, equal);
          less, equal := less + 1, equal + 1;
        } else if AtPivot(a[equal], index, pivot) {
          equal := equal + 1;
        } else {
          greater := greater - 1;
          SwapStrings(a, equal, greater);
        }
      }
    }

    /** std::swap(strings[i], strings[j]). */
    static method SwapStrings(a: array<Str>, i: int, j: int)
      requires 0 <= i < a.Length && 0 <= j < a.Length
      modifies a
      ensures a[..] == Swap(old(a[..]), i, j)
    {
      a[i], a[j] := a[j], a[i];
    }
  }
}
