/** SET9/A1/a1.cpp, class MergeSort: top-down merge sort on whole strings
    that charges min(|a|, |b|) characters to its counter per comparison. */
module WholeStringMergeSort {
  import opened Strings

  /** What the merge loop writes into temp: the smaller head first, and the
      left head when the heads are equal (array[i] <= array[j]). */
  function MergeOf(p: seq<Str>, q: seq<Str>): (r: seq<Str>)
    decreases |p| + |q|
  {
    if |p| == 0 then q
    else if |q| == 0 then p
    else if LessEq(p[0], q[0]) then [p[0]] + MergeOf(p[1..], q)
    else [q[0]] + MergeOf(p, q[1..])
  }

  /** What the merge loop adds to the counter: min of the two head lengths
      per iteration, nothing for the two copy-out loops. */
  function MergeCostOf(p: seq<Str>, q: seq<Str>): nat
    decreases |p| + |q|
  {
    if |p| == 0 || |q| == 0 then 0
    else if LessEq(p[0], q[0]) then Min(|p[0]|, |q[0]|) + MergeCostOf(p[1..], q)
    else Min(|p[0]|, |q[0]|) + MergeCostOf(p, q[1..])
  }

  /** mergeSort on a range: the left half is [left, mid] with
      mid = left + (right - left) / 2, i.e. the first (n + 1) / 2 elements. */
  function MergeSortOf(s: seq<Str>): (r: seq<Str>)
    decreases |s|
  {
    if |s| <= 1 then s
    else
      var h := (|s| + 1) / 2;
      MergeOf(MergeSortOf(s[..h]), MergeSortOf(s[h..]))
  }

  function MergeSortCostOf(s: seq<Str>): nat
    decreases |s|
  {
    if |s| <= 1 then 0
    else
      var h := (|s| + 1) / 2;
      MergeSortCostOf(s[..h]) + MergeSortCostOf(s[h..])
        + MergeCostOf(MergeSortOf(s[..h]), MergeSortOf(s[h..]))
  }

  // ---------------------------------------------------------------------------
  // Properties of the functional model

  /** One level of the recursion, with the split point mergeSort computes. */
  lemma MergeSortSplit(s: seq<Str>, h: int)
    requires |s| > 1 && h == (|s| + 1) / 2
    ensures MergeSortOf(s) == MergeOf(MergeSortOf(s[..h]), MergeSortOf(s[h..]))
    ensures MergeSortCostOf(s) == MergeSortCostOf(s[..h]) + MergeSortCostOf(s[h..])
      + MergeCostOf(MergeSortOf(s[..h]), MergeSortOf(s[h..]))
  {
  }

  /** One iteration of the merge loop charges the shorter head's length. */
  lemma MergeCostStep(p: seq<Str>, q: seq<Str>)
    requires |p| > 0 && |q| > 0
    ensures LessEq(p[0], q[0]) ==> MergeCostOf(p, q) == Min(|p[0]|, |q[0]|) + MergeCostOf(p[1..], q)
    ensures !LessEq(p[0], q[0]) ==> MergeCostOf(p, q) == Min(|p[0]|, |q[0]|) + MergeCostOf(p, q[1..])
  {
  }

  /** Merging loses and invents nothing. */
  lemma {:induction false} MergeOfPermutation(p: seq<Str>, q: seq<Str>)
    ensures multiset(MergeOf(p, q)) == multiset(p) + multiset(q)
    decreases |p| + |q|
  {
    if |p| > 0 && |q| > 0 {
      if LessEq(p[0], q[0]) {
        MergeOfPermutation(p[1..], q);
        MergeOfPermutationLeft(p, q);
      } else {
        MergeOfPermutation(p, q[1..]);
        MergeOfPermutationRight(p, q);
      }
    }
  }

  /** The step of MergeOfPermutation that emits the left head. */
  lemma MergeOfPermutationLeft(p: seq<Str>, q: seq<Str>)
    requires |p| > 0 && |q| > 0 && LessEq(p[0], q[0])
    requires multiset(MergeOf(p[1..], q)) == multiset(p[1..]) + multiset(q)
    ensures multiset(MergeOf(p, q)) == multiset(p) + multiset(q)
  {
    var r := MergeOf(p[1..], q);
    assert MergeOf(p, q) == [p[0]] + r;
    ConsMultiset(p[0], r);
    MultisetTail(p);
  }

  /** The step of MergeOfPermutation that emits the right head. */
  lemma MergeOfPermutationRight(p: seq<Str>, q: seq<Str>)
    requires |p| > 0 && |q| > 0 && !LessEq(p[0], q[0])
    requires multiset(MergeOf(p, q[1..])) == multiset(p) + multiset(q[1..])
    ensures multiset(MergeOf(p, q)) == multiset(p) + multiset(q)
  {
    var r := MergeOf(p, q[1..]);
    assert MergeOf(p, q) == [q[0]] + r;
    ConsMultiset(q[0], r);
    MultisetTail(q);
  }

  lemma ConsMultiset(x: Str, r: seq<Str>)
    ensures multiset([x] + r) == multiset{x} + multiset(r)
  {
  }

  /** x is at most every element of the merge when it is at most the first
      element of each sorted run. */
  lemma HeadBelowMerge(x: Str, p: seq<Str>, q: seq<Str>)
    requires Sorted(p) && Sorted(q)
    requires |p| > 0 ==> LessEq(x, p[0])
    requires |q| > 0 ==> LessEq(x, q[0])
    ensures forall j :: 0 <= j < |MergeOf(p, q)| ==> LessEq(x, MergeOf(p, q)[j])
  {
    var t := MergeOf(p, q);
    MergeOfPermutation(p, q);
    forall j | 0 <= j < |t|
      ensures LessEq(x, t[j])
    {
      assert t[j] in multiset(p) + multiset(q);
      if t[j] in p {
        var k :| 0 <= k < |p| && p[k] == t[j];
        if k > 0 {
          LessEqTransitive(x, p[0], p[k]);
        }
      } else {
        var k :| 0 <= k < |q| && q[k] == t[j];
        if k > 0 {
          LessEqTransitive(x, q[0], q[k]);
        }
      }
    }
  }

  /** Merging two sorted runs gives a sorted run. */
  lemma {:induction false} MergeOfSorted(p: seq<Str>, q: seq<Str>)
    requires Sorted(p) && Sorted(q)
    ensures Sorted(MergeOf(p, q))
    decreases |p| + |q|
  {
    if |p| > 0 && |q| > 0 {
      if LessEq(p[0], q[0]) {
        MergeOfSorted(p[1..], q);
        if |p| > 1 {
          assert LessEq(p[0], p[1..][0]);
        }
        HeadBelowMerge(p[0], p[1..], q);
        SortedCons(p[0], MergeOf(p[1..], q));
      } else {
        MergeOfSorted(p, q[1..]);
        LessTotal(p[0], q[0]);
        LessImpliesLessEq(q[0], p[0]);
        if |q| > 1 {
          assert LessEq(q[0], q[1..][0]);
        }
        HeadBelowMerge(q[0], p, q[1..]);
        SortedCons(q[0], MergeOf(p, q[1..]));
      }
    }
  }

  /** MergeSort::sort leaves a sorted permutation of its input. */
  lemma {:induction false} MergeSortOfSorted(s: seq<Str>)
    ensures Sorted(MergeSortOf(s))
    ensures multiset(MergeSortOf(s)) == multiset(s)
    decreases |s|
  {
    if |s| > 1 {
      var h := (|s| + 1) / 2;
      MergeSortOfSorted(s[..h]);
      MergeSortOfSorted(s[h..]);
      MergeOfSorted(MergeSortOf(s[..h]), MergeSortOf(s[h..]));
      MergeOfPermutation(MergeSortOf(s[..h]), MergeSortOf(s[h..]));
      MultisetSplit(s, h);
    }
  }

  /** Any sorted permutation of s is MergeSortOf(s): the in-place sort below,
      which is specified by sortedness and permutation, therefore computes
      exactly the functional model. */
  lemma SortedPermutationIsMergeSortOf(s: seq<Str>, t: seq<Str>)
    requires Sorted(t) && multiset(t) == multiset(s)
    ensures t == MergeSortOf(s)
  {
    MergeSortOfSorted(s);
    SortedPermutationUnique(t, MergeSortOf(s));
  }

  /** The counter charged by mergeSort on the range [left, right] splits at
      mid = left + (right - left) / 2 into the two recursive calls and the
      merge of their sorted results. */
  lemma MergeSortCostSplitRange(s: seq<Str>, left: int, mid: int, right: int)
    requires 0 <= left <= mid < right < |s| && mid == left + (right - left) / 2
    ensures MergeSortCostOf(s[left..right + 1])
      == MergeSortCostOf(s[left..mid + 1]) + MergeSortCostOf(s[mid + 1..right + 1])
        + MergeCostOf(MergeSortOf(s[left..mid + 1]), MergeSortOf(s[mid + 1..right + 1]))
  {
    var r := s[left..right + 1];
    var h := mid - left + 1;
    assert r[..h] == s[left..mid + 1];
    assert r[h..] == s[mid + 1..right + 1];
    MergeSortSplit(r, h);
  }

  // ---------------------------------------------------------------------------
  // How the three steps of mergeSort on [left, right] compose. s0 is the
  // array before the call, s1 after sorting [left, mid], s2 after sorting
  // [mid + 1, right] and s3 after the merge.

  /** Ranges of a sequence that one of the three steps leaves alone. */
  lemma MergeSortRangeFrames(s0: seq<Str>, s1: seq<Str>, s2: seq<Str>, left: int, mid: int, right: int)
    requires 0 <= left <= mid < right < |s0| && |s1| == |s0| && |s2| == |s0|
    requires s1[..left] == s0[..left] && s1[mid + 1..] == s0[mid + 1..]
    requires s2[..mid + 1] == s1[..mid + 1] && s2[right + 1..] == s1[right + 1..]
    ensures s2[left..mid + 1] == s1[left..mid + 1]
    ensures s1[mid + 1..right + 1] == s0[mid + 1..right + 1]
    ensures s2[..left] == s0[..left] && s2[right + 1..] == s0[right + 1..]
  {
    assert s2[left..mid + 1] == s2[..mid + 1][left..];
    assert s1[left..mid + 1] == s1[..mid + 1][left..];
    assert s1[mid + 1..right + 1] == s1[mid + 1..][..right - mid];
    assert s0[mid + 1..right + 1] == s0[mid + 1..][..right - mid];
    assert s2[..left] == s2[..mid + 1][..left];
    assert s1[..left] == s1[..mid + 1][..left];
    assert s1[right + 1..] == s1[mid + 1..][right - mid..];
    assert s0[right + 1..] == s0[mid + 1..][right - mid..];
  }

  /** How the three steps of mergeSort on [left, right] compose: s0 is the
      array before the call, s1 after sorting [left, mid], s2 after sorting
      [mid + 1, right] and s3 after the merge. The range ends a permutation
      of what it was, nothing outside it moves, and the three charges add up
      to MergeSortCostOf of the range. */
  lemma MergeSortRangeSteps(s0: seq<Str>, s1: seq<Str>, s2: seq<Str>, s3: seq<Str>,
                            left: int, mid: int, right: int, c1: int, c2: int, c3: int)
    requires 0 <= left <= mid < right < |s0| && |s1| == |s0| && |s2| == |s0| && |s3| == |s0|
    requires mid == left + (right - left) / 2
    requires Sorted(s1[left..mid + 1]) && multiset(s1[left..mid + 1]) == multiset(s0[left..mid + 1])
    requires s1[..left] == s0[..left] && s1[mid + 1..] == s0[mid + 1..]
    requires c1 == MergeSortCostOf(s0[left..mid + 1])
    requires Sorted(s2[mid + 1..right + 1])
    requires multiset(s2[mid + 1..right + 1]) == multiset(s1[mid + 1..right + 1])
    requires s2[..mid + 1] == s1[..mid + 1] && s2[right + 1..] == s1[right + 1..]
    requires c2 == MergeSortCostOf(s1[mid + 1..right + 1])
    requires multiset(s3[left..right + 1]) == multiset(s2[left..right + 1])
    requires s3[..left] == s2[..left] && s3[right + 1..] == s2[right + 1..]
    requires c3 == MergeCostOf(s2[left..mid + 1], s2[mid + 1..right + 1])
    ensures multiset(s3[left..right + 1]) == multiset(s0[left..right + 1])
    ensures s3[..left] == s0[..left] && s3[right + 1..] == s0[right + 1..]
    ensures c1 + c2 + c3 == MergeSortCostOf(s0[left..right + 1])
  {
    MergeSortRangeFrames(s0, s1, s2, left, mid, right);
    RangePermutation(s0, s2, s3, left, mid, right);
    SortedPermutationIsMergeSortOf(s0[left..mid + 1], s2[left..mid + 1]);
    SortedPermutationIsMergeSortOf(s0[mid + 1..right + 1], s2[mid + 1..right + 1]);
    MergeSortCostSplitRange(s0, left, mid, right);
  }

  /** Permuting each half, then the whole range, permutes the range. */
  lemma RangePermutation(s0: seq<Str>, s2: seq<Str>, s3: seq<Str>, left: int, mid: int, right: int)
    requires 0 <= left <= mid < right < |s0| && |s2| == |s0| && |s3| == |s0|
    requires multiset(s2[left..mid + 1]) == multiset(s0[left..mid + 1])
    requires multiset(s2[mid + 1..right + 1]) == multiset(s0[mid + 1..right + 1])
    requires multiset(s3[left..right + 1]) == multiset(s2[left..right + 1])
    ensures multiset(s3[left..right + 1]) == multiset(s0[left..right + 1])
  {
    MultisetHalves(s2, left, mid, right);
    MultisetHalves(s0, left, mid, right);
  }

  /** The multiset of [left, right] is that of [left, mid] plus that of
      [mid + 1, right]. */
  lemma MultisetHalves(s: seq<Str>, left: int, mid: int, right: int)
    requires 0 <= left <= mid <= right < |s|
    ensures multiset(s[left..right + 1]) == multiset(s[left..mid + 1]) + multiset(s[mid + 1..right + 1])
  {
    MultisetSplit(s[left..right + 1], mid + 1 - left);
    assert s[left..right + 1][..mid + 1 - left] == s[left..mid + 1];
    assert s[left..right + 1][mid + 1 - left..] == s[mid + 1..right + 1];
  }

  /** merge's result: t, the merge of the two halves of [left, right] of s0,
      copied over that range gives s3. */
  lemma MergeCopiedBack(s0: seq<Str>, t: seq<Str>, s3: seq<Str>, left: int, mid: int, right: int)
    requires 0 <= left <= mid < right < |s0| && |s3| == |s0| && |t| == right - left + 1
    requires Sorted(t) && multiset(t) == multiset(s0[left..mid + 1]) + multiset(s0[mid + 1..right + 1])
    requires s3[left..right + 1] == t
    requires s3[..left] == s0[..left] && s3[right + 1..] == s0[right + 1..]
    ensures Sorted(s3[left..right + 1])
    ensures multiset(s3[left..right + 1]) == multiset(s0[left..right + 1])
    ensures s3[..left] == s0[..left] && s3[right + 1..] == s0[right + 1..]
  {
    MultisetSplit(s0[left..right + 1], mid + 1 - left);
    assert s0[left..right + 1][..mid + 1 - left] == s0[left..mid + 1];
    assert s0[left..right + 1][mid + 1 - left..] == s0[mid + 1..right + 1];
  }

  /** What the merge loops keep true of temp[..k] = out after taking i
      elements of p and j of q: it is sorted, holds exactly those elements,
      and is no larger than either head still to come. */
  predicate MergedSoFar(p: seq<Str>, q: seq<Str>, i: int, j: int, out: seq<Str>)
    requires 0 <= i <= |p| && 0 <= j <= |q|
  {
    && Sorted(out)
    && multiset(out) == multiset(p[..i]) + multiset(q[..j])
    && (|out| > 0 && i < |p| ==> LessEq(out[|out| - 1], p[i]))
    && (|out| > 0 && j < |q| ==> LessEq(out[|out| - 1], q[j]))
  }

  /** An iteration of the merge loops that takes the left head p[i]: the
      right run is used up, or p[i] <= q[j]. Appending it keeps
      MergedSoFar, and the iteration charges min(|p[i]|, |q[j]|) when the
      right run still has elements. */
  lemma MergeTakeLeft(p: seq<Str>, q: seq<Str>, i: int, j: int, out: seq<Str>)
    requires Sorted(p) && Sorted(q)
    requires 0 <= i < |p| && 0 <= j <= |q| && (j == |q| || LessEq(p[i], q[j]))
    requires MergedSoFar(p, q, i, j, out)
    ensures MergedSoFar(p, q, i + 1, j, out + [p[i]])
    ensures MergeCostOf(p[i..], q[j..])
      == (if j < |q| then Min(|p[i]|, |q[j]|) else 0) + MergeCostOf(p[i + 1..], q[j..])
  {
    SortedAppend(out, p[i]);
    assert p[..i + 1] == p[..i] + [p[i]];
    if i + 1 < |p| {
      assert LessEq(p[i], p[i + 1]);
    }
    if j < |q| {
      MergeCostStep(p[i..], q[j..]);
      assert p[i..][1..] == p[i + 1..];
    }
  }

  /** An iteration that takes the right head q[j]: the left run is used up,
      or q[j] < p[i]. */
  lemma MergeTakeRight(p: seq<Str>, q: seq<Str>, i: int, j: int, out: seq<Str>)
    requires Sorted(p) && Sorted(q)
    requires 0 <= i <= |p| && 0 <= j < |q| && (i == |p| || !LessEq(p[i], q[j]))
    requires MergedSoFar(p, q, i, j, out)
    ensures MergedSoFar(p, q, i, j + 1, out + [q[j]])
    ensures MergeCostOf(p[i..], q[j..])
      == (if i < |p| then Min(|p[i]|, |q[j]|) else 0) + MergeCostOf(p[i..], q[j + 1..])
  {
    if i < |p| {
      LessTotal(p[i], q[j]);
      LessImpliesLessEq(q[j], p[i]);
      MergeCostStep(p[i..], q[j..]);
      assert q[j..][1..] == q[j + 1..];
    }
    SortedAppend(out, q[j]);
    assert q[..j + 1] == q[..j] + [q[j]];
    if j + 1 < |q| {
      assert LessEq(q[j], q[j + 1]);
    }
  }

  // ---------------------------------------------------------------------------
  // The class

  class MergeSort {
    /** The static compareCount of a1.cpp: characters charged by the last sort. */
    var compareCount: int

    constructor()
      ensures compareCount == 0
    {
      compareCount := 0;
    }

    /** MergeSort::sort: resets the counter, returns at once for fewer than
        two strings, and otherwise sorts the whole vector. */
    method Sort(a: array<Str>)
      modifies this, a
      ensures Sorted(a[..]) && multiset(a[..]) == multiset(old(a[..]))
      ensures a.Length < 2 ==> a[..] == old(a[..])
      ensures compareCount == MergeSortCostOf(old(a[..]))
    {
      compareCount := 0;
      if a.Length < 2 {
        return;
      }
      var count := MergeSortRange(a, 0, a.Length - 1);
      assert a[..] == a[0..a.Length - 1 + 1];
      assert old(a[..]) == old(a[0..a.Length - 1 + 1]);
      compareCount := compareCount + count;
    }

    /** mergeSort(array, left, right), with the characters it charges
        returned as count rather than added to the static field. */
    static method MergeSortRange(a: array<Str>, left: int, right: int) returns (count: int)
      requires 0 <= left <= right < a.Length
      modifies a
      ensures Sorted(a[left..right + 1])
      ensures multiset(a[left..right + 1]) == multiset(old(a[left..right + 1]))
      ensures a[..left] == old(a[..left]) && a[right + 1..] == old(a[right + 1..])
      ensures count == MergeSortCostOf(old(a[left..right + 1]))
      decreases right - left
    {
      if left >= right {
        return 0;
      }
      var mid := left + (right - left) / 2;
      ghost var s0 := a[..];
      var c1 := MergeSortRange(a, left, mid);
      ghost var s1 := a[..];
      var c2 := MergeSortRange(a, mid + 1, right);
      ghost var s2 := a[..];
      assert a[left..mid + 1] == s1[left..mid + 1];
      var c3 := Merge(a, left, mid, right);
      MergeSortRangeSteps(s0, s1, s2, a[..], left, mid, right, c1, c2, c3);
      count := c1 + c2 + c3;
    }

    /** merge(array, left, mid, right): merges the sorted runs [left, mid]
        and [mid + 1, right] into temp, then copies temp back over the range. */
    static method Merge(a: array<Str>, left: int, mid: int, right: int) returns (count: int)
      requires 0 <= left <= mid < right < a.Length
      requires Sorted(a[left..mid + 1]) && Sorted(a[mid + 1..right + 1])
      modifies a
      ensures Sorted(a[left..right + 1])
      ensures multiset(a[left..right + 1]) == multiset(old(a[left..right + 1]))
      ensures a[..left] == old(a[..left]) && a[right + 1..] == old(a[right + 1..])
      ensures count == MergeCostOf(old(a[left..mid + 1]), old(a[mid + 1..right + 1]))
    {
      ghost var s0 := a[..];
      var temp := new Str[right - left + 1];
      count := MergeRuns(a[left..mid + 1], a[mid + 1..right + 1], temp);
      CopyBack(a, temp, left, right);
      MergeCopiedBack(s0, temp[..], a[..], left, mid, right);
    }

    /** The final loop of merge: temp is written over [left, right], and
        nothing else in the array changes. */
    static method CopyBack(a: array<Str>, temp: array<Str>, left: int, right: int)
      requires 0 <= left <= right < a.Length && temp.Length == right - left + 1 && a != temp
      modifies a
      ensures a[left..right + 1] == temp[..]
      ensures a[..left] == old(a[..left]) && a[right + 1..] == old(a[right + 1..])
    {
      var i := left;
      while i <= right
        invariant left <= i <= right + 1
        invariant forall t :: left <= t < i ==> a[t] == temp[t - left]
        invariant forall t :: 0 <= t < a.Length && !(left <= t < i) ==> a[t] == old(a[t])
      {
        a[i] := temp[i - left];
        i := i + 1;
      }
    }

    /** The three loops of merge that fill temp from the runs p = [left, mid]
        and q = [mid + 1, right]: while both have elements, move the smaller
        head (the left one when array[i] <= array[j]) and charge
        min(|array[i]|, |array[j]|); then copy what is left of either run. */
    static method MergeRuns(p: seq<Str>, q: seq<Str>, temp: array<Str>) returns (count: int)
      requires temp.Length == |p| + |q|
      requires Sorted(p) && Sorted(q)
      modifies temp
      ensures Sorted(temp[..])
      ensures multiset(temp[..]) == multiset(p) + multiset(q)
      ensures count == MergeCostOf(p, q)
    {
      var i, j := 0, 0;
      ghost var out: seq<Str> := [];
      count := 0;
      while i < |p| || j < |q|
        invariant 0 <= i <= |p| && 0 <= j <= |q|
        invariant |out| == i + j && (forall t :: 0 <= t < i + j ==> temp[t] == out[t])
        invariant MergedSoFar(p, q, i, j, out)
        invariant count + MergeCostOf(p[i..], q[j..]) == MergeCostOf(p, q)
        decreases |p| + |q| - i - j
      {
        i, j, count, out := MergeOne(p, q, temp, i, j, count, out);
      }
      assert temp[..] == out;
      assert p[..i] == p && q[..j] == q;
    }
  
    /** One iteration of merge's loops: write the head merge picks to
        temp[i + j] and advance past it, charging min(|p[i]|, |q[j]|) when
        both runs still have elements. */
    static method MergeOne(p: seq<Str>, q: seq<Str>, temp: array<Str>, i: int, j: int,
                           count: int, ghost out: seq<Str>)
      returns (i': int, j': int, count': int, ghost out': seq<Str>)
      requires temp.Length == |p| + |q| && Sorted(p) && Sorted(q)
      requires 0 <= i <= |p| && 0 <= j <= |q| && (i < |p| || j < |q|)
      requires |out| == i + j && (forall t :: 0 <= t < i + j ==> temp[t] == out[t])
      requires MergedSoFar(p, q, i, j, out)
      requires count + MergeCostOf(p[i..], q[j..]) == MergeCostOf(p, q)
      modifies temp
      ensures 0 <= i' <= |p| && 0 <= j' <= |q| && i' + j' == i + j + 1
      ensures |out'| == i' + j' && (forall t :: 0 <= t < i' + j' ==> temp[t] == out'[t])
      ensures MergedSoFar(p, q, i', j', out')
      ensures count' + MergeCostOf(p[i'..], q[j'..]) == MergeCostOf(p, q)
    {
      if j == |q| || (i < |p| && LessEq(p[i], q[j])) {
        count', out' := TakeLeft(p, q, temp, i, j, count, out);
        i', j' := i + 1, j;
      } else {
        count', out' := TakeRight(p, q, temp, i, j, count, out);
        i', j' := i, j + 1;
      }
    }

    /** The iteration that takes the left head p[i]. */
    static method TakeLeft(p: seq<Str>, q: seq<Str>, temp: array<Str>, i: int, j: int,
                           count: int, ghost out: seq<Str>)
      returns (count': int, ghost out': seq<Str>)
      requires temp.Length == |p| + |q| && Sorted(p) && Sorted(q)
      requires 0 <= i < |p| && 0 <= j <= |q| && (j == |q| || LessEq(p[i], q[j]))
      requires |out| == i + j && (forall t :: 0 <= t < i + j ==> temp[t] == out[t])
      requires MergedSoFar(p, q, i, j, out)
      requires count + MergeCostOf(p[i..], q[j..]) == MergeCostOf(p, q)
      modifies temp
      ensures |out'| == i + j + 1 && (forall t :: 0 <= t < i + j + 1 ==> temp[t] == out'[t])
      ensures MergedSoFar(p, q, i + 1, j, out')
      ensures count' + MergeCostOf(p[i + 1..], q[j..]) == MergeCostOf(p, q)
    {
      count' := count;
      if j < |q| {
        count' := count + Min(|p[i]|, |q[j]|);
      }
      MergeTakeLeft(p, q, i, j, out);
      temp[i + j] := p[i];
      out' := out + [p[i]];
    }

    /** The iteration that takes the right head q[j]. */
    static method TakeRight(p: seq<Str>, q: seq<Str>, temp: array<Str>, i: int, j: int,
                            count: int, ghost out: seq<Str>)
      returns (count': int, ghost out': seq<Str>)
      requires temp.Length == |p| + |q| && Sorted(p) && Sorted(q)
      requires 0 <= i <= |p| && 0 <= j < |q| && (i == |p| || !LessEq(p[i], q[j]))
      requires |out| == i + j && (forall t :: 0 <= t < i + j ==> temp[t] == out[t])
      requires MergedSoFar(p, q, i, j, out)
      requires count + MergeCostOf(p[i..], q[j..]) == MergeCostOf(p, q)
      modifies temp
      ensures |out'| == i + j + 1 && (forall t :: 0 <= t < i + j + 1 ==> temp[t] == out'[t])
      ensures MergedSoFar(p, q, i, j + 1, out')
      ensures count' + MergeCostOf(p[i..], q[j + 1..]) == MergeCostOf(p, q)
    {
      count' := count;
      if i < |p| {
        count' := count + Min(|p[i]|, |q[j]|);
      }
      MergeTakeRight(p, q, i, j, out);
      temp[i + j] := q[j];
      out' := out + [q[j]];
    }
  }
}
