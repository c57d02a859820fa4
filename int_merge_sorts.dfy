/** SET3/a2/a2.cpp: top-down merge sort, insertion sort on a range and their
    hybrid (insertion sort below a size threshold), on integer vectors, plus
    the prefix copy ArrayGenerator::getPartOfArray. */
module IntMergeSorts {
  import opened IntArrays

  /** What merge keeps true of the output written so far (out, i.e.
      array[left..k)) after taking i elements of L = p and j of R = q. */
  predicate MergedSoFar(p: seq<int>, q: seq<int>, i: int, j: int, out: seq<int>)
    requires 0 <= i <= |p| && 0 <= j <= |q|
  {
    && Ascending(out)
    && multiset(out) == multiset(p[..i]) + multiset(q[..j])
    && (|out| > 0 && i < |p| ==> out[|out| - 1] <= p[i])
    && (|out| > 0 && j < |q| ==> out[|out| - 1] <= q[j])
  }

  /** Taking the left head L[i]: allowed when R is used up or L[i] <= R[j]. */
  lemma TakeLeftKeeps(p: seq<int>, q: seq<int>, i: int, j: int, out: seq<int>)
    requires 0 <= i < |p| && 0 <= j <= |q| && (j == |q| || p[i] <= q[j])
    requires i + 1 < |p| ==> p[i] <= p[i + 1]
    requires MergedSoFar(p, q, i, j, out)
    ensures MergedSoFar(p, q, i + 1, j, out + [p[i]])
  {
    AscendingAppend(out, p[i]);
    PrefixStep(p, i);
  }

  /** Taking the right head R[j]: allowed when L is used up or R[j] < L[i]. */
  lemma TakeRightKeeps(p: seq<int>, q: seq<int>, i: int, j: int, out: seq<int>)
    requires 0 <= i <= |p| && 0 <= j < |q| && (i == |p| || q[j] < p[i])
    requires j + 1 < |q| ==> q[j] <= q[j + 1]
    requires MergedSoFar(p, q, i, j, out)
    ensures MergedSoFar(p, q, i, j + 1, out + [q[j]])
  {
    AscendingAppend(out, q[j]);
    PrefixStep(q, j);
  }

  /** A prefix one element longer holds one more copy of that element. */
  lemma PrefixStep(p: seq<int>, i: int)
    requires 0 <= i < |p|
    ensures multiset(p[..i + 1]) == multiset(p[..i]) + multiset{p[i]}
  {
    assert p[..i + 1] == p[..i] + [p[i]];
  }

  /** merge's result, the run out written over [left, right] of s0, is a
      sorted permutation of that range that leaves the rest of s0 alone. */
  lemma MergeWrittenBack(s0: seq<int>, s: seq<int>, out: seq<int>, left: int, mid: int, right: int)
    requires 0 <= left <= mid + 1 && mid <= right < |s0|
    requires SameOutside(s0, s, left, right)
    requires |out| == right - left + 1 && forall t :: left <= t <= right ==> s[t] == out[t - left]
    requires Ascending(out)
    requires multiset(out) == multiset(s0[left..mid + 1]) + multiset(s0[mid + 1..right + 1])
    ensures SortedBetween(s, left, right)
    ensures multiset(s) == multiset(s0)
  {
    assert s[left..right + 1] == out;
    AscendingSlice(s, left, right);
    assert s0[left..right + 1] == s0[left..mid + 1] + s0[mid + 1..right + 1];
    RangeMultiset(s0, s, left, right);
  }

  /** merge(array, left, mid, right): copies [left, mid] into L and
      [mid + 1, right] into R, then writes them back in ascending order,
      taking from L on ties (L[i] <= R[j]). */
  method Merge(a: array<int>, left: int, mid: int, right: int)
    requires 0 <= left <= mid + 1 && mid <= right < a.Length
    requires SortedBetween(a[..], left, mid) && SortedBetween(a[..], mid + 1, right)
    modifies a
    ensures SortedBetween(a[..], left, right)
    ensures multiset(a[..]) == multiset(old(a[..]))
    ensures SameOutside(old(a[..]), a[..], left, right)
  {
    ghost var s0 := a[..];
    var L := CopyRange(a, left, mid);
    var R := CopyRange(a, mid + 1, right);
    AscendingSlice(s0, left, mid);
    AscendingSlice(s0, mid + 1, right);
    ghost var out := WriteMerged(a, L, R, left);
    MergeWrittenBack(s0, a[..], out, left, mid, right);
  }

  /** The copy loops of merge: a new vector holding array[low..high]. */
  method CopyRange(a: array<int>, low: int, high: int) returns (b: array<int>)
    requires 0 <= low <= high + 1 <= a.Length
    ensures fresh(b) && b[..] == a[low..high + 1]
  {
    b := new int[high - low + 1];
    for i := 0 to high - low + 1
      invariant forall t :: 0 <= t < i ==> b[t] == a[low + t]
    {
      b[i] := a[low + i];
    }
  }

  /** The three write-back loops of merge: while both L and R have
      elements, write the smaller head at k (L's on ties), then what is left
      of L, then what is left of R. out is what was written, from left on. */
  method WriteMerged(a: array<int>, L: array<int>, R: array<int>, left: int) returns (ghost out: seq<int>)
    requires a != L && a != R
    requires 0 <= left && left + L.Length + R.Length <= a.Length
    requires Ascending(L[..]) && Ascending(R[..])
    modifies a
    ensures |out| == L.Length + R.Length
    ensures forall t :: left <= t < left + |out| ==> a[t] == out[t - left]
    ensures Ascending(out) && multiset(out) == multiset(L[..]) + multiset(R[..])
    ensures SameOutside(old(a[..]), a[..], left, left + |out| - 1)
  {
    var i, j;
    ghost var s0, p, q := a[..], L[..], R[..];
    i, j, out := MergeHeads(a, L, R, left, p, q);
    out := DrainLeft(a, L, R, left, i, j, s0, p, q, out);
    out := DrainRight(a, L, R, left, L.Length, j, s0, p, q, out);
    assert p[..|p|] == p && q[..|q|] == q;
  }

  /** What every write-back loop of merge keeps: out = array[left..k) with
      k = left + i + j, merged so far from the runs p = L and q = R, and
      nothing outside the target range touched. */
  ghost predicate WriteBackState(s0: seq<int>, a: array<int>, p: seq<int>, q: seq<int>,
                                 left: int, i: int, j: int, out: seq<int>)
    reads a
  {
    && 0 <= left && left + |p| + |q| <= a.Length
    && 0 <= i <= |p| && 0 <= j <= |q|
    && |out| == i + j && (forall t :: left <= t < left + i + j ==> a[t] == out[t - left])
    && MergedSoFar(p, q, i, j, out)
    && SameOutside(s0, a[..], left, left + |p| + |q| - 1)
  }

  /** The first loop of merge: runs while both L and R have elements. */
  method MergeHeads(a: array<int>, L: array<int>, R: array<int>, left: int, ghost p: seq<int>, ghost q: seq<int>)
    returns (i: int, j: int, ghost out: seq<int>)
    requires a != L && a != R && L[..] == p && R[..] == q
    requires 0 <= left && left + L.Length + R.Length <= a.Length
    requires Ascending(p) && Ascending(q)
    modifies a
    ensures WriteBackState(old(a[..]), a, p, q, left, i, j, out)
    ensures i == L.Length || j == R.Length
  {
    i, j, out := 0, 0, [];
    var k := left;
    while i < L.Length && j < R.Length
      invariant k == left + i + j
      invariant WriteBackState(old(a[..]), a, p, q, left, i, j, out)
    {
      if L[i] <= R[j] {
        out := PutLeft(a, L, R, left, i, j, p, q, out);
        i := i + 1;
      } else {
        out := PutRight(a, L, R, left, i, j, p, q, out);
        j := j + 1;
      }
      k := k + 1;
    }
  }

  /** The second loop of merge: copies what is left of L. */
  method DrainLeft(a: array<int>, L: array<int>, R: array<int>, left: int, i0: int, j: int,
                   ghost s0: seq<int>, ghost p: seq<int>, ghost q: seq<int>, ghost out0: seq<int>)
    returns (ghost out: seq<int>)
    requires a != L && a != R && L[..] == p && R[..] == q
    requires Ascending(p) && Ascending(q)
    requires WriteBackState(s0, a, p, q, left, i0, j, out0)
    requires i0 == L.Length || j == R.Length
    modifies a
    ensures WriteBackState(s0, a, p, q, left, L.Length, j, out)
  {
    var i, k := i0, left + i0 + j;
    out := out0;
    while i < L.Length
      invariant i0 <= i <= L.Length && k == left + i + j
      invariant i == L.Length || j == R.Length
      invariant WriteBackState(s0, a, p, q, left, i, j, out)
    {
      out := PutLeft(a, L, R, left, i, j, p, q, out);
      i := i + 1;
      k := k + 1;
    }
  }

  /** The third loop of merge: copies what is left of R. */
  method DrainRight(a: array<int>, L: array<int>, R: array<int>, left: int, i: int, j0: int,
                    ghost s0: seq<int>, ghost p: seq<int>, ghost q: seq<int>, ghost out0: seq<int>)
    returns (ghost out: seq<int>)
    requires a != L && a != R && L[..] == p && R[..] == q && i == L.Length
    requires Ascending(p) && Ascending(q)
    requires WriteBackState(s0, a, p, q, left, i, j0, out0)
    modifies a
    ensures WriteBackState(s0, a, p, q, left, i, R.Length, out)
  {
    var j, k := j0, left + i + j0;
    out := out0;
    while j < R.Length
      invariant j0 <= j <= R.Length && k == left + i + j
      invariant WriteBackState(s0, a, p, q, left, i, j, out)
    {
      out := PutRight(a, L, R, left, i, j, p, q, out);
      j := j + 1;
      k := k + 1;
    }
  }

  /** One write of merge that takes L[i] (R used up, or L[i] <= R[j]). */
  method PutLeft(a: array<int>, L: array<int>, R: array<int>, left: int, i: int, j: int,
                 ghost p: seq<int>, ghost q: seq<int>, ghost out: seq<int>) returns (ghost out': seq<int>)
    requires a != L && a != R && L[..] == p && R[..] == q
    requires 0 <= left && left + L.Length + R.Length <= a.Length
    requires Ascending(p)
    requires 0 <= i < |p| && 0 <= j <= |q| && (j == |q| || p[i] <= q[j])
    requires |out| == i + j && forall t :: left <= t < left + i + j ==> a[t] == out[t - left]
    requires MergedSoFar(p, q, i, j, out)
    modifies a
    ensures |out'| == i + j + 1 && forall t :: left <= t < left + i + j + 1 ==> a[t] == out'[t - left]
    ensures MergedSoFar(p, q, i + 1, j, out')
    ensures forall t :: 0 <= t < a.Length && t != left + i + j ==> a[t] == old(a[t])
  {
    assert i + 1 < |p| ==> p[i] <= p[i + 1];
    TakeLeftKeeps(p, q, i, j, out);
    a[left + i + j] := L[i];
    out' := out + [p[i]];
  }

  /** One write of merge that takes R[j] (L used up, or R[j] < L[i]). */
  method PutRight(a: array<int>, L: array<int>, R: array<int>, left: int, i: int, j: int,
                  ghost p: seq<int>, ghost q: seq<int>, ghost out: seq<int>) returns (ghost out': seq<int>)
    requires a != L && a != R && L[..] == p && R[..] == q
    requires 0 <= left && left + L.Length + R.Length <= a.Length
    requires Ascending(q)
    requires 0 <= i <= |p| && 0 <= j < |q| && (i == |p| || q[j] < p[i])
    requires |out| == i + j && forall t :: left <= t < left + i + j ==> a[t] == out[t - left]
    requires MergedSoFar(p, q, i, j, out)
    modifies a
    ensures |out'| == i + j + 1 && forall t :: left <= t < left + i + j + 1 ==> a[t] == out'[t - left]
    ensures MergedSoFar(p, q, i, j + 1, out')
    ensures forall t :: 0 <= t < a.Length && t != left + i + j ==> a[t] == old(a[t])
  {
    assert j + 1 < |q| ==> q[j] <= q[j + 1];
    TakeRightKeeps(p, q, i, j, out);
    a[left + i + j] := R[j];
    out' := out + [q[j]];
  }

  /** mergeSort(array, left, right): sorts [left, right] in place; a range
      with left >= right is left as it is. */
  method MergeSort(a: array<int>, left: int, right: int)
    requires 0 <= left && right < a.Length
    modifies a
    ensures SortedBetween(a[..], left, right)
    ensures multiset(a[..]) == multiset(old(a[..]))
    ensures SameOutside(old(a[..]), a[..], left, right)
    ensures left >= right ==> a[..] == old(a[..])
    decreases right - left
  {
    if left < right {
      var mid := left + (right - left) / 2;
      MergeSort(a, left, mid);
      MergeSort(a, mid + 1, right);
      Merge(a, left, mid, right);
    }
  }

  /** mergeSortWrapper: sorts the whole vector; the threshold is ignored. */
  method MergeSortWrapper(a: array<int>, threshold: int)
    modifies a
    ensures Ascending(a[..])
    ensures multiset(a[..]) == multiset(old(a[..]))
  {
    MergeSort(a, 0, a.Length - 1);
    if a.Length > 0 {
      AscendingSlice(a[..], 0, a.Length - 1);
      assert a[..] == a[0..a.Length - 1 + 1];
    }
  }

  /** insertionSort(array, left, right): for i = left + 1 .. right, takes
      key = array[i] and shifts the strictly greater elements of
      [left, i - 1] one place up, then drops key into the gap. */
  method InsertionSortRange(a: array<int>, left: int, right: int)
    requires 0 <= left && right < a.Length
    modifies a
    ensures SortedBetween(a[..], left, right)
    ensures multiset(a[..]) == multiset(old(a[..]))
    ensures SameOutside(old(a[..]), a[..], left, right)
  {
    if right < left {
      return;
    }
    var i := left + 1;
    while i <= right
      invariant left + 1 <= i <= right + 1
      invariant SortedBetween(a[..], left, i - 1)
      invariant multiset(a[..]) == multiset(old(a[..]))
      invariant SameOutside(old(a[..]), a[..], left, right)
    {
      InsertOne(a, left, i);
      i := i + 1;
    }
  }

  /** One pass of insertionSort's outer loop: [left, i - 1] is sorted and
      array[i] is inserted into it. */
  method InsertOne(a: array<int>, left: int, i: int)
    requires 0 <= left < i < a.Length
    requires SortedBetween(a[..], left, i - 1)
    modifies a
    ensures SortedBetween(a[..], left, i)
    ensures multiset(a[..]) == multiset(old(a[..]))
    ensures SameOutside(old(a[..]), a[..], left, i)
  {
    ghost var s := a[..];
    var key := a[i];
    var j := ShiftGreater(a, left, i);
    a[j + 1] := key;
    assert InsertedAt(s, a[..], left, i, j + 1);
    InsertedKey(s, a[..], left, i, j + 1);
  }

  /** The inner loop of insertionSort: moves each element of [left, i - 1]
      greater than key = array[i], from the right, one place up, and stops
      at the first one that is not greater. j + 1 is the gap left for key. */
  method ShiftGreater(a: array<int>, left: int, i: int) returns (j: int)
    requires 0 <= left < i < a.Length
    modifies a
    ensures left - 1 <= j <= i - 1
    ensures forall t :: 0 <= t <= j ==> a[t] == old(a[t])
    ensures forall t :: j + 2 <= t <= i ==> a[t] == old(a[t - 1]) && a[t] > old(a[i])
    ensures forall t :: i < t < a.Length ==> a[t] == old(a[t])
    ensures j >= left ==> a[j] <= old(a[i])
  {
    var key := a[i];
    j := i - 1;
    while j >= left && a[j] > key
      invariant left - 1 <= j <= i - 1
      invariant forall t :: 0 <= t <= j ==> a[t] == old(a[t])
      invariant forall t :: j + 2 <= t <= i ==> a[t] == old(a[t - 1]) && a[t] > key
      invariant forall t :: i < t < a.Length ==> a[t] == old(a[t])
      decreases j
    {
      assert a[j] == old(a[j]);
      a[j + 1] := a[j];
      j := j - 1;
    }
  }

  /** The state after one insertion pass: s with key = s[i] moved down to
      position g, [g, i - 1] shifted one place up, and every shifted value
      greater than key while s[g - 1] (if inside the range) is not. */
  ghost predicate InsertedAt(s: seq<int>, t: seq<int>, left: int, i: int, g: int)
    requires 0 <= left <= g <= i < |s| && |t| == |s|
  {
    && (forall x :: 0 <= x < g ==> t[x] == s[x])
    && t[g] == s[i]
    && (forall x :: g + 1 <= x <= i ==> t[x] == s[x - 1] && t[x] > s[i])
    && (forall x :: i < x < |s| ==> t[x] == s[x])
    && (g > left ==> s[g - 1] <= s[i])
  }

  lemma InsertedKey(s: seq<int>, t: seq<int>, left: int, i: int, g: int)
    requires 0 <= left <= g <= i < |s| && |t| == |s|
    requires SortedBetween(s, left, i - 1)
    requires InsertedAt(s, t, left, i, g)
    ensures SortedBetween(t, left, i)
    ensures multiset(t) == multiset(s)
    ensures SameOutside(s, t, left, i)
  {
    InsertedKeySorted(s, t, left, i, g);
    InsertedKeyPermutes(s, t, left, i, g);
  }

  lemma InsertedKeySorted(s: seq<int>, t: seq<int>, left: int, i: int, g: int)
    requires 0 <= left <= g <= i < |s| && |t| == |s|
    requires SortedBetween(s, left, i - 1)
    requires InsertedAt(s, t, left, i, g)
    ensures SortedBetween(t, left, i)
  {
  }

  lemma InsertedKeyPermutes(s: seq<int>, t: seq<int>, left: int, i: int, g: int)
    requires 0 <= left <= g <= i < |s| && |t| == |s|
    requires InsertedAt(s, t, left, i, g)
    ensures multiset(t) == multiset(s)
  {
    Rotated(s, t, g, i);
  }

  /** t is s with s[i] moved down to position g and s[g..i) one place up. */
  lemma Rotated(s: seq<int>, t: seq<int>, g: int, i: int)
    requires 0 <= g <= i < |s| && |t| == |s|
    requires t[..g] == s[..g] && t[g] == s[i] && t[g + 1..i + 1] == s[g..i] && t[i + 1..] == s[i + 1..]
    ensures multiset(t) == multiset(s)
  {
    assert t == t[..g] + [s[i]] + t[g + 1..i + 1] + t[i + 1..];
    assert s == s[..g] + s[g..i] + [s[i]] + s[i + 1..];
  }

  /** hybridSort(array, left, right, threshold): ranges of at most threshold
      elements go to insertionSort; larger ones split at the midpoint and
      merge, as in mergeSort. */
  method HybridSort(a: array<int>, left: int, right: int, threshold: int)
    requires 0 <= left && right < a.Length
    modifies a
    ensures SortedBetween(a[..], left, right)
    ensures multiset(a[..]) == multiset(old(a[..]))
    ensures SameOutside(old(a[..]), a[..], left, right)
    decreases right - left
  {
    if right - left + 1 <= threshold {
      InsertionSortRange(a, left, right);
      return;
    }
    if left < right {
      var mid := left + (right - left) / 2;
      HybridSort(a, left, mid, threshold);
      HybridSort(a, mid + 1, right, threshold);
      Merge(a, left, mid, right);
    }
  }

  /** hybridSortWrapper: the whole vector, with the given threshold (15 by
      default in the source). */
  method HybridSortWrapper(a: array<int>, threshold: int)
    modifies a
    ensures Ascending(a[..])
    ensures multiset(a[..]) == multiset(old(a[..]))
  {
    HybridSort(a, 0, a.Length - 1, threshold);
    if a.Length > 0 {
      AscendingSlice(a[..], 0, a.Length - 1);
      assert a[..] == a[0..a.Length - 1 + 1];
    }
  }

  /** ArrayGenerator::getPartOfArray(array, n): a new vector holding the
      first n elements of array, in order. */
  method GetPartOfArray(a: seq<int>, n: int) returns (r: seq<int>)
    requires 0 <= n <= |a|
    ensures |r| == n
    ensures forall i :: 0 <= i < n ==> r[i] == a[i]
  {
    var b := new int[n];
    for i := 0 to n
      invariant forall t :: 0 <= t < i ==> b[t] == a[t]
    {
      b[i] := a[i];
    }
    r := b[..];
  }
}
