/** SET3/a3/a3.cpp: Lomuto quicksort, heapify/heapSort, insertion sort and
    an introsort that falls back to insertion sort for at most 16 elements
    and to heap sort when its depth budget runs out. */
module IntroSorts {
  import opened IntArrays
  import IntMergeSorts

  // ---------------------------------------------------------------------------
  // quickSort

  /** The partition step of quickSort: pivot = array[high]; every element
      <= pivot is swapped down to the growing prefix, then the pivot is
      swapped in right after it. */
  method Partition(a: array<int>, low: int, high: int) returns (pi: int)
    requires 0 <= low < high < a.Length
    modifies a
    ensures low <= pi <= high
    ensures a[pi] == old(a[high])
    ensures forall k :: low <= k < pi ==> a[k] <= a[pi]
    ensures forall k :: pi < k <= high ==> a[k] > a[pi]
    ensures multiset(a[..]) == multiset(old(a[..]))
    ensures SameOutside(old(a[..]), a[..], low, high)
  {
    var pivot := a[high];
    var i := low - 1;
    for j := low to high
      invariant low - 1 <= i < j
      invariant a[high] == pivot
      invariant forall k :: low <= k <= i ==> a[k] <= pivot
      invariant forall k :: i < k < j ==> a[k] > pivot
      invariant multiset(a[..]) == multiset(old(a[..]))
      invariant SameOutside(old(a[..]), a[..], low, high)
    {
      if a[j] <= pivot {
        i := i + 1;
        SwapAt(a, i, j);
      }
    }
    SwapAt(a, i + 1, high);
    pi := i + 1;
  }

  /** The two recursive calls of quickSort after partitioning at p compose
      into a sort of [low, high]: s0 is the array before the call, s1 after
      partition, s2 after sorting [low, p - 1], s3 after sorting [p + 1, high]. */
  lemma QuickSortJoin(s0: seq<int>, s1: seq<int>, s2: seq<int>, s3: seq<int>, low: int, p: int, high: int)
    requires 0 <= low <= p <= high < |s0| && |s1| == |s0| && |s2| == |s0| && |s3| == |s0|
    requires forall k :: low <= k < p ==> s1[k] <= s1[p]
    requires forall k :: p < k <= high ==> s1[k] > s1[p]
    requires multiset(s1) == multiset(s0) && SameOutside(s0, s1, low, high)
    requires SortedBetween(s2, low, p - 1) && multiset(s2) == multiset(s1) && SameOutside(s1, s2, low, p - 1)
    requires SortedBetween(s3, p + 1, high) && multiset(s3) == multiset(s2) && SameOutside(s2, s3, p + 1, high)
    ensures SortedBetween(s3, low, high)
    ensures multiset(s3) == multiset(s0)
    ensures SameOutside(s0, s3, low, high)
  {
    PermutedRangeBounds(s1, s2, low, p - 1, s1[p]);
    PermutedRangeBounds(s2, s3, p + 1, high, s1[p]);
  }

  /** quickSort(array, low, high): sorts [low, high] in place. */
  method QuickSort(a: array<int>, low: int, high: int)
    requires 0 <= low && high < a.Length
    modifies a
    ensures SortedBetween(a[..], low, high)
    ensures multiset(a[..]) == multiset(old(a[..]))
    ensures SameOutside(old(a[..]), a[..], low, high)
    decreases high - low
  {
    if low < high {
      ghost var s0 := a[..];
      var p := Partition(a, low, high);
      ghost var s1 := a[..];
      QuickSort(a, low, p - 1);
      ghost var s2 := a[..];
      QuickSort(a, p + 1, high);
      QuickSortJoin(s0, s1, s2, a[..], low, p, high);
    }
  }

  /** quickSortWrapper: the whole vector. */
  method QuickSortWrapper(a: array<int>)
    modifies a
    ensures Ascending(a[..])
    ensures multiset(a[..]) == multiset(old(a[..]))
  {
    QuickSort(a, 0, a.Length - 1);
  }

  // ---------------------------------------------------------------------------
  // heapify and heapSort, on the implicit binary tree whose node k has
  // children 2k + 1 and 2k + 2 and parent (k - 1) / 2.

  /** k is i or a descendant of i. */
  ghost predicate InSubtree(i: int, k: int)
    decreases k
  {
    k == i || (k > i >= 0 && InSubtree(i, (k - 1) / 2))
  }

  /** Every parent-child pair inside [0, n) whose parent is at or after lo
      is in max-heap order, except the pairs whose parent is skip. */
  ghost predicate HeapOrderFrom(s: seq<int>, n: int, lo: int, skip: int)
    requires n <= |s|
  {
    forall p, c :: 0 <= lo <= p < c < n && p != skip && (c == 2 * p + 1 || c == 2 * p + 2) ==> s[p] >= s[c]
  }

  /** A descendant of a child of i is a descendant of i. */
  lemma {:induction false} SubtreeOfChild(i: int, c: int, k: int)
    requires 0 <= i && (c - 1) / 2 == i && c > i
    requires InSubtree(c, k)
    ensures InSubtree(i, k)
    decreases k
  {
    if k != c {
      SubtreeOfChild(i, c, (k - 1) / 2);
    }
  }

  /** The root of a heap on [0, n) is its largest element. */
  lemma {:induction false} HeapRootMax(s: seq<int>, n: int, k: int)
    requires 0 <= k < n <= |s|
    requires HeapOrderFrom(s, n, 0, -1)
    ensures s[0] >= s[k]
    decreases k
  {
    if k > 0 {
      var p := (k - 1) / 2;
      HeapRootMax(s, n, p);
      assert s[p] >= s[k];
    }
  }

  /** heapify when array[i] is already no smaller than its children. */
  lemma HeapifyInPlace(s: seq<int>, n: int, i: int)
    requires 0 <= i && n <= |s|
    requires HeapOrderFrom(s, n, i, i)
    requires 2 * i + 1 < n ==> s[i] >= s[2 * i + 1]
    requires 2 * i + 2 < n ==> s[i] >= s[2 * i + 2]
    ensures HeapOrderFrom(s, n, i, -1)
  {
  }

  /** After swapping array[i] with its larger child l, the subtree at l is
      in heap order except below l itself. */
  lemma SiftDownPre(s0: seq<int>, s1: seq<int>, n: int, i: int, l: int)
    requires 0 <= i < l < n <= |s0| && |s1| == |s0| && (l == 2 * i + 1 || l == 2 * i + 2)
    requires HeapOrderFrom(s0, n, i, i)
    requires s1[i] == s0[l] && s1[l] == s0[i]
    requires forall k :: 0 <= k < |s0| && k != i && k != l ==> s1[k] == s0[k]
    ensures HeapOrderFrom(s1, n, l, l)
  {
  }

  /** After heapify at the child l returns, the subtree at i is a heap. */
  lemma SiftDownPost(s0: seq<int>, s1: seq<int>, s2: seq<int>, n: int, i: int, l: int)
    requires 0 <= i < l < n <= |s0| && |s1| == |s0| && |s2| == |s0| && (l == 2 * i + 1 || l == 2 * i + 2)
    requires HeapOrderFrom(s0, n, i, i)
    requires s0[l] > s0[i]
    requires 2 * i + 1 < n ==> s0[l] >= s0[2 * i + 1]
    requires 2 * i + 2 < n ==> s0[l] >= s0[2 * i + 2]
    requires s1[i] == s0[l] && s1[l] == s0[i]
    requires forall k :: 0 <= k < |s0| && k != i && k != l ==> s1[k] == s0[k]
    requires HeapOrderFrom(s2, n, l, -1)
    requires forall k :: 0 <= k < |s0| && (k >= n || !InSubtree(l, k)) ==> s2[k] == s1[k]
    requires s2[l] == s1[l] || (2 * l + 1 < n && s2[l] == s1[2 * l + 1]) || (2 * l + 2 < n && s2[l] == s1[2 * l + 2])
    ensures HeapOrderFrom(s2, n, i, -1)
  {
    forall pk, k | 0 <= i <= pk < k < n && (k == 2 * pk + 1 || k == 2 * pk + 2)
      ensures s2[pk] >= s2[k]
    {
      if pk >= l {
      } else if pk == i {
        assert !InSubtree(l, i);
        if k != l {
          assert !InSubtree(l, k);
        }
      } else {
        assert !InSubtree(l, pk);
        assert k != l;
        assert !InSubtree(l, k);
      }
    }
  }

  /** The frame of heapify: positions outside the subtree at i stay put. */
  lemma SiftDownFrame(s0: seq<int>, s1: seq<int>, s2: seq<int>, n: int, i: int, l: int)
    requires 0 <= i < l < n <= |s0| && |s1| == |s0| && |s2| == |s0| && (l == 2 * i + 1 || l == 2 * i + 2)
    requires forall k :: 0 <= k < |s0| && k != i && k != l ==> s1[k] == s0[k]
    requires forall k :: 0 <= k < |s0| && (k >= n || !InSubtree(l, k)) ==> s2[k] == s1[k]
    ensures forall k :: 0 <= k < |s0| && (k >= n || !InSubtree(i, k)) ==> s2[k] == s0[k]
  {
    forall k | 0 <= k < |s0| && (k >= n || !InSubtree(i, k))
      ensures s2[k] == s0[k]
    {
      if k < n && InSubtree(l, k) {
        SubtreeOfChild(i, l, k);
      }
      assert InSubtree(i, l);
    }
  }

  /** heapify(array, n, i): sifts array[i] down within [0, n), swapping it
      with its larger child while that child is larger. */
  method Heapify(a: array<int>, n: int, i: int)
    requires 0 <= i && 0 <= n <= a.Length
    requires HeapOrderFrom(a[..], n, i, i)
    modifies a
    ensures HeapOrderFrom(a[..], n, i, -1)
    ensures multiset(a[..]) == multiset(old(a[..]))
    ensures forall k :: 0 <= k < a.Length && (k >= n || !InSubtree(i, k)) ==> a[k] == old(a[k])
    ensures i < n ==> (a[i] == old(a[i]) || (2 * i + 1 < n && a[i] == old(a[2 * i + 1]))
                       || (2 * i + 2 < n && a[i] == old(a[2 * i + 2])))
    decreases n - i
  {
    var largest := i;
    var left := 2 * i + 1;
    var right := 2 * i + 2;
    if left < n && a[left] > a[largest] {
      largest := left;
    }
    if right < n && a[right] > a[largest] {
      largest := right;
    }
    if largest != i {
      ghost var s0 := a[..];
      SwapAt(a, i, largest);
      ghost var s1 := a[..];
      SiftDownPre(s0, s1, n, i, largest);
      Heapify(a, n, largest);
      SiftDownPost(s0, s1, a[..], n, i, largest);
      SiftDownFrame(s0, s1, a[..], n, i, largest);
    } else {
      HeapifyInPlace(a[..], n, i);
    }
  }

  /** heapSort: builds a max-heap bottom-up, then repeatedly swaps the root
      to the end of the shrinking heap and re-heapifies. */
  method HeapSort(a: array<int>)
    modifies a
    ensures Ascending(a[..])
    ensures multiset(a[..]) == multiset(old(a[..]))
  {
    var n := a.Length;
    var i := n / 2 - 1;
    while i >= 0
      invariant -1 <= i <= n / 2 - 1
      invariant HeapOrderFrom(a[..], n, i + 1, -1)
      invariant multiset(a[..]) == multiset(old(a[..]))
    {
      Heapify(a, n, i);
      i := i - 1;
    }
    i := n - 1;
    while i >= 0
      invariant -1 <= i < n
      invariant HeapOrderFrom(a[..], i + 1, 0, -1)
      invariant SortedBetween(a[..], i + 1, n - 1)
      invariant forall x, y :: 0 <= x <= i < y < n ==> a[x] <= a[y]
      invariant multiset(a[..]) == multiset(old(a[..]))
    {
      ExtractMax(a, i);
      i := i - 1;
    }
  }

  /** One pass of heapSort's second loop: swap the root of the heap [0, i]
      to position i, then heapify [0, i). */
  method ExtractMax(a: array<int>, i: int)
    requires 0 <= i < a.Length
    requires HeapOrderFrom(a[..], i + 1, 0, -1)
    requires SortedBetween(a[..], i + 1, a.Length - 1)
    requires forall x, y :: 0 <= x <= i < y < a.Length ==> a[x] <= a[y]
    modifies a
    ensures HeapOrderFrom(a[..], i, 0, -1)
    ensures SortedBetween(a[..], i, a.Length - 1)
    ensures forall x, y :: 0 <= x <= i - 1 < y < a.Length ==> a[x] <= a[y]
    ensures multiset(a[..]) == multiset(old(a[..]))
  {
    ghost var s0 := a[..];
    forall k | 0 <= k <= i
      ensures s0[k] <= s0[0]
    {
      HeapRootMax(s0, i + 1, k);
    }
    SwapAt(a, 0, i);
    ghost var s1 := a[..];
    Heapify(a, i, 0);
    ExtractedMax(s0, s1, a[..], i);
  }

  /** The facts ExtractMax needs about its three states: s0 before the
      swap, s1 after it and s2 after heapify(array, i, 0). */
  lemma ExtractedMax(s0: seq<int>, s1: seq<int>, s2: seq<int>, i: int)
    requires 0 <= i < |s0| && |s1| == |s0| && |s2| == |s0|
    requires forall k :: 0 <= k <= i ==> s0[k] <= s0[0]
    requires SortedBetween(s0, i + 1, |s0| - 1)
    requires forall x, y :: 0 <= x <= i < y < |s0| ==> s0[x] <= s0[y]
    requires s1[0] == s0[i] && s1[i] == s0[0]
    requires forall k :: 0 <= k < |s0| && k != 0 && k != i ==> s1[k] == s0[k]
    requires multiset(s2) == multiset(s1)
    requires forall k :: 0 <= k < |s0| && (k >= i || !InSubtree(0, k)) ==> s2[k] == s1[k]
    ensures SortedBetween(s2, i, |s0| - 1)
    ensures forall x, y :: 0 <= x <= i - 1 < y < |s0| ==> s2[x] <= s2[y]
  {
    assert SameOutside(s1, s2, 0, i - 1);
    forall y | i <= y < |s0|
      ensures forall x :: 0 <= x <= i - 1 ==> s2[x] <= s2[y]
    {
      PermutedRangeBounds(s1, s2, 0, i - 1, s2[y]);
    }
  }

  // ---------------------------------------------------------------------------
  // insertionSort and introsort

  /** insertionSort(array): the range insertion sort of SET3/a2/a2.cpp over
      the whole vector (the loops are the same with left = 0). */
  method InsertionSort(a: array<int>)
    modifies a
    ensures Ascending(a[..])
    ensures multiset(a[..]) == multiset(old(a[..]))
  {
    IntMergeSorts.InsertionSortRange(a, 0, a.Length - 1);
  }

  /** The elements of s below p, in order (introsort's left vector). */
  function Smaller(s: seq<int>, p: int): (r: seq<int>)
    ensures forall x :: x in r ==> x < p
  {
    if |s| == 0 then []
    else Smaller(s[..|s| - 1], p) + (if s[|s| - 1] < p then [s[|s| - 1]] else [])
  }

  /** The elements of s above p, in order (introsort's right vector). */
  function Larger(s: seq<int>, p: int): (r: seq<int>)
    ensures forall x :: x in r ==> x > p
  {
    if |s| == 0 then []
    else Larger(s[..|s| - 1], p) + (if s[|s| - 1] > p then [s[|s| - 1]] else [])
  }

  /** Smaller keeps every copy of the values below p and nothing else. */
  lemma {:induction false} SmallerCounts(s: seq<int>, p: int, x: int)
    ensures multiset(Smaller(s, p))[x] == if x < p then multiset(s)[x] else 0
  {
    if |s| > 0 {
      var t, y := s[..|s| - 1], s[|s| - 1];
      SmallerCounts(t, p, x);
      assert s == t + [y];
      assert multiset(s) == multiset(t) + multiset{y};
      assert Smaller(s, p) == Smaller(t, p) + (if y < p then [y] else []);
    }
  }

  /** Larger keeps every copy of the values above p and nothing else. */
  lemma {:induction false} LargerCounts(s: seq<int>, p: int, x: int)
    ensures multiset(Larger(s, p))[x] == if x > p then multiset(s)[x] else 0
  {
    if |s| > 0 {
      var t, y := s[..|s| - 1], s[|s| - 1];
      LargerCounts(t, p, x);
      assert s == t + [y];
      assert multiset(s) == multiset(t) + multiset{y};
      assert Larger(s, p) == Larger(t, p) + (if y > p then [y] else []);
    }
  }

  /** Only the copies of p are dropped. */
  lemma {:induction false} SplitSizes(s: seq<int>, p: int)
    ensures |Smaller(s, p)| + |Larger(s, p)| + multiset(s)[p] == |s|
  {
    if |s| > 0 {
      var t, y := s[..|s| - 1], s[|s| - 1];
      SplitSizes(t, p);
      assert s == t + [y];
    }
  }

  /** Whether introsort keeps every element of s: true unless some
      partitioning step it performs meets its pivot value more than once. */
  ghost predicate NoRepeatedPivot(s: seq<int>, depthLimit: int)
    decreases |s|
  {
    if |s| <= 16 || depthLimit == 0 then true
    else
      var pivot := s[|s| / 2];
      SplitSizes(s, pivot);
      && multiset(s)[pivot] == 1
      && NoRepeatedPivot(Smaller(s, pivot), depthLimit - 1)
      && NoRepeatedPivot(Larger(s, pivot), depthLimit - 1)
  }

  /** Seventeen equal values with a depth budget of 1 lose sixteen of them. */
  lemma SeventeenEqual()
    ensures !NoRepeatedPivot(seq(17, k => 0), 1)
  {
    var s := seq(17, k => 0);
    assert s[8] == 0;
    assert multiset(s)[0] == 17 by {
      assert forall k :: 0 <= k < 17 ==> s[k] == 0;
      CountAll(s, 0);
    }
  }

  /** A sequence of copies of x holds |s| copies of x. */
  lemma {:induction false} CountAll(s: seq<int>, x: int)
    requires forall k :: 0 <= k < |s| ==> s[k] == x
    ensures multiset(s)[x] == |s|
  {
    if |s| > 0 {
      CountAll(s[1..], x);
      assert s == [s[0]] + s[1..];
    }
  }

  /** introsort(array, depthLimit): at most 16 elements are insertion
      sorted, a spent depth budget means heap sort, and otherwise the
      elements below and above array[n / 2] are collected, sorted
      recursively and put back around a single copy of the pivot. The
      vector is rebuilt, so it is modelled as a value going in and out. */
  method Introsort(s: seq<int>, depthLimit: int) returns (r: seq<int>)
    ensures Ascending(r)
    ensures forall x :: x in r <==> x in s
    ensures multiset(r) <= multiset(s)
    ensures |r| == |s| <==> NoRepeatedPivot(s, depthLimit)
    ensures |r| == |s| ==> multiset(r) == multiset(s)
    ensures |s| <= 16 || depthLimit == 0 ==> multiset(r) == multiset(s)
    decreases |s|
  {
    var n := |s|;
    if n <= 16 {
      var b := ToArray(s);
      InsertionSort(b);
      r := b[..];
      MultisetMembers(r, s);
      return;
    }
    if depthLimit == 0 {
      var b := ToArray(s);
      HeapSort(b);
      r := b[..];
      MultisetMembers(r, s);
      return;
    }
    var pivot := s[n / 2];
    var left, right := Collect(s, pivot);
    SplitSizes(s, pivot);
    assert pivot in multiset(s);
    var sortedLeft := Introsort(left, depthLimit - 1);
    var sortedRight := Introsort(right, depthLimit - 1);
    r := sortedLeft + [pivot] + sortedRight;
    JoinSorted(left, right, sortedLeft, sortedRight, pivot);
    JoinMembers(s, pivot, sortedLeft, sortedRight);
    JoinCounts(s, pivot, sortedLeft, sortedRight);
    JoinLength(s, pivot, sortedLeft, sortedRight, depthLimit);
  }

  /** The loop of introsort that copies the elements below the pivot to
      left and those above it to right; copies of the pivot are skipped. */
  method Collect(s: seq<int>, pivot: int) returns (left: seq<int>, right: seq<int>)
    ensures left == Smaller(s, pivot) && right == Larger(s, pivot)
  {
    left, right := [], [];
    for i := 0 to |s|
      invariant left == Smaller(s[..i], pivot) && right == Larger(s[..i], pivot)
    {
      assert s[..i + 1][..i] == s[..i];
      if s[i] < pivot {
        left := left + [s[i]];
      } else if s[i] > pivot {
        right := right + [s[i]];
      }
    }
    assert s[..|s|] == s;
  }

  /** A new array holding s. */
  method ToArray(s: seq<int>) returns (b: array<int>)
    ensures fresh(b) && b[..] == s
  {
    b := new int[|s|];
    for i := 0 to |s|
      invariant forall k :: 0 <= k < i ==> b[k] == s[k]
    {
      b[i] := s[i];
    }
  }

  /** Permutations have the same members. */
  lemma MultisetMembers(r: seq<int>, s: seq<int>)
    requires multiset(r) == multiset(s)
    ensures forall x :: x in r <==> x in s
  {
    forall x
      ensures x in r <==> x in s
    {
      assert x in r <==> x in multiset(r);
      assert x in s <==> x in multiset(s);
    }
  }

  /** A sub-multiset as large as the whole is the whole. */
  lemma SubMultisetSameSize(a: multiset<int>, b: multiset<int>)
    requires a <= b && |a| == |b|
    ensures a == b
  {
    var d := b - a;
    assert b == a + d;
    assert |d| == 0;
  }

  /** The recursive case of introsort is ascending: everything in the left
      part is below the pivot and everything in the right part above it. */
  lemma JoinSorted(left: seq<int>, right: seq<int>, sortedLeft: seq<int>, sortedRight: seq<int>, pivot: int)
    requires forall x :: x in left ==> x < pivot
    requires forall x :: x in right ==> x > pivot
    requires Ascending(sortedLeft) && (forall x :: x in sortedLeft ==> x in left)
    requires Ascending(sortedRight) && (forall x :: x in sortedRight ==> x in right)
    ensures Ascending(sortedLeft + [pivot] + sortedRight)
  {
    var r := sortedLeft + [pivot] + sortedRight;
    forall i, j | 0 <= i < j < |r|
      ensures r[i] <= r[j]
    {
      if i < |sortedLeft| {
        assert r[i] == sortedLeft[i] && sortedLeft[i] in sortedLeft;
      } else if i > |sortedLeft| {
        assert r[j] == sortedRight[j - |sortedLeft| - 1];
        assert r[i] == sortedRight[i - |sortedLeft| - 1];
      }
      if j > |sortedLeft| {
        assert r[j] == sortedRight[j - |sortedLeft| - 1] && sortedRight[j - |sortedLeft| - 1] in sortedRight;
      } else if j < |sortedLeft| {
        assert r[j] == sortedLeft[j];
      }
    }
  }

  /** The recursive case of introsort keeps every value of s, copies of the
      pivot included. */
  lemma JoinMembers(s: seq<int>, pivot: int, sortedLeft: seq<int>, sortedRight: seq<int>)
    requires pivot in s
    requires forall x :: x in sortedLeft <==> x in Smaller(s, pivot)
    requires forall x :: x in sortedRight <==> x in Larger(s, pivot)
    ensures forall x :: x in sortedLeft + [pivot] + sortedRight <==> x in s
  {
    forall x
      ensures x in sortedLeft + [pivot] + sortedRight <==> x in s
    {
      SmallerCounts(s, pivot, x);
      LargerCounts(s, pivot, x);
      assert x in Smaller(s, pivot) <==> x in multiset(Smaller(s, pivot));
      assert x in Larger(s, pivot) <==> x in multiset(Larger(s, pivot));
      assert x in s <==> x in multiset(s);
    }
  }

  /** The recursive case of introsort holds no more copies of any value than
      s does. */
  lemma JoinCounts(s: seq<int>, pivot: int, sortedLeft: seq<int>, sortedRight: seq<int>)
    requires pivot in s
    requires multiset(sortedLeft) <= multiset(Smaller(s, pivot))
    requires multiset(sortedRight) <= multiset(Larger(s, pivot))
    ensures multiset(sortedLeft + [pivot] + sortedRight) <= multiset(s)
  {
    var r := sortedLeft + [pivot] + sortedRight;
    assert pivot in multiset(s);
    forall x
      ensures multiset(r)[x] <= multiset(s)[x]
    {
      SmallerCounts(s, pivot, x);
      LargerCounts(s, pivot, x);
      assert multiset(r)[x] == multiset(sortedLeft)[x] + (if x == pivot then 1 else 0) + multiset(sortedRight)[x];
    }
  }

  /** The recursive case of introsort keeps the length of s exactly when the
      pivot occurs once in s and both recursive calls keep their lengths. */
  lemma JoinLength(s: seq<int>, pivot: int, sortedLeft: seq<int>, sortedRight: seq<int>, depthLimit: int)
    requires |s| > 16 && depthLimit != 0 && pivot == s[|s| / 2]
    requires multiset(sortedLeft) <= multiset(Smaller(s, pivot))
    requires |sortedLeft| == |Smaller(s, pivot)| <==> NoRepeatedPivot(Smaller(s, pivot), depthLimit - 1)
    requires multiset(sortedRight) <= multiset(Larger(s, pivot))
    requires |sortedRight| == |Larger(s, pivot)| <==> NoRepeatedPivot(Larger(s, pivot), depthLimit - 1)
    requires multiset(sortedLeft + [pivot] + sortedRight) <= multiset(s)
    ensures |sortedLeft + [pivot] + sortedRight| == |s| <==> NoRepeatedPivot(s, depthLimit)
    ensures |sortedLeft + [pivot] + sortedRight| == |s| ==> multiset(sortedLeft + [pivot] + sortedRight) == multiset(s)
  {
    var r := sortedLeft + [pivot] + sortedRight;
    var left, right := Smaller(s, pivot), Larger(s, pivot);
    SubMultisetSize(multiset(sortedLeft), multiset(left));
    SubMultisetSize(multiset(sortedRight), multiset(right));
    SplitSizes(s, pivot);
    assert pivot in multiset(s);
    if |r| == |s| {
      SubMultisetSameSize(multiset(r), multiset(s));
    }
  }

  /** A sub-multiset is no larger than the whole. */
  lemma SubMultisetSize(a: multiset<int>, b: multiset<int>)
    requires a <= b
    ensures |a| <= |b|
  {
    assert b == a + (b - a);
  }
}
